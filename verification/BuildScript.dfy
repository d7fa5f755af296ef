/**
  The build script: targets with dependencies, the order they are run in, and when a run stops.
  A target is identified by its position in the list, as a Python object is by its identity.
 */
module BuildScript {
  import opened MachineWords

  datatype Target = Target(name: string, dependencies: seq<string>)

  /** `get_target`: the first target of that name, or the length of the list. */
  function GetTarget(ts: seq<Target>, name: string): (r: nat)
    ensures r <= |ts|
  {
    if ts == [] || ts[0].name == name then 0 else 1 + GetTarget(ts[1..], name)
  }

  /** It is the target of that name with no such target before it, and none is found exactly when there is none. */
  lemma {:induction false} GetTargetIsFirst(ts: seq<Target>, name: string)
    ensures var r := GetTarget(ts, name);
            (r < |ts| ==> ts[r].name == name) && forall i | 0 <= i < r :: ts[i].name != name
  {
    if ts != [] && ts[0].name != name {
      GetTargetIsFirst(ts[1..], name);
      assert forall i | 1 <= i < |ts| :: ts[i] == ts[1..][i - 1];
    }
  }

  function Dependency(ts: seq<Target>, t: nat, k: nat): nat
    requires t < |ts| && k < |ts[t].dependencies|
  {
    GetTarget(ts, ts[t].dependencies[k])
  }

  /**
    The targets that have a rank only depend on targets of a lower rank, which all exist: from them no cycle
    and no unknown name is reached. What the other targets of the file depend on does not matter.
   */
  ghost predicate Acyclic(ts: seq<Target>, rank: map<nat, nat>) {
    && (forall t | t in rank :: t < |ts|)
    && forall t, k | t in rank && 0 <= k < |ts[t].dependencies| ::
         Dependency(ts, t, k) in rank && rank[Dependency(ts, t, k)] < rank[t]
  }

  /** `list(dict.fromkeys(s))`: the first occurrence of every element. */
  function Dedup(s: seq<nat>): seq<nat>
    decreases |s|
  {
    if s == [] then []
    else
      var d := Dedup(s[..|s| - 1]);
      if s[|s| - 1] in d then d else d + [s[|s| - 1]]
  }

  /** The list for one target: its dependencies' lists, then itself, without duplicates. */
  function Graph(ts: seq<Target>, ghost rank: map<nat, nat>, t: nat): seq<nat>
    requires Acyclic(ts, rank) && t in rank
    decreases rank[t], |ts[t].dependencies| + 1
  {
    Dedup(Extended(ts, rank, t, |ts[t].dependencies|) + [t])
  }

  /** The lists of the first `k` dependencies, one after the other. */
  function Extended(ts: seq<Target>, ghost rank: map<nat, nat>, t: nat, k: nat): seq<nat>
    requires Acyclic(ts, rank) && t in rank && k <= |ts[t].dependencies|
    decreases rank[t], k
  {
    if k == 0 then []
    else Extended(ts, rank, t, k - 1) + Graph(ts, rank, Dependency(ts, t, k - 1))
  }

  /** `u` is `t` or a dependency of it, direct or indirect. */
  ghost predicate Reaches(ts: seq<Target>, rank: map<nat, nat>, t: nat, u: nat)
    requires Acyclic(ts, rank) && t in rank
    decreases rank[t]
  {
    u == t || exists k :: 0 <= k < |ts[t].dependencies| && Reaches(ts, rank, Dependency(ts, t, k), u)
  }

  /** Everything the target at a position reaches comes before it. */
  ghost predicate DependenciesFirst(ts: seq<Target>, rank: map<nat, nat>, s: seq<nat>)
    requires Acyclic(ts, rank)
  {
    forall i | 0 <= i < |s| :: s[i] in rank && forall u | Reaches(ts, rank, s[i], u) && u != s[i] :: u in s[..i]
  }

  // ----- removing duplicates -----

  lemma {:induction false} DedupKeeps(s: seq<nat>)
    ensures Distinct(Dedup(s)) && forall x :: x in Dedup(s) <==> x in s
    decreases |s|
  {
    if s != [] {
      var n := |s| - 1;
      DedupKeeps(s[..n]);
      assert s == s[..n] + [s[n]];
    }
  }

  /** An element of the result has, before it, every element that came before its first occurrence. */
  lemma {:induction false} DedupKeepsOrder(ts: seq<Target>, rank: map<nat, nat>, s: seq<nat>)
    requires Acyclic(ts, rank) && DependenciesFirst(ts, rank, s)
    ensures DependenciesFirst(ts, rank, Dedup(s))
    decreases |s|
  {
    if s != [] {
      var n := |s| - 1;
      var d := Dedup(s[..n]);
      PrefixFirst(ts, rank, s, n);
      DedupKeepsOrder(ts, rank, s[..n]);
      DedupKeeps(s[..n]);
      if s[n] !in d {
        AppendFirst(ts, rank, d, s[n]);
      }
    }
  }

  lemma PrefixFirst(ts: seq<Target>, rank: map<nat, nat>, s: seq<nat>, n: nat)
    requires Acyclic(ts, rank) && DependenciesFirst(ts, rank, s) && n <= |s|
    ensures DependenciesFirst(ts, rank, s[..n])
  {
    hide Reaches;
    forall i | 0 <= i < n
      ensures s[..n][..i] == s[..i]
    {
    }
  }

  lemma AppendFirst(ts: seq<Target>, rank: map<nat, nat>, d: seq<nat>, t: nat)
    requires Acyclic(ts, rank) && DependenciesFirst(ts, rank, d) && t in rank
    requires forall u | Reaches(ts, rank, t, u) && u != t :: u in d
    ensures DependenciesFirst(ts, rank, d + [t])
  {
    hide Reaches;
    var r := d + [t];
    forall i | 0 <= i < |r|
      ensures forall u | Reaches(ts, rank, r[i], u) && u != r[i] :: u in r[..i]
    {
      assert r[..i] == d[..i];
      assert d[..|d|] == d;
    }
  }

  lemma {:induction false} ConcatFirst(ts: seq<Target>, rank: map<nat, nat>, a: seq<nat>, b: seq<nat>)
    requires Acyclic(ts, rank) && DependenciesFirst(ts, rank, a) && DependenciesFirst(ts, rank, b)
    ensures DependenciesFirst(ts, rank, a + b)
  {
    hide Reaches;
    var r := a + b;
    forall i | 0 <= i < |r|
      ensures r[i] in rank && forall u | Reaches(ts, rank, r[i], u) && u != r[i] :: u in r[..i]
    {
      if i < |a| {
        assert r[..i] == a[..i];
      } else {
        assert r[..i] == a + b[..i - |a|];
      }
    }
  }

  // ----- the dependency list -----

  /** The list of a target holds exactly what it reaches, each once, dependencies before dependents. */
  lemma {:induction false} GraphIsClosure(ts: seq<Target>, rank: map<nat, nat>, t: nat)
    requires Acyclic(ts, rank) && t in rank
    ensures var g := Graph(ts, rank, t);
            && Distinct(g) && (forall u: nat :: u in g <==> Reaches(ts, rank, t, u))
            && DependenciesFirst(ts, rank, g)
    decreases rank[t], |ts[t].dependencies| + 1
  {
    var n := |ts[t].dependencies|;
    var e := Extended(ts, rank, t, n);
    ExtendedIsClosure(ts, rank, t, n);
    AppendFirst(ts, rank, e, t);
    DedupKeeps(e + [t]);
    DedupKeepsOrder(ts, rank, e + [t]);
    hide DependenciesFirst, Extended, Dedup;
    forall u: nat
      ensures u in Graph(ts, rank, t) <==> Reaches(ts, rank, t, u)
    {
      assert u in e + [t] <==> u in e || u == t;
    }
  }

  lemma {:induction false} ExtendedIsClosure(ts: seq<Target>, rank: map<nat, nat>, t: nat, k: nat)
    requires Acyclic(ts, rank) && t in rank && k <= |ts[t].dependencies|
    ensures var e := Extended(ts, rank, t, k);
            && (forall u: nat :: u in e <==> exists j :: 0 <= j < k && Reaches(ts, rank, Dependency(ts, t, j), u))
            && DependenciesFirst(ts, rank, e)
    decreases rank[t], k
  {
    if k > 0 {
      ExtendedIsClosure(ts, rank, t, k - 1);
      var d := Dependency(ts, t, k - 1);
      GraphIsClosure(ts, rank, d);
      var before, last := Extended(ts, rank, t, k - 1), Graph(ts, rank, d);
      ConcatFirst(ts, rank, before, last);
      hide DependenciesFirst, Graph, Reaches;
      forall u: nat
        ensures u in before + last <==> exists j :: 0 <= j < k && Reaches(ts, rank, Dependency(ts, t, j), u)
      {
        assert u in before + last <==> u in before || u in last;
        if u in last {
          assert Reaches(ts, rank, Dependency(ts, t, k - 1), u);
        }
      }
    }
  }

  // ----- the script's loops -----

  method BuildDependencyGraph(ts: seq<Target>, ghost rank: map<nat, nat>, t: nat) returns (graph: seq<nat>)
    requires Acyclic(ts, rank) && t in rank
    ensures graph == Graph(ts, rank, t)
    decreases rank[t]
  {
    graph := [];
    for k := 0 to |ts[t].dependencies|
      invariant graph == Extended(ts, rank, t, k)
    {
      var target := GetTarget(ts, ts[t].dependencies[k]);
      assert target == Dependency(ts, t, k);
      var more := BuildDependencyGraph(ts, rank, target);
      graph := graph + more;
    }
    graph := graph + [t];
    return Dedup(graph);
  }

  datatype Exit = Succeeded(count: nat) | NotFound | TargetFailed(target: nat)

  /** Every name is that of a target. */
  ghost predicate AllKnown(ts: seq<Target>, names: seq<string>) {
    forall i | 0 <= i < |names| :: GetTarget(ts, names[i]) < |ts|
  }

  /** The named targets have a rank, up to the first name that is unknown; a run looks no further. */
  ghost predicate Planned(ts: seq<Target>, rank: map<nat, nat>, names: seq<string>) {
    && Acyclic(ts, rank)
    && forall i | 0 <= i < |names| :: AllKnown(ts, names[..i + 1]) ==> GetTarget(ts, names[i]) in rank
  }

  lemma PlannedBefore(ts: seq<Target>, rank: map<nat, nat>, names: seq<string>, n: nat)
    requires Planned(ts, rank, names) && n <= |names|
    ensures Planned(ts, rank, names[..n])
  {
    hide GetTarget, AllKnown, Acyclic;
    forall i | 0 <= i < n
      ensures AllKnown(ts, names[..n][..i + 1]) ==> GetTarget(ts, names[..n][i]) in rank
    {
      assert names[..n][..i + 1] == names[..i + 1] && names[..n][i] == names[i];
    }
  }

  lemma PlannedLast(ts: seq<Target>, rank: map<nat, nat>, names: seq<string>)
    requires Planned(ts, rank, names) && names != [] && AllKnown(ts, names)
    ensures GetTarget(ts, names[|names| - 1]) in rank
  {
    hide GetTarget, AllKnown, Acyclic;
    assert names[..|names|] == names;
  }

  lemma KnownLast(ts: seq<Target>, names: seq<string>)
    requires names != []
    ensures var n := |names| - 1;
            AllKnown(ts, names) <==> AllKnown(ts, names[..n]) && GetTarget(ts, names[n]) < |ts|
  {
    hide GetTarget;
    var n := |names| - 1;
    if AllKnown(ts, names[..n]) && GetTarget(ts, names[n]) < |ts| {
      forall i | 0 <= i < |names|
        ensures GetTarget(ts, names[i]) < |ts|
      {
        assert i < n ==> names[..n][i] == names[i];
      }
    }
  }

  /** The lists of the named targets, one after the other; `None` if a name is unknown. */
  function Wanted(ts: seq<Target>, ghost rank: map<nat, nat>, names: seq<string>): (r: Option<seq<nat>>)
    requires Planned(ts, rank, names)
    ensures r.Some? <==> AllKnown(ts, names)
    decreases |names|
  {
    if names == [] then Some([])
    else
      var n := |names| - 1;
      PlannedBefore(ts, rank, names, n);
      var before, t := Wanted(ts, rank, names[..n]), GetTarget(ts, names[n]);
      KnownLast(ts, names);
      if before.None? || t == |ts| then None
      else
        PlannedLast(ts, rank, names);
        Some(before.value + Graph(ts, rank, t))
  }

  /** `u` is one of the named targets or something one of them depends on. */
  ghost predicate Needed(ts: seq<Target>, rank: map<nat, nat>, names: seq<string>, u: nat)
    requires Acyclic(ts, rank)
  {
    exists i :: 0 <= i < |names| && GetTarget(ts, names[i]) in rank && Reaches(ts, rank, GetTarget(ts, names[i]), u)
  }

  lemma NeededByLast(ts: seq<Target>, rank: map<nat, nat>, names: seq<string>, u: nat)
    requires Acyclic(ts, rank) && names != []
    ensures var n := |names| - 1;
            var t := GetTarget(ts, names[n]);
            Needed(ts, rank, names, u) <==> Needed(ts, rank, names[..n], u) || (t in rank && Reaches(ts, rank, t, u))
  {
    hide GetTarget, Reaches, Acyclic;
    var n := |names| - 1;
    assert forall i | 0 <= i < n :: names[..n][i] == names[i];
  }

  /** What a run may start: exactly the targets that are needed. */
  lemma {:induction false} WantedIsClosure(ts: seq<Target>, rank: map<nat, nat>, names: seq<string>)
    requires Planned(ts, rank, names) && Wanted(ts, rank, names).Some?
    ensures var w := Wanted(ts, rank, names).value;
            (forall u: nat :: u in w <==> Needed(ts, rank, names, u)) && DependenciesFirst(ts, rank, w)
    decreases |names|
  {
    if names != [] {
      var n := |names| - 1;
      PlannedBefore(ts, rank, names, n);
      KnownLast(ts, names);
      PlannedLast(ts, rank, names);
      WantedIsClosure(ts, rank, names[..n]);
      var before, t := Wanted(ts, rank, names[..n]).value, GetTarget(ts, names[n]);
      GraphIsClosure(ts, rank, t);
      var last := Graph(ts, rank, t);
      ConcatFirst(ts, rank, before, last);
      hide DependenciesFirst, Graph, Reaches, GetTarget, Needed;
      forall u: nat
        ensures u in before + last <==> Needed(ts, rank, names, u)
      {
        assert u in before + last <==> u in before || u in last;
        NeededByLast(ts, rank, names, u);
      }
    }
  }

  /** The order a run follows. */
  function Order(ts: seq<Target>, ghost rank: map<nat, nat>, names: seq<string>): Option<seq<nat>>
    requires Planned(ts, rank, names)
  {
    var w := Wanted(ts, rank, names);
    if w.None? then None else Some(Dedup(w.value))
  }

  /** Each reachable target once, after everything it depends on. */
  lemma {:induction false} OrderIsClosure(ts: seq<Target>, rank: map<nat, nat>, names: seq<string>)
    requires Planned(ts, rank, names) && Order(ts, rank, names).Some?
    ensures var o := Order(ts, rank, names).value;
            && Distinct(o) && DependenciesFirst(ts, rank, o)
            && forall u: nat :: u in o <==> Needed(ts, rank, names, u)
  {
    var w := Wanted(ts, rank, names).value;
    WantedIsClosure(ts, rank, names);
    DedupKeeps(w);
    DedupKeepsOrder(ts, rank, w);
  }

  /** Before a started target comes everything it depends on, directly or not, and all of that succeeded. */
  ghost predicate SafelyStarted(ts: seq<Target>, rank: map<nat, nat>, started: seq<nat>, succeeds: seq<bool>)
    requires Acyclic(ts, rank) && |succeeds| == |ts|
  {
    forall i, u: nat | 0 <= i < |started| && started[i] in rank && Reaches(ts, rank, started[i], u) && u != started[i]
      ::
      u in started[..i] && u < |ts| && succeeds[u]
  }

  /**
    A run. `succeeds` says which targets return their expected code. Nothing is started when a name is
    unknown; otherwise the order is followed up to and including the first target that fails.
   */
  method Run(ts: seq<Target>, ghost rank: map<nat, nat>, names: seq<string>, succeeds: seq<bool>) returns (exit: Exit,
            started: seq<nat>)
    requires Planned(ts, rank, names) && |succeeds| == |ts|
    ensures exit.NotFound? <==> Order(ts, rank, names).None?
    ensures exit.NotFound? <==> !AllKnown(ts, names)
    ensures exit.NotFound? ==> started == []
    ensures !exit.NotFound? ==>
              var o := Order(ts, rank, names).value;
              && |started| <= |o| && started == o[..|started|] && (forall i | 0 <= i < |started| :: started[i] < |ts|)
              && (forall i | 0 <= i < |started| - 1 :: succeeds[started[i]])
              && match exit
                 case Succeeded(count) =>
                   count == |o| == |started| && forall i | 0 <= i < |started| :: succeeds[started[i]]
                 case TargetFailed(t) => started != [] && t == started[|started| - 1] && !succeeds[t]
    ensures SafelyStarted(ts, rank, started, succeeds)
  {
    var wanted: seq<nat> := [];
    started := [];
    PlannedBefore(ts, rank, names, 0);
    hide *;
    NoNames(ts, rank, names);
    for k := 0 to |names|
      invariant Planned(ts, rank, names[..k]) && Wanted(ts, rank, names[..k]) == Some(wanted) && started == []
    {
      var target := GetTarget(ts, names[k]);
      if target == |ts| {
        UnknownName(ts, rank, names, k, succeeds);
        return NotFound, started;
      }
      NextName(ts, rank, names, k, wanted);
      var graph := BuildDependencyGraph(ts, rank, target);
      wanted := wanted + graph;
    }
    assert names[..|names|] == names;
    OrderIs(ts, rank, names, wanted);
    exit, started := RunAll(ts, rank, names, Dedup(wanted), succeeds);
  }

  lemma NoNames(ts: seq<Target>, rank: map<nat, nat>, names: seq<string>)
    requires Planned(ts, rank, names[..0])
    ensures Wanted(ts, rank, names[..0]) == Some([])
  {
  }

  lemma UnknownName(ts: seq<Target>, rank: map<nat, nat>, names: seq<string>, k: nat, succeeds: seq<bool>)
    requires |succeeds| == |ts| && Planned(ts, rank, names) && k < |names| && GetTarget(ts, names[k]) == |ts|
    ensures Acyclic(ts, rank) && !AllKnown(ts, names) && Order(ts, rank, names).None?
    ensures SafelyStarted(ts, rank, [], succeeds)
  {
    hide Wanted, Reaches, GetTarget;
  }

  /** A run looks up one more name. */
  lemma {:induction false} NextName(ts: seq<Target>, rank: map<nat, nat>, names: seq<string>, k: nat, wanted: seq<nat>)
    requires Planned(ts, rank, names) && k < |names| && GetTarget(ts, names[k]) < |ts|
    requires Planned(ts, rank, names[..k]) && Wanted(ts, rank, names[..k]) == Some(wanted)
    ensures Acyclic(ts, rank) && GetTarget(ts, names[k]) in rank && Planned(ts, rank, names[..k + 1])
    ensures Wanted(ts, rank, names[..k + 1]) == Some(wanted + Graph(ts, rank, GetTarget(ts, names[k])))
  {
    var now := names[..k + 1];
    assert now[..k] == names[..k] && now[k] == names[k];
    PlannedBefore(ts, rank, names, k + 1);
    KnownLast(ts, now);
    PlannedLast(ts, rank, now);
    hide Graph, GetTarget, Acyclic, AllKnown;
  }

  lemma OrderIs(ts: seq<Target>, rank: map<nat, nat>, names: seq<string>, wanted: seq<nat>)
    requires Planned(ts, rank, names) && Wanted(ts, rank, names) == Some(wanted)
    ensures Acyclic(ts, rank) && Order(ts, rank, names) == Some(Dedup(wanted))
    ensures AllKnown(ts, names)
  {
  }

  /** The second loop of a run. */
  method RunAll(ts: seq<Target>, ghost rank: map<nat, nat>, ghost names: seq<string>, order: seq<nat>,
                succeeds: seq<bool>)
      returns (exit: Exit, started: seq<nat>)
    requires Planned(ts, rank, names) && |succeeds| == |ts| && Order(ts, rank, names) == Some(order)
    ensures !exit.NotFound? && |started| <= |order| && started == order[..|started|]
    ensures forall i | 0 <= i < |started| :: started[i] < |ts|
    ensures forall i | 0 <= i < |started| - 1 :: succeeds[started[i]]
    ensures match exit
            case Succeeded(count) =>
              count == |order| == |started| && forall i | 0 <= i < |started| :: succeeds[started[i]]
            case TargetFailed(t) => started != [] && t == started[|started| - 1] && !succeeds[t]
            case NotFound => false
    ensures SafelyStarted(ts, rank, started, succeeds)
  {
    OrderIsClosure(ts, rank, names);
    hide Order, Reaches, Acyclic, Distinct;
    started := [];
    var successfullyRun := 0;
    for k := 0 to |order|
      invariant started == order[..k] && successfullyRun == k
      invariant forall i | 0 <= i < k :: order[i] < |ts| && succeeds[order[i]]
    {
      started := started + [order[k]];
      assert order[..k + 1] == order[..k] + [order[k]];
      if !succeeds[order[k]] {
        StartedAfter(ts, rank, order, k + 1, succeeds);
        return TargetFailed(order[k]), started;
      }
      successfullyRun := successfullyRun + 1;
    }
    StartedAfter(ts, rank, order, |order|, succeeds);
    return Succeeded(successfullyRun), started;
  }

  lemma {:induction false} StartedAfter(ts: seq<Target>, rank: map<nat, nat>, order: seq<nat>, n: nat,
                                        succeeds: seq<bool>)
    requires Acyclic(ts, rank) && |succeeds| == |ts| && DependenciesFirst(ts, rank, order) && n <= |order|
    requires forall i | 0 <= i < n - 1 :: order[i] < |ts| && succeeds[order[i]]
    ensures SafelyStarted(ts, rank, order[..n], succeeds)
  {
    hide Reaches, Acyclic;
    forall i, u: nat | 0 <= i < n && order[..n][i] in rank && Reaches(ts, rank, order[..n][i], u) && u != order[..n][i]
      ensures u in order[..n][..i] && u < |ts| && succeeds[u]
    {
      assert order[..n][..i] == order[..i];
      assert u in order[..i];
      var j :| 0 <= j < i && order[..i][j] == u;
      assert order[j] == u;
    }
  }
}
