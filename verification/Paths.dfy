/**
  Paths: splitting into components, choosing the mounted file system, and the relative path it is given.
 */
module Paths {
  import opened MachineWords

  // ----- splitting -----

  /** The length of the text before the first `c`. */
  function Before(s: string, c: char): (k: nat)
    ensures k <= |s| && c !in s[..k] && (k < |s| ==> s[k] == c)
  {
    if s == "" || s[0] == c then 0
    else
      var k := Before(s[1..], c);
      assert s[..k + 1] == [s[0]] + s[1..][..k];
      k + 1
  }

  /** The non-empty stretches of `s` between separators. */
  function Components(s: string, c: char): seq<string>
    decreases |s|
  {
    if s == "" then []
    else if s[0] == c then Components(s[1..], c)
    else [s[..Before(s, c)]] + Components(s[Before(s, c)..], c)
  }

  /** The text ends in a component followed by exactly one separator. */
  predicate EndsOpen(s: string, c: char) {
    |s| >= 2 && s[|s| - 1] == c && s[|s| - 2] != c
  }

  lemma {:induction false} NoSeparator(s: string, c: char)
    requires c !in s
    ensures Components(s, c) == if s == "" then [] else [s]
  {
    if s != "" {
      var k := Before(s, c);
      assert s[..k] == s && s[k..] == "";
    }
  }

  lemma {:induction false} BeforeIs(s: string, c: char, i: nat)
    requires i < |s| && s[i] == c && c !in s[..i]
    ensures Before(s, c) == i
    decreases i
  {
    if i > 0 {
      assert s[0] == s[..i][0];
      assert s[1..][..i - 1] == s[..i][1..];
      BeforeIs(s[1..], c, i - 1);
    }
  }

  /** Cutting at a separator that nothing but one component precedes. */
  lemma {:induction false} CutAt(s: string, c: char, i: nat)
    requires i < |s| && s[i] == c && c !in s[..i]
    ensures Components(s, c) == (if i > 0 then [s[..i]] else []) + Components(s[i + 1..], c)
  {
    if i > 0 {
      BeforeIs(s, c, i);
      assert s[0] == s[..i][0];
      assert s[i..][1..] == s[i + 1..];
    }
  }

  /** A separator anywhere cuts the text in two. */
  lemma {:induction false} ComponentsAppend(a: string, b: string, c: char)
    ensures Components(a + [c] + b, c) == Components(a, c) + Components(b, c)
    decreases |a|
  {
    hide *;
    var s, i := a + [c] + b, Before(a, c);
    assert s[..i] == a[..i];
    CutAt(s, c, i);
    if i == |a| {
      NoSeparator(a, c);
      assert s[i + 1..] == b && a[..i] == a;
      assert i == 0 ==> a == "";
    } else {
      var rest := a[i + 1..];
      CutAt(a, c, i);
      ComponentsAppend(rest, b, c);
      assert s[i + 1..] == rest + [c] + b;
      var first := if i > 0 then [a[..i]] else [];
      assert first + (Components(rest, c) + Components(b, c)) == (first + Components(rest, c)) + Components(b, c);
    }
  }

  lemma {:induction false} LastComponent(s: string, c: char)
    requires EndsOpen(s, c)
    ensures Components(s, c) != []
    decreases |s|
  {
    var rest := if s[0] == c then s[1..] else s[Before(s, c)..];
    if s[0] == c {
      assert rest[|rest| - 1] == c && |rest| >= 2 && rest[|rest| - 2] == s[|s| - 2];
      LastComponent(rest, c);
    }
  }

  /** The split loop before index `i`: `result` holds the components that end before `last`. */
  ghost predicate SplitSoFar(s: string, c: char, result: seq<string>, last: nat, i: nat) {
    && last <= i <= |s| && c !in s[last..i]
    && (i > 0 ==> (s[i - 1] == c <==> last == i))
    && if i == |s| && EndsOpen(s, c) then exists x :: result + [x] == Components(s, c)
       else result + Components(s[last..], c) == Components(s, c)
  }

  lemma {:induction false} NoCutHere(s: string, c: char, result: seq<string>, last: nat, i: nat)
    requires SplitSoFar(s, c, result, last, i) && i < |s| && s[i] != c
    ensures SplitSoFar(s, c, result, last, i + 1)
  {
    hide Components;
    assert s[last..i + 1] == s[last..i] + [s[i]];
  }

  lemma {:induction false} CutHere(s: string, c: char, result: seq<string>, last: nat, i: nat)
    requires SplitSoFar(s, c, result, last, i) && i < |s| && s[i] == c
    ensures SplitSoFar(s, c, if i == |s| - 1 || i == last then result else result + [s[last..i]], i + 1, i + 1)
  {
    CutRest(s, c, last, i);
    hide Components;
    if i == |s| - 1 {
      NothingLeft(s, c);
      assert s[i + 1..] == "";
    }
    if i > last {
      Regroup(result, s[last..i], Components(s[i + 1..], c));
    } else {
      assert [] + Components(s[i + 1..], c) == Components(s[i + 1..], c);
    }
  }

  lemma {:induction false} CutRest(s: string, c: char, last: nat, i: nat)
    requires last <= i < |s| && s[i] == c && c !in s[last..i]
    ensures Components(s[last..], c) == (if i > last then [s[last..i]] else []) + Components(s[i + 1..], c)
  {
    var t := s[last..];
    assert t[i - last] == c && t[..i - last] == s[last..i] && t[i - last + 1..] == s[i + 1..];
    CutAt(t, c, i - last);
  }

  lemma Regroup(a: seq<string>, x: string, b: seq<string>)
    ensures a + ([x] + b) == (a + [x]) + b && (b == [] ==> a + ([x] + b) == a + [x])
  {
  }

  lemma NothingLeft(s: string, c: char)
    ensures Components("", c) == []
  {
  }

  /** What `split` makes of a text: its components, less the last if the text ends open. */
  function Parts(s: string, c: char): seq<string> {
    var all := Components(s, c);
    if EndsOpen(s, c) && all != [] then all[..|all| - 1] else all
  }

  lemma {:induction false} SplitDone(s: string, c: char, result: seq<string>, last: nat)
    requires SplitSoFar(s, c, result, last, |s|)
    ensures EndsOpen(s, c) ==> Components(s, c) != []
    ensures (if last < |s| then result + [s[last..]] else result) == Parts(s, c)
  {
    if EndsOpen(s, c) {
      hide Components;
      var x :| result + [x] == Components(s, c);
      assert Components(s, c)[..|result|] == result;
    } else {
      assert s[last..] == s[last..|s|];
      NoSeparator(s[last..], c);
    }
  }

  /**
    `split` with a one-character separator: the components, except that the last one is lost when a
    single separator ends the text.
   */
  method Split(s: string, c: char) returns (result: seq<string>)
    ensures EndsOpen(s, c) ==> Components(s, c) != []
    ensures result == Parts(s, c)
  {
    result := [];
    var last := 0;
    assert s[0..] == s;
    hide Components;
    for i := 0 to |s|
      invariant SplitSoFar(s, c, result, last, i) && last <= i
    {
      if s[i] == c {
        CutHere(s, c, result, last, i);
        if i == 0 || i == |s| - 1 {
          last := i + 1;
          continue;
        }
        if i - last > 0 {
          result := result + [s[last..i]];
        }
        last := i + 1;
      } else {
        NoCutHere(s, c, result, last, i);
      }
    }
    SplitDone(s, c, result, last);
    if last < |s| {
      result := result + [s[last..]];
    }
  }

  // ----- joining -----

  function Join(parts: seq<string>, c: char): string {
    if parts == [] then ""
    else if |parts| == 1 then parts[0]
    else parts[0] + [c] + Join(parts[1..], c)
  }

  /** One separator stands between neighbours, and none anywhere else. */
  lemma {:induction false} JoinAppend(a: seq<string>, b: seq<string>, c: char)
    requires a != [] && b != []
    ensures Join(a + b, c) == Join(a, c) + [c] + Join(b, c)
    ensures Join([a[0]], c) == a[0] && Join([], c) == ""
    decreases |a|
  {
    if |a| == 1 {
      assert a + b == [a[0]] + b && (a + b)[1..] == b;
    } else {
      JoinAppend(a[1..], b, c);
      assert (a + b)[1..] == a[1..] + b;
    }
  }

  ghost predicate AreComponents(parts: seq<string>, c: char) {
    forall i | 0 <= i < |parts| :: parts[i] != "" && c !in parts[i]
  }

  lemma {:induction false} ComponentsOfJoin(parts: seq<string>, c: char)
    requires AreComponents(parts, c)
    ensures Components(Join(parts, c), c) == parts
    ensures parts != [] ==> Join(parts, c) != "" && Join(parts, c)[|Join(parts, c)| - 1] != c
    decreases |parts|
  {
    var s := Join(parts, c);
    if |parts| == 1 {
      NoSeparator(parts[0], c);
    } else if |parts| > 1 {
      ComponentsOfJoin(parts[1..], c);
      Joined(s, parts[0], Join(parts[1..], c), c);
      hide Components;
      assert [parts[0]] + parts[1..] == parts;
    }
  }

  lemma Joined(s: string, first: string, rest: string, c: char)
    requires s == first + [c] + rest && first != "" && c !in first
    ensures Components(s, c) == [first] + Components(rest, c)
    ensures rest != "" ==> s[|s| - 1] == rest[|rest| - 1]
  {
    assert s[..|first|] == first && s[|first| + 1..] == rest;
    CutAt(s, c, |first|);
  }

  /** Splitting a join gives the components back, with or without a separator in front; nothing is lost. */
  lemma {:induction false} SplitOfJoin(parts: seq<string>, c: char)
    requires AreComponents(parts, c)
    ensures Parts(Join(parts, c), c) == parts
    ensures Parts([c] + Join(parts, c), c) == parts
  {
    var s := Join(parts, c);
    ComponentsOfJoin(parts, c);
    assert ([c] + s)[1..] == s;
    assert Components([c] + s, c) == Components(s, c);
    hide Components;
    assert s != "" ==> ([c] + s)[|s|] == s[|s| - 1];
  }

  // ----- mounts -----

  /** A pointer to a file system. */
  type Fs = Option<nat>

  /** A mounted file system; the mounts are listed in the order they are visited in. */
  datatype Mount = Mount(point: string, fs: Fs)

  /** How many components two paths have in common at the front. */
  function Common(a: seq<string>, b: seq<string>): (n: nat)
    ensures n <= |a| && n <= |b| && a[..n] == b[..n]
    ensures n < |a| && n < |b| ==> a[n] != b[n]
  {
    if a == [] || b == [] || a[0] != b[0] then 0
    else
      var n := Common(a[1..], b[1..]);
      assert a[..n + 1] == [a[0]] + a[1..][..n] && b[..n + 1] == [b[0]] + b[1..][..n];
      n + 1
  }

  lemma {:induction false} CommonIs(a: seq<string>, b: seq<string>, n: nat)
    requires n <= |a| && n <= |b| && a[..n] == b[..n] && (n < |a| && n < |b| ==> a[n] != b[n])
    ensures Common(a, b) == n
    decreases n
  {
    if n > 0 {
      assert a[0] == a[..n][0] && b[0] == b[..n][0];
      assert a[1..][..n - 1] == a[..n][1..] && b[1..][..n - 1] == b[..n][1..];
      CommonIs(a[1..], b[1..], n - 1);
    }
  }

  function Shared(mounts: seq<Mount>, path: seq<string>, k: nat): (n: nat)
    requires k < |mounts|
    ensures n <= |path|
  {
    Common(path, Parts(mounts[k].point, '/'))
  }

  /** None of the first `k` mounts has `bound` components in common with the path, or more. */
  ghost predicate AllBelow(mounts: seq<Mount>, path: seq<string>, k: nat, bound: nat)
    requires k <= |mounts|
  {
    forall j: nat | j < k :: Shared(mounts, path, j) < bound
  }

  /** Of the first `k` mounts, `fs` is the first with the most components in common; the root when there are none. */
  ghost predicate Best(root: Fs, mounts: seq<Mount>, path: seq<string>, k: nat, fs: Fs, longest: nat)
    requires k <= |mounts|
  {
    && longest <= |path| && AllBelow(mounts, path, k, longest + 1)
    && (longest == 0 ==> fs == root)
    && (longest > 0 ==>
          exists j: nat ::
            && j < k && fs == mounts[j].fs
            && Shared(mounts, path, j) == longest && AllBelow(mounts, path, j, longest))
  }

  lemma {:induction false} BestOfOneMore(root: Fs, mounts: seq<Mount>, path: seq<string>, k: nat, fs: Fs, longest: nat)
    requires k < |mounts| && Best(root, mounts, path, k, fs, longest)
    ensures var n := Shared(mounts, path, k);
            && n <= |path|
            && Best(root, mounts, path, k + 1, if n > longest then mounts[k].fs else fs,
                    if n > longest then n else longest)
  {
    var n := Shared(mounts, path, k);
    MoreBelow(mounts, path, k, longest + 1, if n > longest then n else longest + 1);
    MoreBelow(mounts, path, k, longest + 1, (if n > longest then n else longest) + 1);
    hide Shared, AllBelow;
    if n > longest {
      assert AllBelow(mounts, path, k, n) && Shared(mounts, path, k) == n;
    } else if longest > 0 {
      var j: nat :| && j < k && fs == mounts[j].fs
                    && Shared(mounts, path, j) == longest && AllBelow(mounts, path, j, longest);
    }
  }

  lemma MoreBelow(mounts: seq<Mount>, path: seq<string>, k: nat, bound: nat, more: nat)
    requires k < |mounts| && AllBelow(mounts, path, k, bound) && bound <= more
    ensures AllBelow(mounts, path, k, more)
    ensures Shared(mounts, path, k) < more ==> AllBelow(mounts, path, k + 1, more)
  {
    hide Shared;
  }

  lemma BestOfNone(root: Fs, mounts: seq<Mount>, path: seq<string>)
    ensures Best(root, mounts, path, 0, root, 0)
  {
  }

  lemma SharedIs(mounts: seq<Mount>, path: seq<string>, k: nat)
    requires k < |mounts|
    ensures Shared(mounts, path, k) == Common(path, Parts(mounts[k].point, '/'))
  {
  }

  /**
    The first mount with the most leading components in common with the path, and how many; the root
    file system when there are none. Without a root, or if the choice is a null pointer, there is no result.
   */
  method LongestCommonPrefix(root: Option<Fs>, mounts: seq<Mount>, path: seq<string>) returns (r: Option<(nat, nat)>)
    ensures root.None? ==> r.None?
    ensures root.Some? ==>
              exists fs, longest: nat ::
                && Best(root.value, mounts, path, |mounts|, fs, longest)
                && r == if fs.None? then None else Some((fs.value, longest))
  {
    if root.None? {
      return None;
    }
    var fs, longest := VisitMounts(root.value, mounts, path);
    return if fs.None? then None else Some((fs.value, longest));
  }

  /** The visit of every mount. */
  method VisitMounts(root: Fs, mounts: seq<Mount>, path: seq<string>) returns (fs: Fs, longest: nat)
    ensures Best(root, mounts, path, |mounts|, fs, longest)
  {
    hide *;
    fs, longest := root, 0;
    BestOfNone(root, mounts, path);
    for k := 0 to |mounts|
      invariant Best(root, mounts, path, k, fs, longest) && longest <= |path|
    {
      BestOfOneMore(root, mounts, path, k, fs, longest);
      SharedIs(mounts, path, k);
      var parts := Split(mounts[k].point, '/');
      fs, longest := Compare(path, parts, mounts[k].fs, fs, longest);
    }
  }

  /** The inner loop: one mount against the path. */
  method Compare(path: seq<string>, parts: seq<string>, candidate: Fs, best: Fs, before: nat)
    returns (fs: Fs, longest: nat)
    requires before <= |path|
    ensures longest == if Common(path, parts) > before then Common(path, parts) else before
    ensures fs == if Common(path, parts) > before then candidate else best
  {
    fs, longest := best, before;
    var i := 0;
    while i < |path| && i < |parts|
      invariant i <= |path| && i <= |parts| && path[..i] == parts[..i]
      invariant longest == if i > before then i else before
      invariant fs == if i > before then candidate else best
    {
      if path[i] != parts[i] {
        break;
      }
      if i + 1 > longest {
        longest := i + 1;
        fs := candidate;
      }
      i := i + 1;
    }
    CommonIs(path, parts, i);
  }

  /** What `open` hands to the chosen file system: a slash, and the components it did not consume. */
  method RelativePath(path: seq<string>, longest: nat) returns (relative: string)
    requires longest <= |path|
    ensures relative == "/" + Join(path[longest..], '/')
  {
    relative := "/";
    var i := longest;
    while i < |path|
      invariant longest <= i <= |path|
      invariant relative + Join(path[i..], '/') == "/" + Join(path[longest..], '/')
    {
      assert path[i..][1..] == path[i + 1..];
      relative := relative + path[i];
      if i < |path| - 1 {
        relative := relative + "/";
      }
      i := i + 1;
    }
  }

  /** The path is the common prefix followed by what the file system makes of the relative path. */
  lemma {:induction false} PathIsPrefixAndRelative(path: seq<string>, parts: seq<string>)
    requires AreComponents(path, '/')
    ensures var n := Common(path, parts);
            var relative := "/" + Join(path[n..], '/');
            path == parts[..n] + Parts(relative, '/')
  {
    var n := Common(path, parts);
    SplitOfJoin(path[n..], '/');
    assert path == path[..n] + path[n..];
  }

  /** The components of any path are components. */
  lemma {:induction false} ComponentsAre(s: string, c: char)
    ensures AreComponents(Components(s, c), c)
    decreases |s|
  {
    if s != "" {
      if s[0] == c {
        ComponentsAre(s[1..], c);
      } else {
        ComponentsAre(s[Before(s, c)..], c);
      }
    }
  }

  lemma PartsAre(s: string, c: char)
    ensures AreComponents(Parts(s, c), c)
  {
    ComponentsAre(s, c);
  }

  /** `split` finds every component precisely when the text does not end in a component and one separator. */
  lemma SplitIsCompleteUnless(s: string, c: char)
    ensures Parts(s, c) == Components(s, c) <==> !EndsOpen(s, c)
  {
    if EndsOpen(s, c) {
      LastComponent(s, c);
    }
  }

  // ----- which mount is chosen -----

  /** A path lies under a mount precisely when all of the mount's components are common. */
  lemma UnderMount(path: seq<string>, parts: seq<string>)
    ensures parts <= path <==> Common(path, parts) == |parts|
  {
    if parts <= path {
      CommonIs(path, parts, |parts|);
    } else if Common(path, parts) == |parts| {
      assert path[..|parts|] == parts[..|parts|];
    }
  }

  /** A choice is unique: the mounts and the path determine it. */
  lemma {:induction false} BestIsUnique(root: Fs, mounts: seq<Mount>, path: seq<string>, fs: Fs, longest: nat,
                                        fs': Fs, longest': nat)
    requires Best(root, mounts, path, |mounts|, fs, longest) && Best(root, mounts, path, |mounts|, fs', longest')
    ensures fs == fs' && longest == longest'
  {
    hide Shared;
  }

  /** The root file system is chosen, and nothing consumed, precisely when no mount shares a component with the path. */
  lemma {:induction false} RootChosenExactly(root: Fs, mounts: seq<Mount>, path: seq<string>, fs: Fs, longest: nat)
    requires Best(root, mounts, path, |mounts|, fs, longest)
    ensures longest == 0 <==> forall j: nat | j < |mounts| :: Shared(mounts, path, j) == 0
    ensures (forall j: nat | j < |mounts| :: Shared(mounts, path, j) == 0) ==> fs == root
    ensures (forall j: nat | j < |mounts| && Parts(mounts[j].point, '/') != [] :: mounts[j].fs != root) ==>
              (fs == root <==> forall j: nat | j < |mounts| :: Shared(mounts, path, j) == 0)
  {
    if longest > 0 {
      var j: nat :| && j < |mounts| && fs == mounts[j].fs
                    && Shared(mounts, path, j) == longest && AllBelow(mounts, path, j, longest);
      assert Parts(mounts[j].point, '/') != [];
    }
  }

  /**
    A mount that contains the path is the one chosen precisely when every mount before it shares fewer
    components with the path than it has, and none after it shares more, whether they contain the path or not.
   */
  lemma {:induction false} MountChosenExactly(root: Fs, mounts: seq<Mount>, path: seq<string>, fs: Fs, longest: nat,
                                              d: nat)
    requires Best(root, mounts, path, |mounts|, fs, longest)
    requires forall i, j | 0 <= i < j < |mounts| :: mounts[i].fs != mounts[j].fs
    requires d < |mounts|
    requires var parts := Parts(mounts[d].point, '/'); parts != [] && parts <= path
    ensures var n := |Parts(mounts[d].point, '/')|;
            fs == mounts[d].fs <==>
            && (forall j: nat | j < d :: Shared(mounts, path, j) < n)
            && forall j: nat | d < j < |mounts| :: Shared(mounts, path, j) <= n
  {
    var n := |Parts(mounts[d].point, '/')|;
    UnderMount(path, Parts(mounts[d].point, '/'));
    SharedIs(mounts, path, d);
    hide Shared, Parts;
    assert longest >= n > 0;
    var k: nat :| && k < |mounts| && fs == mounts[k].fs
                  && Shared(mounts, path, k) == longest && AllBelow(mounts, path, k, longest);
    assert fs == mounts[d].fs <==> k == d;
  }

  /** Two mounts of which only the second contains the path, and the first is taken. */
  lemma {:induction false} FirstTaken(x: string, y: string, z: string, root: Fs, mounts: seq<Mount>, fs: Fs,
                                      longest: nat)
    requires y != z && |mounts| == 2
    requires Parts(mounts[0].point, '/') == [x, y] && Parts(mounts[1].point, '/') == [x]
    requires Best(root, mounts, [x, z], 2, fs, longest)
    ensures fs == mounts[0].fs
    ensures !([x, y] <= [x, z]) && [x] <= [x, z]
  {
    CommonIs([x, z], [x, y], 1);
    CommonIs([x, z], [x], 1);
    SharedIs(mounts, [x, z], 0);
    SharedIs(mounts, [x, z], 1);
    hide Parts, Shared, Common;
  }

  /** The parts of a path written out with a slash in front. */
  function Absolute(parts: seq<string>): string {
    "/" + Join(parts, '/')
  }

  /**
    The wrong mount is chosen: of `/x/y` and `/x` the first is taken for
    `/x/z`, although only the second contains it.
   */
  lemma {:induction false} PartialMountChosen(x: string, y: string, z: string, root: Fs, fs: Fs, longest: nat)
    requires AreComponents([x, y], '/') && AreComponents([x, z], '/') && AreComponents([x], '/') && y != z
    requires var mounts := [Mount(Absolute([x, y]), Some(1)), Mount(Absolute([x]), Some(2))];
             Best(root, mounts, Parts(Absolute([x, z]), '/'), 2, fs, longest)
    ensures fs == Some(1)
    ensures var path := Parts(Absolute([x, z]), '/');
            !(Parts(Absolute([x, y]), '/') <= path) && Parts(Absolute([x]), '/') <= path
  {
    var mounts := [Mount(Absolute([x, y]), Some(1)), Mount(Absolute([x]), Some(2))];
    AbsoluteParts([x, y]);
    AbsoluteParts([x, z]);
    AbsoluteParts([x]);
    hide *;
    FirstTaken(x, y, z, root, mounts, fs, longest);
  }

  lemma AbsoluteParts(parts: seq<string>)
    requires AreComponents(parts, '/')
    ensures Parts(Absolute(parts), '/') == parts
  {
    SplitOfJoin(parts, '/');
    assert ['/'] + Join(parts, '/') == "/" + Join(parts, '/');
  }
}
