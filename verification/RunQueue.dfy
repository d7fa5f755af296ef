/**
  The run queue: a singly linked queue rotated in place, and round-robin scheduling over it.
 */
module RunQueue {
  import opened MachineWords

  function Rotated<T>(s: seq<T>): seq<T> {
    if s == [] then [] else s[1..] + [s[0]]
  }

  /** `s` rotated left by `k` places. */
  function RotatedBy<T>(s: seq<T>, k: nat): seq<T>
    requires k <= |s|
  {
    s[k..] + s[..k]
  }

  /** The least index whose element is in `chosen`, or the length when there is none. */
  function FirstIn(s: seq<nat>, chosen: set<nat>): (k: nat)
    ensures k <= |s| && (k < |s| ==> s[k] in chosen)
    ensures forall j | 0 <= j < k :: s[j] !in chosen
  {
    if s == [] || s[0] in chosen then 0 else 1 + FirstIn(s[1..], chosen)
  }

  /** Some queued thread can run. */
  predicate SomeRunnable(q: seq<nat>, runnable: set<nat>) {
    exists k :: 0 <= k < |q| && q[k] in runnable
  }

  lemma RotatedHeads(q: seq<nat>)
    ensures forall j: nat | 1 <= j <= |q| :: RotatedBy(q, j)[0] == Rotated(q)[j - 1]
  {
  }

  /** How far `schedule` rotates: at least once, and up to the first runnable thread. */
  function Turns(q: seq<nat>, runnable: set<nat>): (k: nat)
    requires SomeRunnable(q, runnable)
    ensures 1 <= k <= |q|
    ensures RotatedBy<nat>(q, k)[0] in runnable
    ensures forall j: nat | 1 <= j < k :: RotatedBy<nat>(q, j)[0] !in runnable
  {
    var r := Rotated<nat>(q);
    var k := FirstIn(r, runnable);
    var w :| 0 <= w < |q| && q[w] in runnable;
    assert r[if w == 0 then |q| - 1 else w - 1] == q[w];
    RotatedHeads(q);
    k + 1
  }

  /** The queue after one call of `schedule`; the thread it returns is at the head. */
  function Scheduled(q: seq<nat>, runnable: set<nat>): seq<nat>
    requires SomeRunnable(q, runnable)
  {
    RotatedBy<nat>(q, Turns(q, runnable))
  }

  /** The threads in front of the next one that can run go to the end, in order, behind the thread that ran. */
  lemma {:induction false} ScheduledInOrder(q: seq<nat>, runnable: set<nat>)
    requires SomeRunnable(q, runnable)
    ensures exists k :: 1 <= k <= |q| && Scheduled(q, runnable) == q[k..] + q[..k]
                        && (if k < |q| then q[k] in runnable else q[0] in runnable)
                        && forall j | 1 <= j < k :: q[j] !in runnable
  {
    var k := Turns(q, runnable);
    assert Scheduled(q, runnable) == q[k..] + q[..k];
    forall j | 1 <= j < k
      ensures q[j] !in runnable
    {
      assert RotatedBy<nat>(q, j)[0] == q[j];
    }
    assert k < |q| ==> RotatedBy<nat>(q, k)[0] == q[k];
  }

  /** The queue after `n` turns of the scheduler's loop. */
  function Turned(q: seq<nat>, n: nat): (r: seq<nat>)
    ensures |r| == |q|
  {
    if n == 0 then q else Rotated<nat>(Turned(q, n - 1))
  }

  /** After no number of turns does the loop find a runnable thread at the head. */
  ghost predicate NeverExits(q: seq<nat>, runnable: set<nat>) {
    forall n: nat :: Turned(q, n) == [] || Turned(q, n)[0] !in runnable
  }

  lemma {:induction false} TurnedKeeps(q: seq<nat>, n: nat)
    ensures forall t: nat :: t in Turned(q, n) <==> t in q
  {
    if n > 0 {
      TurnedKeeps(q, n - 1);
      var r := Turned(q, n - 1);
      assert r != [] ==> r == [r[0]] + r[1..];
    }
  }

  lemma {:induction false} TurnedIs(q: seq<nat>, n: nat)
    requires n <= |q|
    ensures Turned(q, n) == RotatedBy<nat>(q, n)
  {
    if n > 0 {
      TurnedIs(q, n - 1);
      var r := RotatedBy<nat>(q, n - 1);
      assert r[1..] == q[n..] + q[..n - 1];
      assert q[..n - 1] + [q[n - 1]] == q[..n];
    }
  }

  /** The scheduler's loop has an exit precisely when a queued thread can run. */
  lemma {:induction false} NeverExitsExactly(q: seq<nat>, runnable: set<nat>)
    ensures NeverExits(q, runnable) <==> !SomeRunnable(q, runnable)
  {
    if k :| 0 <= k < |q| && q[k] in runnable {
      TurnedIs(q, k);
      assert Turned(q, k)[0] == q[k];
    } else {
      forall n: nat
        ensures Turned(q, n) == [] || Turned(q, n)[0] !in runnable
      {
        TurnedKeeps(q, n);
        assert Turned(q, n) != [] ==> Turned(q, n)[0] in q;
      }
    }
  }

  ghost predicate IsRotation<T(!new)>(a: seq<T>, b: seq<T>) {
    exists k: nat :: k <= |a| && b == RotatedBy(a, k)
  }

  lemma {:induction false} RotationsCompose<T>(a: seq<T>, k: nat, j: nat)
    requires k <= |a| && j <= |a|
    ensures var b := RotatedBy(a, k);
            RotatedBy(b, j) == RotatedBy(a, if k + j <= |a| then k + j else k + j - |a|)
  {
    var b := RotatedBy(a, k);
    if k + j <= |a| {
      assert b[j..] == a[k + j..] + a[..k] && b[..j] == a[k..k + j];
      assert a[..k] + a[k..k + j] == a[..k + j];
    } else {
      var d := k + j - |a|;
      assert b[j..] == a[d..k] && b[..j] == a[k..] + a[..d];
      assert a[d..k] + a[k..] == a[d..];
    }
  }

  /** `schedule` only ever rotates: the queue stays a rotation of the order the threads were created in. */
  lemma {:induction false} ScheduledIsRotation(created: seq<nat>, q: seq<nat>, runnable: set<nat>)
    requires IsRotation(created, q) && SomeRunnable(q, runnable)
    ensures IsRotation(created, Scheduled(q, runnable))
  {
    var k: nat :| k <= |created| && q == RotatedBy(created, k);
    var j := Turns(q, runnable);
    RotationsCompose(created, k, j);
    assert Scheduled(q, runnable) == RotatedBy(created, if k + j <= |created| then k + j else k + j - |created|);
  }

  lemma {:induction false} RotationKeeps(q: seq<nat>, k: nat)
    requires k <= |q| && Distinct(q)
    ensures Distinct(RotatedBy<nat>(q, k)) && forall t: nat :: t in RotatedBy<nat>(q, k) <==> t in q
  {
    var r := RotatedBy<nat>(q, k);
    forall i, j | 0 <= i < j < |r|
      ensures r[i] != r[j]
    {
      assert r[i] == q[if i + k < |q| then i + k else i + k - |q|];
      assert r[j] == q[if j + k < |q| then j + k else j + k - |q|];
    }
    forall t: nat
      ensures t in r <==> t in q
    {
      assert q == q[..k] + q[k..];
      assert t in q <==> t in q[..k] || t in q[k..];
    }
  }

  /** Rotations left before `t` is at the head again: a thread at the head waits for a whole turn. */
  ghost function Wait(q: seq<nat>, t: nat): (d: nat)
    requires t in q
    ensures 1 <= d <= |q| && RotatedBy(q, d)[0] == t
  {
    var i :| 0 <= i < |q| && q[i] == t;
    if i == 0 then |q| else i
  }

  /** One call of `schedule` either returns the runnable thread `t` or brings it strictly closer to the head. */
  lemma {:induction false} ScheduleApproaches(q: seq<nat>, runnable: set<nat>, t: nat)
    requires Distinct(q) && t in q && t in runnable
    ensures SomeRunnable(q, runnable)
    ensures var r := Scheduled(q, runnable);
            && Distinct(r) && t in r && |r| == |q|
            && (r[0] == t || Wait(r, t) < Wait(q, t))
  {
    var i :| 0 <= i < |q| && q[i] == t;
    var k, d := Turns(q, runnable), Wait(q, t);
    var r := RotatedBy(q, k);
    RotationKeeps(q, k);
    assert k <= d;
    if k < d {
      assert r[d - k] == RotatedBy(q, d)[0];
      WaitIs(r, t, d - k);
    }
  }

  lemma {:induction false} WaitIs(q: seq<nat>, t: nat, i: nat)
    requires Distinct(q) && i < |q| && q[i] == t
    ensures Wait(q, t) == if i == 0 then |q| else i
  {
  }

  /** In every round some queued thread can run. */
  ghost predicate NeverStuck(q: seq<nat>, rounds: seq<set<nat>>) {
    forall i | 0 <= i < |rounds| :: SomeRunnable(q, rounds[i])
  }

  lemma {:induction false} ScheduledNeverStuck(q: seq<nat>, rounds: seq<set<nat>>)
    requires Distinct(q) && rounds != [] && NeverStuck(q, rounds)
    ensures Distinct(Scheduled(q, rounds[0])) && NeverStuck(Scheduled(q, rounds[0]), rounds[1..])
  {
    var r := Scheduled(q, rounds[0]);
    RotationKeeps(q, Turns(q, rounds[0]));
    forall i | 0 <= i < |rounds[1..]|
      ensures SomeRunnable(r, rounds[1..][i])
    {
      assert SomeRunnable(q, rounds[i + 1]);
      var k :| 0 <= k < |q| && q[k] in rounds[i + 1];
      assert q[k] in r;
    }
  }

  /** The queue after scheduling once per entry of `rounds`, each entry the set of threads that can run then. */
  ghost function Rounds(q: seq<nat>, rounds: seq<set<nat>>): seq<nat>
    requires Distinct(q) && NeverStuck(q, rounds)
    decreases |rounds|
  {
    if rounds == [] then q
    else
      ScheduledNeverStuck(q, rounds);
      Rounds(Scheduled(q, rounds[0]), rounds[1..])
  }

  /**
    Bounded waiting: a thread that can run throughout is returned by one of the next n calls of
    `schedule`, n the number of queued threads, whatever the other threads do meanwhile.
   */
  lemma {:induction false} BoundedWaiting(q: seq<nat>, rounds: seq<set<nat>>, t: nat) returns (k: nat)
    requires Distinct(q) && t in q && |rounds| >= Wait(q, t)
    requires forall i | 0 <= i < |rounds| :: t in rounds[i]
    ensures 1 <= k <= Wait(q, t) <= |q| && k <= |rounds|
    ensures NeverStuck(q, rounds[..k]) && Rounds(q, rounds[..k]) != [] && Rounds(q, rounds[..k])[0] == t
    decreases |rounds|
  {
    hide *;
    ScheduleApproaches(q, rounds[0], t);
    var r := Scheduled(q, rounds[0]);
    if r[0] == t {
      k := 1;
      NoRounds(r);
    } else {
      k := BoundedWaiting(r, rounds[1..], t);
      k := k + 1;
    }
    assert rounds[..k][1..] == rounds[1..][..k - 1];
    OneRound(q, rounds[..k]);
  }

  lemma NoRounds(q: seq<nat>)
    requires Distinct(q)
    ensures NeverStuck(q, []) && Rounds(q, []) == q
  {
  }

  lemma {:induction false} OneRound(q: seq<nat>, rounds: seq<set<nat>>)
    requires Distinct(q) && rounds != [] && SomeRunnable(q, rounds[0])
    requires var r := Scheduled(q, rounds[0]); Distinct(r) && NeverStuck(r, rounds[1..])
    ensures NeverStuck(q, rounds) && Rounds(q, rounds) == Rounds(Scheduled(q, rounds[0]), rounds[1..])
  {
    var r := Scheduled(q, rounds[0]);
    RotationKeeps(q, Turns(q, rounds[0]));
    forall i | 0 <= i < |rounds|
      ensures SomeRunnable(q, rounds[i])
    {
      if i > 0 {
        assert SomeRunnable(r, rounds[1..][i - 1]);
        var k :| 0 <= k < |r| && r[k] in rounds[i];
        assert r[k] in q;
      }
    }
  }

  // ----- the linked queue -----

  class QueueElement<T> {
    var element: T
    var next: QueueElement?<T>

    constructor (element: T)
      ensures this.element == element && next == null
    {
      this.element, next := element, null;
    }
  }

  class LinkedQueue<T> {
    var head: QueueElement?<T>
    var tail: QueueElement?<T>
    ghost var nodes: seq<QueueElement<T>>
    ghost var repr: set<QueueElement<T>>

    ghost predicate Valid()
      reads this, repr
    {
      && Distinct(nodes) && (forall i | 0 <= i < |nodes| :: nodes[i] in repr)
      && (nodes == [] ==> head == null && tail == null)
      && (nodes != [] ==> head == nodes[0] && tail == nodes[|nodes| - 1] && nodes[|nodes| - 1].next == null)
      && forall i | 0 <= i < |nodes| - 1 :: nodes[i].next == nodes[i + 1]
    }

    ghost function Contents(): seq<T>
      requires Valid()
      reads this, repr
    {
      seq(|nodes|, i requires 0 <= i < |nodes| && nodes[i] in repr reads this, repr => nodes[i].element)
    }

    constructor ()
      ensures Valid() && Contents() == [] && nodes == [] && repr == {}
    {
      head, tail, nodes, repr := null, null, [], {};
    }

    method Append(element: T)
      requires Valid()
      modifies this, repr
      ensures Valid() && Contents() == old(Contents()) + [element]
      ensures fresh(repr - old(repr))
    {
      var node := new QueueElement(element);
      if head == null {
        head := node;
        tail := head;
      } else {
        tail.next := node;
        tail := tail.next;
      }
      nodes, repr := nodes + [node], repr + {node};
    }

    method Pop() returns (element: T)
      requires Valid() && Contents() != []
      modifies this
      ensures Valid() && repr == old(repr)
      ensures old(Contents()) == [element] + Contents()
    {
      element := head.element;
      head := head.next;
      nodes := nodes[1..];
      if head == null {
        tail := null;
      }
    }

    method PeekFirst() returns (element: T)
      requires Valid() && Contents() != []
      ensures element == Contents()[0]
    {
      element := head.element;
    }

    method IsEmpty() returns (empty: bool)
      requires Valid()
      ensures empty <==> Contents() == []
    {
      empty := head == null;
    }

    method RotateLeft()
      requires Valid()
      modifies this, repr
      ensures Valid() && repr == old(repr)
      ensures Contents() == Rotated(old(Contents()))
      ensures old(Contents()) != [] ==> Contents() == old(Contents()[1..] + [Contents()[0]])
    {
      if head == null || head.next == null {
        return;
      }
      var oldHead := head;
      head := head.next;
      tail.next := oldHead;
      oldHead.next := null;
      tail := oldHead;
      nodes := Rotated(nodes);
    }
  }
}
