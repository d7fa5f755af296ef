/**
  Page descriptors: one status byte per page, where a run `Taken* Last` marks one allocation.
 */
module Pages {
  import opened MachineWords

  datatype PageStatus = Free | Taken | Last

  /**
    What `alloc` and `zalloc` did. The last three are loops that leave their memory: the inner scan and the
    marking loop the descriptor array, the clearing loop the pool.
   */
  datatype AllocOutcome = Null | Pages(first: nat) | ScannedPastEnd | MarkedPastEnd | ZeroedPastEnd

  function RunStatus(i: int, end: int): PageStatus {
    if i == end - 1 then Last else Taken
  }

  /** The array with pages `[first, first + count)` marked as one allocation. */
  function MarkRun(status: seq<PageStatus>, first: nat, count: nat): (r: seq<PageStatus>)
    ensures |r| == |status|
    ensures forall i | 0 <= i < |r| ::
              r[i] == if first <= i < first + count then RunStatus(i, first + count) else status[i]
  {
    seq(|status|, i requires 0 <= i < |status| =>
      if first <= i < first + count then RunStatus(i, first + count) else status[i])
  }

  /** The last page of an allocation is marked `Last`, those in front of it `Taken`, and no other page is touched. */
  lemma {:induction false} RunMarked(status: seq<PageStatus>, first: nat, count: nat)
    requires 0 < count && first + count <= |status|
    ensures MarkRun(status, first, count)
         == status[..first] + seq(count - 1, _ => Taken) + [Last] + status[first + count..]
  {
  }

  /** The array with pages `[first, first + count)` cleared. */
  function ClearRun(status: seq<PageStatus>, first: nat, count: nat): (r: seq<PageStatus>)
    ensures |r| == |status|
    ensures forall i | 0 <= i < |r| :: r[i] == if first <= i < first + count then Free else status[i]
  {
    seq(|status|, i requires 0 <= i < |status| => if first <= i < first + count then Free else status[i])
  }

  /** Of `count` pages from `i`, those inside the array are free. */
  ghost predicate AllFree(status: seq<PageStatus>, i: nat, count: nat) {
    forall j | i <= j < i + count && j < |status| :: status[j].Free?
  }

  /** `count` free pages from `i`, all inside the array. */
  ghost predicate FreeRun(status: seq<PageStatus>, i: nat, count: nat) {
    i + count <= |status| && AllFree(status, i, count)
  }

  /** The free pages `alloc` looks for: it starts at a free page even when asked for none. */
  function Needed(count: nat): nat {
    if count == 0 then 1 else count
  }

  /** The allocations after a call that took `count` pages from `first`; one of no pages leaves no trace. */
  function Recorded(live: map<nat, nat>, first: nat, count: nat): map<nat, nat> {
    if count == 0 then live else live[first := count]
  }

  /** The lowest free run, or the number of pages when there is none. */
  ghost function FirstFreeRun(status: seq<PageStatus>, count: nat): (k: nat)
    ensures k <= |status|
    ensures k < |status| ==> FreeRun(status, k, count)
    ensures forall j: nat | j < k :: !FreeRun(status, j, count)
  {
    FirstFreeRunFrom(status, count, 0)
  }

  ghost function FirstFreeRunFrom(status: seq<PageStatus>, count: nat, from: nat): (k: nat)
    requires from <= |status|
    ensures from <= k <= |status|
    ensures k < |status| ==> FreeRun(status, k, count)
    ensures forall j: nat | from <= j < k :: !FreeRun(status, j, count)
    decreases |status| - from
  {
    if from == |status| || FreeRun(status, from, count) then from else FirstFreeRunFrom(status, count, from + 1)
  }

  // ----- the scan of `alloc`, whose sums are 64 bits wide -----

  /**
    The scan stops at page `i`: it is free, and the inner loop sees no page in use. When the end of that loop,
    `i + count`, wraps, it lies below `i` and the loop sees no page at all.
   */
  ghost predicate Stops(status: seq<PageStatus>, count: Word, i: nat) {
    i < |status| && status[i].Free? && (i + count >= U64 || AllFree(status, i, count))
  }

  /** The first page the scan stops at, or the number of pages when there is none. */
  ghost function FirstStop(status: seq<PageStatus>, count: Word): (k: nat)
    ensures k <= |status|
    ensures k < |status| ==> Stops(status, count, k)
    ensures forall j: nat | j < k :: !Stops(status, count, j)
  {
    FirstStopFrom(status, count, 0)
  }

  ghost function FirstStopFrom(status: seq<PageStatus>, count: Word, from: nat): (k: nat)
    requires from <= |status|
    ensures from <= k <= |status|
    ensures k < |status| ==> Stops(status, count, k)
    ensures forall j: nat | from <= j < k :: !Stops(status, count, j)
    decreases |status| - from
  {
    if from == |status| || Stops(status, count, from) then from else FirstStopFrom(status, count, from + 1)
  }

  /** The page that is marked `Last`, as the 64-bit sum has it. */
  function LastMarked(i: nat, count: Word): Word {
    Wrap(i + count - 1)
  }

  /** The array with `[first, last)` marked `Taken` and `last` marked `Last`, as far as they lie in it. */
  function MarkTo(status: seq<PageStatus>, first: nat, last: nat): (r: seq<PageStatus>)
    ensures |r| == |status|
    ensures forall i | 0 <= i < |r| ::
              r[i] == if i == last then Last else if first <= i < last then Taken else status[i]
  {
    seq(|status|, i requires 0 <= i < |status| =>
      if i == last then Last else if first <= i < last then Taken else status[i])
  }

  /** What `alloc` answers. */
  ghost function Answer(status: seq<PageStatus>, count: Word): AllocOutcome {
    var k := FirstStop(status, count);
    if k == |status| then Null
    else if |status| < k + count < U64 then ScannedPastEnd
    else if LastMarked(k, count) < |status| then Pages(k)
    else MarkedPastEnd
  }

  /** And the array it leaves. */
  ghost function Marked(status: seq<PageStatus>, count: Word): seq<PageStatus> {
    var a, k := Answer(status, count), FirstStop(status, count);
    if a.Pages? || a.MarkedPastEnd? then MarkTo(status, k, LastMarked(k, count)) else status
  }

  /** No sum wraps, and the marking loop has an end. */
  ghost predicate Ordinary(status: seq<PageStatus>, count: Word) {
    status != [] && count + |status| <= U64 && (count == 0 ==> !status[0].Free?)
  }

  /** The scan's sums for some page, `i + count`, reach 2^64. */
  ghost predicate SumWraps(i: nat, count: Word) {
    i + count >= 0x1_0000_0000_0000_0000
  }

  /** A request is ordinary exactly when that happens for no page, and page 0 is in use if no pages are asked for. */
  lemma {:induction false} OrdinaryExactly(status: seq<PageStatus>, count: Word)
    requires status != []
    ensures Ordinary(status, count) <==>
              (forall i: nat | i < |status| :: !SumWraps(i, count)) && (count == 0 ==> status[0] != Free)
  {
    assert SumWraps(|status| - 1, count) <==> count + |status| > U64;
  }

  lemma LastMarkedIs(i: nat, count: Word)
    requires i <= U64
    ensures LastMarked(i, count)
         == if i + count == 0 then U64 - 1 else if i + count <= U64 then i + count - 1 else i + count - 1 - U64
  {
  }

  lemma FirstStopIs(status: seq<PageStatus>, count: Word, k: nat)
    requires k <= |status| && (k < |status| ==> Stops(status, count, k))
    requires forall j: nat | j < k :: !Stops(status, count, j)
    ensures FirstStop(status, count) == k
  {
  }

  /** Without wrapping the scan stops at free runs, be they cut off by the end of the array. */
  lemma {:induction false} StopsAtRun(status: seq<PageStatus>, count: Word, i: nat)
    requires count + |status| <= U64 && i < |status|
    ensures Stops(status, count, i) <==> AllFree(status, i, Needed(count))
  {
    assert AllFree(status, i, Needed(count)) ==> status[i].Free?;
  }

  /** So the first stop is the lowest free run that fits, or else the start of a free run at the very end. */
  lemma {:induction false} StopIsRun(status: seq<PageStatus>, count: Word)
    requires count + |status| <= U64 && status != []
    ensures var k, f := FirstStop(status, count), FirstFreeRun(status, Needed(count));
            && (f < |status| ==> k == f)
            && (f == |status| ==> (k < |status| <==> status[|status| - 1].Free?))
            && (f == |status| && k < |status| ==> k + Needed(count) > |status|)
  {
    var k, f, need := FirstStop(status, count), FirstFreeRun(status, Needed(count)), Needed(count);
    if k < |status| {
      StopsAtRun(status, count, k);
      assert k + need <= |status| ==> FreeRun(status, k, need);
    }
    if f < |status| {
      StopsAtRun(status, count, f);
    }
    StopsAtRun(status, count, |status| - 1);
  }

  /** An ordinary request gets the lowest free run; one that fits nowhere gets null, or the scan leaves the array. */
  lemma {:induction false} OrdinaryAnswer(status: seq<PageStatus>, count: Word)
    requires Ordinary(status, count)
    ensures var f := FirstFreeRun(status, Needed(count));
            Answer(status, count) == if f < |status| then Pages(f)
                                     else if status[|status| - 1].Free? then ScannedPastEnd else Null
  {
    var k := FirstStop(status, count);
    StopIsRun(status, count);
    LastMarkedIs(k, count);
    hide FirstStop, FirstFreeRun, LastMarked, AllFree;
  }

  /** What an ordinary request marks is its run; one of no pages marks the end of the allocation before it again. */
  lemma {:induction false} OrdinaryMarks(status: seq<PageStatus>, live: map<nat, nat>, count: Word)
    requires Encodes(status, live) && Ordinary(status, count)
    ensures var f := FirstFreeRun(status, Needed(count));
            Marked(status, count) == if f < |status| then MarkRun(status, f, count) else status
  {
    var f := FirstFreeRun(status, Needed(count));
    OrdinaryAnswer(status, count);
    StopIsRun(status, count);
    LastMarkedIs(f, count);
    if count == 0 && f < |status| {
      assert f > 0 && !FreeRun(status, f - 1, 1);
      BeforeFree(status, live, f);
    }
    hide FirstStop, FirstFreeRun, LastMarked;
  }

  /**
    No pool has room for a request whose sums can wrap, and it is refused precisely when no page is free at
    which they do, nor the last page. Any other is granted a page, or has a loop leave the array.
   */
  lemma {:induction false} WrappedRefusedExactly(status: seq<PageStatus>, count: Word)
    requires 0 < |status| < 0x1000_0000_0000_0000 && count + |status| > U64
    ensures FirstFreeRun(status, count) == |status|
    ensures Answer(status, count) == Null <==>
            forall i | 0 <= i < |status| && (i + count >= U64 || i == |status| - 1) :: !status[i].Free?
  {
    var k := FirstStop(status, count);
    assert Stops(status, count, |status| - 1) <==> status[|status| - 1].Free?;
    if k == |status| {
      forall i | 0 <= i < |status| && i + count >= U64
        ensures !status[i].Free?
      {
        assert !Stops(status, count, i);
      }
    }
  }

  /** With two pages in use in front, 2^64 - 1 pages are granted at page 2, and page 0 is marked. */
  lemma {:induction false} WrappedRequestGranted(status: seq<PageStatus>)
    requires 3 <= |status| < 0x1000_0000_0000_0000
    requires !status[0].Free? && !status[1].Free? && status[2].Free?
    ensures Answer(status, U64 - 1) == Pages(2) && Marked(status, U64 - 1) == status[0 := Last]
  {
    FirstStopIs(status, U64 - 1, 2);
    LastMarkedIs(2, U64 - 1);
  }

  /** In a fresh pool the same request has the marking loop run through all memory. */
  lemma {:induction false} FreshPoolMarkedPastEnd(status: seq<PageStatus>)
    requires 2 <= |status| < 0x1000_0000_0000_0000 && status[0] == Last && status[1] == Free
    ensures Answer(status, U64 - 1) == MarkedPastEnd
  {
    FirstStopIs(status, U64 - 1, 1);
    LastMarkedIs(1, U64 - 1);
  }

  function FreeCount(status: seq<PageStatus>): nat {
    if status == [] then 0 else (if status[0].Free? then 1 else 0) + FreeCount(status[1..])
  }

  /** It is the number of pages that are free. */
  lemma {:induction false} FreeCountIs(status: seq<PageStatus>)
    ensures FreeCount(status) == |FreePages(status)|
    decreases |status|
  {
    if status == [] {
      assert FreePages(status) == {};
    } else {
      var n := |status| - 1;
      FreeCountIs(status[..n]);
      CountLast(status);
      assert FreePages(status) == FreePages(status[..n]) + if status[n].Free? then {n} else {};
    }
  }

  ghost function FreePages(status: seq<PageStatus>): set<nat> {
    set i: nat | i < |status| && status[i].Free?
  }

  lemma {:induction false} CountLast(status: seq<PageStatus>)
    requires status != []
    ensures var n := |status| - 1;
            FreeCount(status) == FreeCount(status[..n]) + if status[n].Free? then 1 else 0
    decreases |status|
  {
    if |status| > 1 {
      CountLast(status[1..]);
      assert status[..|status| - 1][1..] == status[1..][..|status| - 2];
    }
  }

  // ----- ownership -----

  ghost predicate Covered(live: map<nat, nat>, i: nat) {
    exists s :: s in live && s <= i < s + live[s]
  }

  ghost predicate RunAt(status: seq<PageStatus>, s: nat, len: nat) {
    && 1 <= len && s + len <= |status|
    && forall i | s <= i < s + len :: status[i] == RunStatus(i, s + len)
  }

  /** The array says exactly which allocations are live: start page to length. */
  ghost predicate Encodes(status: seq<PageStatus>, live: map<nat, nat>) {
    && (forall s | s in live :: RunAt(status, s, live[s]))
    && (forall s, t | s in live && t in live && s < t :: s + live[s] <= t)
    && (forall i: nat | i < |status| && !status[i].Free? :: Covered(live, i))
  }

  /** Every array that encodes some allocations encodes only one set of them. */
  lemma {:induction false} OwnershipDetermined(status: seq<PageStatus>, a: map<nat, nat>, b: map<nat, nat>)
    requires Encodes(status, a) && Encodes(status, b)
    ensures a == b
  {
    forall s | s in a
      ensures s in b && b[s] == a[s]
    {
      SameRun(status, a, b, s);
    }
    forall s | s in b
      ensures s in a
    {
      SameRun(status, b, a, s);
    }
    assert a.Keys == b.Keys;
  }

  lemma {:induction false} StartsARun(status: seq<PageStatus>, a: map<nat, nat>, s: nat)
    requires Encodes(status, a) && s in a
    ensures s > 0 ==> s - 1 < |status| && status[s - 1] != Taken
  {
    assert RunAt(status, s, a[s]);
    if s > 0 && !status[s - 1].Free? {
      assert Covered(a, s - 1);
      var u :| u in a && u <= s - 1 < u + a[u];
      assert RunAt(status, u, a[u]);
      assert status[s - 1] == RunStatus(s - 1, u + a[u]);
    }
  }

  lemma {:induction false} SameRun(status: seq<PageStatus>, a: map<nat, nat>, b: map<nat, nat>, s: nat)
    requires Encodes(status, a) && Encodes(status, b) && s in a
    ensures s in b && b[s] == a[s]
  {
    assert RunAt(status, s, a[s]) && !status[s].Free?;
    assert Covered(b, s);
    var t :| t in b && t <= s < t + b[t];
    assert RunAt(status, t, b[t]);
    StartsARun(status, a, s);
    assert t < s ==> status[s - 1] == RunStatus(s - 1, t + b[t]);
    assert t == s;
    assert a[s] <= b[s] ==> status[s + a[s] - 1] == RunStatus(s + a[s] - 1, s + b[s]);
    assert b[s] <= a[s] ==> status[s + b[s] - 1] == RunStatus(s + b[s] - 1, s + a[s]);
  }

  lemma {:induction false} RunsAvoidFree(status: seq<PageStatus>, live: map<nat, nat>, first: nat, count: nat)
    requires Encodes(status, live) && count >= 1 && FreeRun(status, first, count)
    ensures forall s | s in live :: s + live[s] <= first || first + count <= s
    ensures first !in live
  {
    forall s | s in live
      ensures s + live[s] <= first || first + count <= s
    {
      assert RunAt(status, s, live[s]);
      var j := if s <= first then first else s;
      assert s <= j < s + live[s] ==> status[j] == RunStatus(j, s + live[s]);
    }
    assert first in live ==> RunAt(status, first, live[first]);
  }

  lemma {:induction false} MarkEncodes(status: seq<PageStatus>, live: map<nat, nat>, first: nat, count: nat)
    requires Encodes(status, live) && count >= 1 && FreeRun(status, first, count)
    ensures Encodes(MarkRun(status, first, count), live[first := count])
  {
    RunsAvoidFree(status, live, first, count);
    var out, now := MarkRun(status, first, count), live[first := count];
    forall s | s in now
      ensures RunAt(out, s, now[s])
    {
      if s != first {
        assert RunAt(status, s, live[s]);
      }
    }
    forall i: nat | i < |out| && !out[i].Free?
      ensures Covered(now, i)
    {
      if !(first <= i < first + count) {
        assert Covered(live, i);
        var s :| s in live && s <= i < s + live[s];
        assert s in now && now[s] == live[s];
      } else {
        assert first in now;
      }
    }
  }

  /** In front of a free page there is the end of an allocation, or another free page. */
  lemma {:induction false} BeforeFree(status: seq<PageStatus>, live: map<nat, nat>, i: nat)
    requires Encodes(status, live) && 0 < i < |status| && status[i].Free?
    ensures !status[i - 1].Taken?
  {
    if !status[i - 1].Free? {
      assert Covered(live, i - 1);
      var s :| s in live && s <= i - 1 < s + live[s];
      assert RunAt(status, s, live[s]);
      assert status[i - 1] == RunStatus(i - 1, s + live[s]);
      assert s + live[s] <= i;
    }
  }

  lemma {:induction false} ClearEncodes(status: seq<PageStatus>, live: map<nat, nat>, first: nat)
    requires Encodes(status, live) && first in live
    ensures Encodes(ClearRun(status, first, live[first]), live - {first})
  {
    var out, now := ClearRun(status, first, live[first]), live - {first};
    assert RunAt(status, first, live[first]);
    forall s | s in now
      ensures RunAt(out, s, now[s])
    {
      assert RunAt(status, s, live[s]);
      assert s < first ==> s + live[s] <= first;
      assert first < s ==> first + live[first] <= s;
    }
    forall i: nat | i < |out| && !out[i].Free?
      ensures Covered(now, i)
    {
      assert Covered(live, i);
      var s :| s in live && s <= i < s + live[s];
      assert s in now;
    }
  }

  /** Freeing what was just allocated restores the array. */
  lemma MarkThenClear(status: seq<PageStatus>, first: nat, count: nat)
    requires FreeRun(status, first, count)
    ensures ClearRun(MarkRun(status, first, count), first, count) == status
  {
    assert forall i | first <= i < first + count :: status[i].Free?;
  }

  lemma {:induction false} FreeCountAppend(a: seq<PageStatus>, b: seq<PageStatus>)
    ensures FreeCount(a + b) == FreeCount(a) + FreeCount(b)
  {
    if a == [] {
      assert a + b == b;
    } else {
      assert (a + b)[1..] == a[1..] + b;
      FreeCountAppend(a[1..], b);
    }
  }

  lemma {:induction false} FreeCountUniform(a: seq<PageStatus>, free: bool)
    requires forall i | 0 <= i < |a| :: a[i].Free? == free
    ensures FreeCount(a) == if free then |a| else 0
  {
    if a != [] {
      FreeCountUniform(a[1..], free);
    }
  }

  lemma {:induction false} FreeCountParts(status: seq<PageStatus>, first: nat, end: nat)
    requires first <= end <= |status|
    ensures FreeCount(status) == FreeCount(status[..first]) + FreeCount(status[first..end]) + FreeCount(status[end..])
  {
    assert status == status[..first] + (status[first..end] + status[end..]);
    FreeCountAppend(status[..first], status[first..end] + status[end..]);
    FreeCountAppend(status[first..end], status[end..]);
  }

  /** An allocation of `count` pages uses up exactly `count` free pages. */
  lemma {:induction false} MarkFreeCount(status: seq<PageStatus>, first: nat, count: nat)
    requires FreeRun(status, first, count)
    ensures FreeCount(MarkRun(status, first, count)) + count == FreeCount(status)
  {
    var out, end := MarkRun(status, first, count), first + count;
    hide FreeCount;
    FreeCountParts(status, first, end);
    FreeCountParts(out, first, end);
    assert out[..first] == status[..first] && out[end..] == status[end..];
    FreeCountUniform(status[first..end], true);
    FreeCountUniform(out[first..end], false);
  }

  lemma {:induction false} FreeCountZero(status: seq<PageStatus>)
    ensures FreeCount(status) == 0 <==> forall i | 0 <= i < |status| :: !status[i].Free?
  {
    if status != [] {
      FreeCountZero(status[1..]);
      assert forall i | 1 <= i < |status| :: status[i] == status[1..][i - 1];
    }
  }

  /** A single page can be had exactly when one is free. */
  lemma {:induction false} OnePageFits(status: seq<PageStatus>)
    ensures FirstFreeRun(status, 1) < |status| <==> FreeCount(status) > 0
  {
    FreeCountZero(status);
    var k := FirstFreeRun(status, 1);
    assert k < |status| ==> status[k].Free?;
    if i: nat :| i < |status| && status[i].Free? {
      assert FreeRun(status, i, 1);
    }
  }

  /** The array of a fresh pool: only the first page, which holds the manager itself, is in use. */
  lemma {:induction false} FreshPool(status: seq<PageStatus>)
    requires status != [] && status[0] == Last && forall i | 1 <= i < |status| :: status[i] == Free
    ensures Encodes(status, map[0 := 1]) && FreeCount(status) == |status| - 1
  {
    var live: map<nat, nat> := map[0 := 1];
    assert RunAt(status, 0, 1);
    assert 0 in live;
    forall i: nat | i < |status| && !status[i].Free?
      ensures Covered(live, i)
    {
      assert i == 0;
    }
    FreeCountUniform(status[1..], true);
  }

  /**
    A fresh pool of two pages or more is enough to send the scan behind the array: ask for as many pages as
    the pool has, of which the first is taken.
   */
  lemma {:induction false} FreshPoolScansPastEnd(status: seq<PageStatus>, count: nat)
    requires 2 <= |status| <= count
    requires status[0] == Last && forall i | 1 <= i < |status| :: status[i] == Free
    ensures FirstFreeRun(status, count) == |status| && status[|status| - 1].Free?
  {
    assert !status[0].Free?;
    assert !AllFree(status, 0, count);
  }
}
