/**
  The memory manager: the page allocator over its descriptor array, and the builder of Sv39 tables
  that takes its table pages from it.

  Page `p` of the pool starts at address `allocStart + 4096 * p`. The pool's memory is kept as 64-bit
  words in the layout of page-table entries, 512 to a page.
 */
module MemoryManagement {
  import opened MachineWords
  import opened Pages
  import opened PageTables

  const PAGE_SIZE: nat := 4096

  /** The first address handed out: behind one descriptor byte per page, rounded up to a page. */
  function AllocStart(heapStart: Word, heapSize: Word): Word {
    AlignValue(Wrap(heapStart + heapSize / 4096), 4096)
  }

  /** What rounding up gives: the pool starts on a page boundary, less than a page behind the descriptors. */
  lemma AllocStartRounds(heapStart: Word, heapSize: Word)
    requires heapStart + heapSize + 8192 < U64
    ensures AllocStart(heapStart, heapSize) == 4096 * (AllocStart(heapStart, heapSize) / 4096)
    ensures heapStart + heapSize / 4096 <= AllocStart(heapStart, heapSize) < heapStart + heapSize / 4096 + 4096
  {
    hide AlignValue, Wrap;
    QuotientBelow(heapSize, 4096);
    WrapSmall(heapStart + heapSize / 4096);
    AlignValueRoundsUp(heapStart + heapSize / 4096, 4096);
  }

  /**
    The pool has as many pages as the heap region, but starts behind the descriptors: it lies inside
    the region exactly when the bytes lost at the front fit into the part of a page left over at the end.
   */
  lemma PoolInsideHeap(heapStart: Word, heapSize: Word)
    requires heapStart + heapSize + 8192 < U64
    ensures (forall p | 0 <= p < heapSize / 4096 ::
               AllocStart(heapStart, heapSize) + 4096 * p + 4096 <= heapStart + heapSize)
       <==> heapSize < 4096 || AllocStart(heapStart, heapSize) - heapStart <= heapSize % 4096
  {
    var n := heapSize / 4096;
    if n > 0 {
      assert 0 <= n - 1 < n;
      assert 4096 * (n - 1) + 4096 == heapSize - heapSize % 4096;
    }
  }

  /** A heap region of whole pages always loses: the last page handed out ends behind the region. */
  lemma WholePagesLeaveHeap(heapStart: Word, heapSize: Word)
    requires heapStart + heapSize + 8192 < U64 && heapSize > 0 && heapSize % 4096 == 0
    ensures AllocStart(heapStart, heapSize) + 4096 * (heapSize / 4096) > heapStart + heapSize
  {
    AllocStartRounds(heapStart, heapSize);
  }

  lemma AllocStartFacts(heapStart: Word, heapSize: Word)
    requires heapStart + 2 * heapSize + 8192 < 4096 * FRAMES
    ensures AllocStart(heapStart, heapSize) == 4096 * (AllocStart(heapStart, heapSize) / 4096)
    ensures AllocStart(heapStart, heapSize) / 4096 + heapSize / 4096 <= FRAMES
  {
    AllocStartRounds(heapStart, heapSize);
    hide AllocStart;
    var start, n := AllocStart(heapStart, heapSize) / 4096, heapSize / 4096;
    assert 4096 * (start + n) < heapStart + n + 4096 + heapSize;
  }

  lemma FrameOfPage(base: nat, p: nat)
    requires base + p < FRAMES
    ensures FrameOf(4096 * base + 4096 * p) == base + p
  {
    assert 4096 * base + 4096 * p == 4096 * (base + p);
  }

  /** Where the inner loop of `alloc` ends, as the 64-bit sum has it. */
  function RunEnd(i: nat, count: Word): Word {
    Wrap(i + count)
  }

  lemma RunEndIs(i: nat, count: Word)
    requires i < U64
    ensures if i + count < U64 then RunEnd(i, count) == i + count else RunEnd(i, count) < i
  {
  }

  /** The allocations on record after a request. */
  ghost function Kept(was: seq<PageStatus>, live: map<nat, nat>, count: Word): map<nat, nat> {
    if Ordinary(was, count) && Answer(was, count).Pages? then Recorded(live, FirstStop(was, count), count) else live
  }

  /** The words `zalloc` clears, as the 64-bit product has it. */
  function WordsOf(count: Word): nat {
    Wrap(4096 * count) / 8
  }

  /** The memory with `words` words from `start` cleared, as far as they lie in it. */
  function ZeroFrom(mem: seq<Pte>, start: nat, words: nat): seq<Pte> {
    seq(|mem|, i requires 0 <= i < |mem| => if start <= i < start + words then ZERO_PTE else mem[i])
  }

  function ZeroPages(mem: seq<Pte>, first: nat, count: nat): seq<Pte> {
    seq(|mem|, i requires 0 <= i < |mem| => if 512 * first <= i < 512 * (first + count) then ZERO_PTE else mem[i])
  }

  /** How many tables are missing on the way to the entry of page `n`. */
  ghost function Missing(t: Tree, n: nat): nat {
    MissingFrom(t, 0, n)
  }

  /** The same, counting only the tables at `level` and above. */
  ghost function MissingFrom(t: Tree, level: nat, n: nat): nat {
    (if level <= 1 && n / 512 / 512 !in t.middles then 1 else 0)
        + (if level == 0 && n / 512 !in t.lowests then 1 else 0)
  }

  /** `u` is `t` with the missing tables at `level` and above. */
  ghost predicate Grown(t: Tree, u: Tree, level: nat, n: nat) {
    && (forall k :: k in u.middles <==> k in t.middles || (level <= 1 && k == n / 512 / 512))
    && (forall k :: k in u.lowests <==> k in t.lowests || (level == 0 && k == n / 512))
    && |u.owner.Keys| == |t.owner.Keys| + MissingFrom(t, level, n)
  }

  lemma {:induction false} GrownStep(t: Tree, u: Tree, level: nat, n: nat, p: nat)
    requires Grown(t, u, level + 1, n) && level < 2
    ensures HasTable(u, level, n) ==> Grown(t, u, level, n)
    ensures !HasTable(u, level, n) ==> MissingFrom(t, level, n) == MissingFrom(t, level + 1, n) + 1
    ensures !HasTable(u, level, n) && p !in u.owner ==> Grown(t, Grow(u, level, n, p), level, n)
  {
    if !HasTable(u, level, n) && p !in u.owner {
      PutKeys(u.owner, p, if level == 1 then Middle(n / 512 / 512) else Lowest(n / 512));
    }
  }

  /** The `i`th page of a range; virtual pages wrap at 2^27. */
  function RangePage(page: nat, i: nat): nat {
    (page + i) % 0x800_0000
  }

  function RangeFrame(frame: nat, i: nat): Frame {
    (frame + i) % 0x1000_0000_0000
  }

  /** The page-number prefixes of the tables a range of pages needs at the middle and at the lowest level. */
  ghost function MiddleKeys(page: nat, count: nat): set<nat> {
    if count == 0 then {} else MiddleKeys(page, count - 1) + {RangePage(page, count - 1) / 512 / 512}
  }

  ghost function LowestKeys(page: nat, count: nat): set<nat> {
    if count == 0 then {} else LowestKeys(page, count - 1) + {RangePage(page, count - 1) / 512}
  }

  ghost function MissingIn(t: Tree, page: nat, count: nat): nat {
    |MiddleKeys(page, count) - t.middles.Keys| + |LowestKeys(page, count) - t.lowests.Keys|
  }

  class MemoryManager {
    const allocStart: Word
    const base: nat
    const pages: array<PageStatus>
    const mem: array<Pte>
    ghost var live: map<nat, nat>

    ghost predicate Valid()
      reads this, pages, mem
    {
      && allocStart == 4096 * base
      && pages.Length > 0 && base + pages.Length <= FRAMES
      && mem.Length == 512 * pages.Length
      && Encodes(pages[..], live)
    }

    constructor (heapStart: Word, heapSize: Word)
      requires heapSize >= 4096
      requires heapStart + 2 * heapSize + 8192 < 4096 * FRAMES
      ensures Valid() && fresh(pages) && fresh(mem)
      ensures allocStart == AllocStart(heapStart, heapSize) && pages.Length == heapSize / 4096
      ensures live == map[0 := 1] && FreeCount(pages[..]) == pages.Length - 1
    {
      var numberOfPages := heapSize / 4096;
      AllocStartFacts(heapStart, heapSize);
      allocStart := AllocStart(heapStart, heapSize);
      base := AllocStart(heapStart, heapSize) / 4096;
      pages := new PageStatus[numberOfPages](_ => Taken);
      mem := new Pte[512 * numberOfPages](_ => ZERO_PTE);
      live := map[0 := 1];
      new;
      pages[0] := Last;
      for i := 1 to numberOfPages
        invariant pages[0] == Last && forall k | 1 <= k < i :: pages[k] == Free
        invariant live == map[0 := 1]
      {
        pages[i] := Free;
      }
      FreshPool(pages[..]);
    }

    // ----- pages -----

    /**
      Every request. One whose sums cannot wrap gets the lowest free run that fits; one for no pages gets the
      lowest free page, and leaves it free.
     */
    method Alloc(count: Word) returns (r: AllocOutcome)
      requires Valid()
      modifies pages, this`live
      ensures r == Answer(old(pages[..]), count) && pages[..] == Marked(old(pages[..]), count)
      ensures Ordinary(old(pages[..]), count) || r == Null || r == ScannedPastEnd ==> Valid()
      ensures Ordinary(old(pages[..]), count) ==>
                var was := old(pages[..]);
                var k := FirstFreeRun(was, Needed(count));
                if k < |was| then
                  && r == Pages(k) && k !in old(live)
                  && pages[..] == MarkRun(was, k, count) && live == Recorded(old(live), k, count)
                else
                  && r == (if was[|was| - 1].Free? then ScannedPastEnd else Null)
                  && pages[..] == was && live == old(live)
      ensures !Ordinary(old(pages[..]), count) ==> live == old(live)
    {
      ghost var was: seq<PageStatus> := pages[..];
      hide *;
      Opens();
      ghost var kept := Kept(was, live, count);
      Served(was, live, count);
      var i := 0;
      while i < pages.Length
        invariant i <= pages.Length && pages[..] == was && live == old(live)
        invariant forall k: nat | k < i :: !Stops(was, count, k)
      {
        var found := InnerScan(i, count);
        if found != Some(false) {
          ScanAnswers(was, count, i);
          if found.None? {
            Closes();
            return ScannedPastEnd;
          }
          var ok := MarkPages(i, LastMarked(i, count));
          live := kept;
          if Ordinary(was, count) {
            Closes();
          }
          return if ok then Pages(i) else MarkedPastEnd;
        }
        i := i + 1;
      }
      NothingFound(was, count);
      Closes();
      return Null;
    }

    lemma Opens()
      requires Valid()
      ensures allocStart == 4096 * base && base + pages.Length <= FRAMES && mem.Length == 512 * pages.Length
      ensures 0 < pages.Length <= FRAMES < 0x1000_0000_0000_0000 && Encodes(pages[..], live)
    {
    }

    lemma Closes()
      requires allocStart == 4096 * base && base + pages.Length <= FRAMES && mem.Length == 512 * pages.Length
      requires pages.Length > 0 && Encodes(pages[..], live)
      ensures Valid()
    {
    }

    /** The inner loop at page `i`: whether it found the run free, or `None` if it left the array. */
    method InnerScan(i: nat, count: Word) returns (found: Option<bool>)
      requires i < pages.Length < U64
      ensures found != Some(false) <==> Stops(pages[..], count, i)
      ensures found.None? <==> Stops(pages[..], count, i) && pages.Length < i + count < U64
    {
      if !pages[i].Free? {
        return Some(false);
      }
      RunEndIs(i, count);
      hide RunEnd;
      var j := i;
      while j < RunEnd(i, count)
        invariant i <= j <= pages.Length && (j == i || j <= i + count < U64) && AllFree(pages[..], i, j - i)
      {
        if j >= pages.Length {
          return None;
        }
        if !pages[j].Free? {
          assert !AllFree(pages[..], i, count);
          return Some(false);
        }
        j := j + 1;
      }
      return Some(true);
    }

    /** The marking loop; `false` when it leaves the array. */
    method MarkPages(i: nat, last: Word) returns (ok: bool)
      requires i < pages.Length < U64
      modifies pages
      ensures ok <==> last < pages.Length
      ensures pages[..] == MarkTo(old(pages[..]), i, last)
    {
      var k := i;
      while k < last
        invariant i <= k <= pages.Length && (k == i || k <= last)
        invariant forall x | 0 <= x < pages.Length :: pages[x] == if i <= x < k then Taken else old(pages[x])
      {
        if k >= pages.Length {
          return false;
        }
        pages[k] := Taken;
        k := k + 1;
      }
      if last >= pages.Length {
        return false;
      }
      pages[last] := Last;
      return true;
    }

    /**
      Allocates and zeroes; a page index stands for the pointer `allocStart + 4096 * index`. A page granted to a
      request whose sums wrap is not zeroed alone: the clearing loop leaves the pool.
     */
    method Zalloc(count: Word) returns (r: AllocOutcome)
      requires Valid()
      modifies pages, mem, this`live
      ensures pages[..] == Marked(old(pages[..]), count)
      ensures Ordinary(old(pages[..]), count) || r == Null || r == ScannedPastEnd ==> Valid()
      ensures Ordinary(old(pages[..]), count) ==>
                var was := old(pages[..]);
                var k := FirstFreeRun(was, Needed(count));
                if k < |was| then
                  && r == Pages(k) && k !in old(live)
                  && pages[..] == MarkRun(was, k, count) && live == Recorded(old(live), k, count)
                  && mem[..] == ZeroPages(old(mem[..]), k, count)
                else
                  && r == (if was[|was| - 1].Free? then ScannedPastEnd else Null)
                  && pages[..] == was && live == old(live) && mem[..] == old(mem[..])
      ensures !Ordinary(old(pages[..]), count) ==>
                var was, a := old(pages[..]), Answer(old(pages[..]), count);
                && r == (if a.Pages? then ZeroedPastEnd else a) && live == old(live)
                && mem[..] == if a.Pages? && a.first < |was| then ZeroPages(old(mem[..]), a.first, |was| - a.first)
                              else old(mem[..])
    {
      ghost var was: seq<PageStatus> := pages[..];
      hide *;
      Opens();
      r := Alloc(count);
      if r.Pages? {
        Cleared(was, count, r.first, mem[..]);
        var ok := ZeroWords(r.first, WordsOf(count));
        if !ok {
          r := ZeroedPastEnd;
        }
      }
    }

    /** The loop of `zalloc`, which clears word by word; `false` when it leaves the pool. */
    method ZeroWords(first: nat, words: nat) returns (ok: bool)
      requires 512 * first <= mem.Length
      modifies mem
      ensures ok <==> 512 * first + words <= mem.Length
      ensures mem[..] == ZeroFrom(old(mem[..]), 512 * first, words)
    {
      var start, i := 512 * first, 0;
      while i < words
        invariant i <= words && start + i <= mem.Length
        invariant forall x | 0 <= x < mem.Length :: mem[x] == if start <= x < start + i then ZERO_PTE else old(mem[x])
      {
        if start + i >= mem.Length {
          return false;
        }
        mem[start + i] := ZERO_PTE;
        i := i + 1;
      }
      return true;
    }

    method Dealloc(ptr: Option<Word>)
      requires Valid()
      requires ptr.Some? ==> ptr.value >= allocStart && (ptr.value - allocStart) / PAGE_SIZE in live
      modifies pages, this`live
      ensures Valid()
      ensures ptr.None? ==> pages[..] == old(pages[..]) && live == old(live)
      ensures ptr.Some? ==>
                var s := (ptr.value - allocStart) / PAGE_SIZE;
                && pages[..] == ClearRun(old(pages[..]), s, old(live)[s])
                && live == old(live) - {s}
    {
      if ptr.None? {
        return;
      }
      ghost var was := pages[..];
      var start := (ptr.value - allocStart) / PAGE_SIZE;
      ghost var len := live[start];
      ClearEncodes(was, live, start);
      assert RunAt(was, start, len);
      var page := start;
      while pages[page].Taken?
        invariant start <= page < start + len && live == old(live)
        invariant forall x | 0 <= x < pages.Length :: pages[x] == if start <= x < page then Free else was[x]
        decreases start + len - page
      {
        pages[page] := Free;
        page := page + 1;
      }
      pages[page] := Free;
      assert pages[..] == ClearRun(was, start, len);
      live := live - {start};
    }

    method GetStatistics() returns (total: nat, free: nat, used: nat)
      requires Valid()
      ensures total == pages.Length && free == FreeCount(pages[..]) && used + free == total
    {
      used := 0;
      assert pages[..][pages.Length..] == [];
      for i := 0 to pages.Length
        invariant used + FreeCount(pages[..i]) == i
      {
        assert pages[..i + 1] == pages[..i] + [pages[i]];
        FreeCountAppend(pages[..i], [pages[i]]);
        assert [pages[i]][1..] == [];
        if !pages[i].Free? {
          used := used + 1;
        }
      }
      assert pages[..pages.Length] == pages[..];
      total, free := pages.Length, pages.Length - used;
    }

    // ----- page tables -----

    /** The tree `t` is built in this memory, on pages that are allocated. */
    ghost predicate Holds(t: Tree)
      reads this, pages, mem
    {
      && Valid()
      && Represents(mem[..], base, pages.Length, t)
      && InUse(pages[..], t)
    }

    /** The missing-entry branch of `map`: a fresh zeroed page is linked into the entry at `v`. */
    method LinkTable(v: nat) returns (ok: bool, ghost p: nat)
      requires Valid() && v < mem.Length && mem[v] == ZERO_PTE
      modifies pages, mem, this`live
      ensures Valid()
      ensures ok <==> FreeCount(old(pages[..])) > 0
      ensures !ok ==> pages[..] == old(pages[..]) && mem[..] == old(mem[..])
      ensures ok ==>
                && p < pages.Length && FreeRun(old(pages[..]), p, 1)
                && pages[..] == MarkRun(old(pages[..]), p, 1)
                && mem[..] == ZeroPages(old(mem[..]), p, 1)[v := Branch(base + p)]
    {
      OnePageFits(pages[..]);
      hide FirstFreeRun, FreeCount, FrameOf, Encodes;
      var page := Zalloc(1);
      if !page.Pages? {
        return false, 0;
      }
      FrameOfPage(base, page.first);
      var address := allocStart + PAGE_SIZE * page.first;
      mem[v] := mem[v].(flags := mem[v].flags.(valid := true), ppn := FrameOf(address));
      return true, page.first;
    }

    /** One turn of the loop of `map`: makes sure the next table exists and moves to its entry. */
    method Descend(v: nat, level: nat, index: nat, ghost w: Walk) returns (ok: bool, next: nat, ghost x: Walk)
      requires Valid() && w.status == pages[..] && w.mem == mem[..] && w.base == base
      requires Walking(w, level + 1) && HasTable(w.tree, level + 1, w.n)
      requires v == Slot(w.tree, level + 1, w.n) && v < mem.Length
      requires index == SlotIndex(level, w.n)
      modifies pages, mem, this`live
      ensures Valid() && x.status == pages[..] && x.mem == mem[..]
      ensures ok ==>
                && Walking(x, level) && HasTable(x.tree, level, x.n) && SameWalk(w, x)
                && next == Slot(x.tree, level, x.n) && next < mem.Length
      ensures !ok ==> FreeCount(w.status0) < Missing(w.tree0, w.n)
    {
      hide Walking, Represents, Built, Grown, InUse, Encodes, MissingFrom, MarkRun, ZeroPages, FreeCount, FreeRun,
           EntryIndex, Slot, SlotPage, SlotIndex, HasTable;
      WalkRead(w, level);
      if mem[v].flags.valid {
        return true, EntryIndex(mem[v], base, index), w;
      }
      ghost var p;
      ok, p := LinkTable(v);
      if !ok {
        WalkStuck(w, level);
        return false, 0, w.(status := pages[..], mem := mem[..]);
      }
      WalkLink(w, level, p);
      return true, EntryIndex(mem[v], base, index), Linked(w, level, p);
    }

    /** The final write of `map`. */
    method WriteLeaf(v: nat, paddr: Word, bits: Flags, ghost w: Walk) returns (ghost u: Tree)
      requires Valid() && w.status == pages[..] && w.mem == mem[..] && w.base == base
      requires Walking(w, 0) && v == Slot(w.tree, 0, w.n)
      modifies mem
      ensures Holds(u) && u.root == w.tree0.root && u.flat == ApplyOp(w.tree0.flat, MapOp(w.n, FrameOf(paddr), bits))
      ensures Built(w.status0, pages[..], w.mem0, mem[..], w.tree0, u) && Grown(w.tree0, u, 0, w.n)
      ensures FreeCount(w.status0) >= Missing(w.tree0, w.n)
    {
      ghost var op := MapOp(w.n, FrameOf(paddr), bits);
      WalkEnd(w, op);
      var flags := mem[v].flags.(accessed := true, dirty := true, valid := true);
      mem[v] := mem[v].(flags := Either(flags, bits), ppn := FrameOf(paddr));
      u := w.tree.(flat := ApplyOp(w.tree.flat, op));
    }

    /**
      Maps the page of `vaddr` to the frame of `paddr` at level 0. `ok` is false when a table was needed
      and no page was left; the source then goes on with a null table.
     */
    method Map(root: nat, vaddr: Word, paddr: Word, bits: Flags, ghost t: Tree) returns (ok: bool, ghost u: Tree)
      requires Holds(t) && t.root == root
      modifies pages, mem, this`live
      ensures Valid()
      ensures ok <==> FreeCount(old(pages[..])) >= Missing(t, PageOf(vaddr))
      ensures ok ==> Holds(u) && u.root == root && u.flat == ApplyOp(t.flat, MapOp(PageOf(vaddr), FrameOf(paddr), bits))
      ensures ok ==> Built(old(pages[..]), pages[..], old(mem[..]), mem[..], t, u) && Grown(t, u, 0, PageOf(vaddr))
    {
      hide Walking, Represents, Built, Grown, InUse, Encodes, ApplyOp, MissingFrom, FreeCount;
      ghost var w := WalkAt(pages[..], mem[..], base, t, PageOf(vaddr));
      ghost var start := w;
      WalkStart(w);
      var v: nat := 512 * root + PageOf(vaddr) / 512 / 512;
      var i := 1;
      while i >= 0
        invariant -1 <= i <= 1 && Valid() && w.status == pages[..] && w.mem == mem[..]
        invariant Walking(w, i + 1) && HasTable(w.tree, i + 1, w.n)
        invariant v == Slot(w.tree, i + 1, w.n) && v < mem.Length && SameWalk(start, w)
      {
        var found;
        found, v, w := Descend(v, i, if i == 0 then PageOf(vaddr) % 512 else PageOf(vaddr) / 512 % 512, w);
        if !found {
          return false, t;
        }
        i := i - 1;
      }
      u := WriteLeaf(v, paddr, bits, w);
      ok := true;
    }

    /** One turn of the loop below. */
    method MapTurn(root: nat, vaddr: Word, paddr: Word, bits: Flags, ghost r: Range, ghost u: Tree, ghost i: nat,
        ghost count: nat)
      returns (ok: bool, ghost u': Tree)
      requires Holds(u) && u.root == root && Ranging(r, pages[..], mem[..], u, i) && i < count && r.bits == bits
      requires PageOf(vaddr) == RangePage(r.page, i) && FrameOf(paddr) == RangeFrame(r.frame, i)
      modifies pages, mem, this`live
      ensures ok ==> Holds(u') && u'.root == root && Ranging(r, pages[..], mem[..], u', i + 1)
      ensures !ok ==> FreeCount(r.status0) < MissingIn(r.tree0, r.page, count)
    {
      hide *;
      ghost var s: seq<PageStatus>, m: seq<Pte> := pages[..], mem[..];
      ok, u' := Map(root, vaddr, paddr, bits, u);
      if ok {
        RangeStep(r, s, m, u, pages[..], mem[..], u', i);
      } else {
        RangeStuck(r, s, m, u, i, count);
      }
    }

    /** The loop of `map_range` and `identity_map_range`, from page-aligned addresses that may wrap on the way. */
    method MapPages(root: nat, virtualStart: Word, physicalStart: Word, count: nat, bits: Flags, ghost t: Tree)
      returns (ok: bool, ghost u: Tree)
      requires Holds(t) && t.root == root
      requires virtualStart == PageBase(virtualStart) && physicalStart == PageBase(physicalStart)
      modifies pages, mem, this`live
      ensures ok <==> FreeCount(old(pages[..])) >= MissingIn(t, PageNumber(virtualStart), count)
      ensures ok ==> Holds(u) && Built(old(pages[..]), pages[..], old(mem[..]), mem[..], t, u)
      ensures ok ==> u.flat == ApplyOps(t.flat,
                                        RangeOps(PageNumber(virtualStart), PageNumber(physicalStart), count, bits))
    {
      ghost var r := Range(pages[..], mem[..], base, t, PageNumber(virtualStart), PageNumber(physicalStart), bits);
      hide *;
      FirstPage(virtualStart);
      FirstPage(physicalStart);
      RangeStart(r);
      u := t;
      var virtualAddress, physicalAddress := virtualStart, physicalStart;
      for i := 0 to count
        invariant Holds(u) && u.root == root && Ranging(r, pages[..], mem[..], u, i)
        invariant virtualAddress == PageAfter(virtualStart, i) && physicalAddress == PageAfter(physicalStart, i)
      {
        RangeAddresses(virtualStart, i);
        RangeAddresses(physicalStart, i);
        ok, u := MapTurn(root, virtualAddress, physicalAddress, bits, r, u, i, count);
        if !ok {
          return false, t;
        }
        NextPageIs(virtualStart, i);
        NextPageIs(physicalStart, i);
        virtualAddress := NextPage(virtualAddress);
        physicalAddress := NextPage(physicalAddress);
      }
      RangeEnd(r, pages[..], mem[..], u, count);
      ok := true;
    }

    method MapRange(root: nat, virtualStart: Word, virtualEnd: Word, physicalStart: Word, bits: Flags, ghost t: Tree)
      returns (ok: bool, ghost u: Tree)
      requires Holds(t) && t.root == root
      modifies pages, mem, this`live
      ensures var page, count := PageNumber(virtualStart), PageCount(virtualStart, virtualEnd);
              && (ok <==> FreeCount(old(pages[..])) >= MissingIn(t, page, count))
              && (ok ==>
                    && Holds(u) && Built(old(pages[..]), pages[..], old(mem[..]), mem[..], t, u)
                    && u.flat == ApplyOps(t.flat, RangeOps(page, PageNumber(physicalStart), count, bits)))
    {
      hide *;
      PageBaseFacts(virtualStart);
      PageBaseFacts(physicalStart);
      PageCountIs(virtualStart, virtualEnd);
      var virtualAddress, physicalAddress := PageBase(virtualStart), PageBase(physicalStart);
      var numberOfPages := Wrap(AlignValue(virtualEnd, 4096) - virtualAddress) / 4096;
      ok, u := MapPages(root, virtualAddress, physicalAddress, numberOfPages, bits, t);
    }

    method IdentityMapRange(root: nat, start: Word, end: Word, bits: Flags, ghost t: Tree)
      returns (ok: bool, ghost u: Tree)
      requires Holds(t) && t.root == root
      modifies pages, mem, this`live
      ensures var page, count := PageNumber(start), PageCount(start, end);
              && (ok <==> FreeCount(old(pages[..])) >= MissingIn(t, page, count))
              && (ok ==>
                    && Holds(u) && Built(old(pages[..]), pages[..], old(mem[..]), mem[..], t, u)
                    && u.flat == ApplyOps(t.flat, RangeOps(page, page, count, bits)))
    {
      hide *;
      PageBaseFacts(start);
      PageCountIs(start, end);
      var memAddr := PageBase(start);
      var numKbPages := Wrap(AlignValue(end, 4096) - memAddr) / 4096;
      ok, u := MapPages(root, memAddr, memAddr, numKbPages, bits, t);
    }
  }

  // ----- ranges -----

  /** `address & ~(PAGE_SIZE - 1)`. */
  function PageBase(address: Word): Word {
    address - address % 4096
  }

  function PageNumber(address: Word): nat {
    address / 4096
  }

  lemma PageBaseFacts(address: Word)
    ensures PageBase(PageBase(address)) == PageBase(address) && PageNumber(PageBase(address)) == PageNumber(address)
    ensures PageBase(address) == 4096 * PageNumber(address)
  {
  }

  /** Pages from the start rounded down to the end rounded up, as the 64-bit subtraction counts them. */
  function PageCount(start: Word, end: Word): nat {
    Wrap(AlignValue(end, 4096) - PageBase(start)) / 4096
  }

  lemma PageCountIs(start: Word, end: Word)
    ensures PageCount(start, end) == Wrap(AlignValue(end, 4096) - PageBase(start)) / 4096
  {
  }

  /**
    The count is right exactly when the rounded end is not below the rounded start; otherwise the range runs
    on through the end of the 64-bit address space.
   */
  lemma PageCountExact(start: Word, end: Word)
    ensures PageBase(start) + 4096 * PageCount(start, end)
         == AlignValue(end, 4096) + if PageBase(start) <= AlignValue(end, 4096) then 0 else U64
  {
    AlignValueRoundsUp(end, 4096);
    PageBaseFacts(start);
    hide AlignValue, PageBase, Wrap;
    PageBelow(AlignValue(end, 4096));
    PageBelow(start);
    PagesBetween(AlignValue(end, 4096) / 4096, PageNumber(start));
  }

  lemma PageBelow(address: Word)
    ensures 0 <= address / 4096 < 0x10_0000_0000_0000
  {
  }

  lemma PagesBetween(a: nat, b: nat)
    requires a < 0x10_0000_0000_0000 && b < 0x10_0000_0000_0000
    ensures Wrap(4096 * a - 4096 * b) / 4096 == if b <= a then a - b else a - b + 0x10_0000_0000_0000
  {
    assert Wrap(4096 * a - 4096 * b) == 4096 * if b <= a then a - b else a - b + 0x10_0000_0000_0000;
  }

  /** A range that ends in the last page of the address space is such a range: its end is rounded up to zero. */
  lemma LastPageRunsOn(start: Word, end: Word)
    requires start >= 4096 && end > U64 - 4096
    ensures 4096 * PageCount(start, end) == U64 - PageBase(start)
  {
    PageCountExact(start, end);
    AlignValueRoundsUp(end, 4096);
  }

  /** Page and frame numbers are taken from below the place where an address wraps. */
  lemma WrapPages(k: nat)
    ensures Wrap(4096 * k) / 4096 % 0x800_0000 == k % 0x800_0000
    ensures Wrap(4096 * k) / 4096 % 0x1000_0000_0000 == k % 0x1000_0000_0000
  {
    WrappedPage(k);
    hide Wrap;
    PageBits(k);
    FrameBits(k);
  }

  lemma WrappedPage(k: nat)
    ensures Wrap(4096 * k) / 4096 == k % 0x10_0000_0000_0000
  {
    assert 4096 * k == U64 * (k / 0x10_0000_0000_0000) + 4096 * (k % 0x10_0000_0000_0000);
    assert Wrap(4096 * k) == 4096 * (k % 0x10_0000_0000_0000);
  }

  lemma PageBits(k: nat)
    ensures k % 0x10_0000_0000_0000 % 0x800_0000 == k % 0x800_0000
  {
    LowPart(k, 0x200_0000 * (k / 0x10_0000_0000_0000), k % 0x10_0000_0000_0000);
  }

  lemma LowPart(k: nat, q: nat, r: nat)
    requires k == 0x800_0000 * q + r
    ensures r % 0x800_0000 == k % 0x800_0000
  {
  }

  lemma FrameBits(k: nat)
    ensures k % 0x10_0000_0000_0000 % 0x1000_0000_0000 == k % 0x1000_0000_0000
  {
    assert k == 0x1000_0000_0000 * (0x100 * (k / 0x10_0000_0000_0000)) + k % 0x10_0000_0000_0000;
  }

  /** A range mapping: where it started and what it maps. */
  datatype Range = Range(status0: seq<PageStatus>, mem0: seq<Pte>, base: nat, tree0: Tree, page: nat, frame: nat,
                         bits: Flags)

  /** The first `i` pages of the range are mapped. */
  ghost predicate Ranging(r: Range, s: seq<PageStatus>, m: seq<Pte>, u: Tree, i: nat) {
    && u.flat == ApplyOps(r.tree0.flat, RangeOps(r.page, r.frame, i, r.bits))
    && Built(r.status0, s, r.mem0, m, r.tree0, u)
    && (forall k :: k in u.middles <==> k in r.tree0.middles || k in MiddleKeys(r.page, i))
    && (forall k :: k in u.lowests <==> k in r.tree0.lowests || k in LowestKeys(r.page, i))
    && |u.owner.Keys| == |r.tree0.owner.Keys| + MissingIn(r.tree0, r.page, i)
  }

  lemma {:induction false} RangeStart(r: Range)
    ensures Ranging(r, r.status0, r.mem0, r.tree0, 0)
  {
    BuiltRefl(r.status0, r.mem0, r.tree0);
    assert MiddleKeys(r.page, 0) - r.tree0.middles.Keys == {};
    assert LowestKeys(r.page, 0) - r.tree0.lowests.Keys == {};
  }

  /** The address `i` pages on. */
  function PageAfter(address: Word, i: nat): Word {
    Wrap(address + 4096 * i)
  }

  lemma FirstPage(address: Word)
    ensures PageAfter(address, 0) == address
  {
  }

  function NextPage(address: Word): Word {
    Wrap(address + 4096)
  }

  lemma NextPageIs(address: Word, i: nat)
    ensures NextPage(PageAfter(address, i)) == PageAfter(address, i + 1)
  {
    WrapAdd(address + 4096 * i, 4096);
    hide Wrap;
  }

  /** However often the address wraps, the page and frame it names are those of the range. */
  lemma RangeAddresses(start: Word, i: nat)
    requires start == PageBase(start)
    ensures PageOf(PageAfter(start, i)) == RangePage(PageNumber(start), i)
    ensures FrameOf(PageAfter(start, i)) == RangeFrame(PageNumber(start), i)
  {
    PageBaseFacts(start);
    hide PageBase, PageNumber, Wrap;
    assert PageAfter(start, i) == Wrap(4096 * (PageNumber(start) + i));
    WrapPages(PageNumber(start) + i);
  }

  lemma AddCount(s: set<nat>, k: nat, t: set<nat>)
    ensures |(s + {k}) - t| == |s - t| + if k in s || k in t then 0 else 1
  {
    if k in s || k in t {
      assert (s + {k}) - t == s - t;
    } else {
      assert (s + {k}) - t == (s - t) + {k};
    }
  }

  lemma {:induction false} MissingInStep(t: Tree, u: Tree, page: nat, i: nat)
    requires forall k :: k in u.middles <==> k in t.middles || k in MiddleKeys(page, i)
    requires forall k :: k in u.lowests <==> k in t.lowests || k in LowestKeys(page, i)
    ensures MissingIn(t, page, i + 1) == MissingIn(t, page, i) + Missing(u, RangePage(page, i))
  {
    KeysStep(page, i);
    hide MiddleKeys, LowestKeys, RangePage;
    var n := RangePage(page, i);
    AddCount(MiddleKeys(page, i), n / 512 / 512, t.middles.Keys);
    AddCount(LowestKeys(page, i), n / 512, t.lowests.Keys);
  }

  lemma {:induction false} MissingInMonotone(t: Tree, page: nat, i: nat)
    ensures MissingIn(t, page, i) <= MissingIn(t, page, i + 1)
  {
    KeysStep(page, i);
    hide MiddleKeys, LowestKeys, RangePage;
    AddCount(MiddleKeys(page, i), RangePage(page, i) / 512 / 512, t.middles.Keys);
    AddCount(LowestKeys(page, i), RangePage(page, i) / 512, t.lowests.Keys);
  }

  lemma {:induction false} MissingInGrows(t: Tree, page: nat, i: nat, j: nat)
    requires i <= j
    ensures MissingIn(t, page, i) <= MissingIn(t, page, j)
    decreases j
  {
    hide MissingIn;
    if i < j {
      MissingInGrows(t, page, i, j - 1);
      MissingInMonotone(t, page, j - 1);
    }
  }

  lemma {:induction false} KeysStep(page: nat, i: nat)
    ensures MiddleKeys(page, i + 1) == MiddleKeys(page, i) + {RangePage(page, i) / 512 / 512}
    ensures LowestKeys(page, i + 1) == LowestKeys(page, i) + {RangePage(page, i) / 512}
  {
  }

  lemma {:induction false} RangeStep(r: Range, s: seq<PageStatus>, m: seq<Pte>, u: Tree, s': seq<PageStatus>,
            m': seq<Pte>, u': Tree, i: nat)
    requires Ranging(r, s, m, u, i)
    requires var n := RangePage(r.page, i);
             && u'.flat == ApplyOp(u.flat, MapOp(n, RangeFrame(r.frame, i), r.bits))
             && Built(s, s', m, m', u, u') && Grown(u, u', 0, n)
    ensures Ranging(r, s', m', u', i + 1)
  {
    hide ApplyOp, ApplyOps, RangeOps, RangePage, MissingIn, MiddleKeys, LowestKeys, Grown, SameOutside, FreeCount,
             Built;
    RangeOpsStep(r.tree0.flat, r.page, r.frame, i, r.bits);
    BuiltTrans(r.status0, s, s', r.mem0, m, m', r.tree0, u, u');
    RangeKeysStep(r, u, u', i);
  }

  lemma {:induction false} RangeKeysStep(r: Range, u: Tree, u': Tree, i: nat)
    requires forall k :: k in u.middles <==> k in r.tree0.middles || k in MiddleKeys(r.page, i)
    requires forall k :: k in u.lowests <==> k in r.tree0.lowests || k in LowestKeys(r.page, i)
    requires |u.owner.Keys| == |r.tree0.owner.Keys| + MissingIn(r.tree0, r.page, i)
    requires Grown(u, u', 0, RangePage(r.page, i))
    ensures forall k :: k in u'.middles <==> k in r.tree0.middles || k in MiddleKeys(r.page, i + 1)
    ensures forall k :: k in u'.lowests <==> k in r.tree0.lowests || k in LowestKeys(r.page, i + 1)
    ensures |u'.owner.Keys| == |r.tree0.owner.Keys| + MissingIn(r.tree0, r.page, i + 1)
  {
    MissingInStep(r.tree0, u, r.page, i);
    KeysStep(r.page, i);
    hide RangePage, MissingIn, MiddleKeys, LowestKeys;
  }

  lemma {:induction false} RangeOpsStep(flat: map<nat, Leaf>, page: nat, frame: nat, i: nat, bits: Flags)
    ensures ApplyOps(flat, RangeOps(page, frame, i + 1, bits))
         == ApplyOp(ApplyOps(flat, RangeOps(page, frame, i, bits)),
                    MapOp(RangePage(page, i), RangeFrame(frame, i), bits))
  {
    var ops := RangeOps(page, frame, i + 1, bits);
    assert ops[..i] == RangeOps(page, frame, i, bits);
  }

  /** A page of the range could not be mapped: the whole range needs more tables than there were pages. */
  lemma {:induction false} RangeStuck(r: Range, s: seq<PageStatus>, m: seq<Pte>, u: Tree, i: nat, count: nat)
    requires Ranging(r, s, m, u, i) && i < count
    requires FreeCount(s) < Missing(u, RangePage(r.page, i))
    ensures FreeCount(r.status0) < MissingIn(r.tree0, r.page, count)
  {
    MissingInStep(r.tree0, u, r.page, i);
    MissingInGrows(r.tree0, r.page, i + 1, count);
  }

  lemma {:induction false} RangeEnd(r: Range, s: seq<PageStatus>, m: seq<Pte>, u: Tree, i: nat)
    requires Ranging(r, s, m, u, i)
    ensures u.flat == ApplyOps(r.tree0.flat, RangeOps(r.page, r.frame, i, r.bits))
    ensures Built(r.status0, s, r.mem0, m, r.tree0, u)
    ensures FreeCount(r.status0) >= MissingIn(r.tree0, r.page, i)
  {
  }

  // ----- the walk of `map`, on values -----

  /** Where `map` started (`...0`), where it is, and the page it maps. */
  datatype Walk = Walk(status0: seq<PageStatus>, mem0: seq<Pte>, tree0: Tree,
                       status: seq<PageStatus>, mem: seq<Pte>, tree: Tree, base: nat, n: nat)

  ghost function WalkAt(status: seq<PageStatus>, mem: seq<Pte>, base: nat, t: Tree, n: nat): Walk {
    Walk(status, mem, t, status, mem, t, base, n)
  }

  ghost predicate SameWalk(w: Walk, x: Walk) {
    x.status0 == w.status0 && x.mem0 == w.mem0 && x.tree0 == w.tree0 && x.base == w.base && x.n == w.n
  }

  /** `map` has reached the entry of page `n` at `level`, having built what was missing above it. */
  ghost predicate Walking(w: Walk, level: nat) {
    && level <= 2 && w.n < VIRTUAL_PAGES
    && Represents(w.mem, w.base, |w.status|, w.tree) && InUse(w.status, w.tree)
    && HasTable(w.tree, level, w.n) && Slot(w.tree, level, w.n) < |w.mem| && w.tree.flat == w.tree0.flat
    && Built(w.status0, w.status, w.mem0, w.mem, w.tree0, w.tree)
    && Grown(w.tree0, w.tree, level, w.n)
  }

  lemma {:induction false} WalkStart(w: Walk)
    requires w == WalkAt(w.status, w.mem, w.base, w.tree, w.n) && w.n < VIRTUAL_PAGES
    requires Represents(w.mem, w.base, |w.status|, w.tree) && InUse(w.status, w.tree)
    ensures Walking(w, 2) && Slot(w.tree, 2, w.n) < |w.mem|
            && Slot(w.tree, 2, w.n) == 512 * w.tree.root + w.n / 512 / 512
  {
    PageParts(w.n);
    BuiltRefl(w.status, w.mem, w.tree);
    RootEntry(w.mem, w.base, |w.status|, w.tree, w.n / 512 / 512);
  }

  /** What the walk reads at its entry: the way to the next table when there is one, zero otherwise. */
  lemma {:induction false} WalkRead(w: Walk, level: nat)
    requires Walking(w, level + 1)
    ensures w.base + |w.status| <= FRAMES
    ensures var e := w.mem[Slot(w.tree, level + 1, w.n)];
            if e.flags.valid then
              Walking(w, level) && HasTable(w.tree, level, w.n) && Slot(w.tree, level, w.n) < |w.mem|
                        && EntryIndex(e, w.base, SlotIndex(level, w.n)) == Slot(w.tree, level, w.n)
            else e == ZERO_PTE && !HasTable(w.tree, level, w.n)
  {
    FollowSlot(w.mem, w.base, |w.status|, w.tree, level, w.n);
    GrownStep(w.tree0, w.tree, level, w.n, 0);
  }

  /** A table is missing and no page is left: the walk needed more tables than there were pages. */
  lemma {:induction false} WalkStuck(w: Walk, level: nat)
    requires Walking(w, level + 1) && !HasTable(w.tree, level, w.n) && FreeCount(w.status) == 0
    ensures FreeCount(w.status0) < Missing(w.tree0, w.n)
  {
    GrownStep(w.tree0, w.tree, level, w.n, 0);
  }

  /** The walk after page `p` was taken for the missing table. */
  ghost function Linked(w: Walk, level: nat, p: nat): Walk
    requires HasTable(w.tree, level + 1, w.n) && Slot(w.tree, level + 1, w.n) < |w.mem| && w.base + p < FRAMES
  {
    w.(status := MarkRun(w.status, p, 1),
       mem := ZeroPages(w.mem, p, 1)[Slot(w.tree, level + 1, w.n) := Branch(w.base + p)],
       tree := Grow(w.tree, level, w.n, p))
  }

  lemma {:induction false} WalkLink(w: Walk, level: nat, p: nat)
    requires Walking(w, level + 1) && !HasTable(w.tree, level, w.n)
    requires p < |w.status| && FreeRun(w.status, p, 1)
    ensures var x, v := Linked(w, level, p), Slot(w.tree, level + 1, w.n);
            && Walking(x, level) && HasTable(x.tree, level, w.n) && Slot(x.tree, level, w.n) < |x.mem|
            && EntryIndex(x.mem[v], w.base, SlotIndex(level, w.n)) == Slot(x.tree, level, w.n)
  {
    hide Expected, Placed, FreeCount, EntryIndex, MarkRun, ZeroPages;
    var x := Linked(w, level, p);
    AddedTable(w.status, w.mem, w.base, w.tree, level, w.n, p);
    GrownStep(w.tree0, w.tree, level, w.n, p);
    BuiltTrans(w.status0, w.status, x.status, w.mem0, w.mem, x.mem, w.tree0, w.tree, x.tree);
    FollowSlot(x.mem, w.base, |w.status|, x.tree, level, w.n);
  }

  lemma {:induction false} WalkEnd(w: Walk, op: MapOp)
    requires Walking(w, 0) && op.page == w.n
    ensures Slot(w.tree, 0, w.n) < |w.mem|
    ensures var v, u := Slot(w.tree, 0, w.n), w.tree.(flat := ApplyOp(w.tree0.flat, op));
            var e := w.mem[v].(flags := Either(w.mem[v].flags.(accessed := true, dirty := true, valid := true),
                      op.bits), ppn := op.frame);
            && Represents(w.mem[v := e], w.base, |w.status|, u) && InUse(w.status, u)
            && Built(w.status0, w.status, w.mem0, w.mem[v := e], w.tree0, u) && Grown(w.tree0, u, 0, w.n)
    ensures FreeCount(w.status0) >= Missing(w.tree0, w.n)
  {
    LeafWritten(w.status0, w.status, w.mem0, w.mem, w.base, w.tree0, w.tree, op);
  }

  /** What building tables may do: use up one free page per table, and write no page outside the tree. */
  ghost predicate Built(status: seq<PageStatus>, after: seq<PageStatus>, was: seq<Pte>, now: seq<Pte>, t: Tree,
                        u: Tree) {
    && u.root == t.root && t.owner.Keys <= u.owner.Keys && |status| == |after|
    && (forall p | p in u.owner.Keys - t.owner.Keys :: p < |status| && status[p].Free?)
    && (forall p | 0 <= p < |status| && !status[p].Free? :: !after[p].Free?)
    && FreeCount(after) + |u.owner.Keys| == FreeCount(status) + |t.owner.Keys|
    && SameOutside(was, now, u.owner.Keys)
  }

  lemma {:induction false} BuiltRefl(status: seq<PageStatus>, mem: seq<Pte>, t: Tree)
    ensures Built(status, status, mem, mem, t, t)
  {
  }

  /** The final write of `map`: the entry of a page whose tables exist. */
  lemma {:induction false} LeafWritten(status: seq<PageStatus>, after: seq<PageStatus>, was: seq<Pte>, m: seq<Pte>,
                                       base: nat, t: Tree, u: Tree, op: MapOp)
    requires Represents(m, base, |after|, u) && HasTable(u, 0, op.page)
    requires Built(status, after, was, m, t, u)
    ensures Slot(u, 0, op.page) < |m|
    ensures var v, w := Slot(u, 0, op.page), u.(flat := ApplyOp(u.flat, op));
            var now := m[v := m[v].(flags := Either(m[v].flags.(accessed := true, dirty := true, valid := true),
                      op.bits), ppn := op.frame)];
            Represents(now, base, |after|, w) && Built(status, after, was, now, t, w)
  {
    hide Expected, FreeCount, MarkRun, GetPpn, EntryIndex, Placed, HasRole;
    LowestEntry(m, base, |after|, u, op.page);
    SlotInTree(u, |after|, 0, op.page);
    var v, i0 := SlotPage(u, 0, op.page), SlotIndex(0, op.page);
    var l := Remap(u.flat, op);
    assert m[512 * v + i0].(flags := Either(m[512 * v + i0].flags.(accessed := true, dirty := true, valid := true),
              op.bits), ppn := op.frame)
        == LeafPte(l);
    SetLeafRepresents(m, base, |after|, u, op.page, l);
    var now := m[512 * v + i0 := LeafPte(l)];
    UpdateInside(was, m, v, i0, LeafPte(l), u.owner.Keys);
  }

  /** Writing an entry of a page in `except` keeps the agreement outside it. */
  lemma {:induction false} UpdateInside(was: seq<Pte>, m: seq<Pte>, p: nat, i0: nat, e: Pte, except: set<nat>)
    requires SameOutside(was, m, except) && p in except && i0 < 512 && 512 * p + i0 < |m|
    ensures SameOutside(was, m[512 * p + i0 := e], except)
  {
    forall q: nat, i: nat | q !in except && i < 512 && 512 * q + i < |was|
      ensures Entry(m[512 * p + i0 := e], q, i) == Entry(was, q, i)
    {
      EntryUpdate(m, p, i0, e, q, i);
      assert Entry(m, q, i) == Entry(was, q, i);
    }
  }

  lemma {:induction false} BuiltTrans(s0: seq<PageStatus>, s1: seq<PageStatus>, s2: seq<PageStatus>,
                                      m0: seq<Pte>, m1: seq<Pte>, m2: seq<Pte>, t: Tree, u: Tree, w: Tree)
    requires Built(s0, s1, m0, m1, t, u) && Built(s1, s2, m1, m2, u, w)
    ensures Built(s0, s2, m0, m2, t, w)
  {
    forall p | p in w.owner.Keys - t.owner.Keys
      ensures p < |s0| && s0[p].Free?
    {
      assert p !in u.owner.Keys ==> p in w.owner.Keys - u.owner.Keys && s1[p].Free?;
      assert p in u.owner.Keys ==> p in u.owner.Keys - t.owner.Keys;
    }
    assert SameOutside(m0, m2, w.owner.Keys) by {
      forall p: nat, i: nat | p !in w.owner.Keys && i < 512 && 512 * p + i < |m0|
        ensures Entry(m2, p, i) == Entry(m0, p, i)
      {
        assert p !in u.owner.Keys;
        assert Entry(m1, p, i) == Entry(m0, p, i);
      }
    }
  }

  /** The tree and the descriptors after `LinkTable` linked page `p` in. */
  lemma {:induction false} AddedTable(status: seq<PageStatus>, was: seq<Pte>, base: nat,
                                      t: Tree, level: nat, n: nat, p: nat)
    requires Represents(was, base, |status|, t) && InUse(status, t)
    requires n < VIRTUAL_PAGES && level < 2 && HasTable(t, level + 1, n) && !HasTable(t, level, n)
    requires Slot(t, level + 1, n) < |was|
    requires p < |status| && FreeRun(status, p, 1)
    ensures var now := ZeroPages(was, p, 1)[Slot(t, level + 1, n) := Branch(base + p)];
            var u, after := Grow(t, level, n, p), MarkRun(status, p, 1);
            && Represents(now, base, |status|, u) && InUse(after, u)
            && p !in t.owner && HasTable(u, level, n)
            && HasTable(u, level + 1, n) && Slot(u, level + 1, n) == Slot(t, level + 1, n)
            && Built(status, after, was, now, t, u)
  {
    InUseAfterMark(status, t, p, 1);
    GrowInUse(status, t, level, n, p);
    RepresentsPlaced(was, base, |status|, t);
    hide Represents, Placed, Built, InUse, MarkRun, FreeRun, FreeCount;
    var zeroed := ZeroPages(was, p, 1);
    assert SameOutside(was, zeroed, {p});
    RepresentsFrame(was, zeroed, base, |status|, t, {p});
    GrowRepresents(zeroed, base, |status|, t, level, n, p);
    GrowBuilt(was, zeroed, base, |status|, t, level, n, p);
    BuiltByPage(status, was, zeroed[Slot(t, level + 1, n) := Branch(base + p)], t, Grow(t, level, n, p), p);
  }

  lemma RepresentsPlaced(m: seq<Pte>, base: nat, pages: nat, t: Tree)
    requires Represents(m, base, pages, t)
    ensures Placed(t, pages) && base + pages <= FRAMES && |m| == 512 * pages
  {
  }

  lemma {:induction false} GrowInUse(status: seq<PageStatus>, t: Tree, level: nat, n: nat, p: nat)
    requires InUse(MarkRun(status, p, 1), t) && p < |status|
    ensures InUse(MarkRun(status, p, 1), Grow(t, level, n, p))
  {
  }

  /** Taking the free page `p` into the tree uses up that page. */
  lemma {:induction false} BuiltByPage(status: seq<PageStatus>, was: seq<Pte>, now: seq<Pte>, t: Tree, u: Tree, p: nat)
    requires p < |status| && FreeRun(status, p, 1)
    requires u.root == t.root && u.owner.Keys == t.owner.Keys + {p} && |u.owner.Keys| == |t.owner.Keys| + 1
    requires SameOutside(was, now, u.owner.Keys)
    ensures Built(status, MarkRun(status, p, 1), was, now, t, u)
  {
    MarkFreeCount(status, p, 1);
    hide FreeCount, SameOutside;
  }

  lemma {:induction false} GrowBuilt(was: seq<Pte>, zeroed: seq<Pte>, base: nat, pages: nat, t: Tree, level: nat,
                                     n: nat, p: nat)
    requires Placed(t, pages) && n < VIRTUAL_PAGES && level < 2 && base + pages <= FRAMES
    requires HasTable(t, level + 1, n) && !HasTable(t, level, n) && p !in t.owner && p < pages
    requires Slot(t, level + 1, n) < |was| == 512 * pages
    requires SameOutside(was, zeroed, {p})
    ensures var u := Grow(t, level, n, p);
            && u.owner.Keys == t.owner.Keys + {p} && |u.owner.Keys| == |t.owner.Keys| + 1
            && SameOutside(was, zeroed[Slot(t, level + 1, n) := Branch(base + p)], u.owner.Keys)
            && HasTable(u, level, n) && HasTable(u, level + 1, n) && Slot(u, level + 1, n) == Slot(t, level + 1, n)
  {
    PageParts(n);
    var u := Grow(t, level, n, p);
    assert u.owner.Keys == t.owner.Keys + {p};
    var v, i0 := SlotPage(t, level + 1, n), SlotIndex(level + 1, n);
    assert v in t.owner && i0 < 512;
    var now := zeroed[512 * v + i0 := Branch(base + p)];
    forall q: nat, i: nat | q !in u.owner.Keys && i < 512 && 512 * q + i < |was|
      ensures Entry(now, q, i) == Entry(was, q, i)
    {
      EntryUpdate(zeroed, v, i0, Branch(base + p), q, i);
      assert Entry(zeroed, q, i) == Entry(was, q, i);
    }
  }

  /** Page tables of `t` lie in allocated pages. */
  ghost predicate InUse(status: seq<PageStatus>, t: Tree) {
    forall p | p in t.owner :: p < |status| && !status[p].Free?
  }

  lemma {:induction false} InUseAfterMark(status: seq<PageStatus>, t: Tree, first: nat, count: nat)
    requires InUse(status, t) && FreeRun(status, first, count)
    ensures InUse(MarkRun(status, first, count), t)
    ensures forall p | p in t.owner :: !(first <= p < first + count)
  {
  }

  // ----- requests for pages -----

  /** An ordinary request is answered by the lowest free run, and what it marks is on record. */
  lemma {:induction false} Served(was: seq<PageStatus>, live: map<nat, nat>, count: Word)
    requires Encodes(was, live)
    ensures !Ordinary(was, count) ==> Kept(was, live, count) == live
    ensures Ordinary(was, count) ==>
              var k := FirstFreeRun(was, Needed(count));
              && Encodes(Marked(was, count), Kept(was, live, count))
              && was != [] && (k == |was| ==> Marked(was, count) == was && Kept(was, live, count) == live)
              && (k < |was| ==>
                    && Answer(was, count) == Pages(k) && k !in live
                    && Marked(was, count) == MarkRun(was, k, count)
                    && Kept(was, live, count) == Recorded(live, k, count))
              && (k == |was| ==> Answer(was, count) == if was[|was| - 1].Free? then ScannedPastEnd else Null)
  {
    if Ordinary(was, count) {
      var k := FirstFreeRun(was, Needed(count));
      OrdinaryAnswer(was, count);
      OrdinaryMarks(was, live, count);
      StopIsRun(was, count);
      if k < |was| {
        RunsAvoidFree(was, live, k, Needed(count));
        MarkEncodes(was, live, k, Needed(count));
        if count == 0 {
          assert MarkRun(was, k, 0) == was;
        }
      }
    }
  }

  /** What the outer loop makes of the first page it stops at. */
  lemma {:induction false} ScanAnswers(was: seq<PageStatus>, count: Word, i: nat)
    requires Stops(was, count, i) && forall k: nat | k < i :: !Stops(was, count, k)
    ensures if |was| < i + count < U64 then Answer(was, count) == ScannedPastEnd && Marked(was, count) == was
            else
              && Answer(was, count) == (if LastMarked(i, count) < |was| then Pages(i) else MarkedPastEnd)
              && Marked(was, count) == MarkTo(was, i, LastMarked(i, count))
  {
    FirstStopIs(was, count, i);
    hide FirstStop, Stops, LastMarked;
  }

  lemma WordsAre(count: Word)
    ensures count <= FRAMES ==> WordsOf(count) == 512 * count
    ensures count >= U64 - FRAMES ==> WordsOf(count) > 512 * FRAMES
  {
    if count <= FRAMES {
      WrapSmall(4096 * count);
    } else if count >= U64 - FRAMES {
      var t := U64 - count;
      assert 4096 * count == U64 - 4096 * t + 0x1_0000_0000_0000_0000 * 4095;
      Shifted(4096 * count, 4095);
      WrapSmall(U64 - 4096 * t);
    }
  }

  /** The words cleared for a granted request: its pages for an ordinary one, all from its page on for any other. */
  lemma {:induction false} Cleared(was: seq<PageStatus>, count: Word, first: nat, m: seq<Pte>)
    requires 0 < |was| <= FRAMES && |m| == 512 * |was| && Answer(was, count) == Pages(first)
    ensures first < |was|
    ensures if Ordinary(was, count) then
              && 512 * first + WordsOf(count) <= |m|
              && ZeroFrom(m, 512 * first, WordsOf(count)) == ZeroPages(m, first, count)
            else
              && 512 * first + WordsOf(count) > |m|
              && ZeroFrom(m, 512 * first, WordsOf(count)) == ZeroPages(m, first, |was| - first)
  {
    GrantedRange(was, count, first);
    WordsAre(count);
    hide Answer, Ordinary, WordsOf;
  }

  lemma {:induction false} GrantedRange(was: seq<PageStatus>, count: Word, first: nat)
    requires 0 < |was| <= FRAMES && Answer(was, count) == Pages(first)
    ensures first < |was|
    ensures Ordinary(was, count) ==> first + count <= |was|
    ensures !Ordinary(was, count) ==> count + |was| > U64
  {
    LastMarkedIs(first, count);
    if Ordinary(was, count) {
      StopIsRun(was, count);
    }
    hide AllFree, LastMarked;
  }

  lemma {:induction false} NothingFound(was: seq<PageStatus>, count: Word)
    requires forall k: nat | k < |was| :: !Stops(was, count, k)
    ensures Answer(was, count) == Null && Marked(was, count) == was
  {
    FirstStopIs(was, count, |was|);
    hide FirstStop, Stops, LastMarked;
  }

  // ----- whole address spaces -----

  /** A zeroed page is the root of an empty address space. */
  lemma {:induction false} ZeroedRootIsEmpty(mem: seq<Pte>, base: nat, pages: nat, root: nat)
    requires |mem| == 512 * pages && base + pages <= FRAMES && root < pages
    requires forall i | 0 <= i < 512 :: Entry(mem, root, i) == ZERO_PTE
    ensures Represents(mem, base, pages, Tree(root, map[], map[], map[root := Root], map[]))
  {
  }

  /**
    The law of the builder and the reader together. Whatever mappings built the space, `translate` finds
    exactly the mapped pages, each at the frame of the last mapping that named it.
   */
  lemma {:induction false} TranslateAfterMappings(mem: seq<Pte>, base: nat, pages: nat, t: Tree, ops: seq<MapOp>,
                                                  address: Word)
    requires Represents(mem, base, pages, t) && t.flat == ApplyOps(map[], ops)
    ensures 512 * t.root + 512 <= |mem|
    ensures var n, r := PageOf(address), Translate(mem, base, t.root, address);
            if Touches(ops, n) then
              exists k :: IsLastOp(ops, n, k) && r == Mapped(4096 * ops[k].frame + address % 4096)
            else r.Invalid?
  {
    TranslateReadsFlatMap(mem, base, pages, t, address);
    HistoryOfPage(map[], ops, PageOf(address));
    hide Represents, Translate, ApplyOps, PageOf;
    if Touches(ops, PageOf(address)) {
      var k :| IsLastOp(ops, PageOf(address), k) && t.flat[PageOf(address)].frame == ops[k].frame;
    }
  }

  /** Building one address space leaves every other one, with all its translations, as it was. */
  lemma {:induction false} OtherSpaceUntouched(status: seq<PageStatus>, after: seq<PageStatus>, was: seq<Pte>,
                                               now: seq<Pte>, base: nat, t: Tree, u: Tree, other: Tree, address: Word)
    requires Built(status, after, was, now, t, u)
    requires Represents(was, base, |status|, other) && InUse(status, other) && other.owner.Keys !! t.owner.Keys
    ensures Represents(now, base, |status|, other) && InUse(after, other) && other.owner.Keys !! u.owner.Keys
    ensures 512 * other.root + 512 <= |was| == |now|
    ensures Translate(now, base, other.root, address) == Translate(was, base, other.root, address)
  {
    assert other.owner.Keys !! u.owner.Keys by {
      forall p | p in other.owner.Keys
        ensures p !in u.owner.Keys
      {
        assert !status[p].Free?;
        assert p in u.owner.Keys ==> p in u.owner.Keys - t.owner.Keys;
      }
    }
    RepresentsFrame(was, now, base, |status|, other, u.owner.Keys);
    TranslateReadsFlatMap(was, base, |status|, other, address);
    TranslateReadsFlatMap(now, base, |status|, other, address);
    hide Represents, Translate, Built, Lookup;
  }
}
