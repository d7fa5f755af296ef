/** What a mapped range means for addresses: a window onto consecutive physical memory. */
module MappedRanges {
  import opened MachineWords
  import opened PageTables
  import M = MemoryManagement
  import Sv39

  /** How far `va` lies behind `start` in the 39-bit address space. */
  ghost function Distance(start: Word, va: Word): (d: nat)
    ensures d < 0x80_0000_0000
  {
    (va - start) % 0x80_0000_0000
  }

  /** The bytes from `start`, rounded down to a page, to `end`, rounded up to one. */
  ghost predicate Window(start: Word, end: Word, first: Word, size: nat) {
    && first % 0x1000 == 0 && first <= start < first + 0x1000
    && (first + size) % 0x1000 == 0 && end <= first + size < end + 0x1000
  }

  lemma {:induction false} DistanceIs(page: nat, va: Word, first: Word)
    requires first == 4096 * page
    ensures Distance(first, va) == 4096 * ((PageOf(va) - page) % 0x800_0000) + va % 4096
  {
    Sv39.VirtualParts(va);
    hide PageOf;
    var n, o, high := PageOf(va), va % 4096, va / 0x80_0000_0000;
    var q, k := (n - page) / 0x800_0000, (n - page) % 0x800_0000;
    assert va - first == 0x80_0000_0000 * (high + q) + (4096 * k + o);
  }

  lemma FrameSum(frame: nat, k: nat, o: nat)
    requires o < 4096
    ensures 4096 * ((frame + k) % 0x1000_0000_0000) + o == (4096 * frame + (4096 * k + o)) % 0x100_0000_0000_0000
  {
    var q := (frame + k) / 0x1000_0000_0000;
    assert 4096 * frame + (4096 * k + o)
        == 0x100_0000_0000_0000 * q + (4096 * ((frame + k) % 0x1000_0000_0000) + o);
  }

  /** The source's page numbers and its count are those of the window. */
  lemma {:induction false} WindowIs(start: Word, end: Word, first: Word, size: nat)
    requires Window(start, end, first, size) && size <= 0x80_0000_0000
    ensures first == 4096 * M.PageNumber(start) && size == 4096 * M.PageCount(start, end)
  {
    AlignValueRoundsUp(end, 4096);
    M.PageBaseFacts(start);
    M.PageCountExact(start, end);
    hide AlignValue, M.PageCount;
    BoundaryIs(start, first);
    if end <= U64 - 4096 {
      BoundaryAbove(end, AlignValue(end, 4096), first + size);
    } else {
      BoundaryAbove(end, U64, first + size);
    }
  }

  lemma BoundaryIs(x: nat, a: nat)
    requires a % 0x1000 == 0 && a <= x < a + 0x1000
    ensures a == x - x % 4096
  {
  }

  lemma BoundaryAbove(x: nat, a: nat, b: nat)
    requires a % 0x1000 == 0 && x <= a < x + 0x1000 && b % 0x1000 == 0 && x <= b < x + 0x1000
    ensures a == b
  {
  }

  /** The leaf an address of the window gets: the physical byte as far behind the start, and the permissions joined. */
  lemma {:induction false} LeafInRange(flat: map<nat, Leaf>, page: nat, frame: nat, count: nat, bits: Flags, va: Word,
                                       first: Word)
    requires count <= VIRTUAL_PAGES && first == 4096 * page
    ensures var r, n, d := ApplyOps(flat, RangeOps(page, frame, count, bits)), PageOf(va), Distance(first, va);
            if d < 4096 * count then
              && n in r && 4096 * r[n].frame + va % 4096 == (4096 * frame + d) % 0x100_0000_0000_0000
              && r[n].flags == Either(Either(if n in flat then flat[n].flags else NO_FLAGS, VAD_FLAGS), bits)
            else (n in r <==> n in flat) && (n in flat ==> r[n] == flat[n])
  {
    hide *;
    DistanceIs(page, va, first);
    PageInSpace(va);
    RangeMapsExactly(flat, page, frame, count, bits, PageOf(va));
    var k := (PageOf(va) - page) % 0x800_0000;
    FrameSum(frame, k, va % 4096);
  }

  lemma PageInSpace(va: Word)
    ensures PageOf(va) < VIRTUAL_PAGES
  {
  }

  /** What `MapRange` leaves, as its contract has it. */
  ghost predicate RangeMapped(t: Tree, u: Tree, start: Word, end: Word, physicalStart: Word, bits: Flags) {
    u.flat == ApplyOps(t.flat, RangeOps(M.PageNumber(start), M.PageNumber(physicalStart), M.PageCount(start, end),
                                        bits))
  }

  lemma {:induction false} LeafInWindow(t: Tree, u: Tree, start: Word, end: Word, physicalStart: Word, bits: Flags,
                                        first: Word, size: nat, va: Word)
    requires RangeMapped(t, u, start, end, physicalStart, bits)
    requires Window(start, end, first, size) && size <= 0x80_0000_0000
    ensures var n, d := PageOf(va), Distance(first, va);
            if d < size then
              && n in u.flat
              && 4096 * u.flat[n].frame + va % 4096
                 == (physicalStart - physicalStart % 0x1000 + d) % 0x100_0000_0000_0000
              && u.flat[n].flags == Either(Either(if n in t.flat then t.flat[n].flags else NO_FLAGS, VAD_FLAGS), bits)
            else (n in u.flat <==> n in t.flat) && (n in t.flat ==> u.flat[n] == t.flat[n])
  {
    MappedIs(t, u, start, end, physicalStart, bits);
    hide *;
    WindowIs(start, end, first, size);
    FrameStart(physicalStart);
    CountInSpace(M.PageCount(start, end));
    LeafInRange(t.flat, M.PageNumber(start), M.PageNumber(physicalStart), M.PageCount(start, end), bits, va, first);
  }

  lemma MappedIs(t: Tree, u: Tree, start: Word, end: Word, physicalStart: Word, bits: Flags)
    requires RangeMapped(t, u, start, end, physicalStart, bits)
    ensures u.flat
         == ApplyOps(t.flat, RangeOps(M.PageNumber(start), M.PageNumber(physicalStart), M.PageCount(start, end), bits))
  {
    hide ApplyOps, M.PageNumber, M.PageCount;
  }

  lemma FrameStart(a: Word)
    ensures 4096 * M.PageNumber(a) == a - a % 0x1000
  {
  }

  lemma CountInSpace(count: nat)
    requires 4096 * count <= 0x80_0000_0000
    ensures count <= VIRTUAL_PAGES
  {
  }

  /**
    After a range of at most the virtual address space was mapped, an address `d` bytes into its window is
    translated to the byte `d` bytes into the physical page it starts at, with the permissions added.
   */
  lemma {:induction false} RangeRead(mem: seq<Pte>, base: nat, pages: nat, t: Tree, u: Tree, start: Word, end: Word,
                                     physicalStart: Word, bits: Flags, first: Word, size: nat, va: Word)
    requires Represents(mem, base, pages, u) && RangeMapped(t, u, start, end, physicalStart, bits)
    requires Window(start, end, first, size) && size <= 0x80_0000_0000 && Distance(first, va) < size
    ensures 512 * u.root + 512 <= |mem|
    ensures Translate(mem, base, u.root, va)
         == Mapped((physicalStart - physicalStart % 0x1000 + Distance(first, va)) % 0x100_0000_0000_0000)
    ensures PageOf(va) in u.flat
    ensures var n := PageOf(va);
            var f, had := u.flat[n].flags, n in t.flat;
            && (f.read <==> bits.read || (had && t.flat[n].flags.read))
            && (f.write <==> bits.write || (had && t.flat[n].flags.write))
            && (f.execute <==> bits.execute || (had && t.flat[n].flags.execute))
            && (f.user <==> bits.user || (had && t.flat[n].flags.user))
            && (f.global <==> bits.global || (had && t.flat[n].flags.global))
  {
    LeafInWindow(t, u, start, end, physicalStart, bits, first, size, va);
    hide Represents, RangeMapped, Window, Distance, Translate, PageOf;
    TranslateReadsFlatMap(mem, base, pages, u, va);
    Sv39.LookupIs(u, va);
  }

  /** An address outside the window is translated as it was before, by the kernel and by the hardware. */
  lemma {:induction false} RangeKeeps(was: seq<Pte>, now: seq<Pte>, base: nat, pages: nat, t: Tree, u: Tree,
                                      start: Word, end: Word, physicalStart: Word, bits: Flags, first: Word, size: nat,
                                      va: Word)
    requires Represents(was, base, pages, t) && Represents(now, base, pages, u)
    requires RangeMapped(t, u, start, end, physicalStart, bits)
    requires Window(start, end, first, size) && size <= 0x80_0000_0000 && size <= Distance(first, va)
    ensures 512 * t.root + 512 <= |was| && 512 * u.root + 512 <= |now|
    ensures var before, after := Translate(was, base, t.root, va), Translate(now, base, u.root, va);
            before == after || (before.Invalid? && after.Invalid?)
    ensures Sv39.Hardware(was, base, 4096 * (base + t.root), va) == Sv39.Hardware(now, base, 4096 * (base + u.root), va)
  {
    hide *;
    LeafInWindow(t, u, start, end, physicalStart, bits, first, size, va);
    AgreeIs(t, u, va);
    ReadsAlike(was, now, base, pages, t, u, va);
    FetchesAlike(was, now, base, pages, t, u, va);
  }

  /** The trees say the same about the page of `va`. */
  ghost predicate Agree(t: Tree, u: Tree, va: Word) {
    var n := PageOf(va);
    (n in u.flat <==> n in t.flat) && (n in t.flat ==> u.flat[n] == t.flat[n])
  }

  lemma {:induction false} ReadsAlike(was: seq<Pte>, now: seq<Pte>, base: nat, pages: nat, t: Tree, u: Tree, va: Word)
    requires Represents(was, base, pages, t) && Represents(now, base, pages, u) && Agree(t, u, va)
    ensures 512 * t.root + 512 <= |was| && 512 * u.root + 512 <= |now|
    ensures var before, after := Translate(was, base, t.root, va), Translate(now, base, u.root, va);
            before == after || (before.Invalid? && after.Invalid?)
  {
    hide *;
    AgreeIs(t, u, va);
    TranslateReadsFlatMap(was, base, pages, t, va);
    TranslateReadsFlatMap(now, base, pages, u, va);
    Sv39.LookupIs(t, va);
    Sv39.LookupIs(u, va);
  }

  lemma {:induction false} FetchesAlike(was: seq<Pte>, now: seq<Pte>, base: nat, pages: nat, t: Tree, u: Tree, va: Word)
    requires Represents(was, base, pages, t) && Represents(now, base, pages, u) && Agree(t, u, va)
    ensures Sv39.Hardware(was, base, 4096 * (base + t.root), va) == Sv39.Hardware(now, base, 4096 * (base + u.root), va)
  {
    hide *;
    AgreeIs(t, u, va);
    Sv39.HardwareReadsFlatMap(was, base, pages, t, va);
    Sv39.HardwareReadsFlatMap(now, base, pages, u, va);
    Sv39.HardwareLookupIs(t, va);
    Sv39.HardwareLookupIs(u, va);
    Sv39.WalkedBy(was, base, 4096 * (base + t.root), va, Sv39.HardwareLookup(t, va));
    Sv39.WalkedBy(now, base, 4096 * (base + u.root), va, Sv39.HardwareLookup(u, va));
  }

  lemma AgreeIs(t: Tree, u: Tree, va: Word)
    ensures Agree(t, u, va) <==>
              (PageOf(va) in u.flat <==> PageOf(va) in t.flat)
              && (PageOf(va) in t.flat ==> u.flat[PageOf(va)] == t.flat[PageOf(va)])
  {
    hide PageOf;
  }
}
