/**
  Page tables as the hardware reads them: the bits of an entry's word and the address translation process of
  the RISC-V Privileged Architecture 20211203, sections 4.3.2 and 4.4. What the kernel maps is what the
  hardware, which knows nothing of trees and flat maps, then translates.
 */
module Sv39 {
  import opened MachineWords
  import opened PageTables

  // ----- addresses and words -----

  lemma Parts(a: nat)
    ensures a == 4096 * (a / 4096) + a % 4096
  {
  }

  /** A virtual address is a page and an offset, 39 bits of it. */
  lemma {:induction false} VirtualParts(a: Word)
    ensures 4096 * PageOf(a) + a % 4096 == a % 0x80_0000_0000
  {
    Parts(a);
    var q := a / 4096;
    assert q == 0x800_0000 * (q / 0x800_0000) + q % 0x800_0000;
    assert a == 0x80_0000_0000 * (q / 0x800_0000) + (4096 * PageOf(a) + a % 4096);
  }

  /** A physical address is a frame and an offset, 56 bits of it. */
  lemma {:induction false} PhysicalParts(a: Word)
    ensures 4096 * FrameOf(a) + a % 4096 == a % 0x100_0000_0000_0000
  {
    Parts(a);
    var q := a / 4096;
    assert q == 0x1000_0000_0000 * (q / 0x1000_0000_0000) + q % 0x1000_0000_0000;
    assert a == 0x100_0000_0000_0000 * (q / 0x1000_0000_0000) + (4096 * FrameOf(a) + a % 4096);
  }

  lemma Nibble(b0: nat, b1: nat, b2: nat, b3: nat, rest: nat, w: nat)
    requires b0 <= 1 && b1 <= 1 && b2 <= 1 && b3 <= 1 && w == b0 + 2 * b1 + 4 * b2 + 8 * b3 + 16 * rest
    ensures w % 2 == b0 && w / 2 % 2 == b1 && w / 4 % 2 == b2 && w / 8 % 2 == b3 && w / 16 == rest
  {
    assert w / 2 == b1 + 2 * (b2 + 2 * b3 + 4 * rest);
    assert w / 4 == b2 + 2 * (b3 + 2 * rest);
    assert w / 8 == b3 + 2 * rest;
  }

  lemma Deeper(w: nat)
    ensures w / 16 / 2 == w / 32 && w / 16 / 4 == w / 64 && w / 16 / 8 == w / 128
  {
  }

  /** What `Bit` gives a flag of weight one: the bit as a number. */
  function One(b: bool): (r: nat)
    ensures r <= 1 && (r == 1 <==> b)
  {
    if b then 1 else 0
  }

  lemma {:induction false} WordSum(e: Pte, low: nat, high: nat)
    requires low == One(e.flags.valid) + 2 * One(e.flags.read) + 4 * One(e.flags.write) + 8 * One(e.flags.execute)
    requires high == One(e.flags.user) + 2 * One(e.flags.global) + 4 * One(e.flags.accessed) + 8 * One(e.flags.dirty)
    ensures Value(e) == low + 16 * high + 0x100 * (e.rsw + 4 * e.ppn + 0x4000_0000_0000 * e.reserved)
  {
    LowSum(e.flags, low);
    HighSum(e.flags, high);
    hide One, Bit;
  }

  lemma LowSum(f: Flags, low: nat)
    requires low == One(f.valid) + 2 * One(f.read) + 4 * One(f.write) + 8 * One(f.execute)
    ensures low == Bit(f.valid, 1) + Bit(f.read, 2) + Bit(f.write, 4) + Bit(f.execute, 8)
  {
  }

  lemma HighSum(f: Flags, high: nat)
    requires high == One(f.user) + 2 * One(f.global) + 4 * One(f.accessed) + 8 * One(f.dirty)
    ensures 16 * high == Bit(f.user, 16) + Bit(f.global, 32) + Bit(f.accessed, 64) + Bit(f.dirty, 128)
  {
  }

  lemma {:induction false} LowFlags(e: Pte)
    ensures var w, f := Value(e), e.flags;
            && w % 2 == One(f.valid) && w / 2 % 2 == One(f.read) && w / 4 % 2 == One(f.write)
            && w / 8 % 2 == One(f.execute)
  {
    hide *;
    var w, f, rest := Value(e), e.flags, e.rsw + 4 * e.ppn + 0x4000_0000_0000 * e.reserved;
    var high := One(f.user) + 2 * One(f.global) + 4 * One(f.accessed) + 8 * One(f.dirty);
    WordSum(e, One(f.valid) + 2 * One(f.read) + 4 * One(f.write) + 8 * One(f.execute), high);
    Nibble(One(f.valid), One(f.read), One(f.write), One(f.execute), high + 16 * rest, w);
  }

  lemma {:induction false} HighFlags(e: Pte, h: nat)
    requires h == Value(e) / 16
    ensures var f := e.flags;
            && h % 2 == One(f.user) && h / 2 % 2 == One(f.global) && h / 4 % 2 == One(f.accessed)
            && h / 8 % 2 == One(f.dirty)
  {
    hide *;
    var f, rest := e.flags, e.rsw + 4 * e.ppn + 0x4000_0000_0000 * e.reserved;
    var low := One(f.valid) + 2 * One(f.read) + 4 * One(f.write) + 8 * One(f.execute);
    WordSum(e, low, One(f.user) + 2 * One(f.global) + 4 * One(f.accessed) + 8 * One(f.dirty));
    Nibble(One(f.user), One(f.global), One(f.accessed), One(f.dirty), rest, h);
  }

  /** The bits of an entry's word. */
  lemma {:induction false} EntryFlags(e: Pte)
    ensures var w, f := Value(e), e.flags;
            && (w % 2 == 1 <==> f.valid) && (w / 2 % 2 == 1 <==> f.read) && (w / 4 % 2 == 1 <==> f.write)
            && (w / 8 % 2 == 1 <==> f.execute) && (w / 16 % 2 == 1 <==> f.user) && (w / 32 % 2 == 1 <==> f.global)
            && (w / 64 % 2 == 1 <==> f.accessed) && (w / 128 % 2 == 1 <==> f.dirty)
  {
    hide *;
    LowFlags(e);
    HighFlags(e, Value(e) / 16);
    Deeper(Value(e));
  }

  /** And its numbers. */
  lemma {:induction false} EntryFields(e: Pte)
    ensures var w := Value(e);
            w / 0x100 % 4 == e.rsw && w / 0x400 % 0x1000_0000_0000 == e.ppn && w / 0x40_0000_0000_0000 == e.reserved
  {
    var w, low := Value(e), FlagBits(e.flags);
    hide FlagBits;
    assert w / 0x100 == e.rsw + 4 * (e.ppn + 0x1000_0000_0000 * e.reserved);
    assert w / 0x400 == e.ppn + 0x1000_0000_0000 * e.reserved;
  }

  /** A zeroed word is an empty entry, and no other word is. */
  lemma {:induction false} EmptyIsZero(e: Pte)
    ensures Value(e) == 0 <==> e == ZERO_PTE
  {
    if Value(e) == 0 {
      EntryFlags(e);
      EntryFields(e);
      hide Value;
      assert e.flags == Flags(false, false, false, false, false, false, false, false);
    }
  }

  /** What `map` writes: for a table the valid bit and the frame and nothing else, for a page the flags and the frame. */
  lemma {:induction false} WordsWritten(frame: Frame, l: Leaf)
    ensures Value(Branch(frame)) == 0x400 * frame + 1
    ensures Value(LeafPte(l)) == 0x400 * l.frame + Value(LeafPte(l)) % 0x100
    ensures GetPpn(Branch(frame)) == 4096 * frame && GetPpn(LeafPte(l)) == 4096 * l.frame
  {
    PageWord(l);
    GetPpnExact(Branch(frame));
    GetPpnExact(LeafPte(l));
    hide GetPpn, FlagBits;
    assert FlagBits(Branch(frame).flags) == 1 by {
      FlagBitsOfTable();
    }
  }

  lemma FlagBitsOfTable()
    ensures FlagBits(NO_FLAGS.(valid := true)) == 1
  {
  }

  lemma PageWord(l: Leaf)
    ensures Value(LeafPte(l)) == 0x400 * l.frame + Value(LeafPte(l)) % 0x100
  {
    var low := FlagBits(l.flags);
    hide FlagBits;
    assert Value(LeafPte(l)) == 0x400 * l.frame + low;
    hide *;
    FlagsBelow(4 * l.frame, low, Value(LeafPte(l)));
  }

  lemma FlagsBelow(high: nat, low: nat, w: nat)
    requires low < 0x100 && w == 0x100 * high + low
    ensures w % 0x100 == low
  {
  }

  // ----- the hardware's walk -----

  /** What the hardware makes of a virtual address. `AccessFault` is for entries outside the modelled memory. */
  datatype Outcome = Page(address: nat, read: bool, write: bool, execute: bool, user: bool) | PageFault | AccessFault

  /** The word at physical address `a`. */
  ghost function Fetch(mem: seq<Pte>, base: nat, a: nat): Option<Word> {
    if a % 8 == 0 && 4096 * base <= a && (a - 4096 * base) / 8 < |mem| then Some(Value(mem[(a - 4096 * base) / 8]))
    else None
  }

  /** How many bytes an entry at `level` covers. */
  ghost function Span(level: nat): (r: nat)
    ensures r > 0
  {
    if level == 0 then 0x1000 else if level == 1 then 0x20_0000 else 0x4000_0000
  }

  /** Bit 0 is V, bits 1 to 3 are R, W and X; the upper ten bits are reserved. */
  ghost predicate Faulty(w: Word) {
    w % 2 == 0 || (w / 2 % 2 == 0 && w / 4 % 2 == 1) || w >= 0x40_0000_0000_0000
  }

  ghost predicate Points(w: Word) {
    w / 2 % 2 == 0 && w / 8 % 2 == 0
  }

  /** The address of the page or table that a word names. */
  ghost function Named(w: Word): nat {
    w / 0x400 % 0x1000_0000_0000 * 4096
  }

  /** Steps 2 to 8 of the translation process, for a table at physical address `table`. */
  ghost function WalkFrom(mem: seq<Pte>, base: nat, table: nat, va: Word, level: nat): Outcome
    decreases level
  {
    var fetched := Fetch(mem, base, table + va / Span(level) % 512 * 8);
    if fetched.None? then AccessFault
    else
      var w := fetched.value;
      if Faulty(w) then PageFault
      else if Points(w) then if level == 0 then PageFault else WalkFrom(mem, base, Named(w), va, level - 1)
      else if Named(w) % Span(level) != 0 then PageFault
      else Page(Named(w) + va % Span(level), w / 2 % 2 == 1, w / 4 % 2 == 1, w / 8 % 2 == 1, w / 16 % 2 == 1)
  }

  /** The upper 25 bits of a virtual address must be copies of bit 38. */
  ghost function Hardware(mem: seq<Pte>, base: nat, root: nat, va: Word): Outcome {
    if 0x40_0000_0000 <= va < U64 - 0x40_0000_0000 then PageFault else WalkFrom(mem, base, root, va, 2)
  }

  lemma FetchEntry(mem: seq<Pte>, base: nat, page: nat, i: nat)
    requires 512 * page + i < |mem|
    ensures Fetch(mem, base, 4096 * (base + page) + i * 8) == Some(Value(mem[512 * page + i]))
  {
    hide Value;
    assert 4096 * (base + page) + i * 8 == 8 * (512 * base + 512 * page + i);
  }

  lemma {:induction false} BranchWord(frame: Frame)
    ensures var w := Value(Branch(frame)); !Faulty(w) && Points(w) && Named(w) == 4096 * frame
  {
    EntryFlags(Branch(frame));
    EntryFields(Branch(frame));
    hide Value;
  }

  lemma ZeroWord()
    ensures Faulty(Value(ZERO_PTE))
  {
    EntryFlags(ZERO_PTE);
    hide Value;
  }

  /** A page the hardware can use at all: readable, or executable and not writable. */
  ghost predicate Usable(f: Flags) {
    f.read || (f.execute && !f.write)
  }

  lemma {:induction false} LeafWord(l: Leaf)
    requires l.flags.valid
    ensures var w, f := Value(LeafPte(l)), l.flags;
            && (Faulty(w) <==> f.write && !f.read) && (Points(w) <==> !f.read && !f.execute)
            && Named(w) == 4096 * l.frame
            && (w / 2 % 2 == 1 <==> f.read) && (w / 4 % 2 == 1 <==> f.write) && (w / 8 % 2 == 1 <==> f.execute)
            && (w / 16 % 2 == 1 <==> f.user)
  {
    EntryFlags(LeafPte(l));
    EntryFields(LeafPte(l));
    hide Value;
  }

  /** A page number taken apart, for an address with `h` above it and `o` below it. */
  lemma Taken(h: nat, i2: nat, i1: nat, i0: nat, o: nat, va: nat)
    requires i2 < 512 && i1 < 512 && i0 < 512 && o < 4096
    requires va == 0x80_0000_0000 * h + 0x4000_0000 * i2 + 0x20_0000 * i1 + 0x1000 * i0 + o
    ensures va / 0x4000_0000 % 512 == i2 && va / 0x20_0000 % 512 == i1 && va / 0x1000 % 512 == i0
  {
    assert va / 0x4000_0000 == 512 * h + i2;
    assert va / 0x20_0000 == 512 * (512 * h + i2) + i1;
    assert va / 0x1000 == 512 * (512 * (512 * h + i2) + i1) + i0;
  }

  /** The three indices in an address are the parts of its page number. */
  lemma {:induction false} Indices(va: Word)
    ensures var n := PageOf(va);
            && va / 0x4000_0000 % 512 == n / 512 / 512 && va / 0x20_0000 % 512 == n / 512 % 512
            && va / 0x1000 % 512 == n % 512
  {
    VirtualParts(va);
    PageParts(PageOf(va));
    hide *;
    var n := PageOf(va);
    assert va == 0x80_0000_0000 * (va / 0x80_0000_0000) + va % 0x80_0000_0000;
    Taken(va / 0x80_0000_0000, n / 512 / 512, n / 512 % 512, n % 512, va % 4096, va);
  }

  lemma {:induction false} OnBranch(mem: seq<Pte>, base: nat, table: nat, va: Word, level: nat, i: nat, frame: Frame)
    requires level > 0 && va / Span(level) % 512 == i
    requires Fetch(mem, base, table + i * 8) == Some(Value(Branch(frame)))
    ensures WalkFrom(mem, base, table, va, level) == WalkFrom(mem, base, 4096 * frame, va, level - 1)
  {
    BranchWord(frame);
    hide Fetch, Value, Faulty, Points, Named, Span;
  }

  lemma {:induction false} OnEmpty(mem: seq<Pte>, base: nat, table: nat, va: Word, level: nat, i: nat)
    requires va / Span(level) % 512 == i && Fetch(mem, base, table + i * 8) == Some(Value(ZERO_PTE))
    ensures WalkFrom(mem, base, table, va, level) == PageFault
  {
    ZeroWord();
    hide Fetch, Value, Faulty, Points, Named, Span;
  }

  /** What the hardware makes of a mapped page. */
  ghost function Translated(l: Leaf, offset: nat): Outcome {
    if l.flags.read || (l.flags.execute && !l.flags.write) then
      Page(4096 * l.frame + offset, l.flags.read, l.flags.write, l.flags.execute, l.flags.user)
    else PageFault
  }

  lemma {:induction false} OnLeaf(mem: seq<Pte>, base: nat, table: nat, va: Word, i: nat, l: Leaf)
    requires l.flags.valid && va / Span(0) % 512 == i
    requires Fetch(mem, base, table + i * 8) == Some(Value(LeafPte(l)))
    ensures WalkFrom(mem, base, table, va, 0) == Translated(l, va % 4096)
  {
    hide Fetch, Value, Faulty, Points, Named, Span;
    LeafWord(l);
    SpanIs();
    FrameAligned(l.frame);
  }

  lemma FrameAligned(frame: nat)
    ensures 4096 * frame % 0x1000 == 0
  {
  }

  /** What the flat map says about an address, to the hardware. */
  ghost function HardwareLookup(t: Tree, va: Word): Outcome {
    if PageOf(va) in t.flat then Translated(t.flat[PageOf(va)], va % 4096) else PageFault
  }

  lemma {:induction false} LowestWalk(mem: seq<Pte>, base: nat, pages: nat, t: Tree, va: Word)
    requires Represents(mem, base, pages, t) && PageOf(va) / 512 in t.lowests
    ensures WalkFrom(mem, base, 4096 * (base + t.lowests[PageOf(va) / 512]), va, 0) == HardwareLookup(t, va)
  {
    hide *;
    Indices(va);
    var n := PageOf(va);
    FlatIsValid(mem, base, pages, t, n);
    LowestEntry(mem, base, pages, t, n);
    FetchEntry(mem, base, t.lowests[n / 512], n % 512);
    SpanIs();
    HardwareLookupIs(t, va);
    var table := 4096 * (base + t.lowests[n / 512]);
    if n in t.flat {
      OnLeaf(mem, base, table, va, n % 512, t.flat[n]);
    } else {
      OnEmpty(mem, base, table, va, 0, n % 512);
    }
  }

  lemma SpanIs()
    ensures Span(0) == 0x1000 && Span(1) == 0x20_0000 && Span(2) == 0x4000_0000
  {
  }

  lemma HardwareLookupIs(t: Tree, va: Word)
    ensures HardwareLookup(t, va) == if PageOf(va) in t.flat then Translated(t.flat[PageOf(va)], va % 4096)
              else PageFault
  {
  }

  lemma {:induction false} MiddleWalk(mem: seq<Pte>, base: nat, pages: nat, t: Tree, va: Word)
    requires Represents(mem, base, pages, t) && PageOf(va) / 512 / 512 in t.middles
    ensures WalkFrom(mem, base, 4096 * (base + t.middles[PageOf(va) / 512 / 512]), va, 1) == HardwareLookup(t, va)
  {
    hide *;
    Indices(va);
    var n := PageOf(va);
    FlatIsValid(mem, base, pages, t, n);
    MiddleEntry(mem, base, pages, t, n / 512);
    var table := 4096 * (base + t.middles[n / 512 / 512]);
    if n / 512 in t.lowests {
      LowestInMemory(mem, base, pages, t, n / 512);
      LowestWalk(mem, base, pages, t, va);
    }
    FetchEntry(mem, base, t.middles[n / 512 / 512], n / 512 % 512);
    SpanIs();
    HardwareLookupIs(t, va);
    if n / 512 in t.lowests {
      OnBranch(mem, base, table, va, 1, n / 512 % 512, base + t.lowests[n / 512]);
    } else {
      OnEmpty(mem, base, table, va, 1, n / 512 % 512);
    }
  }

  /**
    What the hardware, reading words, makes of any address is what the flat map says about its page: the
    frame and the offset, with the page's permissions, or a fault.
   */
  lemma {:induction false} HardwareReadsFlatMap(mem: seq<Pte>, base: nat, pages: nat, t: Tree, va: Word)
    requires Represents(mem, base, pages, t)
    ensures WalkFrom(mem, base, 4096 * (base + t.root), va, 2) == HardwareLookup(t, va)
  {
    hide *;
    Indices(va);
    var n := PageOf(va);
    FlatIsValid(mem, base, pages, t, n);
    PageParts(n);
    RootEntry(mem, base, pages, t, n / 512 / 512);
    var table := 4096 * (base + t.root);
    if n / 512 / 512 in t.middles {
      MiddleInMemory(mem, base, pages, t, n / 512 / 512);
      MiddleWalk(mem, base, pages, t, va);
    }
    FetchEntry(mem, base, t.root, n / 512 / 512);
    SpanIs();
    HardwareLookupIs(t, va);
    if n / 512 / 512 in t.middles {
      OnBranch(mem, base, table, va, 2, n / 512 / 512, base + t.middles[n / 512 / 512]);
    } else {
      OnEmpty(mem, base, table, va, 2, n / 512 / 512);
    }
  }

  lemma {:induction false} LowestInMemory(mem: seq<Pte>, base: nat, pages: nat, t: Tree, k: nat)
    requires Represents(mem, base, pages, t) && k in t.lowests
    ensures base + t.lowests[k] < 0x1000_0000_0000
  {
  }

  lemma {:induction false} MiddleInMemory(mem: seq<Pte>, base: nat, pages: nat, t: Tree, k: nat)
    requires Represents(mem, base, pages, t) && k in t.middles
    ensures base + t.middles[k] < 0x1000_0000_0000
  {
  }

  // ----- what a sequence of mappings leaves, flag by flag and address by address -----

  /** A permission that `Either` joins is in the union exactly when one of the page's mappings gave it. */
  lemma {:induction false} UnionHas(ops: seq<MapOp>, n: nat, has: Flags -> bool)
    requires !has(NO_FLAGS) && forall a, b :: has(Either(a, b)) <==> has(a) || has(b)
    ensures has(UnionBits(ops, n)) <==> exists k :: 0 <= k < |ops| && ops[k].page == n && has(ops[k].bits)
  {
    if ops != [] {
      var init, last := ops[..|ops| - 1], |ops| - 1;
      UnionHas(init, n, has);
      assert forall k | 0 <= k < last :: init[k] == ops[k];
      hide Either;
    }
  }

  /**
    After any mappings a page that was named is valid, accessed and dirty, and has a permission exactly when
    it had it before or one of the mappings that named it gave it.
   */
  lemma {:induction false} FlagsOfPage(flat: map<nat, Leaf>, ops: seq<MapOp>, n: nat)
    requires Touches(ops, n)
    ensures n in ApplyOps(flat, ops)
    ensures var f, had := ApplyOps(flat, ops)[n].flags, n in flat;
            && f.valid && f.accessed && f.dirty
            && (f.read <==> (had && flat[n].flags.read)
                            || exists k :: 0 <= k < |ops| && ops[k].page == n && ops[k].bits.read)
            && (f.write <==> (had && flat[n].flags.write)
                             || exists k :: 0 <= k < |ops| && ops[k].page == n && ops[k].bits.write)
            && (f.execute <==> (had && flat[n].flags.execute)
                               || exists k :: 0 <= k < |ops| && ops[k].page == n && ops[k].bits.execute)
            && (f.user <==> (had && flat[n].flags.user)
                            || exists k :: 0 <= k < |ops| && ops[k].page == n && ops[k].bits.user)
            && (f.global <==> (had && flat[n].flags.global)
                              || exists k :: 0 <= k < |ops| && ops[k].page == n && ops[k].bits.global)
  {
    HistoryOfPage(flat, ops, n);
    UnionHas(ops, n, (f: Flags) => f.read);
    UnionHas(ops, n, (f: Flags) => f.write);
    UnionHas(ops, n, (f: Flags) => f.execute);
    UnionHas(ops, n, (f: Flags) => f.user);
    UnionHas(ops, n, (f: Flags) => f.global);
    hide UnionBits, ApplyOps, Touches;
  }

  /** One call of `map`, with the addresses it is given. */
  datatype MapCall = MapCall(vaddr: Word, paddr: Word, bits: Flags)

  /** The mappings that calls amount to, as the contract of `MemoryManager.Map` has them. */
  function OpsOf(calls: seq<MapCall>): (r: seq<MapOp>)
    ensures |r| == |calls|
    ensures forall k | 0 <= k < |r| :: r[k] == MapOp(PageOf(calls[k].vaddr), FrameOf(calls[k].paddr), calls[k].bits)
  {
    seq(|calls|, k requires 0 <= k < |calls| =>
      MapOp(PageOf(calls[k].vaddr), FrameOf(calls[k].paddr), calls[k].bits))
  }

  /** Two virtual addresses, 39 bits of them, lie in one page. */
  ghost predicate SamePage(a: Word, b: Word) {
    a % 0x80_0000_0000 / 0x1000 == b % 0x80_0000_0000 / 0x1000
  }

  ghost predicate IsLastCall(calls: seq<MapCall>, va: Word, k: nat) {
    && k < |calls| && SamePage(calls[k].vaddr, va)
    && forall j | k < j < |calls| :: !SamePage(calls[j].vaddr, va)
  }

  /** The physical address that a call gives a virtual one: the page the physical one lies in, and the offset. */
  ghost function Given(paddr: Word, va: Word): nat {
    paddr % 0x100_0000_0000_0000 / 0x1000 * 0x1000 + va % 0x1000
  }

  lemma {:induction false} PageOfIs(a: Word)
    ensures PageOf(a) == a % 0x80_0000_0000 / 0x1000
  {
    VirtualParts(a);
    hide PageOf;
  }

  lemma {:induction false} FrameOfIs(a: Word)
    ensures FrameOf(a) == a % 0x100_0000_0000_0000 / 0x1000
  {
    PhysicalParts(a);
    hide FrameOf;
  }

  /** What some call on the page of `va` asked for. */
  ghost predicate Asked(calls: seq<MapCall>, va: Word, has: Flags -> bool) {
    exists k :: 0 <= k < |calls| && SamePage(calls[k].vaddr, va) && has(calls[k].bits)
  }

  lemma {:induction false} CallsOnPage(calls: seq<MapCall>, va: Word, k: nat)
    requires k < |calls|
    ensures OpsOf(calls)[k].page == PageOf(va) <==> SamePage(calls[k].vaddr, va)
    ensures 4096 * OpsOf(calls)[k].frame + va % 4096 == Given(calls[k].paddr, va)
  {
    PageOfIs(calls[k].vaddr);
    PageOfIs(va);
    FrameOfIs(calls[k].paddr);
    hide PageOf, FrameOf;
  }

  lemma {:induction false} LastOpIs(calls: seq<MapCall>, va: Word, k: nat)
    requires IsLastCall(calls, va, k)
    ensures k < |calls| && Touches(OpsOf(calls), PageOf(va))
    ensures forall j :: IsLastOp(OpsOf(calls), PageOf(va), j) <==> j == k
  {
    hide PageOf, FrameOf, SamePage, OpsOf;
    forall j: nat | j < |calls|
      ensures OpsOf(calls)[j].page == PageOf(va) <==> SamePage(calls[j].vaddr, va)
    {
      CallsOnPage(calls, va, j);
    }
  }

  lemma {:induction false} AskedIs(calls: seq<MapCall>, va: Word, has: Flags -> bool)
    ensures Asked(calls, va, has) <==>
              exists k :: 0 <= k < |OpsOf(calls)| && OpsOf(calls)[k].page == PageOf(va) && has(OpsOf(calls)[k].bits)
  {
    hide PageOf, FrameOf, SamePage, OpsOf;
    forall j: nat | j < |calls|
      ensures OpsOf(calls)[j].page == PageOf(va) <==> SamePage(calls[j].vaddr, va)
    {
      CallsOnPage(calls, va, j);
    }
  }

  lemma WalkedBy(mem: seq<Pte>, base: nat, root: nat, va: Word, r: Outcome)
    requires WalkFrom(mem, base, root, va, 2) == r
    ensures Hardware(mem, base, root, va)
         == if va < 0x40_0000_0000 || va >= 0xFFFF_FFC0_0000_0000 then r else PageFault
  {
    hide WalkFrom;
  }

  lemma TranslatedIs(l: Leaf, offset: nat)
    ensures Translated(l, offset) ==
            if l.flags.read || (l.flags.execute && !l.flags.write) then
              Page(4096 * l.frame + offset, l.flags.read, l.flags.write, l.flags.execute, l.flags.user)
            else PageFault
  {
  }

  lemma {:induction false} LookupIs(t: Tree, va: Word)
    ensures if PageOf(va) in t.flat then Lookup(t, va) == Mapped(4096 * t.flat[PageOf(va)].frame + va % 4096)
            else Lookup(t, va).Invalid?
  {
    hide PageOf;
  }

  lemma {:induction false} FlagsOfCalls(flat: map<nat, Leaf>, calls: seq<MapCall>, va: Word)
    requires flat == ApplyOps(map[], OpsOf(calls)) && Touches(OpsOf(calls), PageOf(va))
    ensures PageOf(va) in flat
    ensures var f := flat[PageOf(va)].flags;
            && (f.read <==> Asked(calls, va, (f: Flags) => f.read))
            && (f.write <==> Asked(calls, va, (f: Flags) => f.write))
            && (f.execute <==> Asked(calls, va, (f: Flags) => f.execute))
            && (f.user <==> Asked(calls, va, (f: Flags) => f.user))
  {
    hide *;
    FlagsOfPage(map[], OpsOf(calls), PageOf(va));
    AskedIs(calls, va, (f: Flags) => f.read);
    AskedIs(calls, va, (f: Flags) => f.write);
    AskedIs(calls, va, (f: Flags) => f.execute);
    AskedIs(calls, va, (f: Flags) => f.user);
  }

  /** What calls of `map` leave of a page: the leaf of the last one, with everything any of them asked for. */
  lemma {:induction false} LeafOfCalls(flat: map<nat, Leaf>, calls: seq<MapCall>, va: Word, k: nat)
    requires flat == ApplyOps(map[], OpsOf(calls)) && IsLastCall(calls, va, k)
    ensures PageOf(va) in flat
    ensures var l := flat[PageOf(va)];
            && 4096 * l.frame + va % 4096 == Given(calls[k].paddr, va)
            && (l.flags.read <==> Asked(calls, va, (f: Flags) => f.read))
            && (l.flags.write <==> Asked(calls, va, (f: Flags) => f.write))
            && (l.flags.execute <==> Asked(calls, va, (f: Flags) => f.execute))
            && (l.flags.user <==> Asked(calls, va, (f: Flags) => f.user))
  {
    hide *;
    LastOpIs(calls, va, k);
    CallsOnPage(calls, va, k);
    HistoryOfPage(map[], OpsOf(calls), PageOf(va));
    FlagsOfCalls(flat, calls, va);
  }

  /**
    The law of the builder and its two readers, from addresses to addresses. However an address space was
    built, an address in a page that was mapped goes to the physical page of the last call for it, plus the
    offset. The hardware grants what any of the calls asked for, and faults where that is no usable page.
   */
  lemma {:induction false} MappedRead(mem: seq<Pte>, base: nat, pages: nat, t: Tree, calls: seq<MapCall>, va: Word,
                                      k: nat)
    requires Represents(mem, base, pages, t) && t.flat == ApplyOps(map[], OpsOf(calls)) && IsLastCall(calls, va, k)
    ensures 512 * t.root + 512 <= |mem|
    ensures Translate(mem, base, t.root, va) == Mapped(Given(calls[k].paddr, va))
    ensures var read, write := Asked(calls, va, (f: Flags) => f.read), Asked(calls, va, (f: Flags) => f.write);
            var execute, user := Asked(calls, va, (f: Flags) => f.execute), Asked(calls, va, (f: Flags) => f.user);
            Hardware(mem, base, 4096 * (base + t.root), va) ==
            if (va < 0x40_0000_0000 || va >= 0xFFFF_FFC0_0000_0000) && (read || (execute && !write)) then
              Page(Given(calls[k].paddr, va), read, write, execute, user)
            else PageFault
  {
    hide *;
    LeafOfCalls(t.flat, calls, va, k);
    TranslateReadsFlatMap(mem, base, pages, t, va);
    LookupIs(t, va);
    HardwareReadsFlatMap(mem, base, pages, t, va);
    HardwareLookupIs(t, va);
    TranslatedIs(t.flat[PageOf(va)], va % 4096);
    WalkedBy(mem, base, 4096 * (base + t.root), va, HardwareLookup(t, va));
  }

  /** An address in a page that no call named is an error to `translate`, and a fault to the hardware. */
  lemma {:induction false} UnmappedRead(mem: seq<Pte>, base: nat, pages: nat, t: Tree, calls: seq<MapCall>, va: Word)
    requires Represents(mem, base, pages, t) && t.flat == ApplyOps(map[], OpsOf(calls))
    requires forall k | 0 <= k < |calls| :: !SamePage(calls[k].vaddr, va)
    ensures 512 * t.root + 512 <= |mem|
    ensures Translate(mem, base, t.root, va).Invalid?
    ensures Hardware(mem, base, 4096 * (base + t.root), va) == PageFault
  {
    NotTouched(calls, va);
    hide *;
    HistoryOfPage(map[], OpsOf(calls), PageOf(va));
    TranslateReadsFlatMap(mem, base, pages, t, va);
    LookupIs(t, va);
    HardwareReadsFlatMap(mem, base, pages, t, va);
    HardwareLookupIs(t, va);
    WalkedBy(mem, base, 4096 * (base + t.root), va, HardwareLookup(t, va));
  }

  lemma {:induction false} NotTouched(calls: seq<MapCall>, va: Word)
    requires forall k | 0 <= k < |calls| :: !SamePage(calls[k].vaddr, va)
    ensures !Touches(OpsOf(calls), PageOf(va))
  {
    hide PageOf, FrameOf, SamePage, OpsOf;
    forall j: nat | j < |calls|
      ensures OpsOf(calls)[j].page != PageOf(va)
    {
      CallsOnPage(calls, va, j);
    }
  }

  // ----- leaves above the lowest level, which the kernel never makes but reads -----

  /** `|` of an address whose low eleven bits are clear and an offset: bit 11 is set when either has it. */
  lemma OrIsBitwise(high: nat, b: bool, c: bool, rest: nat)
    requires rest < 0x800 && high < 0x10_0000_0000_0000
    ensures OrOffset(0x1000 * high + (if b then 0x800 else 0), (if c then 0x800 else 0) + rest)
         == 0x1000 * high + (if b || c then 0x800 else 0) + rest
  {
  }

  lemma {:induction false} LargeWord(e: Pte, size: nat)
    requires e.flags.valid && (e.flags.read || (e.flags.execute && !e.flags.write)) && e.reserved == 0
    requires size > 0 && 4096 * e.ppn % size == 0
    ensures var w, f := Value(e), e.flags;
            && !Faulty(w) && !Points(w) && Named(w) == 4096 * e.ppn && Named(w) % size == 0
            && (w / 2 % 2 == 1 <==> f.read) && (w / 4 % 2 == 1 <==> f.write) && (w / 8 % 2 == 1 <==> f.execute)
            && (w / 16 % 2 == 1 <==> f.user)
  {
    EntryFlags(e);
    EntryFields(e);
    hide Value;
  }

  /** What the hardware makes of a leaf above the lowest level. */
  ghost function Large(e: Pte, offset: nat): Outcome {
    Page(4096 * e.ppn + offset, e.flags.read, e.flags.write, e.flags.execute, e.flags.user)
  }

  lemma {:induction false} OnLarge(mem: seq<Pte>, base: nat, table: nat, va: Word, level: nat, i: nat, e: Pte)
    requires va / Span(level) % 512 == i && Fetch(mem, base, table + i * 8) == Some(Value(e))
    requires e.flags.valid && (e.flags.read || (e.flags.execute && !e.flags.write)) && e.reserved == 0
    requires 4096 * e.ppn % Span(level) == 0
    ensures WalkFrom(mem, base, table, va, level) == Large(e, va % Span(level))
  {
    LargeWord(e, Span(level));
    hide Fetch, Value, Faulty, Points, Named, Span;
  }

  lemma {:induction false} LargeAddress(e: Pte, va: Word)
    requires e.rsw < 2 && e.reserved == 0
    ensures OrOffset(GetPpn(e), va % 4096) == 4096 * e.ppn + va % 4096
  {
    GetPpnExact(e);
    hide GetPpn;
  }

  lemma {:induction false} ReadsRootLeaf(mem: seq<Pte>, base: nat, root: nat, va: Word, e: Pte)
    requires 512 * root + 512 <= |mem| && 0 <= PageOf(va) / 512 / 512 < 512
    requires mem[512 * root + PageOf(va) / 512 / 512] == e && e.flags.valid && IsLeaf(e)
    ensures Translate(mem, base, root, va) == Mapped(OrOffset(GetPpn(e), va % 4096))
  {
    hide PageOf, OrOffset, GetPpn;
  }

  /**
    For a leaf in the root table, a page of 1 GiB, `translate` and the hardware agree exactly on the first 4 KiB
    of it: `translate` drops the bits of the address above the offset of a small page.
   */
  lemma {:induction false} GigapageExactly(mem: seq<Pte>, base: nat, root: nat, va: Word, e: Pte)
    requires 512 * root + 512 <= |mem| && mem[512 * root + va / 0x4000_0000 % 512] == e
    requires e.flags.valid && (e.flags.read || (e.flags.execute && !e.flags.write)) && e.rsw < 2 && e.reserved == 0
    requires 4096 * e.ppn % 0x4000_0000 == 0
    ensures Translate(mem, base, root, va) == Mapped(4096 * e.ppn + va % 4096)
    ensures WalkFrom(mem, base, 4096 * (base + root), va, 2) == Large(e, va % 0x4000_0000)
    ensures Translate(mem, base, root, va) == Mapped(Large(e, va % 0x4000_0000).address) <==> va % 0x4000_0000 < 4096
  {
    Usual(e);
    hide *;
    Indices(va);
    ReadsRootLeaf(mem, base, root, va, e);
    LargeAddress(e, va);
    SpanIs();
    FetchEntry(mem, base, root, PageOf(va) / 512 / 512);
    OnLarge(mem, base, 4096 * (base + root), va, 2, PageOf(va) / 512 / 512, e);
    LargeIs(e, va % 0x4000_0000);
    WithinGigapage(va);
  }

  lemma Usual(e: Pte)
    requires e.flags.read || (e.flags.execute && !e.flags.write)
    ensures IsLeaf(e)
  {
  }

  lemma LargeIs(e: Pte, offset: nat)
    ensures Large(e, offset).Page? && Large(e, offset).address == 4096 * e.ppn + offset
  {
  }

  /** An address is as far into a large page as into a small one exactly in the first small page of it. */
  lemma {:induction false} WithinGigapage(va: nat)
    ensures va % 0x4000_0000 == va % 0x1000 <==> va % 0x4000_0000 < 0x1000
  {
    Remainder(va / 0x4000_0000 * 0x4_0000, va % 0x4000_0000, va);
  }

  lemma {:induction false} WithinMegapage(va: nat)
    ensures va % 0x20_0000 == va % 0x1000 <==> va % 0x20_0000 < 0x1000
  {
    Remainder(va / 0x20_0000 * 0x200, va % 0x20_0000, va);
  }

  lemma Remainder(q: nat, x: nat, va: nat)
    requires va == 0x1000 * q + x
    ensures va % 0x1000 == x % 0x1000
  {
  }

  lemma {:induction false} ReadsMiddleLeaf(mem: seq<Pte>, base: nat, root: nat, p: nat, va: Word, e: Pte)
    requires 512 * root + 512 <= |mem| && 512 * p + 512 <= |mem| && base + p < FRAMES
    requires 0 <= PageOf(va) / 512 / 512 < 512 && 0 <= PageOf(va) / 512 % 512 < 512
    requires mem[512 * root + PageOf(va) / 512 / 512] == Branch(base + p)
    requires mem[512 * p + PageOf(va) / 512 % 512] == e && e.flags.valid && IsLeaf(e)
    ensures Translate(mem, base, root, va) == Mapped(OrOffset(GetPpn(e), va % 4096))
  {
    BranchIndex(base, p, PageOf(va) / 512 % 512);
    hide PageOf, OrOffset, GetPpn, EntryIndex;
  }

  lemma {:induction false} MegapageWalk(mem: seq<Pte>, base: nat, root: nat, p: nat, frame: Frame, va: Word, e: Pte)
    requires 512 * root + 512 <= |mem| && 512 * p + 512 <= |mem| && frame == base + p
    requires 0 <= PageOf(va) / 512 / 512 < 512 && 0 <= PageOf(va) / 512 % 512 < 512
    requires mem[512 * root + PageOf(va) / 512 / 512] == Branch(frame)
    requires mem[512 * p + PageOf(va) / 512 % 512] == e
    requires e.flags.valid && (e.flags.read || (e.flags.execute && !e.flags.write)) && e.reserved == 0
    requires 4096 * e.ppn % 0x20_0000 == 0
    ensures WalkFrom(mem, base, 4096 * (base + root), va, 2) == Large(e, va % 0x20_0000)
  {
    hide *;
    var i2, i1 := PageOf(va) / 512 / 512, PageOf(va) / 512 % 512;
    Indices(va);
    SpanIs();
    FetchEntry(mem, base, root, i2);
    OnBranch(mem, base, 4096 * (base + root), va, 2, i2, frame);
    FetchEntry(mem, base, p, i1);
    OnLarge(mem, base, 4096 * frame, va, 1, i1, e);
  }

  /** The same for a leaf in a middle table, a page of 2 MiB. */
  lemma {:induction false} MegapageExactly(mem: seq<Pte>, base: nat, root: nat, p: nat, va: Word, e: Pte)
    requires 512 * root + 512 <= |mem| && 512 * p + 512 <= |mem| && base + p < FRAMES
    requires mem[512 * root + va / 0x4000_0000 % 512] == Branch(base + p)
    requires mem[512 * p + va / 0x20_0000 % 512] == e
    requires e.flags.valid && (e.flags.read || (e.flags.execute && !e.flags.write)) && e.rsw < 2 && e.reserved == 0
    requires 4096 * e.ppn % 0x20_0000 == 0
    ensures Translate(mem, base, root, va) == Mapped(4096 * e.ppn + va % 4096)
    ensures WalkFrom(mem, base, 4096 * (base + root), va, 2) == Large(e, va % 0x20_0000)
    ensures Translate(mem, base, root, va) == Mapped(Large(e, va % 0x20_0000).address) <==> va % 0x20_0000 < 4096
  {
    var frame: Frame := base + p;
    Usual(e);
    hide *;
    Indices(va);
    ReadsMiddleLeaf(mem, base, root, p, va, e);
    LargeAddress(e, va);
    MegapageWalk(mem, base, root, p, frame, va, e);
    LargeIs(e, va % 0x20_0000);
    WithinMegapage(va);
  }
}
