/**
  Sv39 page tables: the entry layout, the three-step reader, and what a tree of tables maps.

  Physical memory is a sequence of entries, 512 to a page; page number `p` of the pool lies at
  address `4096 * (base + p)`. Virtual pages are 27-bit numbers.
 */
module PageTables {
  import opened MachineWords

  const VIRTUAL_PAGES: nat := 0x800_0000
  const FRAMES: nat := 0x1000_0000_0000

  /** The low eight bits of an entry, which are also the bits `EntryBits` can name. */
  datatype Flags = Flags(valid: bool, read: bool, write: bool, execute: bool,
                         user: bool, global: bool, accessed: bool, dirty: bool)

  const NO_FLAGS := Flags(false, false, false, false, false, false, false, false)
  const VAD_FLAGS := NO_FLAGS.(valid := true, accessed := true, dirty := true)

  type Bits2 = x: nat | x < 4
  type Bits10 = x: nat | x < 1024
  type Frame = x: nat | x < 0x1000_0000_0000

  /** A page-table entry; `ppn` is the three page-number fields side by side. */
  datatype Pte = Pte(flags: Flags, rsw: Bits2, ppn: Frame, reserved: Bits10)

  const ZERO_PTE := Pte(NO_FLAGS, 0, 0, 0)

  function Bit(b: bool, weight: nat): nat {
    if b then weight else 0
  }

  function FlagBits(f: Flags): (r: nat)
    ensures r < 256
  {
    Bit(f.valid, 1) + Bit(f.read, 2) + Bit(f.write, 4) + Bit(f.execute, 8)
    + Bit(f.user, 16) + Bit(f.global, 32) + Bit(f.accessed, 64) + Bit(f.dirty, 128)
  }

  function Either(a: Flags, b: Flags): Flags {
    Flags(a.valid || b.valid, a.read || b.read, a.write || b.write, a.execute || b.execute,
          a.user || b.user, a.global || b.global, a.accessed || b.accessed, a.dirty || b.dirty)
  }

  predicate IsLeaf(e: Pte) {
    e.flags.read || e.flags.write || e.flags.execute
  }

  /** The entry as a 64-bit word. */
  function Value(e: Pte): Word {
    FlagBits(e.flags) + 0x100 * e.rsw + 0x400 * e.ppn + 0x40_0000_0000_0000 * e.reserved
  }

  /** `(value & ~0x1ff) << 2` in 64 bits: the mask clears nine bits, one fewer than lie below the page number. */
  function GetPpn(e: Pte): Word {
    Wrap(Value(e) / 0x200 * 0x200 * 4)
  }

  /**
    The nine-bit mask yields the frame address exactly when the upper RSW
    bit and the low eight reserved bits are clear.
   */
  lemma GetPpnExact(e: Pte)
    ensures GetPpn(e) == 4096 * e.ppn <==> e.rsw < 2 && e.reserved % 256 == 0
  {
    var high := e.rsw / 2 + 2 * e.ppn + 0x2000_0000_0000 * e.reserved;
    assert Value(e) / 0x200 == high;
    assert GetPpn(e) == Wrap(0x800 * high);
    assert 0x800 * high == 0x800 * (e.rsw / 2) + 4096 * e.ppn + 0x100_0000_0000_0000 * (e.reserved % 256)
             + U64 * (e.reserved / 256);
  }

  /** The frame number in a physical address; bits above 55 are dropped. */
  function FrameOf(address: Word): Frame {
    address / 4096 % 0x1000_0000_0000
  }

  /** The virtual page number in an address; bits above 38 are dropped. */
  function PageOf(address: Word): (n: nat)
    ensures n < VIRTUAL_PAGES
  {
    address / 4096 % 0x800_0000
  }

  /** `address | offset` for an address whose low eleven bits are clear. */
  function OrOffset(address: Word, offset: nat): nat
    requires offset < 4096
  {
    if address % 4096 >= 2048 && offset >= 2048 then address + offset - 2048 else address + offset
  }

  // ----- the reader -----

  /** `Outside` stands for following an entry that points outside the modelled memory. */
  datatype Translation = Mapped(address: nat) | Invalid(level: nat) | Outside

  /** The memory index of entry `i` in the table that `e` points to. */
  function EntryIndex(e: Pte, base: nat, i: nat): int {
    (GetPpn(e) - 4096 * base) / 8 + i
  }

  function Translate(mem: seq<Pte>, base: nat, root: nat, address: Word): Translation
    requires 512 * root + 512 <= |mem|
  {
    var n, offset := PageOf(address), address % 4096;
    var e2 := mem[512 * root + n / 512 / 512];
    if !e2.flags.valid then Invalid(2)
    else if IsLeaf(e2) then Mapped(OrOffset(GetPpn(e2), offset))
    else
      var i1 := EntryIndex(e2, base, n / 512 % 512);
      if !(0 <= i1 < |mem|) then Outside
      else if !mem[i1].flags.valid then Invalid(1)
      else if IsLeaf(mem[i1]) then Mapped(OrOffset(GetPpn(mem[i1]), offset))
      else
        var i0 := EntryIndex(mem[i1], base, n % 512);
        if !(0 <= i0 < |mem|) then Outside
        else if !mem[i0].flags.valid then Invalid(0)
        else Mapped(OrOffset(GetPpn(mem[i0]), offset))
  }

  // ----- trees -----

  /** What a page of memory is used for; a table's key is the page-number prefix it serves. */
  datatype Role = Root | Middle(key: nat) | Lowest(key: nat)

  datatype Leaf = Leaf(frame: Frame, flags: Flags)

  /**
    A tree of tables and the flat map it represents: `middles` and `lowests` say which page holds the
    table of each prefix, `owner` is the inverse, and `flat` is the map from virtual pages to frames.
   */
  datatype Tree = Tree(root: nat, middles: map<nat, nat>, lowests: map<nat, nat>, owner: map<nat, Role>,
                       flat: map<nat, Leaf>)

  function Branch(frame: Frame): Pte {
    Pte(NO_FLAGS.(valid := true), 0, frame, 0)
  }

  function LeafPte(l: Leaf): Pte {
    Pte(l.flags, 0, l.frame, 0)
  }

  function Entry(mem: seq<Pte>, page: nat, i: nat): Pte
    requires 512 * page + i < |mem|
  {
    mem[512 * page + i]
  }

  /** What entry `i` of a table with the given role holds. */
  ghost function Expected(t: Tree, base: nat, pages: nat, role: Role, i: nat): Pte
    requires base + pages <= FRAMES && Placed(t, pages)
  {
    match role
    case Root => if i in t.middles then Branch(base + t.middles[i]) else ZERO_PTE
    case Middle(k) => if 512 * k + i in t.lowests then Branch(base + t.lowests[512 * k + i]) else ZERO_PTE
    case Lowest(k) => if 512 * k + i in t.flat then LeafPte(t.flat[512 * k + i]) else ZERO_PTE
  }

  /** Each table page is reached from exactly one entry, and every table hangs below its parent. */
  ghost predicate Placed(t: Tree, pages: nat) {
    && t.root in t.owner && t.owner[t.root] == Root
    && (forall k | k in t.middles :: k < 512 && t.middles[k] in t.owner && t.owner[t.middles[k]] == Middle(k))
    && (forall k | k in t.lowests ::
          k / 512 in t.middles && t.lowests[k] in t.owner && t.owner[t.lowests[k]] == Lowest(k))
    && (forall n | n in t.flat :: n / 512 in t.lowests && t.flat[n].flags.valid)
    && (forall p | p in t.owner :: p < pages && HasRole(t, p))
  }

  ghost predicate HasRole(t: Tree, p: nat)
    requires p in t.owner
  {
    match t.owner[p]
    case Root => p == t.root
    case Middle(k) => k in t.middles && t.middles[k] == p
    case Lowest(k) => k in t.lowests && t.lowests[k] == p
  }

  /** The memory holds exactly the tables of `t`. */
  ghost predicate Represents(mem: seq<Pte>, base: nat, pages: nat, t: Tree) {
    && |mem| == 512 * pages && base + pages <= FRAMES
    && Placed(t, pages)
    && forall p, i | p in t.owner && 0 <= i < 512 :: Entry(mem, p, i) == Expected(t, base, pages, t.owner[p], i)
  }

  lemma BranchIndex(base: nat, p: nat, i: nat)
    requires base + p < FRAMES
    ensures EntryIndex(Branch(base + p), base, i) == 512 * p + i
  {
    GetPpnExact(Branch(base + p));
  }

  lemma LeafAddress(l: Leaf, offset: nat)
    requires offset < 4096
    ensures OrOffset(GetPpn(LeafPte(l)), offset) == 4096 * l.frame + offset
  {
    GetPpnExact(LeafPte(l));
  }

  lemma PageParts(n: nat)
    requires n < VIRTUAL_PAGES
    ensures n / 512 / 512 < 512
    ensures n == 512 * (n / 512) + n % 512 && n / 512 == 512 * (n / 512 / 512) + n / 512 % 512
  {
  }

  lemma {:induction false} RootEntry(mem: seq<Pte>, base: nat, pages: nat, t: Tree, k: nat)
    requires Represents(mem, base, pages, t) && k < 512
    ensures 512 * t.root + 512 <= |mem|
    ensures mem[512 * t.root + k] == if k in t.middles then Branch(base + t.middles[k]) else ZERO_PTE
  {
    assert Entry(mem, t.root, k) == Expected(t, base, pages, Root, k);
  }

  /** Entry `i` of the table in page `p`: where an entry leading to the table finds it, and what it holds. */
  lemma {:induction false} TableEntry(mem: seq<Pte>, base: nat, pages: nat, t: Tree, p: nat, i: nat)
    requires Represents(mem, base, pages, t) && p in t.owner && i < 512
    ensures p < pages && base + p < FRAMES && 512 * p + i < |mem| && base + pages <= FRAMES && Placed(t, pages)
    ensures EntryIndex(Branch(base + p), base, i) == 512 * p + i
    ensures mem[512 * p + i] == Expected(t, base, pages, t.owner[p], i)
  {
    assert Entry(mem, p, i) == Expected(t, base, pages, t.owner[p], i);
    hide Represents, Placed, Expected, EntryIndex;
    BranchIndex(base, p, i);
  }

  lemma {:induction false} MiddleEntry(mem: seq<Pte>, base: nat, pages: nat, t: Tree, k: nat)
    requires Represents(mem, base, pages, t) && k / 512 in t.middles
    ensures var i := EntryIndex(Branch(base + t.middles[k / 512]), base, k % 512);
            && 0 <= i < |mem| && i == 512 * t.middles[k / 512] + k % 512
            && mem[i] == if k in t.lowests then Branch(base + t.lowests[k]) else ZERO_PTE
  {
    TableEntry(mem, base, pages, t, t.middles[k / 512], k % 512);
    hide EntryIndex;
    assert 512 * (k / 512) + k % 512 == k;
  }

  lemma {:induction false} LowestEntry(mem: seq<Pte>, base: nat, pages: nat, t: Tree, n: nat)
    requires Represents(mem, base, pages, t) && n / 512 in t.lowests
    ensures var i := EntryIndex(Branch(base + t.lowests[n / 512]), base, n % 512);
            && 0 <= i < |mem| && i == 512 * t.lowests[n / 512] + n % 512
            && mem[i] == if n in t.flat then LeafPte(t.flat[n]) else ZERO_PTE
  {
    TableEntry(mem, base, pages, t, t.lowests[n / 512], n % 512);
    hide EntryIndex;
    assert 512 * (n / 512) + n % 512 == n;
  }

  /** What the flat map says about an address. */
  ghost function Lookup(t: Tree, address: Word): Translation {
    var n := PageOf(address);
    if n in t.flat then Mapped(4096 * t.flat[n].frame + address % 4096)
    else Invalid(if n / 512 in t.lowests then 0 else if n / 512 / 512 in t.middles then 1 else 2)
  }

  /** The first descent of `translate`: without a middle table it stops at the root. */
  lemma {:induction false} StopsAtRoot(mem: seq<Pte>, base: nat, pages: nat, t: Tree, address: Word)
    requires Represents(mem, base, pages, t) && PageOf(address) / 512 / 512 !in t.middles
    ensures 512 * t.root + 512 <= |mem| && Translate(mem, base, t.root, address) == Invalid(2)
  {
    hide Represents, GetPpn, OrOffset, EntryIndex, PageOf;
    PageParts(PageOf(address));
    RootEntry(mem, base, pages, t, PageOf(address) / 512 / 512);
  }

  /** The second descent: without a lowest table it stops at the middle one. */
  lemma {:induction false} StopsAtMiddle(mem: seq<Pte>, base: nat, pages: nat, t: Tree, address: Word)
    requires Represents(mem, base, pages, t)
    requires PageOf(address) / 512 / 512 in t.middles && PageOf(address) / 512 !in t.lowests
    ensures 512 * t.root + 512 <= |mem| && Translate(mem, base, t.root, address) == Invalid(1)
  {
    hide Represents, GetPpn, OrOffset, EntryIndex, PageOf;
    PageParts(PageOf(address));
    RootEntry(mem, base, pages, t, PageOf(address) / 512 / 512);
    MiddleEntry(mem, base, pages, t, PageOf(address) / 512);
  }

  /** The third descent: the entry of the page itself decides. */
  lemma {:induction false} ReadsLowest(mem: seq<Pte>, base: nat, pages: nat, t: Tree, address: Word)
    requires Represents(mem, base, pages, t)
    requires PageOf(address) / 512 / 512 in t.middles && PageOf(address) / 512 in t.lowests
    ensures 512 * t.root + 512 <= |mem|
    ensures var n := PageOf(address);
            && (n in t.flat ==> t.flat[n].flags.valid)
            && Translate(mem, base, t.root, address)
               == if n in t.flat then Mapped(OrOffset(GetPpn(LeafPte(t.flat[n])), address % 4096)) else Invalid(0)
  {
    hide Represents, GetPpn, OrOffset, EntryIndex, PageOf;
    PageParts(PageOf(address));
    FlatIsValid(mem, base, pages, t, PageOf(address));
    RootEntry(mem, base, pages, t, PageOf(address) / 512 / 512);
    MiddleEntry(mem, base, pages, t, PageOf(address) / 512);
    LowestEntry(mem, base, pages, t, PageOf(address));
  }

  lemma {:induction false} FlatIsValid(mem: seq<Pte>, base: nat, pages: nat, t: Tree, n: nat)
    requires Represents(mem, base, pages, t)
    ensures n / 512 in t.lowests ==> n / 512 / 512 in t.middles
    ensures n in t.flat ==> n / 512 in t.lowests && t.flat[n].flags.valid
  {
  }

  /**
    `translate` reads a tree as the flat map it represents: the frame plus
    the offset, or an error, for every address.
   */
  lemma {:induction false} TranslateReadsFlatMap(mem: seq<Pte>, base: nat, pages: nat, t: Tree, address: Word)
    requires Represents(mem, base, pages, t)
    ensures 512 * t.root + 512 <= |mem|
    ensures Translate(mem, base, t.root, address) == Lookup(t, address)
  {
    hide Represents, Translate, PageOf, OrOffset, GetPpn;
    var n := PageOf(address);
    FlatIsValid(mem, base, pages, t, n);
    if n / 512 / 512 !in t.middles {
      StopsAtRoot(mem, base, pages, t, address);
    } else if n / 512 !in t.lowests {
      StopsAtMiddle(mem, base, pages, t, address);
    } else {
      ReadsLowest(mem, base, pages, t, address);
      if n in t.flat {
        LeafAddress(t.flat[n], address % 4096);
      }
    }
  }

  // ----- how `map` changes a tree -----

  /** Whether the table that holds the entry of page `n` at `level` exists. */
  ghost predicate HasTable(t: Tree, level: nat, n: nat) {
    match level
    case 0 => n / 512 in t.lowests
    case 1 => n / 512 / 512 in t.middles
    case _ => true
  }

  /** The page and the index in it of the entry of page `n` at `level`. */
  ghost function SlotPage(t: Tree, level: nat, n: nat): nat
    requires HasTable(t, level, n)
  {
    match level
    case 0 => t.lowests[n / 512]
    case 1 => t.middles[n / 512 / 512]
    case _ => t.root
  }

  function SlotIndex(level: nat, n: nat): nat {
    match level
    case 0 => n % 512
    case 1 => n / 512 % 512
    case _ => n / 512 / 512
  }

  ghost function Slot(t: Tree, level: nat, n: nat): nat
    requires HasTable(t, level, n)
  {
    512 * SlotPage(t, level, n) + SlotIndex(level, n)
  }

  /** The tree after page `p` becomes the missing table below the entry of `n` at `level + 1`. */
  ghost function Grow(t: Tree, level: nat, n: nat, p: nat): Tree {
    if level == 1 then t.(middles := t.middles[n / 512 / 512 := p], owner := t.owner[p := Middle(n / 512 / 512)])
    else t.(lowests := t.lowests[n / 512 := p], owner := t.owner[p := Lowest(n / 512)])
  }

  /** The memories agree on every page outside `except`. */
  ghost predicate SameOutside(was: seq<Pte>, now: seq<Pte>, except: set<nat>) {
    && |was| == |now|
    && forall p: nat, i: nat | p !in except && i < 512 && 512 * p + i < |was| :: Entry(now, p, i) == Entry(was, p, i)
  }

  /** An entry above the lowest level either leads to the next table's slot or is zero. */
  lemma {:induction false} FollowSlot(mem: seq<Pte>, base: nat, pages: nat, t: Tree, level: nat, n: nat)
    requires Represents(mem, base, pages, t) && n < VIRTUAL_PAGES && level < 2 && HasTable(t, level + 1, n)
    ensures Slot(t, level + 1, n) < |mem|
    ensures var e := mem[Slot(t, level + 1, n)];
            if HasTable(t, level, n) then
              && e.flags.valid && Slot(t, level, n) < |mem|
              && EntryIndex(e, base, if level == 0 then n % 512 else n / 512 % 512) == Slot(t, level, n)
            else e == ZERO_PTE
  {
    if level == 1 {
      FollowRoot(mem, base, pages, t, n);
    } else {
      FollowMiddle(mem, base, pages, t, n);
    }
  }

  lemma {:induction false} FollowRoot(mem: seq<Pte>, base: nat, pages: nat, t: Tree, n: nat)
    requires Represents(mem, base, pages, t) && n < VIRTUAL_PAGES
    ensures Slot(t, 2, n) < |mem|
    ensures var e := mem[Slot(t, 2, n)];
            if HasTable(t, 1, n) then
              e.flags.valid && Slot(t, 1, n) < |mem| && EntryIndex(e, base, n / 512 % 512) == Slot(t, 1, n)
            else e == ZERO_PTE
  {
    PageParts(n);
    RootEntry(mem, base, pages, t, n / 512 / 512);
    if HasTable(t, 1, n) {
      MiddleEntry(mem, base, pages, t, n / 512);
    }
  }

  lemma {:induction false} FollowMiddle(mem: seq<Pte>, base: nat, pages: nat, t: Tree, n: nat)
    requires Represents(mem, base, pages, t) && HasTable(t, 1, n)
    ensures Slot(t, 1, n) < |mem|
    ensures var e := mem[Slot(t, 1, n)];
            if HasTable(t, 0, n) then
              e.flags.valid && Slot(t, 0, n) < |mem| && EntryIndex(e, base, n % 512) == Slot(t, 0, n)
            else e == ZERO_PTE
  {
    MiddleEntry(mem, base, pages, t, n / 512);
    if HasTable(t, 0, n) {
      LowestEntry(mem, base, pages, t, n);
    }
  }

  /** A tree survives any change outside its own pages. */
  lemma {:induction false} RepresentsFrame(was: seq<Pte>, now: seq<Pte>, base: nat, pages: nat, t: Tree,
                                           except: set<nat>)
    requires Represents(was, base, pages, t) && SameOutside(was, now, except) && t.owner.Keys !! except
    ensures Represents(now, base, pages, t)
  {
    forall p, i | p in t.owner && 0 <= i < 512
      ensures Entry(now, p, i) == Expected(t, base, pages, t.owner[p], i)
    {
      assert p in t.owner.Keys;
      assert Entry(was, p, i) == Expected(t, base, pages, t.owner[p], i);
    }
  }

  lemma {:induction false} GrowPlaced(t: Tree, pages: nat, level: nat, n: nat, p: nat)
    requires Placed(t, pages) && n < VIRTUAL_PAGES && level < 2
    requires HasTable(t, level + 1, n) && !HasTable(t, level, n) && p !in t.owner && p < pages
    ensures Placed(Grow(t, level, n, p), pages)
  {
    if level == 1 {
      PageParts(n);
      GrowMiddlePlaced(t, pages, n / 512 / 512, p);
    } else {
      GrowLowestPlaced(t, pages, n / 512, p);
    }
  }

  lemma {:induction false} GrowMiddlePlaced(t: Tree, pages: nat, k: nat, p: nat)
    requires Placed(t, pages) && k < 512 && k !in t.middles && p !in t.owner && p < pages
    ensures Placed(t.(middles := t.middles[k := p], owner := t.owner[p := Middle(k)]), pages)
  {
    var u := t.(middles := t.middles[k := p], owner := t.owner[p := Middle(k)]);
    forall q | q in u.owner
      ensures q < pages && HasRole(u, q)
    {
      assert q != p ==> HasRole(t, q);
    }
  }

  lemma {:induction false} GrowLowestPlaced(t: Tree, pages: nat, k: nat, p: nat)
    requires Placed(t, pages) && k / 512 in t.middles && k !in t.lowests && p !in t.owner && p < pages
    ensures Placed(t.(lowests := t.lowests[k := p], owner := t.owner[p := Lowest(k)]), pages)
  {
    var u := t.(lowests := t.lowests[k := p], owner := t.owner[p := Lowest(k)]);
    forall q | q in u.owner
      ensures q < pages && HasRole(u, q)
    {
      assert q != p ==> HasRole(t, q);
    }
  }

  lemma EntryUpdate(mem: seq<Pte>, p: nat, i: nat, e: Pte, q: nat, j: nat)
    requires i < 512 && j < 512 && 512 * p + i < |mem| && 512 * q + j < |mem|
    ensures Entry(mem[512 * p + i := e], q, j) == if q == p && j == i then e else Entry(mem, q, j)
  {
  }

  lemma {:induction false} GrowExpected(t: Tree, base: nat, pages: nat, level: nat, n: nat, p: nat, q: nat, i: nat)
    requires Placed(t, pages) && n < VIRTUAL_PAGES && level < 2 && base + pages <= FRAMES
    requires HasTable(t, level + 1, n) && !HasTable(t, level, n) && p !in t.owner && p < pages
    requires Placed(Grow(t, level, n, p), pages)
    requires q in t.owner && i < 512
    ensures Expected(Grow(t, level, n, p), base, pages, t.owner[q], i)
         == if q == SlotPage(t, level + 1, n) && i == SlotIndex(level + 1, n) then Branch(base + p)
            else Expected(t, base, pages, t.owner[q], i)
  {
    if level == 0 {
      GrowLowestExpected(t, base, pages, n, p, q, i);
    } else {
      assert HasRole(t, q);
    }
  }

  lemma {:induction false} GrowLowestExpected(t: Tree, base: nat, pages: nat, n: nat, p: nat, q: nat, i: nat)
    requires Placed(t, pages) && base + pages <= FRAMES
    requires HasTable(t, 1, n) && !HasTable(t, 0, n) && p < pages && p !in t.owner
    requires Placed(Grow(t, 0, n, p), pages)
    requires q in t.owner && i < 512
    ensures Expected(Grow(t, 0, n, p), base, pages, t.owner[q], i)
         == if q == t.middles[n / 512 / 512] && i == n / 512 % 512 then Branch(base + p)
            else Expected(t, base, pages, t.owner[q], i)
  {
    assert HasRole(t, q);
    match t.owner[q]
    case Root =>
    case Middle(k) =>
      assert 512 * k + i == n / 512 <==> k == n / 512 / 512 && i == n / 512 % 512;
    case Lowest(k) =>
  }

  /** A fresh zeroed page linked into an empty entry is a tree with one more, empty, table. */
  lemma {:induction false} GrowRepresents(mem: seq<Pte>, base: nat, pages: nat, t: Tree, level: nat, n: nat, p: nat)
    requires Represents(mem, base, pages, t) && n < VIRTUAL_PAGES && level < 2
    requires HasTable(t, level + 1, n) && !HasTable(t, level, n) && p !in t.owner && p < pages
    requires Slot(t, level + 1, n) < |mem|
    requires forall i | 0 <= i < 512 :: Entry(mem, p, i) == ZERO_PTE
    ensures Represents(mem[Slot(t, level + 1, n) := Branch(base + p)], base, pages, Grow(t, level, n, p))
  {
    GrowPlaced(t, pages, level, n, p);
    var u := Grow(t, level, n, p);
    var v, i0 := SlotPage(t, level + 1, n), SlotIndex(level + 1, n);
    SlotInTree(t, pages, level + 1, n);
    forall q, i | q in u.owner && 0 <= i < 512
      ensures Entry(mem[512 * v + i0 := Branch(base + p)], q, i) == Expected(u, base, pages, u.owner[q], i)
    {
      EntryUpdate(mem, v, i0, Branch(base + p), q, i);
      if q == p {
        GrowEmpty(t, base, pages, level, n, p, i);
        assert Entry(mem, p, i) == ZERO_PTE;
      } else {
        GrowExpected(t, base, pages, level, n, p, q, i);
        assert Entry(mem, q, i) == Expected(t, base, pages, t.owner[q], i);
      }
    }
  }

  /** The new table is empty: nothing hangs below a table that was missing. */
  lemma {:induction false} GrowEmpty(t: Tree, base: nat, pages: nat, level: nat, n: nat, p: nat, i: nat)
    requires Placed(t, pages) && level < 2 && base + pages <= FRAMES
    requires !HasTable(t, level, n) && p < pages && i < 512
    requires Placed(Grow(t, level, n, p), pages)
    ensures Expected(Grow(t, level, n, p), base, pages, Grow(t, level, n, p).owner[p], i) == ZERO_PTE
  {
    if level == 1 {
      NoTableBelow(t, pages, n / 512 / 512, i);
    } else {
      NoPageBelow(t, pages, n / 512, i);
    }
    hide Placed;
  }

  lemma NoTableBelow(t: Tree, pages: nat, k: nat, i: nat)
    requires Placed(t, pages) && k !in t.middles && i < 512
    ensures 512 * k + i !in t.lowests
  {
    assert (512 * k + i) / 512 == k;
  }

  lemma NoPageBelow(t: Tree, pages: nat, k: nat, i: nat)
    requires Placed(t, pages) && k !in t.lowests && i < 512
    ensures 512 * k + i !in t.flat
  {
    assert (512 * k + i) / 512 == k;
  }

  lemma {:induction false} SlotInTree(t: Tree, pages: nat, level: nat, n: nat)
    requires Placed(t, pages) && HasTable(t, level, n) && (level < 2 || n < VIRTUAL_PAGES)
    ensures SlotPage(t, level, n) in t.owner && SlotIndex(level, n) < 512
  {
    if level >= 2 {
      PageParts(n);
    }
  }

  ghost function SetLeaf(t: Tree, n: nat, l: Leaf): Tree {
    t.(flat := t.flat[n := l])
  }

  lemma {:induction false} SetLeafExpected(t: Tree, base: nat, pages: nat, n: nat, l: Leaf, q: nat, i: nat)
    requires Placed(t, pages) && HasTable(t, 0, n) && base + pages <= FRAMES && l.flags.valid
    requires q in t.owner && i < 512
    ensures Placed(SetLeaf(t, n, l), pages)
    ensures Expected(SetLeaf(t, n, l), base, pages, t.owner[q], i)
         == if q == SlotPage(t, 0, n) && i == SlotIndex(0, n) then LeafPte(l)
            else Expected(t, base, pages, t.owner[q], i)
  {
    assert HasRole(t, q);
    var u := SetLeaf(t, n, l);
    forall p | p in u.owner
      ensures p < pages && HasRole(u, p)
    {
      assert HasRole(t, p);
    }
    match t.owner[q]
    case Root =>
    case Middle(k) =>
    case Lowest(k) =>
      assert 512 * k + i == n <==> k == n / 512 && i == n % 512;
  }

  /** Writing a lowest-level entry updates the flat map at that page and nowhere else. */
  lemma {:induction false} SetLeafRepresents(mem: seq<Pte>, base: nat, pages: nat, t: Tree, n: nat, l: Leaf)
    requires Represents(mem, base, pages, t) && HasTable(t, 0, n) && l.flags.valid
    requires Slot(t, 0, n) < |mem|
    ensures Represents(mem[Slot(t, 0, n) := LeafPte(l)], base, pages, SetLeaf(t, n, l))
  {
    var v, i0, u := SlotPage(t, 0, n), SlotIndex(0, n), SetLeaf(t, n, l);
    SetLeafExpected(t, base, pages, n, l, t.root, 0);
    forall q, i | q in u.owner && 0 <= i < 512
      ensures Entry(mem[512 * v + i0 := LeafPte(l)], q, i) == Expected(u, base, pages, u.owner[q], i)
    {
      EntryUpdate(mem, v, i0, LeafPte(l), q, i);
      SetLeafExpected(t, base, pages, n, l, q, i);
      assert Entry(mem, q, i) == Expected(t, base, pages, t.owner[q], i);
    }
  }

  // ----- what a sequence of mappings does to the flat map -----

  /** One level-0 mapping of a page. */
  datatype MapOp = MapOp(page: nat, frame: Frame, bits: Flags)

  /** The entry is overwritten except for its permission bits, which accumulate. */
  function Remap(flat: map<nat, Leaf>, op: MapOp): Leaf {
    var had := if op.page in flat then flat[op.page].flags else NO_FLAGS;
    Leaf(op.frame, Either(Either(had, VAD_FLAGS), op.bits))
  }

  function ApplyOp(flat: map<nat, Leaf>, op: MapOp): map<nat, Leaf> {
    flat[op.page := Remap(flat, op)]
  }

  function ApplyOps(flat: map<nat, Leaf>, ops: seq<MapOp>): map<nat, Leaf> {
    if ops == [] then flat else ApplyOp(ApplyOps(flat, ops[..|ops| - 1]), ops[|ops| - 1])
  }

  predicate Touches(ops: seq<MapOp>, n: nat) {
    exists k :: 0 <= k < |ops| && ops[k].page == n
  }

  predicate IsLastOp(ops: seq<MapOp>, n: nat, k: int) {
    0 <= k < |ops| && ops[k].page == n && forall j | k < j < |ops| :: ops[j].page != n
  }

  /** The union of the permission bits `ops` gives to page `n`. */
  function UnionBits(ops: seq<MapOp>, n: nat): Flags {
    if ops == [] then NO_FLAGS
    else
      var before, op := UnionBits(ops[..|ops| - 1], n), ops[|ops| - 1];
      if op.page == n then Either(before, op.bits) else before
  }

  /**
    After any mappings, overlapping or not, a page has the frame of the last mapping that named it and
    every permission bit it was ever given; a page no mapping named is as before.
   */
  lemma {:induction false} HistoryOfPage(flat: map<nat, Leaf>, ops: seq<MapOp>, n: nat)
    ensures var r := ApplyOps(flat, ops);
            && (n in r <==> n in flat || Touches(ops, n))
            && (!Touches(ops, n) ==> UnionBits(ops, n) == NO_FLAGS && (n in flat ==> r[n] == flat[n]))
            && (Touches(ops, n) ==>
                  && r[n].flags == Either(Either(if n in flat then flat[n].flags else NO_FLAGS, VAD_FLAGS),
                                          UnionBits(ops, n))
                  && exists k :: IsLastOp(ops, n, k) && r[n].frame == ops[k].frame)
  {
    if ops == [] {
      return;
    }
    var init, last := ops[..|ops| - 1], |ops| - 1;
    HistoryOfPage(flat, init, n);
    assert forall k | 0 <= k < last :: init[k] == ops[k];
    if ops[last].page == n {
      assert IsLastOp(ops, n, last);
      assert Touches(ops, n);
      BitsAccumulate(if n in flat then flat[n].flags else NO_FLAGS, UnionBits(init, n), ops[last].bits);
    } else {
      assert Touches(ops, n) <==> Touches(init, n);
      if Touches(init, n) {
        var k :| IsLastOp(init, n, k) && ApplyOps(flat, init)[n].frame == init[k].frame;
        assert IsLastOp(ops, n, k);
      }
    }
  }

  lemma BitsAccumulate(had: Flags, union: Flags, bits: Flags)
    ensures Either(Either(Either(Either(had, VAD_FLAGS), union), VAD_FLAGS), bits)
         == Either(Either(had, VAD_FLAGS), Either(union, bits))
    ensures Either(Either(had, VAD_FLAGS), bits) == Either(Either(had, VAD_FLAGS), Either(NO_FLAGS, bits))
  {
  }

  /** The mappings of a range: page by page upwards, virtual pages modulo 2^27 and frames modulo 2^44. */
  function RangeOps(page: nat, frame: nat, count: nat, bits: Flags): (r: seq<MapOp>)
    ensures |r| == count
    ensures forall k | 0 <= k < count :: r[k] == MapOp((page + k) % 0x800_0000, (frame + k) % 0x1000_0000_0000, bits)
  {
    seq(count, k requires 0 <= k < count => MapOp((page + k) % 0x800_0000, (frame + k) % 0x1000_0000_0000, bits))
  }

  /**
    A range no longer than the virtual address space maps each of its
    pages to the matching frame, and no other page.
   */
  lemma {:induction false} RangeMapsExactly(flat: map<nat, Leaf>, page: nat, frame: nat, count: nat, bits: Flags,
                                            n: nat)
    requires count <= VIRTUAL_PAGES && n < VIRTUAL_PAGES
    ensures var r, k := ApplyOps(flat, RangeOps(page, frame, count, bits)), (n - page) % 0x800_0000;
            if k < count then
              && n in r && r[n].frame == (frame + k) % 0x1000_0000_0000
              && r[n].flags == Either(Either(if n in flat then flat[n].flags else NO_FLAGS, VAD_FLAGS), bits)
            else (n in r <==> n in flat) && (n in flat ==> r[n] == flat[n])
  {
    var ops, k := RangeOps(page, frame, count, bits), (n - page) % 0x800_0000;
    HistoryOfPage(flat, ops, n);
    forall j | 0 <= j < count
      ensures ops[j].page == n <==> j == k
    {
      OffsetUnique(page, n, j);
    }
    if k < count {
      assert ops[k].page == n;
      UnionOfOne(ops, n, k);
    }
  }

  lemma OffsetUnique(page: nat, n: nat, j: nat)
    requires n < VIRTUAL_PAGES && j < VIRTUAL_PAGES
    ensures (page + j) % 0x800_0000 == n <==> j == (n - page) % 0x800_0000
  {
  }

  lemma {:induction false} UnionOfOne(ops: seq<MapOp>, n: nat, k: nat)
    requires forall j | 0 <= j < |ops| :: ops[j].page == n <==> j == k
    ensures UnionBits(ops, n) == if k < |ops| then ops[k].bits else NO_FLAGS
  {
    if ops != [] {
      UnionOfOne(ops[..|ops| - 1], n, k);
    }
  }
}
