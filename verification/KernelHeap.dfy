/**
  The kernel heap: an implicit list of chunks, each led by one header word (63 bits of size, one
  taken bit), allocated first-fit with a split and merged pairwise in one pass on every free.

  Addresses are word indexes from `m_head`; a header's size field counts bytes, as in the source.
 */
module KernelHeap {
  import opened MachineWords

  const TAKEN: int := 0x8000_0000_0000_0000

  /** A chunk of the heap; its length counts words and includes the header word. */
  datatype Chunk = Chunk(words: nat, taken: bool)

  /** A live allocation as its owner sees it: the first payload word and the payload length. */
  datatype Block = Block(start: int, words: int)

  /** What a call of `kmalloc` did. `RanPastHeap` is the scan reading the word behind the last chunk. */
  datatype Outcome = Null | Allocated(ptr: nat) | RanPastHeap

  // ----- header words -----

  function HeaderSize(w: Word): Word {
    if w < TAKEN then w else w - TAKEN
  }

  predicate HeaderFree(w: Word) {
    w < TAKEN
  }

  function SetTaken(w: Word): Word {
    HeaderSize(w) + TAKEN
  }

  function SetFree(w: Word): Word {
    HeaderSize(w)
  }

  /** The size field is 63 bits wide; the taken bit is left alone. */
  function SetSize(w: Word, size: Word): Word {
    size % TAKEN + if HeaderFree(w) then 0 else TAKEN
  }

  function Header(c: Chunk): Word {
    (8 * c.words) % TAKEN + if c.taken then TAKEN else 0
  }

  // ----- chunk lists -----

  function Total(cs: seq<Chunk>): nat {
    if cs == [] then 0 else cs[0].words + Total(cs[1..])
  }

  /** Every live block, for a chunk list laid out from word `at`. */
  ghost function Live(cs: seq<Chunk>, at: nat): set<Block>
  {
    if cs == [] then {}
    else (if cs[0].taken then {Block(at + 1, cs[0].words - 1)} else {}) + Live(cs[1..], at + cs[0].words)
  }

  /** How many neighbouring chunks are both free: a run of n free chunks contributes n - 1. */
  function FreePairs(cs: seq<Chunk>): nat {
    if |cs| < 2 then 0
    else (if !cs[0].taken && !cs[1].taken then 1 else 0) + FreePairs(cs[1..])
  }

  function FreeWords(cs: seq<Chunk>): nat {
    if cs == [] then 0 else (if cs[0].taken then 0 else cs[0].words) + FreeWords(cs[1..])
  }

  function TakenWords(cs: seq<Chunk>): nat {
    if cs == [] then 0 else (if cs[0].taken then cs[0].words else 0) + TakenWords(cs[1..])
  }

  predicate Fits(c: Chunk, words: nat) {
    !c.taken && words <= c.words
  }

  /** The lowest chunk that fits, or the number of chunks when none does. */
  function FirstFit(cs: seq<Chunk>, words: nat): (k: nat)
    ensures k <= |cs|
    ensures k < |cs| ==> Fits(cs[k], words)
    ensures forall j | 0 <= j < k :: !Fits(cs[j], words)
  {
    if cs == [] || Fits(cs[0], words) then 0 else 1 + FirstFit(cs[1..], words)
  }

  /** Bytes `kmalloc(sz)` looks for: the request rounded up to 8 bytes plus the header, in 64-bit arithmetic. */
  function RequestBytes(sz: Word): Word {
    Wrap(AlignValue(sz, 8) + 8)
  }

  function RequestWords(sz: Word): nat {
    RequestBytes(sz) / 8
  }

  /** Words handed out, header included: a lone header word that would be left over goes with the block. */
  function Granted(c: Chunk, words: nat): nat {
    if c.words > words + 1 then words else c.words
  }

  /** The chunk list after chunk `k` is allocated, split when more than a header would be left over. */
  function Take(cs: seq<Chunk>, k: nat, words: nat): seq<Chunk>
    requires k < |cs| && words <= cs[k].words
  {
    cs[..k] + Cut(cs[k], words) + cs[k + 1..]
  }

  /** The chunk list after the block at `ptr` is marked free; the list starts at word `at`. */
  function Release(cs: seq<Chunk>, at: nat, ptr: int): seq<Chunk> {
    if cs == [] then []
    else if at + 1 == ptr then [Chunk(cs[0].words, false)] + cs[1..]
    else [cs[0]] + Release(cs[1..], at + cs[0].words, ptr)
  }

  /** One pass of pairwise merging, left to right; a merged chunk is not looked at again. */
  function Coalesced(cs: seq<Chunk>): seq<Chunk> {
    if |cs| < 2 then cs
    else if !cs[0].taken && !cs[1].taken then [Chunk(cs[0].words + cs[1].words, false)] + Coalesced(cs[2..])
    else [cs[0]] + Coalesced(cs[1..])
  }

  ghost predicate LongEnough(cs: seq<Chunk>) {
    forall k | 0 <= k < |cs| :: cs[k].words >= 2
  }

  ghost predicate IsLive(cs: seq<Chunk>, ptr: int)
  {
    exists b :: b in Live(cs, 0) && b.start == ptr
  }

  ghost predicate InLivePayload(cs: seq<Chunk>, word: int)
  {
    exists b :: b in Live(cs, 0) && b.start <= word < b.start + b.words
  }

  ghost predicate InFreeChunk(cs: seq<Chunk>, at: nat, word: nat) {
    cs != [] && ((!cs[0].taken && at <= word < at + cs[0].words) || InFreeChunk(cs[1..], at + cs[0].words, word))
  }

  // ----- facts about chunk lists -----

  lemma {:induction false} TotalAppend(a: seq<Chunk>, b: seq<Chunk>)
    ensures Total(a + b) == Total(a) + Total(b)
  {
    if a == [] {
      assert a + b == b;
    } else {
      assert (a + b)[1..] == a[1..] + b;
      TotalAppend(a[1..], b);
    }
  }

  lemma {:induction false} LiveAppend(a: seq<Chunk>, b: seq<Chunk>, at: nat)
    ensures Live(a + b, at) == Live(a, at) + Live(b, at + Total(a))
  {
    if a == [] {
      assert a + b == b;
    } else {
      assert (a + b)[1..] == a[1..] + b;
      LiveAppend(a[1..], b, at + a[0].words);
    }
  }

  lemma {:induction false} LiveRange(cs: seq<Chunk>, at: nat, b: Block)
    requires LongEnough(cs) && b in Live(cs, at)
    ensures at < b.start && 0 < b.words && b.start + b.words <= at + Total(cs)
  {
    if !(cs[0].taken && b == Block(at + 1, cs[0].words - 1)) {
      LiveRange(cs[1..], at + cs[0].words, b);
    }
  }

  /** Live blocks never overlap. */
  lemma {:induction false} LiveBlocksDisjoint(cs: seq<Chunk>, at: nat, a: Block, b: Block)
    requires LongEnough(cs) && a in Live(cs, at) && b in Live(cs, at) && a != b
    ensures a.start + a.words < b.start || b.start + b.words < a.start
  {
    var first := Block(at + 1, cs[0].words - 1);
    var rest := at + cs[0].words;
    if a in Live(cs[1..], rest) && b in Live(cs[1..], rest) {
      LiveBlocksDisjoint(cs[1..], rest, a, b);
    } else if a in Live(cs[1..], rest) {
      LiveRange(cs[1..], rest, a);
    } else if b in Live(cs[1..], rest) {
      LiveRange(cs[1..], rest, b);
    }
  }

  /** Free and used sizes always add up to the size of the heap. */
  lemma {:induction false} FreePlusTaken(cs: seq<Chunk>)
    ensures FreeWords(cs) + TakenWords(cs) == Total(cs)
  {
    if cs != [] {
      FreePlusTaken(cs[1..]);
    }
  }

  /**
    The scan asks for at least the requested bytes plus a header exactly when the size computation
    does not wrap, that is up to 2^64 - 16. Above that it asks for one word or for none.
   */
  lemma {:induction false} RequestCoversSize(sz: Word)
    ensures RequestBytes(sz) == 8 * RequestWords(sz)
    ensures 8 * RequestWords(sz) >= sz + 8 <==> sz <= U64 - 16
    ensures sz > U64 - 16 ==> RequestWords(sz) <= 1
    ensures 0 < sz <= U64 - 16 ==> RequestWords(sz) >= 2 && 8 * RequestWords(sz) < sz + 16
  {
    AlignValueRoundsUp(sz, 8);
    var aligned: int := AlignValue(sz, 8);
    assert RequestBytes(sz) == Wrap(aligned + 8);
    hide AlignValue, RequestBytes;
    var q := aligned / 8;
    assert aligned == 8 * q;
    if aligned == U64 - 8 {
      assert Wrap(aligned + 8) == 0;
    } else {
      assert Wrap(aligned + 8) == 8 * (q + 1);
    }
  }

  lemma {:induction false} SplitAt(cs: seq<Chunk>, k: nat)
    requires k < |cs| && LongEnough(cs)
    ensures cs == cs[..k] + [cs[k]] + cs[k + 1..] == cs[..k] + cs[k..]
    ensures LongEnough(cs[..k]) && LongEnough(cs[k + 1..]) && LongEnough(cs[k..])
  {
  }

  lemma {:induction false} LiveMiddle(left: seq<Chunk>, mid: seq<Chunk>, right: seq<Chunk>)
    requires LongEnough(left) && LongEnough(mid) && LongEnough(right)
    ensures LongEnough(left + mid + right) && Total(left + mid + right) == Total(left) + Total(mid) + Total(right)
    ensures Live(left + mid + right, 0)
         == Live(left, 0) + Live(mid, Total(left)) + Live(right, Total(left) + Total(mid))
  {
    TotalAppend(left, mid);
    TotalAppend(left + mid, right);
    LiveAppend(left, mid, 0);
    LiveAppend(left + mid, right, 0);
  }

  /** The chunks that replace chunk `c` when `words` words of it are allocated. */
  function Cut(c: Chunk, words: nat): seq<Chunk>
    requires words <= c.words
  {
    if c.words - words > 1 then [Chunk(words, true), Chunk(c.words - words, false)] else [Chunk(c.words, true)]
  }

  lemma {:induction false} CutFacts(c: Chunk, words: nat, at: nat)
    requires 2 <= words <= c.words && !c.taken
    ensures LongEnough(Cut(c, words)) && Total(Cut(c, words)) == c.words
    ensures Live(Cut(c, words), at) == {Block(at + 1, Granted(c, words) - 1)}
    ensures Total([c]) == c.words && Live([c], at) == {}
  {
    assert [c][1..] == [];
    if c.words - words > 1 {
      var tail := Cut(c, words)[1..];
      assert tail == [Chunk(c.words - words, false)] && tail[1..] == [];
      assert Live(tail[1..], at + c.words) == {};
      assert Total(tail) == c.words - words;
    } else {
      assert Cut(c, words)[1..] == [];
    }
  }

  /** Allocation adds one block, in the lowest fitting chunk, and keeps every other block where it is. */
  lemma {:induction false} TakeAddsBlock(cs: seq<Chunk>, k: nat, words: nat)
    requires LongEnough(cs) && k < |cs| && Fits(cs[k], words) && words >= 2
    ensures LongEnough(Take(cs, k, words)) && Total(Take(cs, k, words)) == Total(cs)
    ensures Live(Take(cs, k, words), 0) == Live(cs, 0) + {Block(Total(cs[..k]) + 1, Granted(cs[k], words) - 1)}
  {
    SplitAt(cs, k);
    var left, right, at := cs[..k], cs[k + 1..], Total(cs[..k]);
    CutFacts(cs[k], words, at);
    LiveMiddle(left, [cs[k]], right);
    LiveMiddle(left, Cut(cs[k], words), right);
  }

  /** The block handed out was not live before. */
  lemma {:induction false} FreeChunkNotLive(cs: seq<Chunk>, k: nat)
    requires LongEnough(cs) && k < |cs| && !cs[k].taken
    ensures !IsLive(cs, Total(cs[..k]) + 1)
  {
    SplitAt(cs, k);
    var left, right, at := cs[..k], cs[k + 1..], Total(cs[..k]);
    LiveMiddle(left, [cs[k]], right);
    assert [cs[k]][1..] == [];
    if IsLive(cs, at + 1) {
      var b :| b in Live(cs, 0) && b.start == at + 1;
      if b in Live(left, 0) {
        LiveRange(left, 0, b);
      } else {
        LiveRange(right, at + cs[k].words, b);
      }
      assert false;
    }
  }

  lemma {:induction false} ReleaseRemovesBlock(cs: seq<Chunk>, at: nat, b: Block)
    requires LongEnough(cs) && b in Live(cs, at)
    ensures LongEnough(Release(cs, at, b.start)) && Total(Release(cs, at, b.start)) == Total(cs)
    ensures Live(Release(cs, at, b.start), at) == Live(cs, at) - {b}
    ensures FreePairs(Release(cs, at, b.start)) <= FreePairs(cs) + 2
    ensures Release(cs, at, b.start)[0].taken ==> cs[0].taken
    ensures |Release(cs, at, b.start)| == |cs|
    ensures Release(cs, at, b.start)[0].taken != cs[0].taken ==>
              FreePairs(Release(cs, at, b.start)) <= FreePairs(cs) + 1
  {
    var rest := at + cs[0].words;
    var out := Release(cs, at, b.start);
    if at + 1 == b.start {
      assert b !in Live(cs[1..], rest) by {
        if b in Live(cs[1..], rest) {
          LiveRange(cs[1..], rest, b);
        }
      }
      assert out[1..] == cs[1..];
    } else {
      ReleaseRemovesBlock(cs[1..], rest, b);
      assert out[1..] == Release(cs[1..], rest, b.start);
      var first := Block(at + 1, cs[0].words - 1);
      assert first != b;
    }
  }

  lemma {:induction false} CoalescedKeepsBlocks(cs: seq<Chunk>, at: nat)
    requires LongEnough(cs)
    ensures LongEnough(Coalesced(cs)) && Total(Coalesced(cs)) == Total(cs)
    ensures Live(Coalesced(cs), at) == Live(cs, at)
  {
    if |cs| < 2 {
    } else if !cs[0].taken && !cs[1].taken {
      CoalescedKeepsBlocks(cs[2..], at + cs[0].words + cs[1].words);
      assert cs[1..][1..] == cs[2..];
    } else {
      CoalescedKeepsBlocks(cs[1..], at + cs[0].words);
    }
  }

  /** One pass at least halves the number of adjacent free pairs. */
  lemma {:induction false} CoalescedHalvesPairs(cs: seq<Chunk>)
    ensures 2 * FreePairs(Coalesced(cs)) <= FreePairs(cs)
    ensures |cs| > 0 ==> |Coalesced(cs)| > 0 && Coalesced(cs)[0].taken == cs[0].taken
  {
    if |cs| < 2 {
    } else if !cs[0].taken && !cs[1].taken {
      CoalescedHalvesPairs(cs[2..]);
      assert Coalesced(cs)[1..] == Coalesced(cs[2..]);
      assert cs[1..][1..] == cs[2..];
    } else {
      CoalescedHalvesPairs(cs[1..]);
      assert Coalesced(cs)[1..] == Coalesced(cs[1..]);
    }
  }

  lemma {:induction false} PairsAppend(a: seq<Chunk>, b: seq<Chunk>)
    ensures FreePairs(a + b) == FreePairs(a) + FreePairs(b)
                                + if a != [] && b != [] && !a[|a| - 1].taken && !b[0].taken then 1 else 0
  {
    if a == [] {
      assert a + b == b;
    } else if |a| == 1 {
      assert b != [] ==> (a + b)[1..] == b;
    } else {
      assert (a + b)[1..] == a[1..] + b;
      PairsAppend(a[1..], b);
    }
  }

  lemma {:induction false} TakeKeepsPairs(cs: seq<Chunk>, k: nat, words: nat)
    requires k < |cs| && Fits(cs[k], words)
    ensures FreePairs(Take(cs, k, words)) <= FreePairs(cs)
  {
    var mid := Cut(cs[k], words);
    assert cs == cs[..k] + ([cs[k]] + cs[k + 1..]);
    assert Take(cs, k, words) == cs[..k] + (mid + cs[k + 1..]);
    PairsAppend(cs[..k], [cs[k]] + cs[k + 1..]);
    PairsAppend([cs[k]], cs[k + 1..]);
    PairsAppend(cs[..k], mid + cs[k + 1..]);
    PairsAppend(mid, cs[k + 1..]);
  }

  /** At most one free pair says: no three free chunks in a row, and only one place with two in a row. */
  lemma {:induction false} PairsBoundRuns(cs: seq<Chunk>, i: nat, j: nat)
    requires FreePairs(cs) <= 1
    requires i < j && j + 1 < |cs|
    requires !cs[i].taken && !cs[i + 1].taken
    ensures cs[j].taken || cs[j + 1].taken
  {
    if i == 0 {
      assert FreePairs(cs[1..]) == 0;
      NoPairs(cs[1..], j - 1);
    } else {
      PairsBoundRuns(cs[1..], i - 1, j - 1);
    }
  }

  lemma {:induction false} NoPairs(cs: seq<Chunk>, j: nat)
    requires FreePairs(cs) == 0 && j + 1 < |cs|
    ensures cs[j].taken || cs[j + 1].taken
  {
    if j > 0 {
      NoPairs(cs[1..], j - 1);
    }
  }

  lemma {:induction false} AllFreePairs(cs: seq<Chunk>)
    requires LongEnough(cs) && TakenWords(cs) == 0
    ensures cs != [] ==> FreePairs(cs) == |cs| - 1
  {
    if |cs| > 1 {
      AllFreePairs(cs[1..]);
    } else if |cs| == 1 {
      assert cs[0].taken ==> TakenWords(cs) > 0;
    }
  }

  // ----- runs of the allocator -----

  datatype Op = Malloc(sz: Word) | Free(ptr: int)

  /** A call that stays inside the heap: a request that fits somewhere, or a free of a live block. */
  ghost predicate Enabled(cs: seq<Chunk>, op: Op)
    requires LongEnough(cs)
  {
    match op
    case Malloc(sz) => 0 < sz <= U64 - 16 && FirstFit(cs, RequestWords(sz)) < |cs|
    case Free(ptr) => IsLive(cs, ptr)
  }

  ghost function Apply(cs: seq<Chunk>, op: Op): seq<Chunk>
    requires LongEnough(cs) && Enabled(cs, op)
  {
    match op
    case Malloc(sz) => Take(cs, FirstFit(cs, RequestWords(sz)), RequestWords(sz))
    case Free(ptr) => Coalesced(Release(cs, 0, ptr))
  }

  /** A successful allocation adds exactly one live block: new, in a free chunk, and at least as long as asked for. */
  lemma {:induction false} MallocAddsBlock(cs: seq<Chunk>, sz: Word)
    requires LongEnough(cs) && Enabled(cs, Malloc(sz))
    ensures var k := FirstFit(cs, RequestWords(sz));
            var b := Block(Total(cs[..k]) + 1, Granted(cs[k], RequestWords(sz)) - 1);
            && Live(Apply(cs, Malloc(sz)), 0) == Live(cs, 0) + {b}
            && sz <= 8 * b.words && !IsLive(cs, b.start)
  {
    RequestCoversSize(sz);
    var k := FirstFit(cs, RequestWords(sz));
    TakeAddsBlock(cs, k, RequestWords(sz));
    FreeChunkNotLive(cs, k);
  }

  /** A free removes exactly the block it names, merging included. */
  lemma {:induction false} FreeRemovesBlock(cs: seq<Chunk>, b: Block)
    requires LongEnough(cs) && b in Live(cs, 0)
    ensures Enabled(cs, Free(b.start)) && Live(Apply(cs, Free(b.start)), 0) == Live(cs, 0) - {b}
  {
    ReleaseRemovesBlock(cs, 0, b);
    CoalescedKeepsBlocks(Release(cs, 0, b.start), 0);
  }

  ghost predicate Sound(cs: seq<Chunk>, words: nat) {
    LongEnough(cs) && Total(cs) == words && FreePairs(cs) <= 1
  }

  lemma {:induction false} ApplyKeepsSound(cs: seq<Chunk>, op: Op, words: nat)
    requires Sound(cs, words) && Enabled(cs, op)
    ensures Sound(Apply(cs, op), words)
  {
    match op
    case Malloc(sz) =>
      RequestCoversSize(sz);
      var k := FirstFit(cs, RequestWords(sz));
      TakeAddsBlock(cs, k, RequestWords(sz));
      TakeKeepsPairs(cs, k, RequestWords(sz));
    case Free(ptr) =>
      var b :| b in Live(cs, 0) && b.start == ptr;
      ReleaseRemovesBlock(cs, 0, b);
      CoalescedKeepsBlocks(Release(cs, 0, ptr), 0);
      CoalescedHalvesPairs(Release(cs, 0, ptr));
  }

  /** `cs` is reached from a fresh heap of `words` words by the calls `ops`, in order. */
  ghost predicate Reached(words: nat, ops: seq<Op>, cs: seq<Chunk>) {
    if ops == [] then cs == [Chunk(words, false)]
    else exists before ::
           && Reached(words, ops[..|ops| - 1], before)
           && LongEnough(before)
           && Enabled(before, ops[|ops| - 1])
           && cs == Apply(before, ops[|ops| - 1])
  }

  /**
    Over every run the single merging pass is enough to bound fragmentation: at most one pair of
    adjacent free chunks ever exists, so a heap on which everything was freed has one chunk or two.
   */
  lemma {:induction false} FragmentationBounded(words: nat, ops: seq<Op>, cs: seq<Chunk>)
    requires words >= 2 && Reached(words, ops, cs)
    ensures Sound(cs, words)
    ensures Live(cs, 0) == {} ==> 1 <= |cs| <= 2
  {
    if ops != [] {
      var before :| && Reached(words, ops[..|ops| - 1], before)
                    && LongEnough(before)
                    && Enabled(before, ops[|ops| - 1])
                    && cs == Apply(before, ops[|ops| - 1]);
      FragmentationBounded(words, ops[..|ops| - 1], before);
      ApplyKeepsSound(before, ops[|ops| - 1], words);
    }
    if Live(cs, 0) == {} {
      NothingLive(cs, 0);
      AllFreePairs(cs);
      assert cs != [];
    }
  }

  lemma {:induction false} NothingLive(cs: seq<Chunk>, at: nat)
    requires LongEnough(cs) && Live(cs, at) == {}
    ensures TakenWords(cs) == 0
  {
    if cs != [] {
      NothingLive(cs[1..], at + cs[0].words);
    }
  }

  lemma {:induction false} ReachNext(words: nat, ops: seq<Op>, before: seq<Chunk>, op: Op)
    requires Reached(words, ops, before) && LongEnough(before) && Enabled(before, op)
    ensures Reached(words, ops + [op], Apply(before, op))
  {
    var all := ops + [op];
    assert all[..|all| - 1] == ops && all[|all| - 1] == op;
  }

  /** Two is reached on every heap of eight words or more: two blocks freed in the order they were allocated. */
  lemma {:induction false} TwoChunksRemain(words: nat)
    requires words >= 8
    ensures Reached(words, [Malloc(8), Malloc(8), Free(1), Free(3)], [Chunk(4, false), Chunk(words - 4, false)])
  {
    hide *;
    var rest := Chunk(words - 4, false);
    FirstTaken(words);
    ReachNext(words, [], [Chunk(words, false)], Malloc(8));
    SecondTaken(words);
    ReachNext(words, [] + [Malloc(8)], [Chunk(2, true), Chunk(words - 2, false)], Malloc(8));
    FirstFreed(rest);
    ReachNext(words, [] + [Malloc(8)] + [Malloc(8)], [Chunk(2, true), Chunk(2, true), rest], Free(1));
    SecondFreed(rest);
    ReachNext(words, [] + [Malloc(8)] + [Malloc(8)] + [Free(1)], [Chunk(2, false), Chunk(2, true), rest], Free(3));
    assert [] + [Malloc(8)] + [Malloc(8)] + [Free(1)] + [Free(3)] == [Malloc(8), Malloc(8), Free(1), Free(3)];
  }

  lemma FirstTaken(words: nat)
    requires words >= 8
    ensures var start := [Chunk(words, false)];
            && Reached(words, [], start) && LongEnough(start) && Enabled(start, Malloc(8))
            && Apply(start, Malloc(8)) == [Chunk(2, true), Chunk(words - 2, false)]
  {
    assert RequestWords(8) == 2;
  }

  lemma SecondTaken(words: nat)
    requires words >= 8
    ensures var one := [Chunk(2, true), Chunk(words - 2, false)];
            && LongEnough(one) && Enabled(one, Malloc(8))
            && Apply(one, Malloc(8)) == [Chunk(2, true), Chunk(2, true), Chunk(words - 4, false)]
  {
    var one := [Chunk(2, true), Chunk(words - 2, false)];
    assert RequestWords(8) == 2;
    assert one[1..] == [Chunk(words - 2, false)];
    assert FirstFit(one, 2) == 1;
    assert one[2..] == [];
  }

  lemma FirstFreed(rest: Chunk)
    requires rest.words >= 2 && !rest.taken
    ensures var two := [Chunk(2, true), Chunk(2, true), rest];
            LongEnough(two) && Enabled(two, Free(1)) && Apply(two, Free(1)) == [Chunk(2, false), Chunk(2, true), rest]
  {
    var two := [Chunk(2, true), Chunk(2, true), rest];
    assert two[1..] == [Chunk(2, true), rest] && two[1..][1..] == [rest];
    assert Block(1, 1) in Live(two, 0);
    var freed := [Chunk(2, false), Chunk(2, true), rest];
    assert Release(two, 0, 1) == freed;
    assert freed[1..] == [Chunk(2, true), rest] && freed[1..][1..] == [rest];
    assert Coalesced([Chunk(2, true), rest]) == [Chunk(2, true)] + Coalesced([rest]);
  }

  lemma SecondFreed(rest: Chunk)
    requires rest.words >= 2 && !rest.taken
    ensures var three := [Chunk(2, false), Chunk(2, true), rest];
            LongEnough(three) && Enabled(three, Free(3)) && Apply(three, Free(3)) == [Chunk(4, false), rest]
  {
    var three := [Chunk(2, false), Chunk(2, true), rest];
    assert three[1..] == [Chunk(2, true), rest];
    assert Block(3, 1) in Live(three[1..], 2);
    assert Block(3, 1) in Live(three, 0);
    var freed := [Chunk(2, false), Chunk(2, false), rest];
    assert Release(three[1..], 2, 3) == [Chunk(2, false), rest];
    assert Release(three, 0, 3) == freed;
    assert freed[2..] == [rest] && Coalesced([rest]) == [rest];
    assert Coalesced(freed) == [Chunk(4, false)] + Coalesced(freed[2..]);
  }

  /**
    A request for the whole of a fresh heap fits nowhere, for want of room
    for the header: the scan leaves the heap.
   */
  lemma FullRequestFitsNowhere(words: nat)
    requires 2 <= words && 8 * words < TAKEN
    ensures FirstFit([Chunk(words, false)], RequestWords(8 * words)) == 1
  {
    RequestCoversSize(8 * words);
    hide RequestWords;
  }

  // ----- chunk lists in memory -----

  /** The headers of `cs` lie in `mem` from word `at`, and the last chunk ends at `end`. */
  ghost predicate Laid(mem: seq<Word>, at: nat, cs: seq<Chunk>, end: nat)
    decreases |cs|
  {
    if cs == [] then at == end
    else
      && cs[0].words >= 2
      && at + cs[0].words <= end <= |mem|
      && mem[at] == Header(cs[0])
      && Laid(mem, at + cs[0].words, cs[1..], end)
  }

  lemma {:induction false} LaidFacts(mem: seq<Word>, at: nat, cs: seq<Chunk>, end: nat)
    requires Laid(mem, at, cs, end)
    ensures LongEnough(cs) && at + Total(cs) == end
    decreases |cs|
  {
    if cs != [] {
      LaidFacts(mem, at + cs[0].words, cs[1..], end);
    }
  }

  lemma {:induction false} LaidFrame(mem: seq<Word>, now: seq<Word>, at: nat, cs: seq<Chunk>, end: nat)
    requires Laid(mem, at, cs, end) && |mem| == |now| && end <= |mem|
    requires forall i | at <= i < end :: mem[i] == now[i]
    ensures Laid(now, at, cs, end)
    decreases |cs|
  {
    if cs != [] {
      LaidFrame(mem, now, at + cs[0].words, cs[1..], end);
    }
  }

  lemma {:induction false} LaidAppend(mem: seq<Word>, at: nat, a: seq<Chunk>, mid: nat, b: seq<Chunk>, end: nat)
    requires Laid(mem, at, a, mid) && Laid(mem, mid, b, end) && mid <= end <= |mem|
    ensures Laid(mem, at, a + b, end)
    decreases |a|
  {
    if a == [] {
      assert a + b == b;
    } else {
      assert (a + b)[1..] == a[1..] + b;
      LaidAppend(mem, at + a[0].words, a[1..], mid, b, end);
    }
  }

  lemma {:induction false} LaidSplit(mem: seq<Word>, at: nat, a: seq<Chunk>, b: seq<Chunk>, end: nat)
    requires Laid(mem, at, a + b, end) && end <= |mem|
    ensures Laid(mem, at, a, at + Total(a)) && Laid(mem, at + Total(a), b, end) && at + Total(a) <= end
    decreases |a|
  {
    if a == [] {
      assert a + b == b;
      LaidFacts(mem, at, b, end);
    } else {
      assert (a + b)[1..] == a[1..] + b;
      LaidSplit(mem, at + a[0].words, a[1..], b, end);
    }
  }

  /** Every live payload word of `cs` has the same contents in both memories. */
  ghost predicate KeepsPayload(cs: seq<Chunk>, was: seq<Word>, now: seq<Word>) {
    && LongEnough(cs) && |was| == |now|
    && forall i | 0 <= i < |now| && InLivePayload(cs, i) :: now[i] == was[i]
  }

  /** The memory holds exactly the chunk list `cs`, and `cs` is one a run can produce. */
  ghost predicate Heap(mem: seq<Word>, cs: seq<Chunk>) {
    && 2 <= |mem| && 8 * |mem| < TAKEN
    && Laid(mem, 0, cs, |mem|)
    && Sound(cs, |mem|)
  }

  lemma HeapIs(mem: seq<Word>, cs: seq<Chunk>)
    requires Heap(mem, cs)
    ensures 2 <= |mem| && 8 * |mem| < TAKEN && Laid(mem, 0, cs, |mem|) && LongEnough(cs)
    ensures KeepsPayload(cs, mem, mem)
  {
  }

  /** Behind the last chunk every chunk was looked at. */
  lemma {:induction false} LaidEnds(mem: seq<Word>, cs: seq<Chunk>, k: nat)
    requires k <= |cs| && Laid(mem, |mem|, cs[k..], |mem|)
    ensures k == |cs|
  {
  }

  lemma {:induction false} ScanStep(mem: seq<Word>, ptr: nat, cs: seq<Chunk>, k: nat)
    requires k <= |cs| && ptr == Total(cs[..k]) && ptr < |mem| && 8 * |mem| < TAKEN
    requires Laid(mem, ptr, cs[k..], |mem|)
    ensures k < |cs| && mem[ptr] == Header(cs[k]) && ptr + cs[k].words <= |mem|
    ensures HeaderSize(mem[ptr]) == 8 * cs[k].words && (HeaderFree(mem[ptr]) <==> !cs[k].taken)
    ensures Total(cs[..k + 1]) == ptr + cs[k].words && Laid(mem, ptr + cs[k].words, cs[k + 1..], |mem|)
  {
    assert k < |cs|;
    assert cs[k..][0] == cs[k] && cs[k..][1..] == cs[k + 1..];
    HeaderReads(cs[k]);
    assert cs[..k + 1] == cs[..k] + [cs[k]];
    TotalAppend(cs[..k], [cs[k]]);
  }

  lemma {:induction false} HeaderAt(mem: seq<Word>, cs: seq<Chunk>, k: nat)
    requires Laid(mem, 0, cs, |mem|) && k < |cs| && 8 * |mem| < TAKEN
    ensures cs[k].words >= 2 && Total(cs[..k]) + cs[k].words <= |mem| && mem[Total(cs[..k])] == Header(cs[k])
  {
    assert cs == cs[..k] + cs[k..];
    LaidSplit(mem, 0, cs[..k], cs[k..], |mem|);
  }

  /**
    The memory after the allocating branch took `words` words of the chunk at `ptr`. For no words at all
    the two headers are one, and it ends up free with size zero.
   */
  function Written(mem: seq<Word>, ptr: nat, c: Chunk, words: nat): (r: seq<Word>)
    requires ptr + c.words <= |mem| && words <= c.words && c.words >= 2
    ensures |r| == |mem|
  {
    if c.words - words > 1 then
      mem[ptr + words := Header(Chunk(c.words - words, false))][ptr := Header(Chunk(words, words > 0))]
    else mem[ptr := Header(Chunk(c.words, true))]
  }

  /** The header writes of an allocation lay out the new chunk list and touch no live payload. */
  lemma {:induction false} TakeLaid(was: seq<Word>, now: seq<Word>, cs: seq<Chunk>, k: nat, words: nat)
    requires Heap(was, cs) && k < |cs| && Fits(cs[k], words) && words >= 2
    requires cs[k].words >= 2 && Total(cs[..k]) + cs[k].words <= |was|
    requires now == Written(was, Total(cs[..k]), cs[k], words)
    ensures Heap(now, Take(cs, k, words)) && KeepsPayload(cs, was, now)
  {
    var ptr, c, mid := Total(cs[..k]), cs[k], Cut(cs[k], words);
    SplitAt(cs, k);
    if c.words - words > 1 {
      OneLaid(now, ptr + words, Chunk(c.words - words, false));
      assert mid[1..] == [Chunk(c.words - words, false)];
    } else {
      OneLaid(now, ptr, Chunk(c.words, true));
    }
    ReplaceLaid(was, now, cs, k, mid);
    forall i | 0 <= i < |now| && InLivePayload(cs, i)
      ensures now[i] == was[i]
    {
      if ptr <= i < ptr + c.words {
        OutsideLivePayload(cs[..k], c, cs[k + 1..], i);
      }
    }
    TakeKeepsPairs(cs, k, words);
    TakeAddsBlock(cs, k, words);
  }

  /** On a fresh heap a request that wraps leaves headers that lay out no chunk list at all. */
  lemma {:induction false} WrappedRequestBreaksHeap(mem: seq<Word>, c: Chunk, sz: Word, cs: seq<Chunk>)
    requires Laid(mem, 0, [c], |mem|) && !c.taken && c.words >= 3 && 8 * |mem| < TAKEN
    requires sz > U64 - 16
    ensures c.words == |mem| && RequestWords(sz) <= 1
    ensures !Laid(Written(mem, 0, c, RequestWords(sz)), 0, cs, |mem|)
  {
    RequestCoversSize(sz);
    assert Laid(mem, c.words, [c][1..], |mem|);
    hide RequestWords, Laid;
    var words := RequestWords(sz);
    var now := Written(mem, 0, c, words);
    if Laid(now, 0, cs, |mem|) {
      FirstHeader(now, cs);
      HeaderReads(cs[0]);
      HeaderReads(Chunk(words, words > 0));
    }
  }

  lemma FirstHeader(mem: seq<Word>, cs: seq<Chunk>)
    requires Laid(mem, 0, cs, |mem|) && mem != []
    ensures cs != [] && cs[0].words >= 2 && cs[0].words <= |mem| && mem[0] == Header(cs[0])
  {
  }

  /** Marking a live block free lays out the released chunk list. */
  lemma {:induction false} ReleaseLaid(was: seq<Word>, now: seq<Word>, cs: seq<Chunk>, b: Block)
    requires Heap(was, cs) && b in Live(cs, 0)
    requires var c := cs[BlockAt(cs, 0, b)];
             b.start <= |was| && now == was[b.start - 1 := Header(Chunk(c.words, false))]
    ensures var out := Release(cs, 0, b.start);
            Laid(now, 0, out, |now|) && KeepsPayload(cs, was, now)
  {
    var k := BlockAt(cs, 0, b);
    HeaderAt(was, cs, k);
    OneLaid(now, b.start - 1, Chunk(cs[k].words, false));
    ReplaceLaid(was, now, cs, k, [Chunk(cs[k].words, false)]);
    ReleaseSplits(cs, 0, b);
    HeaderNotPayload(cs, b);
  }

  lemma {:induction false} HeaderNotPayload(cs: seq<Chunk>, b: Block)
    requires LongEnough(cs) && b in Live(cs, 0)
    ensures !InLivePayload(cs, b.start - 1)
  {
    var k := BlockAt(cs, 0, b);
    SplitAt(cs, k);
    OutsideLivePayload(cs[..k], cs[k], cs[k + 1..], b.start - 1);
  }

  /** Payload kept from `a` to `b` and, for fewer blocks, from `b` to `c` is kept for the fewer blocks overall. */
  lemma {:induction false} KeepsPayloadTrans(more: seq<Chunk>, fewer: seq<Chunk>, a: seq<Word>, b: seq<Word>,
                                             c: seq<Word>)
    requires KeepsPayload(more, a, b) && KeepsPayload(fewer, b, c) && Live(fewer, 0) <= Live(more, 0)
    ensures KeepsPayload(fewer, a, c)
  {
    forall i | 0 <= i < |c| && InLivePayload(fewer, i)
      ensures c[i] == a[i]
    {
      assert InLivePayload(more, i);
    }
  }

  /** The merging pass, part way: `done` is merged and lies below `ptr`, `rest` is still to come. */
  ghost predicate Merging(before: seq<Chunk>, mem: seq<Word>, ptr: nat, done: seq<Chunk>, rest: seq<Chunk>) {
    && ptr <= |mem| && 8 * |mem| < TAKEN
    && Laid(mem, 0, done, ptr) && Laid(mem, ptr, rest, |mem|)
    && done + Coalesced(rest) == Coalesced(before)
  }

  /** What the pass reads at `ptr` and at the header behind it. */
  lemma {:induction false} PairReads(mem: seq<Word>, ptr: nat, rest: seq<Chunk>)
    requires Laid(mem, ptr, rest, |mem|) && ptr < |mem| && 8 * |mem| < TAKEN
    ensures rest != [] && HeaderSize(mem[ptr]) == 8 * rest[0].words && (HeaderFree(mem[ptr]) <==> !rest[0].taken)
    ensures rest[0].words > 0 && (ptr + rest[0].words < |mem| <==> |rest| >= 2)
    ensures |rest| >= 2 ==>
              var next, both := mem[ptr + rest[0].words], rest[0].words + rest[1].words;
              && HeaderSize(next) == 8 * rest[1].words && (HeaderFree(next) <==> !rest[1].taken)
              && 8 * both < TAKEN && SetSize(mem[ptr], 8 * both) == Header(Chunk(both, rest[0].taken))
              && HeaderSize(Header(Chunk(both, rest[0].taken))) == 8 * both
  {
    HeaderReads(rest[0]);
    LaidFacts(mem, ptr + rest[0].words, rest[1..], |mem|);
    if |rest| >= 2 {
      var both := rest[0].words + rest[1].words;
      assert rest[1..][0] == rest[1];
      LaidFacts(mem, ptr + both, rest[1..][1..], |mem|);
      HeaderReads(rest[1]);
      HeaderReads(Chunk(both, rest[0].taken));
      HeaderResizes(rest[0], both);
    }
  }

  lemma {:induction false} MergePair(before: seq<Chunk>, mem: seq<Word>, ptr: nat, done: seq<Chunk>, rest: seq<Chunk>)
    requires Merging(before, mem, ptr, done, rest)
    requires |rest| >= 2 && !rest[0].taken && !rest[1].taken && ptr < |mem|
    ensures var merged := Chunk(rest[0].words + rest[1].words, false);
            Merging(before, mem[ptr := Header(merged)], ptr + merged.words, done + [merged], rest[2..])
  {
    var c, d, after := rest[0], rest[1], rest[2..];
    var merged := Chunk(c.words + d.words, false);
    var now := mem[ptr := Header(merged)];
    assert Laid(mem, ptr + c.words, rest[1..], |mem|);
    assert rest[1..][0] == d && rest[1..][1..] == after;
    LaidFacts(mem, ptr + merged.words, after, |mem|);
    LaidFrame(mem, now, 0, done, ptr);
    LaidFrame(mem, now, ptr + merged.words, after, |mem|);
    OneLaid(now, ptr, merged);
    LaidAppend(now, 0, done, ptr, [merged], ptr + merged.words);
    assert done + [merged] + Coalesced(after) == done + Coalesced(rest);
  }

  /** The merged header lies in a free chunk, so no live payload word changes. */
  lemma {:induction false} MergePayload(before: seq<Chunk>, was: seq<Word>, mem: seq<Word>, ptr: nat,
            done: seq<Chunk>, rest: seq<Chunk>, w: Word)
    requires Merging(before, mem, ptr, done, rest) && KeepsPayload(before, was, mem)
    requires |rest| >= 2 && !rest[0].taken && !rest[1].taken && ptr < |mem|
    ensures KeepsPayload(before, was, mem[ptr := w])
  {
    CoalescedKeepsBlocks(before, 0);
    LaidFacts(mem, 0, done, ptr);
    var out := Coalesced(rest);
    assert Coalesced(before) == done + [out[0]] + out[1..];
    OutsideLivePayload(done, out[0], out[1..], ptr);
    assert !InLivePayload(before, ptr);
  }

  lemma {:induction false} PassChunk(before: seq<Chunk>, mem: seq<Word>, ptr: nat, done: seq<Chunk>, rest: seq<Chunk>)
    requires Merging(before, mem, ptr, done, rest)
    requires |rest| >= 2 && (rest[0].taken || rest[1].taken)
    ensures Merging(before, mem, ptr + rest[0].words, done + [rest[0]], rest[1..])
  {
    var c, tail := rest[0], rest[1..];
    OneLaid(mem, ptr, c);
    LaidFacts(mem, ptr + c.words, tail, |mem|);
    LaidAppend(mem, 0, done, ptr, [c], ptr + c.words);
    assert done + [c] + Coalesced(tail) == done + Coalesced(rest);
  }

  lemma MergingStarts(cs: seq<Chunk>, mem: seq<Word>)
    requires 8 * |mem| < TAKEN && Laid(mem, 0, cs, |mem|) && LongEnough(cs)
    ensures Merging(cs, mem, 0, [], cs) && KeepsPayload(cs, mem, mem)
  {
    assert [] + Coalesced(cs) == Coalesced(cs);
  }

  lemma MergingIs(before: seq<Chunk>, mem: seq<Word>, ptr: nat, done: seq<Chunk>, rest: seq<Chunk>)
    requires Merging(before, mem, ptr, done, rest)
    ensures ptr <= |mem| && 8 * |mem| < TAKEN && Laid(mem, ptr, rest, |mem|)
  {
  }

  lemma {:induction false} MergingDone(before: seq<Chunk>, mem: seq<Word>, ptr: nat, done: seq<Chunk>, rest: seq<Chunk>)
    requires Merging(before, mem, ptr, done, rest) && (ptr == |mem| || |rest| < 2)
    ensures Laid(mem, 0, Coalesced(before), |mem|)
  {
    LaidFacts(mem, ptr, rest, |mem|);
    LaidAppend(mem, 0, done, ptr, rest, |mem|);
  }

  lemma {:induction false} OneLaid(mem: seq<Word>, at: nat, c: Chunk)
    requires c.words >= 2 && at + c.words <= |mem| && mem[at] == Header(c)
    ensures Laid(mem, at, [c], at + c.words)
  {
    assert Laid(mem, at + c.words, [c][1..], at + c.words);
  }

  /** Chunk `k` is replaced in place by chunks that fill the same words. */
  lemma {:induction false} ReplaceLaid(was: seq<Word>, now: seq<Word>, cs: seq<Chunk>, k: nat, mid: seq<Chunk>)
    requires Laid(was, 0, cs, |was|) && |was| == |now| && k < |cs|
    requires var ptr := Total(cs[..k]);
             && ptr + cs[k].words <= |now|
             && (forall i | 0 <= i < |now| && !(ptr <= i < ptr + cs[k].words) :: now[i] == was[i])
             && Laid(now, ptr, mid, ptr + cs[k].words)
    ensures Laid(now, 0, cs[..k] + mid + cs[k + 1..], |now|)
  {
    var ptr, left, c, right := Total(cs[..k]), cs[..k], cs[k], cs[k + 1..];
    assert cs == left + ([c] + right) && ([c] + right)[1..] == right;
    LaidSplit(was, 0, left, [c] + right, |was|);
    LaidFrame(was, now, 0, left, ptr);
    LaidFrame(was, now, ptr + c.words, right, |now|);
    LaidAppend(now, 0, left, ptr, mid, ptr + c.words);
    LaidAppend(now, 0, left + mid, ptr + c.words, right, |now|);
  }

  /** The header operations read back what was written, for every chunk that can occur. */
  lemma {:induction false} HeaderReads(c: Chunk)
    requires 8 * c.words < TAKEN
    ensures HeaderSize(Header(c)) == 8 * c.words && (HeaderFree(Header(c)) <==> !c.taken)
    ensures SetTaken(Header(c)) == Header(c.(taken := true)) && SetFree(Header(c)) == Header(c.(taken := false))
  {
  }

  lemma {:induction false} HeaderResizes(c: Chunk, words: nat)
    requires 8 * c.words < TAKEN && 8 * words < TAKEN
    ensures SetSize(Header(c), 8 * words) == Header(c.(words := words))
  {
  }

  /** Whatever stood there, the new header is a free one of the given size. */
  lemma AnyFree(w: Word, words: nat)
    requires 8 * words < TAKEN
    ensures SetSize(SetFree(w), 8 * words) == Header(Chunk(words, false))
  {
  }

  /** Words of a chunk that is free, and the header of one that is not, hold no live payload. */
  lemma {:induction false} OutsideLivePayload(left: seq<Chunk>, c: Chunk, right: seq<Chunk>, word: int)
    requires LongEnough(left + [c] + right)
    requires Total(left) <= word < Total(left) + c.words
    requires !c.taken || word == Total(left)
    ensures !InLivePayload(left + [c] + right, word)
  {
    assert left + [c] + right == left + ([c] + right);
    assert LongEnough(left) && c.words >= 2 && LongEnough(right) by {
      assert forall i | 0 <= i < |left| :: (left + [c] + right)[i] == left[i];
      assert (left + [c] + right)[|left|] == c;
      assert forall i | 0 <= i < |right| :: (left + [c] + right)[|left| + 1 + i] == right[i];
    }
    LiveAppend(left, [c] + right, 0);
    LiveAppend([c], right, Total(left));
    if InLivePayload(left + [c] + right, word) {
      var b :| b in Live(left + [c] + right, 0) && b.start <= word < b.start + b.words;
      if b in Live(left, 0) {
        LiveRange(left, 0, b);
      } else if b in Live(right, Total(left) + Total([c])) {
        LiveRange(right, Total(left) + Total([c]), b);
      }
      assert false;
    }
  }

  class KernelMemoryAllocator {
    const mem: array<Word>
    ghost var chunks: seq<Chunk>

    ghost predicate Valid()
      reads this, mem
    {
      Heap(mem[..], chunks)
    }

    constructor (words: nat)
      requires 2 <= words && 8 * words < TAKEN
      ensures Valid() && fresh(mem) && mem.Length == words
      ensures chunks == [Chunk(words, false)]
    {
      mem := new Word[words](_ => 0);
      new;
      mem[0] := SetFree(mem[0]);
      mem[0] := SetSize(mem[0], 8 * words);
      chunks := [Chunk(words, false)];
      assert Laid(mem[..], 0, chunks, words) by {
        assert Laid(mem[..], words, chunks[1..], words);
      }
      assert Total(chunks) == words;
    }

    /** Bytes the source adds to an `AllocHeader*` to get the tail of its scan, hence a count of words. */
    function ScanLimit(): nat
      reads this
    {
      8 * mem.Length
    }

    /**
      Every request, also those too large for the size computation: a request above 2^64 - 16 takes one word
      or none from the first free chunk, and only what it writes there is promised.
     */
    method Kmalloc(sz: Word) returns (r: Outcome)
      requires Valid()
      modifies mem, this`chunks
      ensures sz <= U64 - 16 || !r.Allocated? ==> Valid()
      ensures sz == 0 <==> r.Null?
      ensures sz > 0 ==>
                var words, k := RequestWords(sz), FirstFit(old(chunks), RequestWords(sz));
                if k == |old(chunks)| then r == RanPastHeap
                else
                  var c, ptr := old(chunks)[k], Total(old(chunks)[..k]);
                  && r == Allocated(ptr + 1) && c.words >= 2 && ptr + c.words <= mem.Length
                  && mem[..] == Written(old(mem[..]), ptr, c, words)
                  && chunks == if sz <= U64 - 16 then Take(old(chunks), k, words) else old(chunks)
      ensures !r.Allocated? ==> chunks == old(chunks) && mem[..] == old(mem[..])
      ensures sz <= U64 - 16 ==> KeepsPayload(old(chunks), old(mem[..]), mem[..])
    {
      HeapIs(mem[..], chunks);
      hide *;
      if sz == 0 {
        return Null;
      }
      var size := RequestBytes(sz);
      RequestCoversSize(sz);
      var found, ptr, k := Scan(size);
      if !found {
        return RanPastHeap;
      }
      TakeChunk(ptr, size, k);
      r := Allocated(ptr + 1);
    }

    /** The scan may go on for seven times the length of the heap behind it. */
    lemma ScanLimitTooFar()
      requires Valid()
      ensures ScanLimit() == mem.Length + 7 * mem.Length > mem.Length
    {
    }

    /** The loop: to the lowest chunk that fits, or past the heap, with its own limit still ahead. */
    method Scan(size: Word) returns (found: bool, ptr: nat, ghost k: nat)
      requires Valid() && size == 8 * (size / 8)
      ensures k == FirstFit(chunks, size / 8) && (found <==> k < |chunks|)
      ensures !found ==> ptr == mem.Length < ScanLimit()
      ensures found ==>
                && ptr == Total(chunks[..k]) && chunks[k].words >= 2 && ptr + chunks[k].words <= mem.Length
                && mem[ptr] == Header(chunks[k]) && Fits(chunks[k], size / 8)
    {
      ghost var m: seq<Word> := mem[..];
      HeapIs(m, chunks);
      ptr, k := 0, 0;
      assert chunks[0..] == chunks && chunks[..0] == [];
      while ptr < ScanLimit()
        invariant k <= |chunks| && ptr <= mem.Length && ptr == Total(chunks[..k])
        invariant Laid(m, ptr, chunks[k..], |m|)
        invariant forall j | 0 <= j < k :: !Fits(chunks[j], size / 8)
        decreases |chunks| - k
      {
        hide Laid, Total, Live, FreePairs, FirstFit, InLivePayload, KeepsPayload, Heap, Sound;
        if ptr >= mem.Length {
          LaidFacts(m, ptr, chunks[k..], mem.Length);
          LaidEnds(m, chunks, k);
          return false, ptr, k;
        }
        ScanStep(m, ptr, chunks, k);
        if HeaderFree(mem[ptr]) && HeaderSize(mem[ptr]) >= size {
          HeaderAt(m, chunks, k);
          return true, ptr, k;
        }
        ptr, k := ptr + HeaderSize(mem[ptr]) / 8, k + 1;
      }
      LaidEnds(m, chunks, k);
      found := false;
    }

    /** The allocating branch of the scan. */
    method TakeChunk(ptr: nat, size: Word, ghost k: nat)
      requires Valid() && k < |chunks| && ptr == Total(chunks[..k])
      requires chunks[k].words >= 2 && ptr + chunks[k].words <= mem.Length
      requires mem[ptr] == Header(chunks[k]) && size == 8 * (size / 8) && Fits(chunks[k], size / 8)
      modifies mem, this`chunks
      ensures mem[..] == Written(old(mem[..]), ptr, old(chunks)[k], size / 8)
      ensures size >= 16 ==> Valid() && chunks == Take(old(chunks), k, size / 8)
      ensures size >= 16 ==> KeepsPayload(old(chunks), old(mem[..]), mem[..])
      ensures size < 16 ==> chunks == old(chunks)
    {
      ghost var was: seq<Word> := mem[..];
      ghost var c, words := chunks[k], size / 8;
      HeapIs(was, chunks);
      hide Heap, Laid, Total, Live, FreePairs, InLivePayload, KeepsPayload, Take, Sound;
      WriteHeaders(ptr, size, c);
      if size >= 16 {
        TakeLaid(was, mem[..], chunks, k, words);
        chunks := Take(chunks, k, words);
      }
    }

    /** Its writes. */
    method WriteHeaders(ptr: nat, size: Word, ghost c: Chunk)
      requires c.words >= 2 && ptr + c.words <= mem.Length && 8 * mem.Length < TAKEN
      requires mem[ptr] == Header(c) && size == 8 * (size / 8) && Fits(c, size / 8)
      modifies mem
      ensures mem[..] == Written(old(mem[..]), ptr, c, size / 8)
    {
      ghost var words := size / 8;
      HeaderReads(c);
      HeaderReads(c.(taken := true));
      HeaderResizes(c.(taken := true), words);
      HeaderResizes(c.(taken := true), c.words);
      HeaderResizes(Chunk(c.words - words, false), words);
      hide HeaderSize, HeaderFree, SetTaken, SetFree, SetSize, Header;
      var chunkSize := HeaderSize(mem[ptr]);
      var remaining := chunkSize - size;
      mem[ptr] := SetTaken(mem[ptr]);
      if remaining > 8 {
        var next := ptr + size / 8;
        AnyFree(mem[next], c.words - words);
        mem[next] := SetFree(mem[next]);
        mem[next] := SetSize(mem[next], remaining);
        mem[ptr] := SetSize(mem[ptr], size);
      } else {
        mem[ptr] := SetSize(mem[ptr], chunkSize);
      }
    }

    method Kfree(ptr: Option<nat>)
      requires Valid()
      requires ptr.Some? ==> IsLive(chunks, ptr.value)
      modifies mem, this`chunks
      ensures Valid()
      ensures ptr.None? ==> chunks == old(chunks) && mem[..] == old(mem[..])
      ensures ptr.Some? ==> chunks == Coalesced(Release(old(chunks), 0, ptr.value))
      ensures KeepsPayload(chunks, old(mem[..]), mem[..])
    {
      if ptr.None? {
        return;
      }
      ghost var before := chunks;
      ghost var was: seq<Word> := mem[..];
      ghost var b: Block :| b in Live(chunks, 0) && b.start == ptr.value;
      ghost var k := BlockAt(before, 0, b);
      HeaderAt(was, before, k);
      HeaderReads(before[k]);

      var alloc := ptr.value - 1;
      mem[alloc] := SetFree(mem[alloc]);

      ReleaseLaid(was, mem[..], before, b);
      ReleaseRemovesBlock(before, 0, b);
      chunks := Release(before, 0, ptr.value);
      ghost var freed := chunks;
      ghost var marked: seq<Word> := mem[..];
      Coalesce();
      CoalescedHalvesPairs(freed);
      CoalescedKeepsBlocks(freed, 0);
      KeepsPayloadTrans(before, freed, was, marked, mem[..]);
      KeepsPayloadTrans(freed, chunks, was, mem[..], mem[..]);
    }

    method Coalesce()
      requires 8 * mem.Length < TAKEN && Laid(mem[..], 0, chunks, mem.Length) && LongEnough(chunks)
      modifies mem, this`chunks
      ensures Laid(mem[..], 0, chunks, mem.Length)
      ensures chunks == Coalesced(old(chunks))
      ensures KeepsPayload(old(chunks), old(mem[..]), mem[..])
    {
      hide *;
      var ptr: nat := 0;
      ghost var before := chunks;
      ghost var was: seq<Word> := mem[..];
      ghost var done, rest: seq<Chunk> := [], chunks;
      ghost var m := was;
      MergingStarts(before, was);
      while ptr < mem.Length
        invariant m == mem[..] && Merging(before, m, ptr, done, rest)
        invariant KeepsPayload(before, was, m)
        decreases |rest|
      {
        MergingIs(before, m, ptr, done, rest);
        PairReads(m, ptr, rest);
        var next := ptr + HeaderSize(mem[ptr]) / 8;
        if next >= mem.Length || HeaderSize(mem[ptr]) == 0 {
          break;
        } else if HeaderFree(mem[ptr]) && HeaderFree(mem[next]) {
          mem[ptr] := SetSize(mem[ptr], HeaderSize(mem[ptr]) + HeaderSize(mem[next]));
          ghost var merged := Chunk(rest[0].words + rest[1].words, false);
          MergePair(before, m, ptr, done, rest);
          MergePayload(before, was, m, ptr, done, rest, Header(merged));
          m, done, rest := m[ptr := Header(merged)], done + [merged], rest[2..];
        } else {
          PassChunk(before, m, ptr, done, rest);
          done, rest := done + [rest[0]], rest[1..];
        }
        ptr := ptr + HeaderSize(mem[ptr]) / 8;
      }
      MergingIs(before, m, ptr, done, rest);
      MergingDone(before, m, ptr, done, rest);
      chunks := Coalesced(before);
    }

    method GetStatistics() returns (total: nat, free: nat, used: nat)
      requires Valid()
      ensures total == 8 * mem.Length && free == 8 * FreeWords(chunks) && used == 8 * TakenWords(chunks)
      ensures total == free + used
    {
      var ptr: nat := 0;
      free, used := 0, 0;
      ghost var rest := chunks;
      while ptr < mem.Length
        invariant Laid(mem[..], ptr, rest, mem.Length) && ptr <= mem.Length
        invariant free + 8 * FreeWords(rest) == 8 * FreeWords(chunks)
        invariant used + 8 * TakenWords(rest) == 8 * TakenWords(chunks)
        decreases |rest|
      {
        LaidFacts(mem[..], ptr, rest, mem.Length);
        HeaderReads(rest[0]);
        if !HeaderFree(mem[ptr]) {
          used := used + HeaderSize(mem[ptr]);
        } else {
          free := free + HeaderSize(mem[ptr]);
        }
        ptr := ptr + HeaderSize(mem[ptr]) / 8;
        rest := rest[1..];
      }
      LaidFacts(mem[..], ptr, rest, mem.Length);
      assert rest == [];
      FreePlusTaken(chunks);
      total := 8 * mem.Length;
    }

    method IsInFreedMemory(word: nat) returns (r: bool)
      requires Valid()
      ensures r <==> InFreeChunk(chunks, 0, word)
    {
      var ptr: nat := 0;
      ghost var rest := chunks;
      while ptr < mem.Length
        invariant Laid(mem[..], ptr, rest, mem.Length) && ptr <= mem.Length
        invariant InFreeChunk(rest, ptr, word) <==> InFreeChunk(chunks, 0, word)
        decreases |rest|
      {
        LaidFacts(mem[..], ptr, rest, mem.Length);
        HeaderReads(rest[0]);
        if ptr <= word < ptr + HeaderSize(mem[ptr]) / 8 && HeaderFree(mem[ptr]) {
          return true;
        }
        ptr := ptr + HeaderSize(mem[ptr]) / 8;
        rest := rest[1..];
      }
      LaidFacts(mem[..], ptr, rest, mem.Length);
      return false;
    }
  }

  /** The index of a live block's chunk. */
  ghost function BlockAt(cs: seq<Chunk>, at: nat, b: Block): (k: nat)
    requires LongEnough(cs) && b in Live(cs, at)
    ensures k < |cs| && 0 < b.words && cs[k] == Chunk(b.words + 1, true) && at + Total(cs[..k]) + 1 == b.start
  {
    if cs[0].taken && b == Block(at + 1, cs[0].words - 1) then
      0
    else
      var k := 1 + BlockAt(cs[1..], at + cs[0].words, b);
      assert cs[..k][1..] == cs[1..][..k - 1];
      k
  }

  lemma {:induction false} ReleaseSplits(cs: seq<Chunk>, at: nat, b: Block)
    requires LongEnough(cs) && b in Live(cs, at)
    ensures var k := BlockAt(cs, at, b);
            Release(cs, at, b.start) == cs[..k] + [Chunk(cs[k].words, false)] + cs[k + 1..]
  {
    var k := BlockAt(cs, at, b);
    if k > 0 {
      ReleaseSplits(cs[1..], at + cs[0].words, b);
      LiveRange(cs[1..], at + cs[0].words, b);
      assert cs[..k] == [cs[0]] + cs[1..][..k - 1];
      assert cs[1..][k..] == cs[k + 1..];
    }
  }
}
