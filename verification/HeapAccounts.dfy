/**
  What the kernel heap does, word by word and chunk by chunk: the header's bits, which chunk a request gets
  and how much of it, and what the statistics count.
 */
module HeapAccounts {
  import opened MachineWords
  import opened KernelHeap

  /** A header holds the chunk's bytes in its low 63 bits and whether it is taken in bit 63. */
  lemma {:induction false} HeaderBits(c: Chunk)
    requires 8 * c.words < 0x8000_0000_0000_0000
    ensures Header(c) % 0x8000_0000_0000_0000 == 8 * c.words
    ensures Header(c) / 0x8000_0000_0000_0000 == 1 <==> c.taken
    ensures HeaderSize(Header(c)) == 8 * c.words && (HeaderFree(Header(c)) <==> !c.taken)
  {
  }

  /** The live blocks are the payloads of the taken chunks: everything but the header word. */
  lemma {:induction false} LiveExactly(cs: seq<Chunk>, at: nat, b: Block)
    ensures b in Live(cs, at) <==>
              exists k :: 0 <= k < |cs| && cs[k].taken && b == Block(at + Total(cs[..k]) + 1, cs[k].words - 1)
  {
    if cs != [] {
      var rest, next := cs[1..], at + cs[0].words;
      LiveExactly(rest, next, b);
      FirstOffset(cs);
      if k :| 0 <= k < |rest| && rest[k].taken && b == Block(next + Total(rest[..k]) + 1, rest[k].words - 1) {
        NextOffset(cs, k + 1);
        assert cs[k + 1].taken;
      }
      if k :| 0 < k < |cs| && cs[k].taken && b == Block(at + Total(cs[..k]) + 1, cs[k].words - 1) {
        NextOffset(cs, k);
        assert rest[k - 1].taken;
      }
    }
  }

  lemma FirstOffset(cs: seq<Chunk>)
    ensures Total(cs[..0]) == 0
  {
  }

  lemma NextOffset(cs: seq<Chunk>, k: nat)
    requires 0 < k <= |cs|
    ensures Total(cs[..k]) == cs[0].words + Total(cs[1..][..k - 1])
  {
    assert cs[..k][1..] == cs[1..][..k - 1];
  }

  /** The words no operation may touch: of every taken chunk all but the header. */
  lemma {:induction false} PayloadExactly(cs: seq<Chunk>, word: int)
    ensures InLivePayload(cs, word) <==>
              exists k :: 0 <= k < |cs| && cs[k].taken && Total(cs[..k]) < word < Total(cs[..k]) + cs[k].words
  {
    hide Live, Total;
    if InLivePayload(cs, word) {
      var b :| b in Live(cs, 0) && b.start <= word < b.start + b.words;
      LiveExactly(cs, 0, b);
    }
    if k :| 0 <= k < |cs| && cs[k].taken && Total(cs[..k]) < word < Total(cs[..k]) + cs[k].words {
      var b := Block(Total(cs[..k]) + 1, cs[k].words - 1);
      LiveExactly(cs, 0, b);
    }
  }

  /** A word is in freed memory exactly when it lies in a free chunk, header included. */
  lemma {:induction false} FreedExactly(cs: seq<Chunk>, at: nat, word: nat)
    ensures InFreeChunk(cs, at, word) <==>
              exists k :: 0 <= k < |cs| && !cs[k].taken
                          && at + Total(cs[..k]) <= word < at + Total(cs[..k]) + cs[k].words
  {
    if cs != [] {
      var rest, next := cs[1..], at + cs[0].words;
      FreedExactly(rest, next, word);
      FirstOffset(cs);
      if k :| && 0 <= k < |rest| && !rest[k].taken
              && next + Total(rest[..k]) <= word < next + Total(rest[..k]) + rest[k].words {
        NextOffset(cs, k + 1);
        assert !cs[k + 1].taken;
      }
      if k :| 0 < k < |cs| && !cs[k].taken && at + Total(cs[..k]) <= word < at + Total(cs[..k]) + cs[k].words {
        NextOffset(cs, k);
        assert !rest[k - 1].taken;
      }
    }
  }

  /** A request for `words` words, header included, gets the lowest free chunk that has as many; no other is skipped. */
  lemma FirstFitExactly(cs: seq<Chunk>, words: nat)
    ensures var k := FirstFit(cs, words);
            && (forall j | 0 <= j < k :: cs[j].taken || cs[j].words < words)
            && (k < |cs| ==> !cs[k].taken && words <= cs[k].words)
  {
  }

  /**
    The block a request gets, when the lowest chunk that fits starts at word `at` and has `words` words: the
    request rounded up to 8 bytes, and one word more exactly when no more than that would be left over.
   */
  ghost function GrantedBlock(at: nat, words: nat, sz: Word): Block {
    var n := (sz + 7) / 8;
    Block(at + 1, if words == n + 2 then n + 1 else n)
  }

  lemma RoundedWords(sz: Word)
    requires 0 < sz <= U64 - 16
    ensures RequestWords(sz) == (sz + 7) / 8 + 1 && (sz + 7) / 8 >= 1
  {
    RequestCoversSize(sz);
    hide RequestWords, RequestBytes;
  }

  /**
    Exactly the requests of 1 to 2^64 - 16 bytes for which some free chunk
    has that many words and its header are granted.
   */
  lemma {:induction false} GrantedExactlyWhen(cs: seq<Chunk>, sz: Word)
    requires LongEnough(cs)
    ensures Enabled(cs, Malloc(sz)) <==>
              && 0 < sz <= 0xFFFF_FFFF_FFFF_FFF0
              && exists k :: 0 <= k < |cs| && !cs[k].taken && (sz + 7) / 8 + 1 <= cs[k].words
  {
    if 0 < sz <= U64 - 16 {
      RoundedWords(sz);
      hide RequestWords;
      FirstFitExactly(cs, RequestWords(sz));
    }
  }

  lemma {:induction false} GrantExactly(cs: seq<Chunk>, sz: Word)
    requires LongEnough(cs) && Enabled(cs, Malloc(sz))
    ensures var k := FirstFit(cs, RequestWords(sz));
            var b := GrantedBlock(Total(cs[..k]), cs[k].words, sz);
            Live(Apply(cs, Malloc(sz)), 0) == Live(cs, 0) + {b} && !IsLive(cs, b.start) && sz <= 8 * b.words < sz + 16
  {
    MallocAddsBlock(cs, sz);
    RoundedWords(sz);
    hide Live, Apply, IsLive, RequestWords, RequestBytes, Total;
  }

  // ----- the statistics -----

  lemma {:induction false} UsedAppend(a: seq<Chunk>, b: seq<Chunk>)
    ensures TakenWords(a + b) == TakenWords(a) + TakenWords(b)
  {
    if a == [] {
      assert a + b == b;
    } else {
      assert (a + b)[1..] == a[1..] + b;
      UsedAppend(a[1..], b);
    }
  }

  lemma UsedOne(c: Chunk)
    ensures TakenWords([c]) == if c.taken then c.words else 0
  {
    assert [c][1..] == [];
  }

  lemma {:induction false} UsedCut(c: Chunk, words: nat)
    requires words <= c.words
    ensures TakenWords(Cut(c, words)) == Granted(c, words)
  {
    if c.words - words > 1 {
      var first, left := Chunk(words, true), Chunk(c.words - words, false);
      UsedAppend([first], [left]);
      UsedOne(first);
      UsedOne(left);
      assert Cut(c, words) == [first] + [left];
    } else {
      UsedOne(Chunk(c.words, true));
    }
  }

  /** An allocation raises what is counted as used by the block and its header, and lowers what is free by as much. */
  lemma {:induction false} MallocCounted(cs: seq<Chunk>, sz: Word)
    requires LongEnough(cs) && Enabled(cs, Malloc(sz))
    ensures var k := FirstFit(cs, RequestWords(sz));
            var b, after := GrantedBlock(Total(cs[..k]), cs[k].words, sz), Apply(cs, Malloc(sz));
            && TakenWords(after) == TakenWords(cs) + b.words + 1
            && FreeWords(after) == FreeWords(cs) - b.words - 1
  {
    var n := RequestWords(sz);
    var k := FirstFit(cs, n);
    RoundedWords(sz);
    TakeAddsBlock(cs, k, n);
    FreePlusTaken(cs);
    FreePlusTaken(Take(cs, k, n));
    UsedCut(cs[k], n);
    hide RequestWords, Live, Total, FreeWords, Cut;
    assert cs == cs[..k] + [cs[k]] + cs[k + 1..];
    UsedAppend(cs[..k] + [cs[k]], cs[k + 1..]);
    UsedAppend(cs[..k], [cs[k]]);
    UsedOne(cs[k]);
    UsedAppend(cs[..k] + Cut(cs[k], n), cs[k + 1..]);
    UsedAppend(cs[..k], Cut(cs[k], n));
  }

  lemma {:induction false} UsedCoalesced(cs: seq<Chunk>)
    ensures TakenWords(Coalesced(cs)) == TakenWords(cs)
    decreases |cs|
  {
    if |cs| >= 2 {
      if !cs[0].taken && !cs[1].taken {
        UsedCoalesced(cs[2..]);
        assert cs[1..][1..] == cs[2..];
        UsedAppend([Chunk(cs[0].words + cs[1].words, false)], Coalesced(cs[2..]));
      } else {
        UsedCoalesced(cs[1..]);
        UsedAppend([cs[0]], Coalesced(cs[1..]));
      }
    }
  }

  lemma {:induction false} UsedReleased(cs: seq<Chunk>, at: nat, b: Block)
    requires LongEnough(cs) && b in Live(cs, at)
    ensures TakenWords(Release(cs, at, b.start)) == TakenWords(cs) - b.words - 1
  {
    var rest := at + cs[0].words;
    if at + 1 == b.start {
      assert b !in Live(cs[1..], rest) by {
        if b in Live(cs[1..], rest) {
          LiveRange(cs[1..], rest, b);
        }
      }
      UsedAppend([Chunk(cs[0].words, false)], cs[1..]);
    } else {
      UsedReleased(cs[1..], rest, b);
      UsedAppend([cs[0]], Release(cs[1..], rest, b.start));
    }
  }

  /** A free lowers what is counted as used by exactly what the block's allocation raised it by. */
  lemma {:induction false} FreeCounted(cs: seq<Chunk>, b: Block)
    requires LongEnough(cs) && b in Live(cs, 0)
    ensures Enabled(cs, Free(b.start))
    ensures var after := Apply(cs, Free(b.start));
            && TakenWords(after) == TakenWords(cs) - b.words - 1
            && FreeWords(after) == FreeWords(cs) + b.words + 1
  {
    var released := Release(cs, 0, b.start);
    assert IsLive(cs, b.start);
    UsedReleased(cs, 0, b);
    UsedCoalesced(released);
    ReleaseRemovesBlock(cs, 0, b);
    CoalescedKeepsBlocks(released, 0);
    FreePlusTaken(cs);
    FreePlusTaken(Coalesced(released));
    hide Live, Total, FreeWords, TakenWords, Coalesced, Release;
  }

  /** Nothing is used exactly when nothing is live. */
  lemma {:induction false} UsedNothing(cs: seq<Chunk>, at: nat)
    requires LongEnough(cs)
    ensures TakenWords(cs) == 0 <==> Live(cs, at) == {}
  {
    if cs != [] {
      UsedNothing(cs[1..], at + cs[0].words);
    }
  }
}
