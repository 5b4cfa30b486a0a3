/**
  Streams that are cut off.  The decoder reads zeros behind the end of its input and
  does not object, so that a stream whose end is missing is decoded as if zeros stood
  there - except that the data of stored blocks must be there.
 */
module DeflateCutOff {
  import opened Bits
  import opened Canonical
  import opened Deflate
  import opened DeflateAhead
  import opened DeflateDivergence
  import opened DeflateTrailer
  import opened Packing

  function ZeroBytes(n: nat): (r: seq<byte>)
    ensures |r| == n && forall i :: 0 <= i < n ==> r[i] == 0
  {
    seq(n, i => 0)
  }

  lemma ZerosUnseen(input: seq<byte>, n: nat, p: nat)
    ensures SameAhead(input, p, input + ZeroBytes(n), p)
  {
    forall i: nat ensures Ahead(input, p, i) == Ahead(input + ZeroBytes(n), p, i) {
      assert ByteAt(input, (p + i) / 8) == ByteAt(input + ZeroBytes(n), (p + i) / 8);
    }
  }

  // ------------------------------------------------------------ blocks that read alike

  lemma {:induction false} RoundsSame(lit: seq<nat>, dist: seq<nat>, input: seq<byte>, input': seq<byte>, p: nat,
                                      out: seq<byte>, limit: nat, k: nat)
    requires SameAhead(input, p, input', p) && |out| <= limit
    ensures Rounds(lit, dist, input, p, out, limit, k) == Rounds(lit, dist, input', p, out, limit, k)
    decreases k
  {
    hide SymbolStep, SameAhead;
    if k > 0 {
      StepSame(lit, dist, input, p, input', p, out, limit);
      var step := SymbolStep(lit, dist, input, p, out, limit);
      if step.Continue? {
        AheadShift(input, p, input', p, step.pos - p);
        RoundsSame(lit, dist, input, input', step.pos, step.out, limit, k - 1);
      }
    }
  }

  lemma SameSwapped(input: seq<byte>, input': seq<byte>, p: nat)
    requires SameAhead(input, p, input', p)
    ensures SameAhead(input', p, input, p)
  {
  }

  lemma DivergesAlike(lit: seq<nat>, dist: seq<nat>, input: seq<byte>, input': seq<byte>, p: nat, out: seq<byte>,
                      limit: nat)
    requires SameAhead(input, p, input', p) && |out| <= limit
    requires HuffmanBlock(lit, dist, input, p, out, limit) == Diverges
    ensures HuffmanBlock(lit, dist, input', p, out, limit) == Diverges
  {
    hide HuffmanBlock, Rounds, SameAhead;
    forall k: nat ensures Rounds(lit, dist, input', p, out, limit, k).Continue? {
      DivergingRounds(lit, dist, input, p, out, limit, k);
      RoundsSame(lit, dist, input, input', p, out, limit, k);
    }
    DivergesIffEndless(lit, dist, input', p, out, limit);
  }

  lemma {:induction false} HuffmanBlockSame(lit: seq<nat>, dist: seq<nat>, input: seq<byte>, input': seq<byte>,
                                            p: nat, out: seq<byte>, limit: nat)
    requires SameAhead(input, p, input', p) && |out| <= limit
    ensures HuffmanBlock(lit, dist, input, p, out, limit) == HuffmanBlock(lit, dist, input', p, out, limit)
    decreases limit - |out|, BitsLeft(input, p)
  {
    hide SymbolStep, SameAhead;
    if HuffmanBlock(lit, dist, input, p, out, limit) == Diverges {
      DivergesAlike(lit, dist, input, input', p, out, limit);
      return;
    }
    if HuffmanBlock(lit, dist, input', p, out, limit) == Diverges {
      SameSwapped(input, input', p);
      DivergesAlike(lit, dist, input', input, p, out, limit);
    }
    StepSame(lit, dist, input, p, input', p, out, limit);
    var step := SymbolStep(lit, dist, input, p, out, limit);
    if step.Continue? {
      AheadShift(input, p, input', p, step.pos - p);
      HuffmanBlockSame(lit, dist, input, input', step.pos, step.out, limit);
    }
  }

  lemma {:induction false} ZigzagSame(input: seq<byte>, input': seq<byte>, p: nat, n: nat)
    requires SameAhead(input, p, input', p) && n <= 19
    ensures ZigzagLengths(input, p, n) == ZigzagLengths(input', p, n)
    decreases n
  {
    hide Lsb, SameAhead;
    if n > 0 {
      ZigzagSame(input, input', p, n - 1);
      AheadShift(input, p, input', p, 3 * (n - 1));
      LsbSame(input, p + 3 * (n - 1), input', p + 3 * (n - 1), 3);
    }
  }

  lemma RunSame(input: seq<byte>, input': seq<byte>, q: nat, c: nat, acc: seq<nat>)
    requires c < 19 && |acc| < 320 && forall i :: 0 <= i < |acc| ==> acc[i] <= 15
    requires SameAhead(input, q, input', q)
    ensures LengthRun(input, q, c, acc) == LengthRun(input', q, c, acc)
  {
    hide Lsb, Times, SameAhead;
    LsbSame(input, q, input', q, if c == 16 then 2 else if c == 17 then 3 else 7);
  }

  lemma {:induction false} ReadLengthsSame(clens: seq<nat>, input: seq<byte>, input': seq<byte>, p: nat, total: nat,
                                           acc: seq<nat>)
    requires UsableCode(clens, 19) && total <= 320 && forall i :: 0 <= i < |acc| ==> acc[i] <= 15
    requires SameAhead(input, p, input', p)
    ensures ReadLengths(clens, input, p, total, acc) == ReadLengths(clens, input', p, total, acc)
    decreases total - |acc|
  {
    hide NextSymbol, LengthRun, KraftSum, SameAhead;
    NextSame(clens, input, p, input', p);
    var next := NextSymbol(clens, input, p);
    if |acc| < total && next.Some? {
      var c := next.value;
      AheadShift(input, p, input', p, clens[c]);
      RunSame(input, input', p + clens[c], c, acc);
      var run := LengthRun(input, p + clens[c], c, acc);
      if run.Lengths? {
        AheadShift(input, p, input', p, run.pos - p);
        ReadLengthsSame(clens, input, input', run.pos, total, run.lens);
      }
    }
  }

  lemma DynamicSame(input: seq<byte>, input': seq<byte>, p: nat)
    requires SameAhead(input, p, input', p)
    ensures DynamicTables(input, p) == DynamicTables(input', p)
  {
    hide Lsb, KraftSum, ReadLengths, ZigzagLengths, SameAhead;
    LsbSame(input, p, input', p, 5);
    AheadShift(input, p, input', p, 5);
    LsbSame(input, p + 5, input', p + 5, 5);
    AheadShift(input, p, input', p, 10);
    LsbSame(input, p + 10, input', p + 10, 4);
    var hclen := HCLen(input, p);
    AheadShift(input, p, input', p, 14);
    ZigzagSame(input, input', p + 14, hclen);
    var clens := ZigzagLengths(input, p + 14, hclen);
    if KraftSum(clens) <= Pow2(15) {
      AheadShift(input, p, input', p, 14 + 3 * hclen);
      ReadLengthsSame(clens, input, input', p + 14 + 3 * hclen, HLit(input, p) + HDist(input, p), []);
    }
  }

  // ------------------------------------------------------------ stored data

  // Where the data of the stored block at p end, if there is one and it is accepted.
  ghost function StoredEnd(input: seq<byte>, p: nat, out: seq<byte>, limit: nat): nat
    requires |out| <= limit
  {
    var r := Block(input, p, out, limit);
    if r.Accepted? && Lsb(input, p + 1, 2) == 0 then r.pos / 8 else 0
  }

  // The furthest end of stored data in the blocks from p on.
  ghost function StoredNeed(input: seq<byte>, p: nat, out: seq<byte>, limit: nat): nat
    requires |out| <= limit
    decreases BitsLeft(input, p)
  {
    var here := StoredEnd(input, p, out, limit);
    match Block(input, p, out, limit)
    case Accepted(out', q) =>
      if Bit(input, p) == 1 then here
      else
        assert p < 8 * |input| by { if p >= 8 * |input| { NoBlockPastEnd(input, p, out, limit); } }
        var later := StoredNeed(input, q, out', limit);
        if here < later then later else here
    case _ => here
  }

  lemma BlockCut(input: seq<byte>, n: nat, p: nat, out: seq<byte>, limit: nat)
    requires |out| <= limit
    ensures Block(input, p, out, limit) ==
      if StoredEnd(input + ZeroBytes(n), p, out, limit) <= |input| then Block(input + ZeroBytes(n), p, out, limit)
      else Rejected
  {
    hide Lsb, HuffmanBlock, DynamicTables, SameAhead, ZeroBytes, FixedLit, FixedDist;
    var input' := input + ZeroBytes(n);
    ZerosUnseen(input, n, p + 1);
    LsbSame(input, p + 1, input', p + 1, 2);
    ZerosUnseen(input, n, p + 3);
    var kind := Lsb(input, p + 1, 2);
    if kind == 0 {
      StoredCut(input, n, p + 3, out, limit);
    } else if kind == 1 {
      HuffmanBlockSame(FixedLit(), FixedDist(), input, input', p + 3, out, limit);
    } else if kind == 2 {
      DynamicSame(input, input', p + 3);
      var t := DynamicTables(input, p + 3);
      if t.Tables? {
        ZerosUnseen(input, n, t.pos);
        HuffmanBlockSame(t.lit, t.dist, input, input', t.pos, out, limit);
      }
    }
  }

  lemma StoredCut(input: seq<byte>, n: nat, p: nat, out: seq<byte>, limit: nat)
    requires |out| <= limit
    ensures var r := StoredBlock(input + ZeroBytes(n), p, out, limit);
      StoredBlock(input, p, out, limit) == if r.Accepted? && r.pos / 8 > |input| then Rejected else r
  {
    hide Lsb, SameAhead;
    var q, input' := RoundUp(p), input + ZeroBytes(n);
    ZerosUnseen(input, n, q);
    LsbSame(input, q, input', q, 16);
    ZerosUnseen(input, n, q + 16);
    LsbSame(input, q + 16, input', q + 16, 16);
    var start, len := (q + 32) / 8, Lsb(input, q, 16);
    if start + len <= |input| {
      assert input'[start..start + len] == input[start..start + len];
    }
  }

  lemma {:induction false} BlocksCut(input: seq<byte>, n: nat, p: nat, out: seq<byte>, limit: nat)
    requires |out| <= limit
    ensures Blocks(input, p, out, limit) ==
      if StoredNeed(input + ZeroBytes(n), p, out, limit) <= |input| then Blocks(input + ZeroBytes(n), p, out, limit)
      else Rejected
    decreases BitsLeft(input + ZeroBytes(n), p)
  {
    hide Block, StoredEnd, Bit, ZeroBytes, SameAhead;
    var input' := input + ZeroBytes(n);
    BlockCut(input, n, p, out, limit);
    ZerosUnseen(input, n, p);
    BitSame(input, p, input', p, 0);
    var r := Block(input', p, out, limit);
    if r.Accepted? && Bit(input', p) != 1 {
      if p >= 8 * |input'| { NoBlockPastEnd(input', p, out, limit); }
      BlocksCut(input, n, r.pos, r.out, limit);
    }
  }

  // Exactly how an input is judged whose last n bytes, zeros, are cut off: like the whole,
  // unless stored data are missing.
  lemma CutOffExactly(input: seq<byte>, n: nat, parseHeader: bool, limit: nat)
    ensures Inflate(input, parseHeader, limit) ==
      if StoredNeed(input + ZeroBytes(n), Start(parseHeader), [], limit) <= |input|
      then Inflate(input + ZeroBytes(n), parseHeader, limit)
      else Rejected
  {
    hide Blocks, StoredNeed;
    BlocksCut(input, n, Start(parseHeader), [], limit);
    assert ByteAt(input + ZeroBytes(n), 0) == ByteAt(input, 0);
    assert ByteAt(input + ZeroBytes(n), 1) == ByteAt(input, 1);
  }

  // The input with everything from byte n on read as zeros.
  function Blanked(input: seq<byte>, n: nat): seq<byte>
    requires n <= |input|
  {
    input[..n] + ZeroBytes(|input| - n)
  }

  // A prefix is accepted exactly if the whole is when the rest is blank, and no stored data
  // are in the rest.
  lemma PrefixBlanked(input: seq<byte>, n: nat, parseHeader: bool, limit: nat)
    requires n <= |input|
    ensures Inflate(input[..n], parseHeader, limit).Accepted?
       <==> Inflate(Blanked(input, n), parseHeader, limit).Accepted?
            && StoredNeed(Blanked(input, n), Start(parseHeader), [], limit) <= n
  {
    hide Inflate, StoredNeed, ZeroBytes;
    CutOffExactly(input[..n], |input| - n, parseHeader, limit);
  }

  // An accepted stream, however much of it is missing, stays accepted under zeros.
  lemma ZerosIrrelevant(input: seq<byte>, n: nat, parseHeader: bool, limit: nat)
    requires Inflate(input, parseHeader, limit).Accepted?
    ensures Inflate(input + ZeroBytes(n), parseHeader, limit) == Inflate(input, parseHeader, limit)
  {
    hide Inflate, StoredNeed, ZeroBytes;
    CutOffExactly(input, n, parseHeader, limit);
  }

  // ------------------------------------------------------------ which codes let it through

  // After j rounds of the loop the code of the end comes next, and some of it is missing.
  ghost predicate EndsPast(lit: seq<nat>, dist: seq<nat>, input: seq<byte>, p: nat, out: seq<byte>, limit: nat, j: nat)
    requires |out| <= limit
  {
    var r := Rounds(lit, dist, input, p, out, limit, j);
    r.Continue? && NextSymbol(lit, input, r.pos) == Some(256) && r.pos + lit[256] > 8 * |input|
  }

  lemma EndRead(lit: seq<nat>, dist: seq<nat>, input: seq<byte>, p: nat, out: seq<byte>, limit: nat)
    requires |out| <= limit
    ensures SymbolStep(lit, dist, input, p, out, limit).EndOfBlock? <==> NextSymbol(lit, input, p) == Some(256)
    ensures NextSymbol(lit, input, p) == Some(256) ==>
      SymbolStep(lit, dist, input, p, out, limit) == EndOfBlock(p + lit[256])
  {
    hide NextSymbol, CopyStep, Lsb, LengthBase, LengthExtra;
  }

  lemma EndsPastAccepted(lit: seq<nat>, dist: seq<nat>, input: seq<byte>, p: nat, out: seq<byte>, limit: nat, j: nat)
    requires |out| <= limit && EndsPast(lit, dist, input, p, out, limit, j)
    ensures var r := Rounds(lit, dist, input, p, out, limit, j);
      && HuffmanBlock(lit, dist, input, p, out, limit) == Accepted(r.out, r.pos + lit[256])
      && (r.pos >= 8 * |input| ==> ZeroSymbol(lit) == Some(256))
  {
    hide NextSymbol, Rounds, SymbolStep;
    var r := Rounds(lit, dist, input, p, out, limit, j);
    BlockAfterRounds(lit, dist, input, p, out, limit, j);
    EndRead(lit, dist, input, r.pos, r.out, limit);
    if r.pos >= 8 * |input| {
      ExhaustedAtEnd(input, r.pos);
      NextSame(lit, input, r.pos, [], 0);
    }
  }

  // A block is accepted although some of it is missing exactly if its loop gets to such an
  // end code: a whole one that is cut, or, if a symbol boundary lies at the end of the input
  // or behind it, one that zeros stand for.
  lemma BlockPastExactly(lit: seq<nat>, dist: seq<nat>, input: seq<byte>, p: nat, out: seq<byte>, limit: nat)
    requires |out| <= limit
    ensures (var v := HuffmanBlock(lit, dist, input, p, out, limit); v.Accepted? && v.pos > 8 * |input|)
       <==> exists j: nat :: EndsPast(lit, dist, input, p, out, limit, j)
  {
    hide NextSymbol, Rounds, SymbolStep, HuffmanBlock;
    var v := HuffmanBlock(lit, dist, input, p, out, limit);
    if v.Accepted? && v.pos > 8 * |input| {
      var j := DecidingRound(lit, dist, input, p, out, limit);
      var r := Rounds(lit, dist, input, p, out, limit, j);
      EndRead(lit, dist, input, r.pos, r.out, limit);
      assert EndsPast(lit, dist, input, p, out, limit, j);
    }
    if j: nat :| EndsPast(lit, dist, input, p, out, limit, j) {
      EndsPastAccepted(lit, dist, input, p, out, limit, j);
    }
  }

  // At p stands a coded block that is marked as the last one and ends past the input.
  ghost predicate LastBlockPast(input: seq<byte>, p: nat, out: seq<byte>, limit: nat)
    requires |out| <= limit
  {
    Bit(input, p) == 1 && CodedBlockPast(Lsb(input, p + 1, 2), input, p + 3, out, limit)
  }

  ghost predicate CodedBlockPast(kind: nat, input: seq<byte>, p: nat, out: seq<byte>, limit: nat)
    requires |out| <= limit
  {
    if kind == 1 then exists j: nat :: EndsPast(FixedLit(), FixedDist(), input, p, out, limit, j)
    else if kind == 2 then
      var t := DynamicTables(input, p);
      t.Tables? && exists j: nat :: EndsPast(t.lit, t.dist, input, t.pos, out, limit, j)
    else false
  }

  lemma KindPastExactly(kind: nat, input: seq<byte>, p: nat, out: seq<byte>, limit: nat)
    requires |out| <= limit
    ensures (var v := BlockOfKind(kind, input, p, out, limit); v.Accepted? && v.pos > 8 * |input|)
       <==> CodedBlockPast(kind, input, p, out, limit)
  {
    hide HuffmanBlock, DynamicTables, EndsPast, FixedLit, FixedDist, Lsb;
    if kind == 0 {
      StoredBlockInside(input, p, out, limit);
    } else if kind == 1 {
      BlockPastExactly(FixedLit(), FixedDist(), input, p, out, limit);
    } else if kind == 2 {
      var t := DynamicTables(input, p);
      if t.Tables? { BlockPastExactly(t.lit, t.dist, input, t.pos, out, limit); }
    }
  }

  ghost predicate PastInBlock(input: seq<byte>, p: nat, out: seq<byte>, limit: nat, k: nat)
    requires |out| <= limit
  {
    var r := AfterBlocks(input, p, out, limit, k);
    r.Continue? && LastBlockPast(input, r.pos, r.out, limit)
  }

  lemma PastAccepted(input: seq<byte>, p: nat, out: seq<byte>, limit: nat, k: nat)
    requires |out| <= limit && PastInBlock(input, p, out, limit, k)
    ensures Blocks(input, p, out, limit).Accepted? && Blocks(input, p, out, limit).pos > 8 * |input|
  {
    hide BlockOfKind, CodedBlockPast, AfterBlocks, Bit, Lsb;
    var r := AfterBlocks(input, p, out, limit, k);
    BlocksAfter(input, p, out, limit, k);
    KindPastExactly(Lsb(input, r.pos + 1, 2), input, r.pos + 3, r.out, limit);
  }

  // An input is accepted although its end is missing exactly if its last block has such codes.
  lemma MissingEndAcceptedExactly(input: seq<byte>, parseHeader: bool, limit: nat)
    ensures (var v := Inflate(input, parseHeader, limit); v.Accepted? && v.pos > 8 * |input|)
       <==> (parseHeader ==> HeaderOk(input))
            && exists k: nat :: PastInBlock(input, Start(parseHeader), [], limit, k)
  {
    hide Blocks, BlockOfKind, CodedBlockPast, AfterBlocks, Bit, Lsb, HeaderOk;
    var p := Start(parseHeader);
    var v := Blocks(input, p, [], limit);
    if v.Accepted? && v.pos > 8 * |input| {
      var k := DecidingBlock(input, p, [], limit);
      var r := AfterBlocks(input, p, [], limit, k);
      KindPastExactly(Lsb(input, r.pos + 1, 2), input, r.pos + 3, r.out, limit);
      assert PastInBlock(input, p, [], limit, k);
    }
    if k: nat :| PastInBlock(input, p, [], limit, k) { PastAccepted(input, p, [], limit, k); }
  }

  // Which prefixes of an accepted stream are accepted: those that hold all of it, and those
  // in which the last block is a coded one and ends past the prefix.
  lemma PrefixExactly(input: seq<byte>, n: nat, parseHeader: bool, limit: nat)
    requires n <= |input| && Inflate(input, parseHeader, limit).Accepted?
    ensures Inflate(input[..n], parseHeader, limit).Accepted?
       <==> Inflate(input, parseHeader, limit).pos <= 8 * n
            || ((parseHeader ==> HeaderOk(input[..n]))
                && exists k: nat :: PastInBlock(input[..n], Start(parseHeader), [], limit, k))
  {
    hide Inflate, PastInBlock, HeaderOk;
    MissingEndAcceptedExactly(input[..n], parseHeader, limit);
    assert input[..n] + input[n..] == input;
    var v := Inflate(input[..n], parseHeader, limit);
    if Inflate(input, parseHeader, limit).pos <= 8 * n {
      PrefixSuffices(input, n, parseHeader, limit);
    } else if v.Accepted? && v.pos <= 8 * n {
      TrailerIrrelevant(input[..n], input[n..], parseHeader, limit);
    }
  }

  // ------------------------------------------------------------ fixed blocks

  lemma FixedEndsAt(input: seq<byte>, p: nat, out: seq<byte>, limit: nat)
    requires Exhausted(input, p) && |out| <= limit
    ensures HuffmanBlock(FixedLit(), FixedDist(), input, p, out, limit) == Accepted(out, p + 7)
  {
    hide NextSymbol, FixedDist, SameAhead;
    NextSame(FixedLit(), input, p, [], 0);
    FixedNeverDiverges(input, p, out, limit);
    assert FixedLit()[256] == 7;
  }

  // Where the stream is after k blocks and j symbols of another one, which is marked as the
  // last and uses the fixed codes.
  ghost function WithinLastFixed(input: seq<byte>, parseHeader: bool, limit: nat, k: nat, j: nat): (r: Step)
    ensures r.Continue? ==> |r.out| <= limit
  {
    var b := AfterBlocks(input, Start(parseHeader), [], limit, k);
    if b.Continue? && Bit(input, b.pos) == 1 && Lsb(input, b.pos + 1, 2) == 1 then
      Rounds(FixedLit(), FixedDist(), input, b.pos + 3, b.out, limit, j)
    else Stop(Rejected)
  }

  // There it can be cut: what it has put out so far is accepted.
  lemma FixedCutAccepted(input: seq<byte>, parseHeader: bool, limit: nat, k: nat, j: nat)
    requires parseHeader ==> HeaderOk(input)
    requires var r := WithinLastFixed(input, parseHeader, limit, k, j); r.Continue? && Exhausted(input, r.pos)
    ensures var r := WithinLastFixed(input, parseHeader, limit, k, j);
      Inflate(input, parseHeader, limit) == Accepted(r.out, r.pos + 7)
  {
    hide AfterBlocks, Rounds, HuffmanBlock, FixedLit, FixedDist, Bit, Lsb, HeaderOk, Exhausted;
    var b := AfterBlocks(input, Start(parseHeader), [], limit, k);
    var r := WithinLastFixed(input, parseHeader, limit, k, j);
    BlocksAfter(input, Start(parseHeader), [], limit, k);
    BlockAfterRounds(FixedLit(), FixedDist(), input, b.pos + 3, b.out, limit, j);
    FixedEndsAt(input, r.pos, r.out, limit);
  }

  // One byte is enough: the header of a fixed block, whose end is read from nothing.
  lemma OneByteStream(limit: nat)
    ensures Inflate([3], false, limit) == Accepted([], 10)
  {
    OneByte();
    FixedEndsAt([3], 3, [], limit);
  }

  lemma OneByte()
    ensures Bit([3], 0) == 1 && Lsb([3], 1, 2) == 1 && Exhausted([3], 3)
  {
    var bits: seq<bit> := [1, 1, 0];
    PackIsThree();
    PackExhausted(bits);
    assert Bit([3], 0) == 1 && Bit([3], 1) == 1 && Bit([3], 2) == 0;
    assert Lsb([3], 2, 1) == 0 && Lsb([3], 1, 2) == 1;
  }

  lemma PackIsThree()
    ensures Pack([1, 1, 0]) == [3]
  {
    var bits: seq<bit> := [1, 1, 0];
    assert bits[1..] == [1, 0] && bits[1..][1..] == [0] && bits[1..][1..][1..] == [];
    assert bits[3..] == [];
    assert ByteOf([0], 6) == 0;
    assert ByteOf([1, 0], 7) == 1 by { assert [1, 0][1..] == [0]; }
    assert ByteOf(bits, 8) == 3;
  }
}
