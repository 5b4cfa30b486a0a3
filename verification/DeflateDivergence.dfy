/**
  When the symbol loop of a Huffman block never ends.

  The C loop has no exit of its own for a copy of length 0, which symbols 286 and 287
  stand for.  Once the input is exhausted every bit reads as zero, so if such a copy
  is decoded there it will be decoded again and again.
 */
module DeflateDivergence {
  import opened Bits
  import opened Canonical
  import opened Deflate
  import opened DeflateAhead
  import opened DeflateEncode
  import opened DeflateHeader
  import opened DeflateRoundTrip
  import opened Packing

  // The state after k rounds of the loop, or how it ended before.
  ghost function Rounds(lit: seq<nat>, dist: seq<nat>, input: seq<byte>, p: nat, out: seq<byte>, limit: nat,
                        k: nat): (r: Step)
    requires |out| <= limit
    ensures r.Continue? ==> |r.out| <= limit
    decreases k
  {
    if k == 0 then Continue(out, p)
    else
      match SymbolStep(lit, dist, input, p, out, limit)
      case Continue(out', q) => Rounds(lit, dist, input, q, out', limit, k - 1)
      case step => step
  }

  // ------------------------------------------------------------ standing still

  // What a stream of zeros starts with.
  ghost function ZeroSymbol(lens: seq<nat>): Option<nat> {
    NextSymbol(lens, [], 0)
  }

  // Symbols 286 and 287 of a code.
  predicate Reserved(symbol: Option<nat>) {
    symbol.Some? && symbol.value >= 286
  }

  // A stream of zeros copies nothing from a distance within n bytes of output.
  ghost predicate EmptyCopy(lit: seq<nat>, dist: seq<nat>, n: nat) {
    Reserved(ZeroSymbol(lit)) && ZeroSymbol(dist).Some? && DistBase(ZeroSymbol(dist).value) <= n
  }

  lemma LengthZeroIffReserved(i: nat)
    ensures LengthBase(i) == 0 <==> i >= 29
    ensures i >= 29 ==> LengthExtra(i) == 0
  {
  }

  // A round that goes on puts out something, unless its symbol is reserved.
  lemma RoundGrows(lit: seq<nat>, dist: seq<nat>, input: seq<byte>, p: nat, out: seq<byte>, limit: nat)
    requires |out| <= limit
    ensures var step := SymbolStep(lit, dist, input, p, out, limit);
      step.Continue? ==> (|step.out| == |out| <==> Reserved(NextSymbol(lit, input, p)))
  {
    hide CopyStep, Bit, LengthBase, LengthExtra, NextSymbol;
    var next := NextSymbol(lit, input, p);
    if next.Some? && next.value > 256 {
      LengthZeroIffReserved(next.value - 257);
    }
  }

  // A round over zeros changes nothing exactly if it is such a copy.
  lemma StandstillExactly(lit: seq<nat>, dist: seq<nat>, input: seq<byte>, p: nat, out: seq<byte>, limit: nat)
    requires Exhausted(input, p) && |out| <= limit
    ensures (var step := SymbolStep(lit, dist, input, p, out, limit); step.Continue? && |step.out| == |out|)
       <==> EmptyCopy(lit, dist, |out|)
  {
    hide Lsb, NextSymbol, LengthBase, LengthExtra, DistBase, DistExtra, Extend, SameAhead;
    StepSame(lit, dist, input, p, [], 0, out, limit);
    match ZeroSymbol(lit)
    case None =>
    case Some(v) =>
      if v > 256 {
        var i := v - 257;
        LengthZeroIffReserved(i);
        var q := lit[v] + LengthExtra(i);
        LsbPastEnd([], lit[v], LengthExtra(i));
        ExhaustedAtEnd([], q);
        NextSame(dist, [], q, [], 0);
        match ZeroSymbol(dist)
        case None =>
        case Some(d) => LsbPastEnd([], q + dist[d], DistExtra(d));
      }
  }

  // It is repeated for ever.
  lemma {:induction false} StallsForEver(lit: seq<nat>, dist: seq<nat>, input: seq<byte>, p: nat, out: seq<byte>,
                                         limit: nat, k: nat)
    requires Exhausted(input, p) && |out| <= limit && EmptyCopy(lit, dist, |out|)
    ensures Rounds(lit, dist, input, p, out, limit, k).Continue?
    decreases k
  {
    hide SymbolStep, Exhausted, EmptyCopy;
    if k > 0 {
      var step := SymbolStep(lit, dist, input, p, out, limit);
      StandstillExactly(lit, dist, input, p, out, limit);
      ExhaustedLater(input, p, step.pos);
      StallsForEver(lit, dist, input, step.pos, out, limit, k - 1);
    }
  }

  // ------------------------------------------------------------ the verdict Diverges

  lemma {:induction false} DivergingRounds(lit: seq<nat>, dist: seq<nat>, input: seq<byte>, p: nat, out: seq<byte>,
                                           limit: nat, k: nat)
    requires |out| <= limit && HuffmanBlock(lit, dist, input, p, out, limit) == Diverges
    ensures Rounds(lit, dist, input, p, out, limit, k).Continue?
    decreases k
  {
    hide SymbolStep, EmptyCopy;
    if k > 0 {
      match SymbolStep(lit, dist, input, p, out, limit)
      case Continue(out', q) =>
        if |out'| == |out| && p >= 8 * |input| {
          ExhaustedAtEnd(input, p);
          StandstillExactly(lit, dist, input, p, out, limit);
          StallsForEver(lit, dist, input, p, out, limit, k);
        } else {
          DivergingRounds(lit, dist, input, q, out', limit, k - 1);
        }
      case _ =>
    }
  }

  lemma {:induction false} EndingRounds(lit: seq<nat>, dist: seq<nat>, input: seq<byte>, p: nat, out: seq<byte>,
                                        limit: nat) returns (k: nat)
    requires |out| <= limit && HuffmanBlock(lit, dist, input, p, out, limit) != Diverges
    ensures !Rounds(lit, dist, input, p, out, limit, k).Continue?
    decreases limit - |out|, BitsLeft(input, p)
  {
    hide SymbolStep;
    match SymbolStep(lit, dist, input, p, out, limit)
    case Continue(out', q) =>
      var k' := EndingRounds(lit, dist, input, q, out', limit);
      k := k' + 1;
    case step =>
      k := 1;
      assert Rounds(lit, dist, input, p, out, limit, 1) == step;
  }

  // The verdict is given exactly to the blocks whose loop never ends.
  lemma DivergesIffEndless(lit: seq<nat>, dist: seq<nat>, input: seq<byte>, p: nat, out: seq<byte>, limit: nat)
    requires |out| <= limit
    ensures HuffmanBlock(lit, dist, input, p, out, limit) == Diverges
       <==> forall k: nat :: Rounds(lit, dist, input, p, out, limit, k).Continue?
  {
    hide HuffmanBlock, Rounds;
    if HuffmanBlock(lit, dist, input, p, out, limit) == Diverges {
      forall k: nat ensures Rounds(lit, dist, input, p, out, limit, k).Continue? {
        DivergingRounds(lit, dist, input, p, out, limit, k);
      }
    } else {
      var k := EndingRounds(lit, dist, input, p, out, limit);
    }
  }

  // The block's loop gets behind the input, and there zeros stand for a copy of nothing.
  ghost predicate StallsAfter(lit: seq<nat>, dist: seq<nat>, input: seq<byte>, p: nat, out: seq<byte>, limit: nat,
                              k: nat)
    requires |out| <= limit
  {
    var r := Rounds(lit, dist, input, p, out, limit, k);
    r.Continue? && r.pos >= 8 * |input| && EmptyCopy(lit, dist, |r.out|)
  }

  lemma {:induction false} DivergingStalls(lit: seq<nat>, dist: seq<nat>, input: seq<byte>, p: nat, out: seq<byte>,
                                           limit: nat) returns (k: nat)
    requires |out| <= limit && HuffmanBlock(lit, dist, input, p, out, limit) == Diverges
    ensures StallsAfter(lit, dist, input, p, out, limit, k)
    decreases limit - |out|, BitsLeft(input, p)
  {
    hide SymbolStep, EmptyCopy;
    var step := SymbolStep(lit, dist, input, p, out, limit);
    if |step.out| == |out| && p >= 8 * |input| {
      k := 0;
      ExhaustedAtEnd(input, p);
      StandstillExactly(lit, dist, input, p, out, limit);
    } else {
      var k' := DivergingStalls(lit, dist, input, step.pos, step.out, limit);
      k := k' + 1;
    }
  }

  lemma {:induction false} StallingDiverges(lit: seq<nat>, dist: seq<nat>, input: seq<byte>, p: nat, out: seq<byte>,
                                            limit: nat, k: nat)
    requires |out| <= limit && StallsAfter(lit, dist, input, p, out, limit, k)
    ensures HuffmanBlock(lit, dist, input, p, out, limit) == Diverges
    decreases k
  {
    hide SymbolStep, EmptyCopy;
    if k == 0 {
      ExhaustedAtEnd(input, p);
      StandstillExactly(lit, dist, input, p, out, limit);
    } else {
      var step := SymbolStep(lit, dist, input, p, out, limit);
      StallingDiverges(lit, dist, input, step.pos, step.out, limit, k - 1);
    }
  }

  // Which blocks never end: exactly those that get behind the input with codes whose
  // words of zeros are a reserved length and a distance within the output so far.
  lemma DivergesExactly(lit: seq<nat>, dist: seq<nat>, input: seq<byte>, p: nat, out: seq<byte>, limit: nat)
    requires |out| <= limit
    ensures HuffmanBlock(lit, dist, input, p, out, limit) == Diverges
       <==> exists k: nat :: StallsAfter(lit, dist, input, p, out, limit, k)
    ensures HuffmanBlock(lit, dist, input, p, out, limit) == Diverges
        ==> Reserved(ZeroSymbol(lit)) && ZeroSymbol(dist).Some?
  {
    hide HuffmanBlock, Rounds, ZeroSymbol, DistBase;
    if HuffmanBlock(lit, dist, input, p, out, limit) == Diverges {
      var k := DivergingStalls(lit, dist, input, p, out, limit);
    }
    if k: nat :| StallsAfter(lit, dist, input, p, out, limit, k) {
      StallingDiverges(lit, dist, input, p, out, limit, k);
    }
  }

  // It is enough that no set bit is left.
  lemma ExhaustedDiverges(lit: seq<nat>, dist: seq<nat>, input: seq<byte>, p: nat, out: seq<byte>, limit: nat)
    requires Exhausted(input, p) && |out| <= limit && EmptyCopy(lit, dist, |out|)
    ensures HuffmanBlock(lit, dist, input, p, out, limit) == Diverges
  {
    hide HuffmanBlock, Rounds, Exhausted, EmptyCopy;
    forall k: nat ensures Rounds(lit, dist, input, p, out, limit, k).Continue? {
      StallsForEver(lit, dist, input, p, out, limit, k);
    }
    DivergesIffEndless(lit, dist, input, p, out, limit);
  }

  // Going on behind the first k rounds gives the same verdict.
  lemma {:induction false} BlockAfterRounds(lit: seq<nat>, dist: seq<nat>, input: seq<byte>, p: nat, out: seq<byte>,
                                            limit: nat, k: nat)
    requires |out| <= limit && Rounds(lit, dist, input, p, out, limit, k).Continue?
    ensures var r := Rounds(lit, dist, input, p, out, limit, k);
      HuffmanBlock(lit, dist, input, p, out, limit) == HuffmanBlock(lit, dist, input, r.pos, r.out, limit)
    decreases k
  {
    hide SymbolStep, EmptyCopy;
    if k > 0 {
      var step := SymbolStep(lit, dist, input, p, out, limit);
      if |step.out| == |out| && p >= 8 * |input| {
        ExhaustedAtEnd(input, p);
        StandstillExactly(lit, dist, input, p, out, limit);
        ExhaustedAtEnd(input, step.pos);
        ExhaustedDiverges(lit, dist, input, step.pos, step.out, limit);
      }
      BlockAfterRounds(lit, dist, input, step.pos, step.out, limit, k - 1);
    }
  }

  // One round decides: the first that does not go on.
  lemma {:induction false} DecidingRound(lit: seq<nat>, dist: seq<nat>, input: seq<byte>, p: nat, out: seq<byte>,
                                         limit: nat) returns (k: nat)
    requires |out| <= limit && HuffmanBlock(lit, dist, input, p, out, limit) != Diverges
    ensures var r := Rounds(lit, dist, input, p, out, limit, k);
      && r.Continue?
      && match SymbolStep(lit, dist, input, r.pos, r.out, limit)
         case Continue(_, _) => false
         case EndOfBlock(q) => HuffmanBlock(lit, dist, input, p, out, limit) == Accepted(r.out, q)
         case Stop(v) => HuffmanBlock(lit, dist, input, p, out, limit) == v
    decreases limit - |out|, BitsLeft(input, p)
  {
    hide SymbolStep;
    var step := SymbolStep(lit, dist, input, p, out, limit);
    k := 0;
    if step.Continue? {
      var k' := DecidingRound(lit, dist, input, step.pos, step.out, limit);
      k := k' + 1;
    }
  }

  // ------------------------------------------------------------ the fixed codes

  lemma {:induction false} NoneOfLength(lens: seq<nat>, n: nat, s: nat)
    requires n <= |lens| && forall i :: 0 <= i < n ==> lens[i] != s
    ensures CountTo(lens, n, s) == 0
    decreases n
  {
    if n > 0 { NoneOfLength(lens, n - 1, s); }
  }

  lemma {:induction false} NoneShorter(lens: seq<nat>, s: nat)
    requires forall i :: 0 <= i < |lens| ==> lens[i] == 0 || lens[i] > s
    ensures End(lens, s) == 0
    decreases s
  {
    if s > 0 {
      NoneShorter(lens, s - 1);
      NoneOfLength(lens, |lens|, s);
    }
  }

  // The first symbol of the shortest length has the code of zeros.
  lemma ZeroSymbolIs(lens: seq<nat>, v: nat)
    requires v < |lens| && lens[v] > 0
    requires forall i :: 0 <= i < |lens| ==> lens[i] == 0 || lens[i] >= lens[v]
    requires forall i :: 0 <= i < v ==> lens[i] != lens[v]
    ensures ZeroSymbol(lens) == Some(v)
  {
    NoneShorter(lens, lens[v] - 1);
    NoneOfLength(lens, v, lens[v]);
    MsbPastEnd([], 0, lens[v]);
    NextIsUnique(lens, [], 0, v);
  }

  // With the fixed codes zeros end the block, so that every such block ends although
  // both reserved symbols have codes.
  lemma FixedNeverDiverges(input: seq<byte>, p: nat, out: seq<byte>, limit: nat)
    requires |out| <= limit
    ensures ZeroSymbol(FixedLit()) == Some(256)
    ensures HuffmanBlock(FixedLit(), FixedDist(), input, p, out, limit) != Diverges
  {
    hide HuffmanBlock, ZeroSymbol;
    ZeroSymbolIs(FixedLit(), 256);
    DivergesExactly(FixedLit(), FixedDist(), input, p, out, limit);
  }

  // ------------------------------------------------------------ whole streams

  // The output and the place after k blocks, none of them marked as the last.
  ghost function AfterBlocks(input: seq<byte>, p: nat, out: seq<byte>, limit: nat, k: nat): (r: Step)
    requires |out| <= limit
    ensures r.Continue? ==> |r.out| <= limit
    decreases k
  {
    if k == 0 then Continue(out, p)
    else
      match Block(input, p, out, limit)
      case Accepted(out', q) => if Bit(input, p) == 1 then EndOfBlock(q) else AfterBlocks(input, q, out', limit, k - 1)
      case verdict => Stop(verdict)
  }

  // At p stands a block with codes of its own whose loop stalls.
  ghost predicate StallingBlock(input: seq<byte>, p: nat, out: seq<byte>, limit: nat)
    requires |out| <= limit
  {
    && Lsb(input, p + 1, 2) == 2
    && var t := DynamicTables(input, p + 3);
      t.Tables? && exists k: nat :: StallsAfter(t.lit, t.dist, input, t.pos, out, limit, k)
  }

  ghost predicate StallsInBlock(input: seq<byte>, p: nat, out: seq<byte>, limit: nat, k: nat)
    requires |out| <= limit
  {
    var r := AfterBlocks(input, p, out, limit, k);
    r.Continue? && StallingBlock(input, r.pos, r.out, limit)
  }

  lemma BlockDivergesExactly(input: seq<byte>, p: nat, out: seq<byte>, limit: nat)
    requires |out| <= limit
    ensures Block(input, p, out, limit) == Diverges <==> StallingBlock(input, p, out, limit)
  {
    hide Lsb, HuffmanBlock, DynamicTables, StallsAfter, ZeroSymbol, FixedLit, FixedDist;
    FixedNeverDiverges(input, p + 3, out, limit);
    var t := DynamicTables(input, p + 3);
    if t.Tables? { DivergesExactly(t.lit, t.dist, input, t.pos, out, limit); }
  }

  // Going on behind the first k blocks gives the same verdict.
  lemma {:induction false} BlocksAfter(input: seq<byte>, p: nat, out: seq<byte>, limit: nat, k: nat)
    requires |out| <= limit && AfterBlocks(input, p, out, limit, k).Continue?
    ensures var r := AfterBlocks(input, p, out, limit, k);
      Blocks(input, p, out, limit) == Blocks(input, r.pos, r.out, limit)
    decreases k
  {
    hide Bit, Block;
    if k > 0 {
      var b := Block(input, p, out, limit);
      BlocksAfter(input, b.pos, b.out, limit, k - 1);
    }
  }

  // One block decides: the one marked as the last, or one that is not accepted.
  lemma {:induction false} DecidingBlock(input: seq<byte>, p: nat, out: seq<byte>, limit: nat) returns (k: nat)
    requires |out| <= limit
    ensures var r := AfterBlocks(input, p, out, limit, k);
      && r.Continue? && Blocks(input, p, out, limit) == Block(input, r.pos, r.out, limit)
      && (Blocks(input, p, out, limit).Accepted? ==> Bit(input, r.pos) == 1)
    decreases BitsLeft(input, p)
  {
    hide Bit, Block;
    var b := Block(input, p, out, limit);
    k := 0;
    if b.Accepted? && Bit(input, p) != 1 {
      if p >= 8 * |input| { NoBlockPastEnd(input, p, out, limit); }
      var k' := DecidingBlock(input, b.pos, b.out, limit);
      k := k' + 1;
    }
  }

  lemma StallingBlockDiverges(input: seq<byte>, p: nat, out: seq<byte>, limit: nat, k: nat)
    requires |out| <= limit && StallsInBlock(input, p, out, limit, k)
    ensures Blocks(input, p, out, limit) == Diverges
  {
    hide Block, StallingBlock, AfterBlocks;
    var r := AfterBlocks(input, p, out, limit, k);
    BlocksAfter(input, p, out, limit, k);
    BlockDivergesExactly(input, r.pos, r.out, limit);
  }

  function Start(parseHeader: bool): nat { if parseHeader then 16 else 0 }

  // A stream is never done with exactly if one of its blocks stalls.
  lemma InflateDivergesExactly(input: seq<byte>, parseHeader: bool, limit: nat)
    ensures Inflate(input, parseHeader, limit) == Diverges
       <==> (parseHeader ==> HeaderOk(input))
            && exists k: nat :: StallsInBlock(input, Start(parseHeader), [], limit, k)
  {
    hide Blocks, Block, StallingBlock, AfterBlocks, HeaderOk;
    var p := Start(parseHeader);
    if Blocks(input, p, [], limit) == Diverges {
      var k := DecidingBlock(input, p, [], limit);
      var r := AfterBlocks(input, p, [], limit, k);
      BlockDivergesExactly(input, r.pos, r.out, limit);
      assert StallsInBlock(input, p, [], limit, k);
    }
    if k: nat :| StallsInBlock(input, p, [], limit, k) {
      StallingBlockDiverges(input, p, [], limit, k);
    }
  }

  // Only codes announced in the stream itself can be at fault.
  lemma CulpritIsAnnounced(input: seq<byte>, parseHeader: bool, limit: nat)
    requires Inflate(input, parseHeader, limit) == Diverges
    ensures exists q: nat ::
      DynamicTables(input, q).Tables? && Reserved(ZeroSymbol(DynamicTables(input, q).lit))
  {
    hide Lsb, Blocks, AfterBlocks, Rounds, ZeroSymbol, DynamicTables;
    InflateDivergesExactly(input, parseHeader, limit);
    var k: nat :| StallsInBlock(input, Start(parseHeader), [], limit, k);
    var r := AfterBlocks(input, Start(parseHeader), [], limit, k);
    assert DynamicTables(input, r.pos + 3).Tables?;
  }

  // ------------------------------------------------------------ such a stream

  // Literal 0 has the code 10, symbol 286 the code 0.
  function EndlessLit(): (r: seq<nat>)
    ensures |r| == 287 && r[0] == 2 && r[286] == 1 && forall i :: 0 < i < 286 ==> r[i] == 0
  {
    [2] + Times(0, 285) + [1]
  }

  lemma {:induction false} KraftOfZeros(lens: seq<nat>, n: nat)
    requires 0 < n <= |lens| && (forall i :: 0 < i < n ==> lens[i] == 0) && 0 < lens[0] <= 15
    ensures KraftSum(lens[..n]) == Pow2(15 - lens[0])
    decreases n
  {
    assert lens[..n][..n - 1] == lens[..n - 1];
    if n > 1 { KraftOfZeros(lens, n - 1); }
  }

  lemma EndlessCodes()
    ensures UsableCodes(EndlessLit(), [1]) && EmptyCopy(EndlessLit(), [1], 1)
  {
    hide EndlessLit, ZeroSymbol, KraftSum;
    EndlessKraft();
    ZeroSymbolIs(EndlessLit(), 286);
    ZeroSymbolIs([1], 0);
  }

  lemma EndlessKraft()
    ensures KraftSum(EndlessLit()) <= Pow2(15) && KraftSum([1]) <= Pow2(15)
  {
    hide EndlessLit;
    var lit, dist := EndlessLit(), [1];
    KraftOfZeros(lit, 286);
    assert lit[..286] + [1] == lit;
    KraftOfZeros(dist, 1);
    assert dist[..1] == dist;
    assert Pow2(15) == 2 * Pow2(14) && Pow2(14) == 2 * Pow2(13);
  }

  ghost function EndlessForm(): Form {
    Form(FlatLengths(), 19, Singly(EndlessLit() + [1]))
  }

  // The last block, its codes, and one literal.
  ghost function EndlessBits(): (r: seq<bit>)
    ensures Announces(EndlessForm(), EndlessLit(), [1])
  {
    EndlessCodes();
    FlatAnnounces(EndlessLit(), [1]);
    Flags(true, 2) + HeaderBits(EndlessForm(), 287, 1) + SymbolBits(EndlessLit(), 0)
  }

  lemma PackExhausted(bits: seq<bit>)
    ensures Exhausted(Pack(bits), |bits|)
  {
    hide Bit, Pack;
    forall i: nat ensures Ahead(Pack(bits), |bits|, i) == Ahead([], 0, i) {
      PackBit(bits, |bits| + i);
      BitPastEnd([], i);
    }
  }

  // Input that the decoder is never done with, in a buffer of any size.
  lemma EndlessStream(limit: nat)
    requires limit > 0
    ensures Inflate(Pack(EndlessBits()), false, limit) == Diverges
  {
    hide Bit, Lsb, Holds, Pack, EndlessForm, EndlessLit, HuffmanBlock, DynamicTables, HeaderBits, SymbolBits;
    hide CodeLengthCode, RunsCodable, RunsOk, RunsMeaning, UsableCodes, EmptyCopy, Exhausted, Flags;
    var lit, input := EndlessLit(), Pack(EndlessBits());
    var flags, header, symbol := Flags(true, 2), HeaderBits(EndlessForm(), 287, 1), SymbolBits(lit, 0);
    EndlessCodes();
    PackHolds(EndlessBits());
    PackExhausted(EndlessBits());
    HoldsSplit(input, 0, flags + header, symbol);
    HoldsSplit(input, 0, flags, header);
    ReadFlags(input, 0, true, 2);
    ReadHeader(EndlessForm(), lit, [1], input, 3);
    EndlessBlock(input, 3 + |header|, limit);
  }

  lemma EndlessBlock(input: seq<byte>, p: nat, limit: nat)
    requires limit > 0 && Holds(input, p, SymbolBits(EndlessLit(), 0))
    requires Exhausted(input, p + |SymbolBits(EndlessLit(), 0)|)
    ensures HuffmanBlock(EndlessLit(), [1], input, p, [], limit) == Diverges
  {
    hide Bit, Holds, EndlessLit, NextSymbol, Exhausted, EmptyCopy, KraftSum, SymbolBits, Lsb, CopyStep;
    var lit := EndlessLit();
    EndlessCodes();
    ReadSymbol(lit, input, p, 0);
    assert SymbolStep(lit, [1], input, p, [], limit) == Continue([0], p + lit[0]) by { assert [] + [0] == [0]; }
    ExhaustedDiverges(lit, [1], input, p + lit[0], [0], limit);
  }

  // ------------------------------------------------------------ reserved distances

  lemma DistanceZeroIffReserved(d: nat)
    ensures DistBase(d) == 0 <==> d >= 30
    ensures d >= 30 ==> DistExtra(d) == 0
  {
  }

  // Bytes that were never written are copied exactly if the distance is symbol 30 or 31.
  lemma CopyUndefinedExactly(dist: seq<nat>, input: seq<byte>, p: nat, len: nat, out: seq<byte>, limit: nat)
    ensures CopyStep(dist, input, p, len, out, limit) == Stop(Undefined)
       <==> NextSymbol(dist, input, p).Some? && NextSymbol(dist, input, p).value >= 30
            && 0 < len <= limit - |out|
  {
    hide Bit, NextSymbol, DistBase, DistExtra, Extend;
    match NextSymbol(dist, input, p)
    case None =>
    case Some(d) => DistanceZeroIffReserved(d);
  }

  // Literal 0, and three bytes from distance symbol 30, with the fixed codes.
  ghost function UnwrittenBits(): (r: seq<bit>) {
    SymbolBits(FixedLit(), 0) + (SymbolBits(FixedLit(), 257) + SymbolBits(FixedDist(), 30))
  }

  lemma UnwrittenStream(limit: nat)
    requires limit >= 4
    ensures Inflate(Pack(Flags(true, 1) + UnwrittenBits()), false, limit) == Undefined
  {
    hide Bit, Lsb, Holds, Pack, FixedLit, FixedDist, HuffmanBlock, Flags, UnwrittenBits;
    var input := Pack(Flags(true, 1) + UnwrittenBits());
    PackHolds(Flags(true, 1) + UnwrittenBits());
    HoldsSplit(input, 0, Flags(true, 1), UnwrittenBits());
    ReadFlags(input, 0, true, 1);
    UnwrittenBlock(input, 3, limit);
  }

  lemma UnwrittenBlock(input: seq<byte>, p: nat, limit: nat)
    requires limit >= 4 && Holds(input, p, UnwrittenBits())
    ensures HuffmanBlock(FixedLit(), FixedDist(), input, p, [], limit) == Undefined
  {
    hide Bit, Holds, SymbolBits, KraftSum, NextSymbol, Lsb, CopyStep;
    FixedUsable();
    var literal, copy := SymbolBits(FixedLit(), 0), SymbolBits(FixedLit(), 257) + SymbolBits(FixedDist(), 30);
    HoldsSplit(input, p, literal, copy);
    ReadSymbol(FixedLit(), input, p, 0);
    assert [] + [0] == [0];
    assert SymbolStep(FixedLit(), FixedDist(), input, p, [], limit) == Continue([0], p + 8);
    UnwrittenCopy(input, p + 8, limit);
  }

  lemma UnwrittenCopy(input: seq<byte>, p: nat, limit: nat)
    requires limit >= 4 && Holds(input, p, SymbolBits(FixedLit(), 257) + SymbolBits(FixedDist(), 30))
    ensures HuffmanBlock(FixedLit(), FixedDist(), input, p, [0], limit) == Undefined
  {
    hide Bit, Holds, SymbolBits, KraftSum, NextSymbol, CopyStep, DistBase, DistExtra;
    FixedUsable();
    var q := p + |SymbolBits(FixedLit(), 257)|;
    HoldsSplit(input, p, SymbolBits(FixedLit(), 257), SymbolBits(FixedDist(), 30));
    ReadSymbol(FixedLit(), input, p, 257);
    ReadSymbol(FixedDist(), input, q, 30);
    CopyUndefinedExactly(FixedDist(), input, q, 3, [0], limit);
    assert LengthBase(0) == 3 && LengthExtra(0) == 0 && Lsb(input, q, 0) == 0;
    assert SymbolStep(FixedLit(), FixedDist(), input, p, [0], limit) == Stop(Undefined);
  }

  // ------------------------------------------------------------ how many blocks

  // How many block headers are read from p on.
  ghost function BlockCount(input: seq<byte>, p: nat, out: seq<byte>, limit: nat): nat
    requires |out| <= limit
    decreases BitsLeft(input, p)
  {
    match Block(input, p, out, limit)
    case Accepted(out', q) =>
      if Bit(input, p) == 1 then 1
      else
        assert p < 8 * |input| by { if p >= 8 * |input| { NoBlockPastEnd(input, p, out, limit); } }
        1 + BlockCount(input, q, out', limit)
    case _ => 1
  }

  lemma BlockTakesFour(input: seq<byte>, p: nat, out: seq<byte>, limit: nat)
    requires |out| <= limit
    ensures var r := Block(input, p, out, limit); r.Accepted? ==> r.pos >= p + 4
  {
    hide BlockOfKind;
  }

  // Two blocks for each byte, and one more, at the most: behind the end of the input a
  // header is never accepted, because it reads as a stored block without a length.
  lemma {:induction false} BlocksBounded(input: seq<byte>, p: nat, out: seq<byte>, limit: nat)
    requires |out| <= limit
    ensures 4 * BlockCount(input, p, out, limit) <= BitsLeft(input, p) + 7
    ensures p == 0 ==> BlockCount(input, p, out, limit) <= 2 * |input| + 1
    decreases BitsLeft(input, p)
  {
    hide Block, Bit;
    match Block(input, p, out, limit)
    case Accepted(out', q) =>
      if Bit(input, p) != 1 {
        if p >= 8 * |input| { NoBlockPastEnd(input, p, out, limit); }
        BlockTakesFour(input, p, out, limit);
        BlocksBounded(input, q, out', limit);
      }
    case _ =>
  }

  // A stored block is accepted only with all of its header and data in the input.
  lemma StoredBlockInside(input: seq<byte>, p: nat, out: seq<byte>, limit: nat)
    requires |out| <= limit
    ensures var r := StoredBlock(input, p, out, limit);
      r.Accepted? ==>
        && p + 32 <= r.pos <= 8 * |input|
        && |r.out| - |out| == Lsb(input, RoundUp(p), 16) == 0xFFFF - Lsb(input, RoundUp(p) + 16, 16)
        && r.out == out + input[r.pos / 8 - (|r.out| - |out|)..r.pos / 8]
  {
    hide Lsb;
  }
}
