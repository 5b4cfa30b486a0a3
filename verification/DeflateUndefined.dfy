/**
  Which whole streams leave what C defines: those in which a block copies bytes that were
  never written, or in which a header leaves the array of code lengths.
 */
module DeflateUndefined {
  import opened Bits
  import opened Canonical
  import opened Deflate
  import opened DeflateDivergence
  import opened DeflateLengths

  // ------------------------------------------------------------ one symbol

  // At p stands a match with distance symbol 30 or 31, and there is room for it.
  ghost predicate CopiesUnwritten(lit: seq<nat>, dist: seq<nat>, input: seq<byte>, p: nat, out: seq<byte>, limit: nat)
  {
    var next := NextSymbol(lit, input, p);
    && next.Some? && next.value > 256
    && var i := next.value - 257;
       var q := p + lit[next.value];
       var d := NextSymbol(dist, input, q + LengthExtra(i));
       d.Some? && d.value >= 30 && 0 < LengthBase(i) + Lsb(input, q, LengthExtra(i)) <= limit - |out|
  }

  lemma StepUndefinedExactly(lit: seq<nat>, dist: seq<nat>, input: seq<byte>, p: nat, out: seq<byte>, limit: nat)
    requires |out| <= limit
    ensures SymbolStep(lit, dist, input, p, out, limit) == Stop(Undefined)
       <==> CopiesUnwritten(lit, dist, input, p, out, limit)
  {
    hide Lsb, NextSymbol, LengthBase, LengthExtra, CopyStep;
    var next := NextSymbol(lit, input, p);
    if next.Some? && next.value > 256 {
      var i := next.value - 257;
      var q := p + lit[next.value];
      CopyUndefinedExactly(dist, input, q + LengthExtra(i), LengthBase(i) + Lsb(input, q, LengthExtra(i)), out, limit);
    }
  }

  // ------------------------------------------------------------ one block

  ghost predicate UnwrittenAfter(lit: seq<nat>, dist: seq<nat>, input: seq<byte>, p: nat, out: seq<byte>, limit: nat,
                                 j: nat)
    requires |out| <= limit
  {
    var r := Rounds(lit, dist, input, p, out, limit, j);
    r.Continue? && CopiesUnwritten(lit, dist, input, r.pos, r.out, limit)
  }

  lemma CodedUndefinedExactly(lit: seq<nat>, dist: seq<nat>, input: seq<byte>, p: nat, out: seq<byte>, limit: nat)
    requires |out| <= limit
    ensures HuffmanBlock(lit, dist, input, p, out, limit) == Undefined
       <==> exists j: nat :: UnwrittenAfter(lit, dist, input, p, out, limit, j)
  {
    hide Rounds, SymbolStep, CopiesUnwritten, HuffmanBlock;
    if HuffmanBlock(lit, dist, input, p, out, limit) == Undefined {
      var j := DecidingRound(lit, dist, input, p, out, limit);
      var r := Rounds(lit, dist, input, p, out, limit, j);
      StepUndefinedExactly(lit, dist, input, r.pos, r.out, limit);
      assert UnwrittenAfter(lit, dist, input, p, out, limit, j);
    }
    if j: nat :| UnwrittenAfter(lit, dist, input, p, out, limit, j) {
      UnwrittenIsUndefined(lit, dist, input, p, out, limit, j);
    }
  }

  lemma UnwrittenIsUndefined(lit: seq<nat>, dist: seq<nat>, input: seq<byte>, p: nat, out: seq<byte>, limit: nat,
                             j: nat)
    requires |out| <= limit && UnwrittenAfter(lit, dist, input, p, out, limit, j)
    ensures HuffmanBlock(lit, dist, input, p, out, limit) == Undefined
  {
    hide Rounds, SymbolStep, CopiesUnwritten;
    var r := Rounds(lit, dist, input, p, out, limit, j);
    BlockAfterRounds(lit, dist, input, p, out, limit, j);
    StepUndefinedExactly(lit, dist, input, r.pos, r.out, limit);
  }

  // The header at p has a usable code length code whose runs leave the array.
  ghost predicate HeaderLeaves(input: seq<byte>, p: nat) {
    var clens := ZigzagLengths(input, p + 14, HCLen(input, p));
    && KraftSum(clens) <= Pow2(15)
    && ComesTo(Left, clens, input, p + 14 + 3 * HCLen(input, p), HLit(input, p) + HDist(input, p))
  }

  lemma TablesUndefinedExactly(input: seq<byte>, p: nat)
    ensures DynamicTables(input, p) == NoTables(Undefined) <==> HeaderLeaves(input, p)
  {
    hide Lsb, ZigzagLengths, KraftSum, ReadLengths, HLit, HDist, HCLen, ComesTo;
    var clens := ZigzagLengths(input, p + 14, HCLen(input, p));
    if KraftSum(clens) <= Pow2(15) {
      LengthsExactly(clens, input, p + 14 + 3 * HCLen(input, p), HLit(input, p) + HDist(input, p));
    }
  }

  ghost predicate BadBlock(kind: nat, input: seq<byte>, p: nat, out: seq<byte>, limit: nat)
    requires |out| <= limit
  {
    if kind == 1 then exists j: nat :: UnwrittenAfter(FixedLit(), FixedDist(), input, p, out, limit, j)
    else if kind == 2 then
      var t := DynamicTables(input, p);
      || HeaderLeaves(input, p)
      || (t.Tables? && exists j: nat :: UnwrittenAfter(t.lit, t.dist, input, t.pos, out, limit, j))
    else false
  }

  lemma KindUndefinedExactly(kind: nat, input: seq<byte>, p: nat, out: seq<byte>, limit: nat)
    requires |out| <= limit
    ensures BlockOfKind(kind, input, p, out, limit) == Undefined <==> BadBlock(kind, input, p, out, limit)
  {
    hide HuffmanBlock, DynamicTables, UnwrittenAfter, FixedLit, FixedDist, HeaderLeaves, Lsb;
    if kind == 1 {
      CodedUndefinedExactly(FixedLit(), FixedDist(), input, p, out, limit);
    } else if kind == 2 {
      TablesUndefinedExactly(input, p);
      var t := DynamicTables(input, p);
      if t.Tables? { CodedUndefinedExactly(t.lit, t.dist, input, t.pos, out, limit); }
    }
  }

  // ------------------------------------------------------------ whole streams

  ghost predicate BadAfter(input: seq<byte>, p: nat, out: seq<byte>, limit: nat, k: nat)
    requires |out| <= limit
  {
    var r := AfterBlocks(input, p, out, limit, k);
    r.Continue? && BadBlock(Lsb(input, r.pos + 1, 2), input, r.pos + 3, r.out, limit)
  }

  lemma BadIsUndefined(input: seq<byte>, p: nat, out: seq<byte>, limit: nat, k: nat)
    requires |out| <= limit && BadAfter(input, p, out, limit, k)
    ensures Blocks(input, p, out, limit) == Undefined
  {
    hide BlockOfKind, BadBlock, AfterBlocks, Lsb;
    var r := AfterBlocks(input, p, out, limit, k);
    BlocksAfter(input, p, out, limit, k);
    KindUndefinedExactly(Lsb(input, r.pos + 1, 2), input, r.pos + 3, r.out, limit);
  }

  // A stream leaves what C defines exactly if one of its blocks does.
  lemma InflateUndefinedExactly(input: seq<byte>, parseHeader: bool, limit: nat)
    ensures Inflate(input, parseHeader, limit) == Undefined
       <==> (parseHeader ==> HeaderOk(input))
            && exists k: nat :: BadAfter(input, Start(parseHeader), [], limit, k)
  {
    hide Blocks, BlockOfKind, BadBlock, AfterBlocks, Lsb, HeaderOk;
    var p := Start(parseHeader);
    if Blocks(input, p, [], limit) == Undefined {
      var k := DecidingBlock(input, p, [], limit);
      var r := AfterBlocks(input, p, [], limit, k);
      KindUndefinedExactly(Lsb(input, r.pos + 1, 2), input, r.pos + 3, r.out, limit);
      assert BadAfter(input, p, [], limit, k);
    }
    if k: nat :| BadAfter(input, p, [], limit, k) { BadIsUndefined(input, p, [], limit, k); }
  }
}
