/**
  How a stream's verdict depends on the output limit: an accepted stream is accepted
  with the same result under every limit that its output fits.
 */
module DeflateLimits {
  import opened Bits
  import opened Canonical
  import opened Deflate

  lemma StepLimit(lit: seq<nat>, dist: seq<nat>, input: seq<byte>, p: nat, out: seq<byte>, limit: nat, limit': nat)
    requires |out| <= limit && |out| <= limit'
    requires var step := SymbolStep(lit, dist, input, p, out, limit);
      step.EndOfBlock? || (step.Continue? && |step.out| <= limit')
    ensures SymbolStep(lit, dist, input, p, out, limit') == SymbolStep(lit, dist, input, p, out, limit)
  {
    hide Lsb, NextSymbol, Extend, DistBase, LengthBase;
  }

  lemma {:induction false} HuffmanBlockLimit(lit: seq<nat>, dist: seq<nat>, input: seq<byte>, p: nat,
                                             out: seq<byte>, limit: nat, limit': nat)
    requires |out| <= limit
    requires var r := HuffmanBlock(lit, dist, input, p, out, limit);
      r.Accepted? && |r.out| <= limit'
    ensures |out| <= limit'
    ensures HuffmanBlock(lit, dist, input, p, out, limit') == HuffmanBlock(lit, dist, input, p, out, limit)
    decreases limit - |out|, BitsLeft(input, p)
  {
    hide SymbolStep;
    StepLimit(lit, dist, input, p, out, limit, limit');
    match SymbolStep(lit, dist, input, p, out, limit)
    case Continue(out', q) => HuffmanBlockLimit(lit, dist, input, q, out', limit, limit');
    case _ =>
  }

  lemma BlockLimit(input: seq<byte>, p: nat, out: seq<byte>, limit: nat, limit': nat)
    requires |out| <= limit
    requires var r := Block(input, p, out, limit);
      r.Accepted? && |r.out| <= limit'
    ensures |out| <= limit'
    ensures Block(input, p, out, limit') == Block(input, p, out, limit)
  {
    hide HuffmanBlock, DynamicTables, Lsb;
    var kind := Lsb(input, p + 1, 2);
    if kind == 1 {
      HuffmanBlockLimit(FixedLit(), FixedDist(), input, p + 3, out, limit, limit');
    } else if kind == 2 {
      var t := DynamicTables(input, p + 3);
      HuffmanBlockLimit(t.lit, t.dist, input, t.pos, out, limit, limit');
    }
  }

  lemma {:induction false} BlocksLimit(input: seq<byte>, p: nat, out: seq<byte>, limit: nat, limit': nat)
    requires |out| <= limit
    requires var r := Blocks(input, p, out, limit);
      r.Accepted? && |r.out| <= limit'
    ensures |out| <= limit'
    ensures Blocks(input, p, out, limit') == Blocks(input, p, out, limit)
    decreases BitsLeft(input, p)
  {
    hide Block;
    BlockLimit(input, p, out, limit, limit');
    if Bit(input, p) != 1 {
      if p >= 8 * |input| { NoBlockPastEnd(input, p, out, limit); }
      var r := Block(input, p, out, limit);
      BlocksLimit(input, r.pos, r.out, limit, limit');
    }
  }

  // A stream is accepted under a limit exactly if some larger limit accepts it with
  // output that fits, and the result does not depend on the limit.
  lemma LimitExact(input: seq<byte>, parseHeader: bool, limit: nat, larger: nat)
    requires limit <= larger
    ensures var r, r' := Inflate(input, parseHeader, limit), Inflate(input, parseHeader, larger);
      && (r.Accepted? <==> r'.Accepted? && |r'.out| <= limit)
      && (r.Accepted? ==> r == r')
  {
    hide Blocks;
    var p := if parseHeader then 16 else 0;
    var r, r' := Blocks(input, p, [], limit), Blocks(input, p, [], larger);
    if r.Accepted? { BlocksLimit(input, p, [], limit, larger); }
    if r'.Accepted? && |r'.out| <= limit { BlocksLimit(input, p, [], larger, limit); }
  }
}
