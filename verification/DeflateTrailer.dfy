/**
  Bytes behind a stream do not matter: if the input contains a whole stream, whatever
  follows it - the Adler-32 trailer of a zlib stream, say - is never looked at, and
  can be cut off.
 */
module DeflateTrailer {
  import opened Bits
  import opened Canonical
  import opened Deflate

  // The first n bytes of both inputs are the same.
  ghost predicate Agree(input: seq<byte>, input': seq<byte>, n: nat) {
    n <= |input| && n <= |input'| && input[..n] == input'[..n]
  }

  lemma BitKept(input: seq<byte>, input': seq<byte>, bound: nat, p: nat)
    requires Agree(input, input', bound) && p < 8 * bound
    ensures Bit(input', p) == Bit(input, p)
  {
    assert input[p / 8] == input[..bound][p / 8] == input'[p / 8];
  }

  lemma {:induction false} LsbKept(input: seq<byte>, input': seq<byte>, bound: nat, p: nat, n: nat)
    requires Agree(input, input', bound) && p + n <= 8 * bound
    ensures Lsb(input', p, n) == Lsb(input, p, n)
    decreases n
  {
    hide Bit;
    if n > 0 {
      BitKept(input, input', bound, p);
      LsbKept(input, input', bound, p + 1, n - 1);
    }
  }

  lemma {:induction false} MsbKept(input: seq<byte>, input': seq<byte>, bound: nat, p: nat, n: nat)
    requires Agree(input, input', bound) && p + n <= 8 * bound
    ensures Msb(input', p, n) == Msb(input, p, n)
    decreases n
  {
    hide Bit;
    if n > 0 {
      BitKept(input, input', bound, p + n - 1);
      MsbKept(input, input', bound, p, n - 1);
    }
  }

  lemma NextKept(lens: seq<nat>, input: seq<byte>, input': seq<byte>, bound: nat, p: nat)
    requires Agree(input, input', bound)
    requires var r := NextSymbol(lens, input, p);
      r.Some? && p + lens[r.value] <= 8 * bound
    ensures NextSymbol(lens, input', p) == NextSymbol(lens, input, p)
  {
    hide Bit, Msb, Code;
    var v := NextSymbol(lens, input, p).value;
    MsbKept(input, input', bound, p, lens[v]);
    NextIsUnique(lens, input', p, v);
  }

  lemma CopyKept(dist: seq<nat>, input: seq<byte>, input': seq<byte>, bound: nat, p: nat, len: nat,
                 out: seq<byte>, limit: nat)
    requires Agree(input, input', bound)
    requires var step := CopyStep(dist, input, p, len, out, limit);
      step.Continue? && step.pos <= 8 * bound
    ensures CopyStep(dist, input', p, len, out, limit) == CopyStep(dist, input, p, len, out, limit)
  {
    hide Lsb, NextSymbol, Extend, DistBase, DistExtra;
    var d := NextSymbol(dist, input, p).value;
    NextKept(dist, input, input', bound, p);
    LsbKept(input, input', bound, p + dist[d], DistExtra(d));
  }

  lemma StepKept(lit: seq<nat>, dist: seq<nat>, input: seq<byte>, input': seq<byte>, bound: nat, p: nat,
                 out: seq<byte>, limit: nat)
    requires Agree(input, input', bound) && |out| <= limit
    requires var step := SymbolStep(lit, dist, input, p, out, limit);
      !step.Stop? && step.pos <= 8 * bound
    ensures SymbolStep(lit, dist, input', p, out, limit) == SymbolStep(lit, dist, input, p, out, limit)
  {
    hide Lsb, NextSymbol, CopyStep, LengthBase, LengthExtra;
    var v := NextSymbol(lit, input, p).value;
    NextKept(lit, input, input', bound, p);
    if v > 256 {
      var q, extra := p + lit[v], LengthExtra(v - 257);
      var len := LengthBase(v - 257) + Lsb(input, q, extra);
      LsbKept(input, input', bound, q, extra);
      CopyKept(dist, input, input', bound, q + extra, len, out, limit);
    }
  }

  lemma {:induction false} HuffmanBlockKept(lit: seq<nat>, dist: seq<nat>, input: seq<byte>, input': seq<byte>,
                                            bound: nat, p: nat, out: seq<byte>, limit: nat)
    requires Agree(input, input', bound) && |out| <= limit
    requires var r := HuffmanBlock(lit, dist, input, p, out, limit);
      r.Accepted? && r.pos <= 8 * bound
    ensures HuffmanBlock(lit, dist, input', p, out, limit) == HuffmanBlock(lit, dist, input, p, out, limit)
    decreases limit - |out|, BitsLeft(input, p)
  {
    hide SymbolStep;
    var step := SymbolStep(lit, dist, input, p, out, limit);
    StepKept(lit, dist, input, input', bound, p, out, limit);
    if step.Continue? {
      HuffmanBlockKept(lit, dist, input, input', bound, step.pos, step.out, limit);
    }
  }

  lemma {:induction false} ZigzagKept(input: seq<byte>, input': seq<byte>, bound: nat, p: nat, n: nat)
    requires Agree(input, input', bound) && n <= 19 && p + 3 * n <= 8 * bound
    ensures ZigzagLengths(input', p, n) == ZigzagLengths(input, p, n)
    decreases n
  {
    hide Lsb;
    if n > 0 {
      ZigzagKept(input, input', bound, p, n - 1);
      LsbKept(input, input', bound, p + 3 * (n - 1), 3);
    }
  }

  lemma RunKept(input: seq<byte>, input': seq<byte>, bound: nat, q: nat, c: nat, acc: seq<nat>)
    requires c < 19 && |acc| < 320 && forall i :: 0 <= i < |acc| ==> acc[i] <= 15
    requires Agree(input, input', bound)
    requires var r := LengthRun(input, q, c, acc);
      r.Lengths? && r.pos <= 8 * bound
    ensures LengthRun(input', q, c, acc) == LengthRun(input, q, c, acc)
  {
    hide Lsb, Times;
    if c >= 16 {
      LsbKept(input, input', bound, q, if c == 16 then 2 else if c == 17 then 3 else 7);
    }
  }

  lemma {:induction false} ReadLengthsKept(clens: seq<nat>, input: seq<byte>, input': seq<byte>, bound: nat, p: nat,
                                           total: nat, acc: seq<nat>)
    requires Agree(input, input', bound)
    requires UsableCode(clens, 19) && total <= 320 && forall i :: 0 <= i < |acc| ==> acc[i] <= 15
    requires var r := ReadLengths(clens, input, p, total, acc);
      r.Lengths? && r.pos <= 8 * bound
    ensures ReadLengths(clens, input', p, total, acc) == ReadLengths(clens, input, p, total, acc)
    decreases total - |acc|
  {
    hide NextSymbol, LengthRun, KraftSum;
    if |acc| < total {
      var c := NextSymbol(clens, input, p).value;
      var run := LengthRun(input, p + clens[c], c, acc);
      NextKept(clens, input, input', bound, p);
      RunKept(input, input', bound, p + clens[c], c, acc);
      ReadLengthsKept(clens, input, input', bound, run.pos, total, run.lens);
    }
  }

  lemma DynamicKept(input: seq<byte>, input': seq<byte>, bound: nat, p: nat)
    requires Agree(input, input', bound)
    requires var t := DynamicTables(input, p);
      t.Tables? && t.pos <= 8 * bound
    ensures DynamicTables(input', p) == DynamicTables(input, p)
  {
    hide Lsb, KraftSum, ReadLengths, ZigzagLengths;
    LsbKept(input, input', bound, p, 5);
    LsbKept(input, input', bound, p + 5, 5);
    LsbKept(input, input', bound, p + 10, 4);
    var hclen := HCLen(input, p);
    ZigzagKept(input, input', bound, p + 14, hclen);
    var clens, total := ZigzagLengths(input, p + 14, hclen), HLit(input, p) + HDist(input, p);
    ReadLengthsKept(clens, input, input', bound, p + 14 + 3 * hclen, total, []);
  }

  lemma BlockKept(input: seq<byte>, input': seq<byte>, bound: nat, p: nat, out: seq<byte>, limit: nat)
    requires Agree(input, input', bound) && |out| <= limit
    requires var r := Block(input, p, out, limit);
      r.Accepted? && r.pos <= 8 * bound
    ensures Block(input', p, out, limit) == Block(input, p, out, limit)
  {
    hide HuffmanBlock, DynamicTables, Lsb;
    LsbKept(input, input', bound, p + 1, 2);
    var kind := Lsb(input, p + 1, 2);
    if kind == 0 {
      var q := RoundUp(p + 3);
      LsbKept(input, input', bound, q, 16);
      LsbKept(input, input', bound, q + 16, 16);
      var start, len := (q + 32) / 8, Lsb(input, q, 16);
      assert input[start..start + len] == input[..bound][start..start + len];
      assert input'[start..start + len] == input'[..bound][start..start + len];
    } else if kind == 1 {
      HuffmanBlockKept(FixedLit(), FixedDist(), input, input', bound, p + 3, out, limit);
    } else if kind == 2 {
      var t := DynamicTables(input, p + 3);
      DynamicKept(input, input', bound, p + 3);
      HuffmanBlockKept(t.lit, t.dist, input, input', bound, t.pos, out, limit);
    }
  }

  lemma {:induction false} BlocksKept(input: seq<byte>, input': seq<byte>, bound: nat, p: nat,
                                      out: seq<byte>, limit: nat)
    requires Agree(input, input', bound) && |out| <= limit
    requires var r := Blocks(input, p, out, limit);
      r.Accepted? && r.pos <= 8 * bound
    ensures Blocks(input', p, out, limit) == Blocks(input, p, out, limit)
    decreases BitsLeft(input, p)
  {
    hide Block, Bit;
    var r := Block(input, p, out, limit);
    if p >= 8 * bound { NoBlockPastEnd(input, p, out, limit); }
    BitKept(input, input', bound, p);
    BlockKept(input, input', bound, p, out, limit);
    if Bit(input, p) != 1 {
      BlocksKept(input, input', bound, r.pos, r.out, limit);
    }
  }

  // A stream that ends within n bytes is decoded the same from any input that starts with them.
  lemma InflateKept(input: seq<byte>, input': seq<byte>, bound: nat, parseHeader: bool, limit: nat)
    requires Agree(input, input', bound)
    requires var r := Inflate(input, parseHeader, limit);
      r.Accepted? && r.pos <= 8 * bound
    ensures Inflate(input', parseHeader, limit) == Inflate(input, parseHeader, limit)
  {
    hide Blocks;
    BlocksKept(input, input', bound, if parseHeader then 16 else 0, [], limit);
    if parseHeader {
      assert input[0] == input[..bound][0] == input'[0];
      assert input[1] == input[..bound][1] == input'[1];
    }
  }

  // Whatever follows the end of a stream, its verdict stays.
  lemma TrailerIrrelevant(input: seq<byte>, trailer: seq<byte>, parseHeader: bool, limit: nat)
    requires var r := Inflate(input, parseHeader, limit);
      r.Accepted? && r.pos <= 8 * |input|
    ensures Inflate(input + trailer, parseHeader, limit) == Inflate(input, parseHeader, limit)
  {
    hide Inflate;
    assert (input + trailer)[..|input|] == input == input[..|input|];
    InflateKept(input, input + trailer, |input|, parseHeader, limit);
  }

  // A stream can be cut behind the byte in which it ends.
  lemma PrefixSuffices(input: seq<byte>, n: nat, parseHeader: bool, limit: nat)
    requires n <= |input|
    requires var r := Inflate(input, parseHeader, limit);
      r.Accepted? && r.pos <= 8 * n
    ensures Inflate(input[..n], parseHeader, limit) == Inflate(input, parseHeader, limit)
  {
    hide Inflate;
    InflateKept(input, input[..n], n, parseHeader, limit);
  }
}
