/**
  What a DEFLATE stream means (RFC 1951): a recursive decoder over the infinite,
  zero-padded bit stream of the input.

  `limit` bounds the output.  A stream is judged in one of four ways, because the
  C decoder is not defined on every input: a repeat code with nothing to repeat, a
  run past the end of the length array, and a copy from distance 0 all touch memory
  the program has not written, and a copy of length 0 (symbols 286 and 287, which
  section 3.2.6 of RFC 1951 says never occur) can be decoded for ever from the
  padding.
 */
module Deflate {
  import opened Bits
  import opened Canonical

  datatype Verdict =
    | Accepted(out: seq<byte>, pos: nat)
    | Rejected
    | Undefined
    | Diverges

  // ------------------------------------------------------------ tables of section 3.2.5

  // Length symbol 257 + i stands for the 2^LengthExtra(i) lengths from LengthBase(i) on,
  // each range starting where the previous one stops; length 258 has its own symbol.
  // Symbols 286 and 287 are reserved and give length 0.

  function LengthExtra(i: nat): (r: nat)
    ensures r <= 5
  {
    if i < 8 || i >= 28 then 0 else (i - 4) / 4
  }

  function LengthBase(i: nat): nat {
    if i == 0 then 3
    else if i < 28 then LengthBase(i - 1) + Pow2(LengthExtra(i - 1))
    else if i == 28 then 258
    else 0
  }

  // Distance symbol d stands for the 2^DistExtra(d) distances from DistBase(d) on, likewise.
  // Symbols 30 and 31 are reserved and give distance 0.

  function DistExtra(d: nat): (r: nat)
    ensures r <= 13
  {
    if d < 2 || d >= 30 then 0 else (d - 2) / 2
  }

  function DistBase(d: nat): nat {
    if d == 0 then 1
    else if d < 30 then DistBase(d - 1) + Pow2(DistExtra(d - 1))
    else 0
  }

  const DEZIGZAG: seq<nat> := [16, 17, 18, 0, 8, 7, 9, 6, 10, 5, 11, 4, 12, 3, 13, 2, 14, 1, 15]

  // ------------------------------------------------------------ codes in use

  // A code that the decoder accepts.
  ghost predicate UsableCode(lens: seq<nat>, n: nat) {
    CodeLengths(lens) && |lens| <= n && KraftSum(lens) <= Pow2(15)
  }

  ghost predicate UsableCodes(lit: seq<nat>, dist: seq<nat>) {
    UsableCode(lit, 288) && UsableCode(dist, 32)
  }

  function Times(v: nat, n: nat): (r: seq<nat>)
    ensures |r| == n && forall i :: 0 <= i < n ==> r[i] == v
  {
    if n == 0 then [] else Times(v, n - 1) + [v]
  }

  // The fixed codes of section 3.2.6.
  function FixedLit(): (r: seq<nat>)
    ensures |r| == 288
  {
    seq(288, i => if i < 144 then 8 else if i < 256 then 9 else if i < 280 then 7 else 8)
  }

  function FixedDist(): (r: seq<nat>)
    ensures |r| == 32
  {
    seq(32, i => 5)
  }

  // ------------------------------------------------------------ one symbol of a block

  // Append `len` bytes, each the one `distance` places back in the output so far.
  function Extend(out: seq<byte>, distance: nat, len: nat): (r: seq<byte>)
    requires 0 < distance <= |out|
    ensures |r| == |out| + len && out <= r
    decreases len
  {
    if len == 0 then out else Extend(out + [out[|out| - distance]], distance, len - 1)
  }

  // Each byte behind the first n is the one `distance` places before it.
  ghost predicate Repeats(r: seq<byte>, n: nat, distance: nat) {
    distance <= n <= |r| && forall i :: n <= i < |r| ==> r[i] == r[i - distance]
  }

  lemma {:induction false} ExtendRepeats(out: seq<byte>, distance: nat, len: nat)
    requires 0 < distance <= |out|
    ensures Repeats(Extend(out, distance, len), |out|, distance)
    decreases len
  {
    if len > 0 {
      var next := out + [out[|out| - distance]];
      ExtendRepeats(next, distance, len - 1);
      var r := Extend(next, distance, len - 1);
      assert r[|out|] == next[|out|] && r[|out| - distance] == next[|out| - distance];
    }
  }

  // Nothing else is that long and starts with the output.
  lemma {:induction false} RepeatsIsExtend(out: seq<byte>, distance: nat, len: nat, r: seq<byte>)
    requires 0 < distance <= |out| && out <= r && |r| == |out| + len && Repeats(r, |out|, distance)
    ensures r == Extend(out, distance, len)
    decreases len
  {
    if len > 0 {
      var next := out + [out[|out| - distance]];
      assert r[|out|] == r[|out| - distance] == out[|out| - distance];
      assert r[..|out| + 1] == next;
      RepeatsIsExtend(next, distance, len - 1, r);
    }
  }

  datatype Step =
    | Continue(out: seq<byte>, pos: nat)
    | EndOfBlock(pos: nat)
    | Stop(verdict: Verdict)

  // Distance symbol d has been read up to q: fetch its extra bits and copy.
  function CopyFrom(d: nat, input: seq<byte>, q: nat, len: nat, out: seq<byte>, limit: nat): (r: Step)
    ensures r.Continue? ==> r.pos >= q && |r.out| == |out| + len <= limit && (len == 0 ==> r.out == out)
    ensures r.Stop? ==> r.verdict.Rejected? || r.verdict.Undefined?
    ensures !r.EndOfBlock?
  {
    var distance := DistBase(d) + Lsb(input, q, DistExtra(d));
    if |out| < distance || |out| + len > limit then Stop(Rejected)
    else if len == 0 then Continue(out, q + DistExtra(d))
    else if distance == 0 then Stop(Undefined)
    else Continue(Extend(out, distance, len), q + DistExtra(d))
  }

  ghost function CopyStep(dist: seq<nat>, input: seq<byte>, p: nat, len: nat, out: seq<byte>, limit: nat): (r: Step)
    ensures r.Continue? ==> r.pos > p && |r.out| == |out| + len <= limit && (len == 0 ==> r.out == out)
    ensures r.Stop? ==> r.verdict.Rejected? || r.verdict.Undefined?
    ensures !r.EndOfBlock?
  {
    match NextSymbol(dist, input, p)
    case None => Stop(Rejected)
    case Some(d) => CopyFrom(d, input, p + dist[d], len, out, limit)
  }

  // Literal/length symbol v has been read up to q.
  ghost function SymbolAction(v: nat, dist: seq<nat>, input: seq<byte>, q: nat, out: seq<byte>, limit: nat): (r: Step)
    requires |out| <= limit
    ensures r.Continue? ==> r.pos >= q && |out| <= |r.out| <= limit && (|r.out| == |out| ==> r.out == out)
    ensures r.EndOfBlock? ==> r.pos == q
    ensures r.Stop? ==> r.verdict.Rejected? || r.verdict.Undefined?
  {
    if v < 256 then
      if |out| >= limit then Stop(Rejected) else Continue(out + [v], q)
    else if v == 256 then
      EndOfBlock(q)
    else
      var extra := LengthExtra(v - 257);
      CopyStep(dist, input, q + extra, LengthBase(v - 257) + Lsb(input, q, extra), out, limit)
  }

  ghost function SymbolStep(lit: seq<nat>, dist: seq<nat>, input: seq<byte>, p: nat, out: seq<byte>,
                            limit: nat): (r: Step)
    requires |out| <= limit
    ensures r.Continue? ==> r.pos > p && |out| <= |r.out| <= limit && (|r.out| == |out| ==> r.out == out)
    ensures r.EndOfBlock? ==> r.pos > p
    ensures r.Stop? ==> r.verdict.Rejected? || r.verdict.Undefined?
  {
    match NextSymbol(lit, input, p)
    case None => Stop(Rejected)
    case Some(v) => SymbolAction(v, dist, input, p + lit[v], out, limit)
  }

  // ------------------------------------------------------------ blocks

  function BitsLeft(input: seq<byte>, p: nat): nat {
    if p < 8 * |input| then 8 * |input| - p else 0
  }

  // A copy of length 0 read from the padding will be read again for ever.
  ghost function HuffmanBlock(lit: seq<nat>, dist: seq<nat>, input: seq<byte>, p: nat, out: seq<byte>,
                              limit: nat): (r: Verdict)
    requires |out| <= limit
    ensures r.Accepted? ==> r.pos > p && |out| <= |r.out| <= limit
    decreases limit - |out|, BitsLeft(input, p)
  {
    match SymbolStep(lit, dist, input, p, out, limit)
    case EndOfBlock(q) => Accepted(out, q)
    case Stop(v) => v
    case Continue(out', q) =>
      if |out'| == |out| && p >= 8 * |input| then Diverges
      else HuffmanBlock(lit, dist, input, q, out', limit)
  }

  function RoundUp(p: nat): nat { (p + 7) / 8 * 8 }

  function StoredBlock(input: seq<byte>, p: nat, out: seq<byte>, limit: nat): (r: Verdict)
    requires |out| <= limit
    ensures r.Accepted? ==> r.pos > p && |out| <= |r.out| <= limit
  {
    var q := RoundUp(p);
    var len, nlen := Lsb(input, q, 16), Lsb(input, q + 16, 16);
    var start := (q + 32) / 8;
    if nlen != 0xFFFF - len then Rejected
    else if start + len > |input| then Rejected
    else if |out| + len > limit then Rejected
    else Accepted(out + input[start..start + len], 8 * (start + len))
  }

  // ------------------------------------------------------------ code lengths of a dynamic block (section 3.2.7)

  function ZigzagOf(k: nat): (i: nat)
    requires k < 19
    ensures i < 19
  {
    DEZIGZAG[k]
  }

  // The lengths of the code length code, stored three bits each in zigzag order.
  function ZigzagLengths(input: seq<byte>, p: nat, n: nat): (r: seq<nat>)
    requires n <= 19
    ensures |r| == 19 && forall i :: 0 <= i < 19 ==> r[i] <= 7
  {
    if n == 0 then Times(0, 19)
    else
      LsbBound(input, p + 3 * (n - 1), 3);
      ZigzagLengths(input, p, n - 1)[ZigzagOf(n - 1) := Lsb(input, p + 3 * (n - 1), 3)]
  }

  datatype Lengths = Lengths(lens: seq<nat>, pos: nat) | NoLengths(verdict: Verdict)

  const MAX_LENGTHS := 455

  // What one code length symbol appends.
  ghost function LengthRun(input: seq<byte>, q: nat, c: nat, acc: seq<nat>): (r: Lengths)
    requires c < 19 && |acc| < 320 && forall i :: 0 <= i < |acc| ==> acc[i] <= 15
    ensures r.Lengths? ==> r.pos >= q && |acc| < |r.lens| <= MAX_LENGTHS
    ensures r.Lengths? ==> forall i :: 0 <= i < |r.lens| ==> r.lens[i] <= 15
    ensures r.NoLengths? ==> r.verdict.Undefined?
  {
    if c < 16 then Lengths(acc + [c], q)
    else if c == 16 && acc == [] then NoLengths(Undefined)
    else
      var v := if c == 16 then acc[|acc| - 1] else 0;
      var extra := if c == 16 then 2 else if c == 17 then 3 else 7;
      var n := (if c == 18 then 11 else 3) + Lsb(input, q, extra);
      if |acc| + n > MAX_LENGTHS then NoLengths(Undefined) else Lengths(acc + Times(v, n), q + extra)
  }

  ghost function ReadLengths(clens: seq<nat>, input: seq<byte>, p: nat, total: nat, acc: seq<nat>): (r: Lengths)
    requires UsableCode(clens, 19) && total <= 320 && forall i :: 0 <= i < |acc| ==> acc[i] <= 15
    ensures r.Lengths? ==> r.pos >= p && |r.lens| == total && forall i :: 0 <= i < |r.lens| ==> r.lens[i] <= 15
    ensures r.NoLengths? ==> r.verdict.Rejected? || r.verdict.Undefined?
    decreases total - |acc|
  {
    if |acc| >= total then
      if |acc| == total then Lengths(acc, p) else NoLengths(Rejected)
    else
      match NextSymbol(clens, input, p)
      case None => NoLengths(Rejected)
      case Some(c) =>
        match LengthRun(input, p + clens[c], c, acc)
        case NoLengths(v) => NoLengths(v)
        case Lengths(acc', q) => ReadLengths(clens, input, q, total, acc')
  }

  datatype Tables = Tables(lit: seq<nat>, dist: seq<nat>, pos: nat) | NoTables(verdict: Verdict)

  function SplitTables(lit: seq<nat>, dist: seq<nat>, q: nat): (r: Tables)
    requires CodeLengths(lit) && CodeLengths(dist)
  {
    if KraftSum(lit) > Pow2(15) || KraftSum(dist) > Pow2(15) then NoTables(Rejected)
    else Tables(lit, dist, q)
  }

  function HLit(input: seq<byte>, p: nat): (r: nat)
    ensures 257 <= r <= 288
  {
    LsbBound(input, p, 5);
    Pow2Values();
    Lsb(input, p, 5) + 257
  }

  function HDist(input: seq<byte>, p: nat): (r: nat)
    ensures 1 <= r <= 32
  {
    LsbBound(input, p + 5, 5);
    Pow2Values();
    Lsb(input, p + 5, 5) + 1
  }

  function HCLen(input: seq<byte>, p: nat): (r: nat)
    ensures 4 <= r <= 19
  {
    LsbBound(input, p + 10, 4);
    assert Pow2(4) == 16;
    Lsb(input, p + 10, 4) + 4
  }

  // The code lengths of both codes, from the header at p.
  ghost function DynamicLengths(input: seq<byte>, p: nat): (r: Lengths)
    ensures r.Lengths? ==> r.pos >= p && |r.lens| == HLit(input, p) + HDist(input, p)
    ensures r.Lengths? ==> forall i :: 0 <= i < |r.lens| ==> r.lens[i] <= 15
    ensures r.NoLengths? ==> r.verdict.Rejected? || r.verdict.Undefined?
  {
    var clens := ZigzagLengths(input, p + 14, HCLen(input, p));
    if KraftSum(clens) > Pow2(15) then NoLengths(Rejected)
    else ReadLengths(clens, input, p + 14 + 3 * HCLen(input, p), HLit(input, p) + HDist(input, p), [])
  }

  ghost function DynamicTables(input: seq<byte>, p: nat): (r: Tables)
    ensures r.Tables? ==> r.pos >= p && UsableCodes(r.lit, r.dist)
    ensures r.NoTables? ==> r.verdict.Rejected? || r.verdict.Undefined?
  {
    match DynamicLengths(input, p)
    case NoLengths(v) => NoTables(v)
    case Lengths(lens, q) => SplitTables(lens[..HLit(input, p)], lens[HLit(input, p)..], q)
  }

  // ------------------------------------------------------------ the whole stream

  lemma {:induction false} FixedLitKraft(n: nat)
    requires n <= 288
    ensures KraftSum(FixedLit()[..n]) ==
      if n <= 144 then 128 * n
      else if n <= 256 then 18432 + 64 * (n - 144)
      else if n <= 280 then 25600 + 256 * (n - 256)
      else 31744 + 128 * (n - 280)
  {
    if n > 0 {
      FixedLitKraft(n - 1);
      assert FixedLit()[..n][..n - 1] == FixedLit()[..n - 1];
      Pow2Values();
    }
  }

  lemma {:induction false} FixedDistKraft(n: nat)
    requires n <= 32
    ensures KraftSum(FixedDist()[..n]) == 1024 * n
  {
    if n > 0 {
      FixedDistKraft(n - 1);
      assert FixedDist()[..n][..n - 1] == FixedDist()[..n - 1];
      assert Pow2(10) == 1024;
    }
  }

  // Both fixed codes are complete: their Kraft sums are exactly 1.
  lemma FixedComplete()
    ensures KraftSum(FixedLit()) == Pow2(15) && KraftSum(FixedDist()) == Pow2(15)
  {
    FixedLitKraft(288);
    FixedDistKraft(32);
    assert FixedLit()[..288] == FixedLit() && FixedDist()[..32] == FixedDist();
    Pow2Values();
  }

  lemma FixedUsable()
    ensures UsableCodes(FixedLit(), FixedDist())
  {
    FixedComplete();
  }

  // The body of a block of the given kind, from p on.
  ghost function BlockOfKind(kind: nat, input: seq<byte>, p: nat, out: seq<byte>, limit: nat): (r: Verdict)
    requires |out| <= limit
    ensures r.Accepted? ==> r.pos > p && |out| <= |r.out| <= limit
  {
    if kind == 0 then StoredBlock(input, p, out, limit)
    else if kind == 1 then
      HuffmanBlock(FixedLit(), FixedDist(), input, p, out, limit)
    else if kind == 2 then
      match DynamicTables(input, p)
      case NoTables(v) => v
      case Tables(lit, dist, q) => HuffmanBlock(lit, dist, input, q, out, limit)
    else Rejected
  }

  // A block: one bit that marks the last block, two bits of kind, and the body.
  ghost function Block(input: seq<byte>, p: nat, out: seq<byte>, limit: nat): (r: Verdict)
    requires |out| <= limit
    ensures r.Accepted? ==> r.pos > p && |out| <= |r.out| <= limit
  {
    BlockOfKind(Lsb(input, p + 1, 2), input, p + 3, out, limit)
  }

  // Past the end a block header reads as a stored block with LEN = NLEN = 0.
  lemma NoBlockPastEnd(input: seq<byte>, p: nat, out: seq<byte>, limit: nat)
    requires |out| <= limit && p >= 8 * |input|
    ensures Block(input, p, out, limit) == Rejected
  {
    LsbPastEnd(input, p + 1, 2);
    LsbPastEnd(input, RoundUp(p + 3), 16);
    LsbPastEnd(input, RoundUp(p + 3) + 16, 16);
  }

  ghost function Blocks(input: seq<byte>, p: nat, out: seq<byte>, limit: nat): (r: Verdict)
    requires |out| <= limit
    ensures r.Accepted? ==> r.pos > p && |out| <= |r.out| <= limit
    decreases BitsLeft(input, p)
  {
    match Block(input, p, out, limit)
    case Accepted(out', q) =>
      if Bit(input, p) == 1 then Accepted(out', q)
      else
        assert p < 8 * |input| by { if p >= 8 * |input| { NoBlockPastEnd(input, p, out, limit); } }
        Blocks(input, q, out', limit)
    case verdict => verdict
  }

  // The two bytes in front of a zlib stream (RFC 1950, section 2.2): a multiple of 31,
  // no preset dictionary, compression method 8.
  predicate HeaderOk(input: seq<byte>) {
    var cmf, flg := ByteAt(input, 0), ByteAt(input, 1);
    (cmf * 256 + flg) % 31 == 0 && flg / 32 % 2 == 0 && cmf % 16 == 8
  }

  ghost function Inflate(input: seq<byte>, parseHeader: bool, limit: nat): (r: Verdict)
    ensures r.Accepted? ==> |r.out| <= limit
  {
    if !parseHeader then Blocks(input, 0, [], limit)
    else if HeaderOk(input) then Blocks(input, 16, [], limit)
    else Rejected
  }
}
