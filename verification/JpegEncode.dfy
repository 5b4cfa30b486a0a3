/**
  Writing a JPEG block (section F.1.2 of ITU-T T.81): coefficients in zigzag order, runs of
  zeros and sizes with any Huffman code, and extra bits; and reading it back.
 */
module JpegEncode {
  import opened Bits
  import opened Canonical
  import opened JpegBits
  import opened JpegHuffman
  import opened JpegBlock
  import opened Packing

  // ------------------------------------------------------------ the zigzag order

  // The place after z on the way through the block: along the antidiagonals, upwards on the
  // even and downwards on the odd ones, turning at the edges.
  function NextPlace(z: Place): Place {
    var row, col := z / 8, z % 8;
    if z == 63 then 63
    else if (row + col) % 2 == 0 then
      if col == 7 then z + 8 else if row == 0 then z + 1 else z - 7
    else
      if row == 7 then z + 1 else if col == 0 then z + 8 else z + 7
  }

  // Place number k on that way.
  function Walk(k: nat): Place {
    if k == 0 then 0 else NextPlace(Walk(k - 1))
  }

  lemma OneOfEight(c: nat)
    requires c < 8
    ensures c == 0 || c == 1 || c == 2 || c == 3 || c == 4 || c == 5 || c == 6 || c == 7
  {
  }

  // Within a row of the table ...
  lemma StepsInRow(b: nat, c: nat)
    requires b < 4 && c < 7
    ensures DezigzagRow(b)[c] != 63 && DezigzagRow(b)[c + 1] == NextPlace(DezigzagRow(b)[c])
  {
    OneOfEight(b);
    OneOfEight(c);
  }

  lemma StepsInLowRow(b: nat, c: nat)
    requires 4 <= b < 8 && c < 7
    ensures DezigzagRow(b)[c] != 63 && DezigzagRow(b)[c + 1] == NextPlace(DezigzagRow(b)[c])
  {
    OneOfEight(b);
    OneOfEight(c);
  }

  // ... and from one row to the next.
  lemma StepsDown(b: nat)
    requires b < 7
    ensures DezigzagRow(b)[7] != 63 && DezigzagRow(b + 1)[0] == NextPlace(DezigzagRow(b)[7])
  {
    OneOfEight(b);
  }

  lemma ZigzagSteps(k: nat)
    requires k < 63
    ensures Dezigzag(0) == 0 && Dezigzag(k) != 63 && Dezigzag(k + 1) == NextPlace(Dezigzag(k))
  {
    assert Dezigzag(0) == 0;
    hide DezigzagRow, NextPlace;
    var b, c := k / 8, k % 8;
    if c == 7 {
      assert (k + 1) / 8 == b + 1 && (k + 1) % 8 == 0;
      StepsDown(b);
    } else {
      assert (k + 1) / 8 == b && (k + 1) % 8 == c + 1;
      if b < 4 { StepsInRow(b, c); } else { StepsInLowRow(b, c); }
    }
  }

  // The table is that way, and ends in copies of the last place.
  lemma {:induction false} DezigzagIsWalk(k: nat)
    requires k < 79
    ensures Dezigzag(k) == Walk(k)
    ensures k >= 63 ==> Walk(k) == 63
  {
    if k == 0 {
      assert Dezigzag(0) == 0;
    } else {
      DezigzagIsWalk(k - 1);
      if k <= 63 { ZigzagSteps(k - 1); }
      if k >= 63 { LastPlaces(k); }
    }
  }

  lemma LastPlaces(k: nat)
    requires 63 <= k < 79
    ensures Dezigzag(k) == 63
  {
  }

  function OrderRow(r: nat): (row: seq<Place>)
    ensures |row| == 8
  {
    match r
    case 0 => [ 0,  1,  5,  6, 14, 15, 27, 28]
    case 1 => [ 2,  4,  7, 13, 16, 26, 29, 42]
    case 2 => [ 3,  8, 12, 17, 25, 30, 41, 43]
    case 3 => [ 9, 11, 18, 24, 31, 40, 44, 53]
    case 4 => [10, 19, 23, 32, 39, 45, 52, 54]
    case 5 => [20, 22, 33, 38, 46, 51, 55, 60]
    case 6 => [21, 34, 37, 47, 50, 56, 59, 61]
    case _ => [35, 36, 48, 49, 57, 58, 62, 63]
  }

  // Which coefficient in the order a place holds (figure A.6).
  function PlaceOrder(z: Place): (k: nat)
    ensures k < 64
  {
    OrderRow(z / 8)[z % 8]
  }

  lemma RowVisited(b: nat, c: nat)
    requires b < 4 && c < 8
    ensures Dezigzag(OrderRow(b)[c]) == 8 * b + c && OrderRow(DezigzagRow(b)[c] / 8)[DezigzagRow(b)[c] % 8] == 8 * b + c
  {
    OneOfEight(b);
    OneOfEight(c);
  }

  lemma LowRowVisited(b: nat, c: nat)
    requires 4 <= b < 8 && c < 8
    ensures Dezigzag(OrderRow(b)[c]) == 8 * b + c && OrderRow(DezigzagRow(b)[c] / 8)[DezigzagRow(b)[c] % 8] == 8 * b + c
  {
    OneOfEight(b);
    OneOfEight(c);
  }

  // Every place is visited, and none twice.
  lemma PlaceVisited(z: Place)
    ensures Walk(PlaceOrder(z)) == z
  {
    DezigzagIsWalk(PlaceOrder(z));
    hide OrderRow, DezigzagRow, Walk;
    if z / 8 < 4 { RowVisited(z / 8, z % 8); } else { LowRowVisited(z / 8, z % 8); }
  }

  lemma VisitedOnce(k: nat)
    requires k < 64
    ensures PlaceOrder(Walk(k)) == k
  {
    DezigzagIsWalk(k);
    hide OrderRow, DezigzagRow, Walk;
    if k / 8 < 4 { RowVisited(k / 8, k % 8); } else { LowRowVisited(k / 8, k % 8); }
  }

  // ------------------------------------------------------------ codes

  // The data hold these bits at p.
  ghost predicate HoldsTop(data: seq<byte>, p: nat, bits: seq<bit>) {
    forall i :: 0 <= i < |bits| ==> TopBit(data, p + i) == bits[i]
  }

  lemma HoldsTopSplit(data: seq<byte>, p: nat, a: seq<bit>, b: seq<bit>)
    requires HoldsTop(data, p, a + b)
    ensures HoldsTop(data, p, a) && HoldsTop(data, p + |a|, b)
  {
    hide TopBit;
    forall i | 0 <= i < |a| ensures TopBit(data, p + i) == a[i] {
      assert (a + b)[i] == a[i];
    }
    forall i | 0 <= i < |b| ensures TopBit(data, p + |a| + i) == b[i] {
      assert (a + b)[|a| + i] == b[i];
    }
  }

  lemma {:induction false} ReadTop(data: seq<byte>, p: nat, v: nat, n: nat)
    requires v < Pow2(n) && HoldsTop(data, p, CodeBits(v, n))
    ensures Top(data, p, n) == v
    decreases n
  {
    hide TopBit;
    if n > 0 {
      HoldsTopSplit(data, p, CodeBits(v / 2, n - 1), [v % 2]);
      assert TopBit(data, p + (n - 1) + 0) == [v % 2][0];
      ReadTop(data, p, v / 2, n - 1);
    }
  }

  // A code that a decoder accepts.
  ghost predicate UsableSizes(sizes: seq<nat>) {
    CodeSizes(sizes) && CodeSum(sizes, |sizes|, 16) <= 0x1_0000
  }

  // The code has a word for symbol value rs.
  ghost predicate Covered(sizes: seq<nat>, values: Bytes256, rs: byte) {
    exists i: nat :: i < |sizes| && i < 256 && values[i] == rs
  }

  ghost function IndexFor(sizes: seq<nat>, values: Bytes256, rs: byte): (i: nat)
    requires Covered(sizes, values, rs)
    ensures i < |sizes| && i < 256 && values[i] == rs
  {
    var i: nat :| i < |sizes| && i < 256 && values[i] == rs;
    i
  }

  ghost function WordBits(sizes: seq<nat>, values: Bytes256, rs: byte): (r: seq<bit>)
    requires Covered(sizes, values, rs)
    ensures |r| == sizes[IndexFor(sizes, values, rs)]
  {
    var i := IndexFor(sizes, values, rs);
    CodeBits(CodeOf(sizes, i), sizes[i])
  }

  lemma SumNext(sizes: seq<nat>, i: nat)
    requires i < |sizes|
    ensures CodeSum(sizes, i + 1, sizes[i]) == CodeSum(sizes, i, sizes[i]) + 1
  {
    assert Pow2(0) == 1;
  }

  lemma CodeOfFits(sizes: seq<nat>, i: nat)
    requires UsableSizes(sizes) && i < |sizes|
    ensures CodeOf(sizes, i) < Pow2(sizes[i])
  {
    hide CodeSum, CodeOf, Pow2, Shl;
    var s := sizes[i];
    CodeIsSum(sizes, i);
    SumNext(sizes, i);
    SumScale(sizes, i + 1, s, 16 - s);
    SumMono(sizes, i + 1, |sizes|, 16);
    Pow2Values();
    ShlPow2(s, 16 - s);
    if CodeSum(sizes, i + 1, s) > Pow2(s) { ShlMono(Pow2(s), CodeSum(sizes, i + 1, s), 16 - s); }
  }

  // A written code is the next word.
  lemma ReadWord(sizes: seq<nat>, values: Bytes256, rs: byte, data: seq<byte>, p: nat)
    requires UsableSizes(sizes) && Covered(sizes, values, rs) && HoldsTop(data, p, WordBits(sizes, values, rs))
    ensures var i := IndexFor(sizes, values, rs);
      Word(sizes, Top(data, p, 16)) == Some((i, sizes[i]))
  {
    hide HoldsTop, CodeBits, CodeOf, CodeSum, Top;
    var i := IndexFor(sizes, values, rs);
    CodeOfFits(sizes, i);
    ReadTop(data, p, CodeOf(sizes, i), sizes[i]);
    TopTake(data, p, sizes[i], 16);
    NextIsPrefix(sizes, Top(data, p, 16), i);
  }

  // ------------------------------------------------------------ values

  // How many bits the magnitude of a value takes (tables F.1 and F.2).
  function SizeOf(m: nat): (n: nat)
    ensures m == 0 <==> n == 0
  {
    if m == 0 then 0 else 1 + SizeOf(m / 2)
  }

  lemma {:induction false} SizeOfExact(m: nat)
    ensures m < Pow2(SizeOf(m)) && (m > 0 ==> Pow2(SizeOf(m) - 1) <= m)
  {
    if m > 0 { SizeOfExact(m / 2); }
  }

  function Magnitude(v: int): nat { if v < 0 then -v else v }

  // The extra bits: the value itself, or one less than it if it is negative, cut to its size.
  function ExtraOf(v: int): nat {
    var n := SizeOf(Magnitude(v));
    SizeOfExact(Magnitude(v));
    if v < 0 then v - 1 + Pow2(n) else v
  }

  lemma ExtraRead(v: int)
    ensures var n := SizeOf(Magnitude(v));
      ExtraOf(v) < Pow2(n) && Extend(ExtraOf(v), n) == v
  {
    var m := Magnitude(v);
    var n := SizeOf(m);
    SizeOfExact(m);
    if n > 0 { assert Pow2(n) == 2 * Pow2(n - 1); }
  }

  // ------------------------------------------------------------ AC coefficients

  // The first coefficient from number k on, in zigzag order, that is not zero.
  function NextNonzero(c: Block, k: nat): (j: nat)
    requires k <= 64
    ensures k <= j <= 64 && (j < 64 ==> c[Walk(j)] != 0)
    ensures forall i :: k <= i < j ==> c[Walk(i)] == 0
    decreases 64 - k
  {
    hide Walk;
    if k == 64 || c[Walk(k)] != 0 then k else NextNonzero(c, k + 1)
  }

  // The symbol of a value behind a run of zeros.
  function RunSize(run: nat, v: int): (rs: nat)
    requires run < 16
  {
    16 * run + SizeOf(Magnitude(v))
  }

  // A block whose values fit 15 bits and whose symbols the code covers.
  ghost predicate AcCodable(sizes: seq<nat>, values: Bytes256, c: Block) {
    && Covered(sizes, values, 0x00) && Covered(sizes, values, 0xF0)
    && (forall z :: 0 <= z < 64 ==> SizeOf(Magnitude(c[z])) <= 15)
    && (forall z, run :: 0 < z < 64 && 0 <= run < 16 && c[z] != 0 ==> RunCovered(sizes, values, c, z, run))
  }

  ghost predicate RunCovered(sizes: seq<nat>, values: Bytes256, c: Block, z: nat, run: nat)
    requires z < 64 && run < 16
  {
    SizeOf(Magnitude(c[z])) <= 15 && Covered(sizes, values, RunSize(run, c[z]))
  }

  // The coefficients from number k on: runs of sixteen zeros, a run and a value, or the end.
  ghost function AcBits(sizes: seq<nat>, values: Bytes256, c: Block, k: nat): (r: seq<bit>)
    requires AcCodable(sizes, values, c) && 0 < k <= 64
    decreases 64 - k
  {
    var j := NextNonzero(c, k);
    if k == 64 then []
    else if j == 64 then WordBits(sizes, values, 0x00)
    else if j - k >= 16 then WordBits(sizes, values, 0xF0) + AcBits(sizes, values, c, k + 16)
    else
      var z := Walk(j);
      ZeroFirst(j);
      assert RunCovered(sizes, values, c, z, j - k);
      WordBits(sizes, values, RunSize(j - k, c[z])) + CodeBits(ExtraOf(c[z]), SizeOf(Magnitude(c[z])))
      + AcBits(sizes, values, c, j + 1)
  }

  lemma ZeroFirst(j: nat)
    requires 0 < j < 64
    ensures Walk(j) != 0
  {
    VisitedOnce(j);
    VisitedOnce(0);
  }

  // ------------------------------------------------------------ reading back

  // The coefficients in front of number k are in place, times their quantizers; the others
  // are zero.
  ghost predicate FilledTo(coefs: Block, c: Block, dequant: Bytes64, k: nat) {
    forall j :: 0 < j < 64 ==> coefs[Walk(j)] == if j < k then Scaled(c, dequant, Walk(j)) else 0
  }

  function Scaled(c: Block, dequant: Bytes64, z: Place): int { ToShort(c[z] * dequant[z]) }

  lemma SetIsUpdate(coefs: Block, c: Block, dequant: Bytes64, j: nat)
    requires j < 64
    ensures SetCoef(coefs, j, c[Walk(j)], dequant) == coefs[Walk(j) := Scaled(c, dequant, Walk(j))]
  {
    hide Walk, Dezigzag;
    DezigzagIsWalk(j);
  }

  // Coefficient j is set behind zeros.
  lemma SetNext(coefs: Block, c: Block, dequant: Bytes64, k: nat, j: nat)
    requires FilledTo(coefs, c, dequant, k) && 0 < k <= j < 64
    requires forall i :: k <= i < j ==> c[Walk(i)] == 0
    ensures FilledTo(SetCoef(coefs, j, c[Walk(j)], dequant), c, dequant, j + 1)
    ensures SetCoef(coefs, j, c[Walk(j)], dequant)[0] == coefs[0]
  {
    hide Walk, PlaceOrder, SetCoef, Scaled;
    SetIsUpdate(coefs, c, dequant, j);
    ZeroFirst(j);
    SkipZeros(coefs, c, dequant, k, j);
    var coefs' := SetCoef(coefs, j, c[Walk(j)], dequant);
    forall i | 0 < i < 64 ensures coefs'[Walk(i)] == if i < j + 1 then Scaled(c, dequant, Walk(i)) else 0 {
      VisitedOnce(i);
      VisitedOnce(j);
    }
  }

  lemma SkipZeros(coefs: Block, c: Block, dequant: Bytes64, k: nat, j: nat)
    requires FilledTo(coefs, c, dequant, k) && 0 < k <= j <= 64
    requires forall i :: k <= i < j ==> c[Walk(i)] == 0
    ensures FilledTo(coefs, c, dequant, j)
  {
    hide Walk;
  }

  // One coefficient: the run in front of it, its size and its extra bits.
  lemma ReadCoefficient(sizes: seq<nat>, values: Bytes256, dequant: Bytes64, data: seq<byte>, p: nat, k: nat, run: nat,
                        v: int, coefs: Block)
    requires UsableSizes(sizes) && k + run < 64 && run < 16 && v != 0 && SizeOf(Magnitude(v)) <= 15
    requires Covered(sizes, values, RunSize(run, v))
    requires var n := SizeOf(Magnitude(v));
      HoldsTop(data, p, WordBits(sizes, values, RunSize(run, v)) + CodeBits(ExtraOf(v), n))
    ensures var q := p + |WordBits(sizes, values, RunSize(run, v))| + SizeOf(Magnitude(v));
      AcFrom(AsSpecified, data, p, sizes, values, dequant, k, coefs)
      == AcFrom(AsSpecified, data, q, sizes, values, dequant, k + run + 1, SetCoef(coefs, k + run, v, dequant))
  {
    hide HoldsTop, CodeBits, Word, Top, Extend, SetCoef, ExtraOf, SizeOf, UsableSizes, Covered;
    var n, rs := SizeOf(Magnitude(v)), RunSize(run, v);
    var word := WordBits(sizes, values, rs);
    HoldsTopSplit(data, p, word, CodeBits(ExtraOf(v), n));
    ReadWord(sizes, values, rs, data, p);
    ExtraRead(v);
    ReadTop(data, p + |word|, ExtraOf(v), n);
    assert rs / 16 == run && rs % 16 == n;
  }

  // The end of a block, or sixteen zeros.
  lemma ReadZeros(sizes: seq<nat>, values: Bytes256, dequant: Bytes64, data: seq<byte>, p: nat, k: nat, coefs: Block)
    requires UsableSizes(sizes) && k < 64
    ensures Covered(sizes, values, 0x00) && HoldsTop(data, p, WordBits(sizes, values, 0x00)) ==>
      AcFrom(AsSpecified, data, p, sizes, values, dequant, k, coefs)
      == Decoded(coefs, p + |WordBits(sizes, values, 0x00)|)
    ensures Covered(sizes, values, 0xF0) && HoldsTop(data, p, WordBits(sizes, values, 0xF0)) ==>
      AcFrom(AsSpecified, data, p, sizes, values, dequant, k, coefs)
      == AcFrom(AsSpecified, data, p + |WordBits(sizes, values, 0xF0)|, sizes, values, dequant, k + 16, coefs)
  {
    hide HoldsTop, CodeBits, Word, Top, Extend, SetCoef, UsableSizes, Covered;
    if Covered(sizes, values, 0x00) && HoldsTop(data, p, WordBits(sizes, values, 0x00)) {
      ReadWord(sizes, values, 0x00, data, p);
    }
    if Covered(sizes, values, 0xF0) && HoldsTop(data, p, WordBits(sizes, values, 0xF0)) {
      ReadWord(sizes, values, 0xF0, data, p);
    }
  }

  lemma {:induction false} ReadAc(sizes: seq<nat>, values: Bytes256, dequant: Bytes64, c: Block, data: seq<byte>,
                                  p: nat, k: nat, coefs: Block) returns (r: Block)
    requires UsableSizes(sizes) && AcCodable(sizes, values, c) && 0 < k <= 64 && FilledTo(coefs, c, dequant, k)
    requires HoldsTop(data, p, AcBits(sizes, values, c, k))
    ensures AcFrom(AsSpecified, data, p, sizes, values, dequant, k, coefs)
         == Decoded(r, p + |AcBits(sizes, values, c, k)|)
    ensures FilledTo(r, c, dequant, 64) && r[0] == coefs[0]
    decreases 64 - k
  {
    hide HoldsTop, CodeBits, WordBits, AcFrom, SetCoef, ExtraOf, SizeOf, UsableSizes, Covered, FilledTo, Walk;
    var j := NextNonzero(c, k);
    r := coefs;
    if k == 64 {
      NoneLeft(AsSpecified, data, p, sizes, values, dequant, k, coefs);
    } else if j == 64 {
      ReadZeros(sizes, values, dequant, data, p, k, coefs);
      SkipZeros(coefs, c, dequant, k, 64);
    } else if j - k >= 16 {
      var word := WordBits(sizes, values, 0xF0);
      HoldsTopSplit(data, p, word, AcBits(sizes, values, c, k + 16));
      ReadZeros(sizes, values, dequant, data, p, k, coefs);
      SkipZeros(coefs, c, dequant, k, k + 16);
      r := ReadAc(sizes, values, dequant, c, data, p + |word|, k + 16, coefs);
    } else {
      var z := Walk(j);
      ZeroFirst(j);
      assert RunCovered(sizes, values, c, z, j - k);
      var bits := WordBits(sizes, values, RunSize(j - k, c[z])) + CodeBits(ExtraOf(c[z]), SizeOf(Magnitude(c[z])));
      HoldsTopSplit(data, p, bits, AcBits(sizes, values, c, j + 1));
      ReadCoefficient(sizes, values, dequant, data, p, k, j - k, c[z], coefs);
      SetNext(coefs, c, dequant, k, j);
      r := ReadAc(sizes, values, dequant, c, data, p + |bits|, j + 1, SetCoef(coefs, j, c[z], dequant));
    }
  }

  // ------------------------------------------------------------ whole blocks

  // A block in natural order: the DC value as the difference to `pred`, the others by AcBits.
  ghost predicate Codable(dcSizes: seq<nat>, dcValues: Bytes256, acSizes: seq<nat>, acValues: Bytes256, c: Block,
                          pred: int)
  {
    && SizeOf(Magnitude(c[0] - pred)) <= 15 && Covered(dcSizes, dcValues, SizeOf(Magnitude(c[0] - pred)))
    && AcCodable(acSizes, acValues, c)
  }

  ghost function BlockBits(dcSizes: seq<nat>, dcValues: Bytes256, acSizes: seq<nat>, acValues: Bytes256, c: Block,
                           pred: int): (r: seq<bit>)
    requires Codable(dcSizes, dcValues, acSizes, acValues, c, pred)
  {
    var diff := c[0] - pred;
    var n := SizeOf(Magnitude(diff));
    WordBits(dcSizes, dcValues, n) + CodeBits(ExtraOf(diff), n) + AcBits(acSizes, acValues, c, 1)
  }

  lemma ReadDc(sizes: seq<nat>, values: Bytes256, data: seq<byte>, p: nat, diff: int)
    requires UsableSizes(sizes) && SizeOf(Magnitude(diff)) <= 15 && Covered(sizes, values, SizeOf(Magnitude(diff)))
    requires var n := SizeOf(Magnitude(diff));
      HoldsTop(data, p, WordBits(sizes, values, n) + CodeBits(ExtraOf(diff), n))
    ensures var n := SizeOf(Magnitude(diff));
      DcAt(AsSpecified, data, p, sizes, values) == Difference(diff, p + |WordBits(sizes, values, n)| + n)
  {
    hide HoldsTop, CodeBits, Word, Top, Extend, ExtraOf, SizeOf, UsableSizes, Covered;
    var n := SizeOf(Magnitude(diff));
    var word := WordBits(sizes, values, n);
    HoldsTopSplit(data, p, word, CodeBits(ExtraOf(diff), n));
    ReadWord(sizes, values, n, data, p);
    ExtraRead(diff);
    ReadTop(data, p + |word|, ExtraOf(diff), n);
  }

  // Any block that two codes cover is read back: every coefficient is in its own place, times
  // its quantizer.
  lemma BlockRoundTrip(dcSizes: seq<nat>, dcValues: Bytes256, acSizes: seq<nat>, acValues: Bytes256, dequant: Bytes64,
                       c: Block, pred: int, data: seq<byte>, p: nat) returns (r: Block)
    requires UsableSizes(dcSizes) && UsableSizes(acSizes) && Codable(dcSizes, dcValues, acSizes, acValues, c, pred)
    requires HoldsTop(data, p, BlockBits(dcSizes, dcValues, acSizes, acValues, c, pred))
    ensures BlockAt(AsSpecified, data, p, dcSizes, dcValues, acSizes, acValues, dequant, pred)
         == Decoded(r, p + |BlockBits(dcSizes, dcValues, acSizes, acValues, c, pred)|)
    ensures forall z :: 0 <= z < 64 ==> r[z] == Scaled(c, dequant, z)
    ensures Clean(dcSizes) && Clean(acSizes) ==>
      BlockAt(AsBuilt, data, p, dcSizes, dcValues, acSizes, acValues, dequant, pred)
      == BlockAt(AsSpecified, data, p, dcSizes, dcValues, acSizes, acValues, dequant, pred)
  {
    hide HoldsTop, CodeBits, WordBits, AcFrom, DcAt, ExtraOf, SizeOf, Covered, FilledTo, Walk, AcBits, AcCodable;
    hide CodeSum, CodeSizes, ToShort;
    var diff := c[0] - pred;
    var n := SizeOf(Magnitude(diff));
    var dc := WordBits(dcSizes, dcValues, n) + CodeBits(ExtraOf(diff), n);
    HoldsTopSplit(data, p, dc, AcBits(acSizes, acValues, c, 1));
    ReadDc(dcSizes, dcValues, data, p, diff);
    var start := DcOnly(ToShort(c[0] * dequant[0]));
    StartFilled(ToShort(c[0] * dequant[0]), c, dequant);
    r := ReadAc(acSizes, acValues, dequant, c, data, p + |dc|, 1, start);
    assert pred + diff == c[0];
    forall z: nat | z < 64 ensures r[z] == Scaled(c, dequant, z) { PlaceFilled(r, c, dequant, z); }
    if Clean(dcSizes) && Clean(acSizes) {
      BlockAlike(data, p, dcSizes, dcValues, acSizes, acValues, dequant, pred);
    }
  }

  lemma StartFilled(v: int, c: Block, dequant: Bytes64)
    ensures FilledTo(DcOnly(v), c, dequant, 1)
  {
    forall j | 0 < j < 64 ensures DcOnly(v)[Walk(j)] == 0 { ZeroFirst(j); }
  }

  lemma PlaceFilled(r: Block, c: Block, dequant: Bytes64, z: Place)
    requires FilledTo(r, c, dequant, 64) && r[0] == Scaled(c, dequant, 0)
    ensures r[z] == Scaled(c, dequant, z)
  {
    hide Walk;
    PlaceVisited(z);
    if z != 0 {
      PlaceVisited(0);
      WalkStarts();
    }
  }

  lemma WalkStarts()
    ensures Walk(0) == 0
  {
  }
}
