/**
  stb_image's PNG reconstruction: scanlines are unfiltered straight into the picture,
  which may have an alpha byte more per pixel than the data.
 */
module PngImage {
  import opened Arithmetic
  import opened Bits
  import opened Canonical
  import opened PngFilter

  // ------------------------------------------------------------ the picture as bytes

  // A pixel, with alpha 255 behind it if the picture wants one byte more.
  function OutPixel(px: Pixel, outN: nat): Pixel {
    if |px| < outN then px + [255] else px
  }

  function FlatOut(row: Row, outN: nat): seq<byte> {
    if row == [] then [] else FlatOut(row[..|row| - 1], outN) + OutPixel(row[|row| - 1], outN)
  }

  function FlatRows(rows: seq<Row>, outN: nat): seq<byte> {
    if rows == [] then [] else FlatRows(rows[..|rows| - 1], outN) + FlatOut(rows[|rows| - 1], outN)
  }

  lemma {:induction false} FlatOutLength(row: Row, n: nat, outN: nat)
    requires RowOk(row, n) && n <= outN <= n + 1
    ensures |FlatOut(row, outN)| == |row| * outN
    decreases |row|
  {
    if row != [] {
      FlatOutLength(row[..|row| - 1], n, outN);
      MulStep(|row| - 1, outN);
    }
  }

  lemma {:induction false} FlatRowsLength(rows: seq<Row>, n: nat, outN: nat, x: nat)
    requires ImageOk(rows, n, x) && n <= outN <= n + 1
    ensures |FlatRows(rows, outN)| == |rows| * (x * outN)
    decreases |rows|
  {
    if rows != [] {
      FlatRowsLength(rows[..|rows| - 1], n, outN, x);
      FlatOutLength(rows[|rows| - 1], n, outN);
      MulStep(|rows| - 1, x * outN);
    }
  }

  lemma SliceOfSum(a: seq<byte>, b: seq<byte>, lo: nat, hi: nat)
    requires lo <= hi
    ensures hi <= |a| ==> (a + b)[lo..hi] == a[lo..hi]
    ensures lo == |a| && hi == |a| + |b| ==> (a + b)[lo..hi] == b
  {
  }

  lemma {:induction false} FlatOutFrom(row: Row, n: nat, outN: nat, i: nat)
    requires RowOk(row, n) && n <= outN <= n + 1 && i < |row|
    ensures var lo := |FlatOut(row[..i], outN)|;
      lo + outN <= |FlatOut(row, outN)| && FlatOut(row, outN)[lo..lo + outN] == OutPixel(row[i], outN)
    decreases |row|
  {
    hide RowOk, OutPixel;
    FrontOk(row, n);
    var m := |row| - 1;
    OutPixelLength(row, n, outN, m);
    var front, last, lo := row[..m], OutPixel(row[m], outN), |FlatOut(row[..i], outN)|;
    if i < m {
      assert front[..i] == row[..i];
      FlatOutFrom(front, n, outN, i);
    }
    SliceOfSum(FlatOut(front, outN), last, lo, lo + outN);
  }

  // Where pixel i stands.
  lemma FlatOutAt(row: Row, n: nat, outN: nat, i: nat)
    requires RowOk(row, n) && n <= outN <= n + 1 && i < |row|
    ensures 0 <= i * outN && i * outN + outN <= |FlatOut(row, outN)| == |row| * outN
    ensures FlatOut(row, outN)[i * outN..i * outN + outN] == OutPixel(row[i], outN)
  {
    FlatOutLength(row[..i], n, outN);
    hide FlatOut, OutPixel;
    MulStep(i, outN);
    FlatOutLength(row, n, outN);
    FlatOutFrom(row, n, outN, i);
  }

  lemma OutPixelLength(row: Row, n: nat, outN: nat, i: nat)
    requires RowOk(row, n) && n <= outN <= n + 1 && i < |row|
    ensures |OutPixel(row[i], outN)| == outN
  {
  }

  lemma FrontOk(row: Row, n: nat)
    requires RowOk(row, n) && row != []
    ensures RowOk(row[..|row| - 1], n)
  {
  }

  // ------------------------------------------------------------ one pixel

  // Filters 5 and 6 stand for 3 and 4 on the first row, where nothing is above.
  function FirstRowFilter(f: nat): nat
    requires f <= 4
  {
    [0, 1, 0, 5, 6][f]
  }

  predicate UsesPrior(filter: nat) { 2 <= filter <= 4 }

  function Value(filter: nat, r: byte, a: byte, b: byte, c: byte): byte {
    match filter
    case 0 => r
    case 1 => (r + a) % 256
    case 2 => (r + b) % 256
    case 3 => (r + (b + a) / 2) % 256
    case 4 => (r + Paeth(a, b, c)) % 256
    case 5 => (r + a / 2) % 256
    case _ => (r + Paeth(a, 0, 0)) % 256
  }

  // The filters of the first row restore what the real ones do with zeros above.
  lemma FirstRowSame(f: nat, r: byte, a: byte)
    requires f <= 4
    ensures Value(FirstRowFilter(f), r, a, 0, 0) == Recon(f, r, a, 0, 0)
  {
  }

  lemma OtherRowSame(f: nat, r: byte, a: byte, b: byte, c: byte)
    requires f <= 4
    ensures Value(f, r, a, b, c) == Recon(f, r, a, b, c)
  {
  }

  function ByteIf(have: bool, s: seq<byte>, i: int): byte
    requires have ==> 0 <= i < |s|
  {
    if have then s[i] else 0
  }

  // The pixel that goes behind `done`, where a line of the picture has `stride` bytes.
  function NextPixel(done: seq<byte>, filter: nat, left: bool, stride: nat, outN: nat, r: Pixel): (px: Pixel)
    requires |r| <= outN <= stride
    requires left ==> outN <= |done|
    requires UsesPrior(filter) ==> stride + (if left then outN else 0) <= |done|
    ensures |px| == |r|
  {
    var up := UsesPrior(filter);
    var m := |done|;
    seq(|r|, k requires 0 <= k < |r| =>
      Value(filter, r[k], ByteIf(left, done, m - outN + k), ByteIf(up, done, m - stride + k),
            ByteIf(up && left, done, m - stride - outN + k)))
  }

  lemma NextPixelAt(done: seq<byte>, filter: nat, left: bool, stride: nat, outN: nat, r: Pixel, k: nat)
    requires |r| <= outN <= stride && k < |r|
    requires left ==> outN <= |done|
    requires UsesPrior(filter) ==> stride + (if left then outN else 0) <= |done|
    ensures NextPixel(done, filter, left, stride, outN, r)[k]
         == Value(filter, r[k], ByteIf(left, done, |done| - outN + k),
                  ByteIf(UsesPrior(filter), done, |done| - stride + k),
                  ByteIf(UsesPrior(filter) && left, done, |done| - stride - outN + k))
  {
  }

  // A byte of the picture so far, or zero.
  method Neighbour(out: array<byte>, have: bool, i: int, ghost done: seq<byte>) returns (b: byte)
    requires |done| <= out.Length && out[..|done|] == done && (have ==> 0 <= i < |done|)
    ensures b == ByteIf(have, done, i)
  {
    b := 0;
    if have {
      assert out[..|done|][i] == done[i];
      b := out[i];
    }
  }

  method PutPixel(out: array<byte>, cur: nat, filter: nat, left: bool, stride: nat, n: nat, outN: nat,
                  raw: seq<byte>, at: nat)
    requires n <= outN <= n + 1 && outN <= stride && cur + outN <= out.Length && at + n <= |raw|
    requires left ==> outN <= cur
    requires UsesPrior(filter) ==> stride + (if left then outN else 0) <= cur
    modifies out
    ensures out[..cur + outN]
         == old(out[..cur]) + OutPixel(NextPixel(old(out[..cur]), filter, left, stride, outN, raw[at..at + n]), outN)
  {
    hide Value, NextPixel, ByteIf;
    ghost var done := out[..cur];
    ghost var px := NextPixel(done, filter, left, stride, outN, raw[at..at + n]);
    for k := 0 to n
      invariant out[..cur] == done && out[cur..cur + k] == px[..k]
    {
      var a := Neighbour(out, left, cur + k - outN, done);
      var b := Neighbour(out, UsesPrior(filter), cur + k - stride, done);
      var c := Neighbour(out, UsesPrior(filter) && left, cur + k - stride - outN, done);
      NextPixelAt(done, filter, left, stride, outN, raw[at..at + n], k);
      out[cur + k] := Value(filter, raw[at + k], a, b, c);
    }
    assert out[..cur + n] == done + px;
    if n != outN { out[cur + n] := 255; }
  }

  // ------------------------------------------------------------ one row

  lemma ByteOfPixel(before: seq<byte>, row: Row, after: seq<byte>, n: nat, outN: nat, i: nat, k: nat)
    requires RowOk(row, n) && n <= outN <= n + 1 && i < |row| && k < n
    ensures |before| + i * outN + k < |before + FlatOut(row, outN) + after|
    ensures (before + FlatOut(row, outN) + after)[|before| + i * outN + k] == row[i][k]
  {
    FlatOutAt(row, n, outN, i);
    var flat := FlatOut(row, outN);
    hide FlatOut;
    assert flat[i * outN..i * outN + outN][k] == OutPixel(row[i], outN)[k] == row[i][k];
  }

  // The row above the next one.
  function Above(rows: seq<Row>, n: nat, x: nat): Row {
    if rows == [] then ZeroRow(n, x) else rows[|rows| - 1]
  }

  function RowFilter(rows: seq<Row>, f: nat): nat
    requires f <= 4
  {
    if rows == [] then FirstRowFilter(f) else f
  }

  ghost function Drawn(rows: seq<Row>, done: Row, outN: nat): seq<byte> {
    FlatRows(rows, outN) + FlatOut(done, outN)
  }

  // How far the picture goes, and that the neighbours of the next pixel are in it.
  lemma DrawnLength(rows: seq<Row>, done: Row, n: nat, outN: nat, x: nat)
    requires ImageOk(rows, n, x) && RowOk(done, n) && n <= outN <= n + 1 && |done| < x
    ensures |Drawn(rows, done, outN)| == |rows| * (x * outN) + |done| * outN
    ensures outN <= x * outN
    ensures |done| > 0 ==> |done| * outN == (|done| - 1) * outN + outN
    ensures |rows| > 0 ==> |rows| * (x * outN) == (|rows| - 1) * (x * outN) + x * outN
  {
    hide FlatRows, FlatOut, ImageOk, RowOk;
    FlatRowsLength(rows, n, outN, x);
    FlatOutLength(done, n, outN);
    MulStep(x - 1, outN);
    if |done| > 0 { MulStep(|done| - 1, outN); }
    if |rows| > 0 { MulStep(|rows| - 1, x * outN); }
  }

  lemma LeftByte(rows: seq<Row>, done: Row, n: nat, outN: nat, x: nat, k: nat)
    requires ImageOk(rows, n, x) && RowOk(done, n) && n <= outN <= n + 1 && 0 < |done| < x && k < n
    ensures var m := |Drawn(rows, done, outN)|;
      m >= outN && Drawn(rows, done, outN)[m - outN + k] == done[|done| - 1][k]
  {
    hide FlatOut, FlatRows, ImageOk;
    DrawnLength(rows, done, n, outN, x);
    FlatOutLength(done, n, outN);
    ByteOfPixel(FlatRows(rows, outN), done, [], n, outN, |done| - 1, k);
    assert Drawn(rows, done, outN) == FlatRows(rows, outN) + FlatOut(done, outN) + [];
  }

  // Byte k of pixel i above, where the next pixel is number |done|.
  lemma UpByte(rows: seq<Row>, done: Row, n: nat, outN: nat, x: nat, i: nat, k: nat)
    requires ImageOk(rows, n, x) && RowOk(done, n) && n <= outN <= n + 1 && |done| < x && k < n
    requires rows != [] && i < x
    ensures var at := |Drawn(rows, done, outN)| - x * outN - |done| * outN + i * outN + k;
      0 <= at < |Drawn(rows, done, outN)| && Drawn(rows, done, outN)[at] == Above(rows, n, x)[i][k]
  {
    hide FlatOut, RowOk;
    var front, prior := rows[..|rows| - 1], rows[|rows| - 1];
    assert FlatRows(rows, outN) == FlatRows(front, outN) + FlatOut(prior, outN);
    FlatRowsLength(front, n, outN, x);
    DrawnLength(rows, done, n, outN, x);
    ByteOfPixel(FlatRows(front, outN), prior, FlatOut(done, outN), n, outN, i, k);
  }

  // The next pixel is the reconstruction of the filtered one, in the first row as below.
  lemma PixelRight(f: nat, rows: seq<Row>, done: Row, n: nat, outN: nat, x: nat, r: Pixel)
    requires ImageOk(rows, n, x) && RowOk(done, n) && n <= outN <= n + 1 && |done| < x && |r| == n && f <= 4
    requires var i, m, filter := |done|, |Drawn(rows, done, outN)|, RowFilter(rows, f);
      && outN <= x * outN && (i > 0 ==> outN <= m)
      && (UsesPrior(filter) ==> x * outN + (if i > 0 then outN else 0) <= m)
    ensures var i, prior := |done|, Above(rows, n, x);
      |prior| == x && RowOk(prior, n) &&
      NextPixel(Drawn(rows, done, outN), RowFilter(rows, f), i > 0, x * outN, outN, r)
      == ReconPixel(f, r, LeftOf(done, i, n), prior[i], LeftOf(prior, i, n))
  {
    hide Value, Recon, Drawn, FirstRowFilter;
    var i, prior, drawn, filter := |done|, Above(rows, n, x), Drawn(rows, done, outN), RowFilter(rows, f);
    var px := NextPixel(drawn, filter, i > 0, x * outN, outN, r);
    forall k | 0 <= k < n ensures px[k] == ReconPixel(f, r, LeftOf(done, i, n), prior[i], LeftOf(prior, i, n))[k] {
      if i > 0 { LeftByte(rows, done, n, outN, x, k); }
      ByteRight(f, rows, done, n, outN, x, r, k);
    }
  }

  lemma ByteRight(f: nat, rows: seq<Row>, done: Row, n: nat, outN: nat, x: nat, r: Pixel, k: nat)
    requires ImageOk(rows, n, x) && RowOk(done, n) && n <= outN <= n + 1 && |done| < x && |r| == n && f <= 4 && k < n
    requires var i, m, filter := |done|, |Drawn(rows, done, outN)|, RowFilter(rows, f);
      && outN <= x * outN && (i > 0 ==> outN <= m)
      && (UsesPrior(filter) ==> x * outN + (if i > 0 then outN else 0) <= m)
    ensures var i, prior := |done|, Above(rows, n, x);
      |prior| == x && RowOk(prior, n) &&
      NextPixel(Drawn(rows, done, outN), RowFilter(rows, f), i > 0, x * outN, outN, r)[k]
      == Recon(f, r[k], LeftOf(done, i, n)[k], prior[i][k], LeftOf(prior, i, n)[k])
  {
    hide Value, Recon, Drawn, FirstRowFilter;
    var i, prior, drawn, filter := |done|, Above(rows, n, x), Drawn(rows, done, outN), RowFilter(rows, f);
    NextPixelAt(drawn, filter, i > 0, x * outN, outN, r, k);
    if i > 0 { LeftByte(rows, done, n, outN, x, k); }
    var a := LeftOf(done, i, n)[k];
    if rows == [] {
      FirstRowSame(f, r[k], a);
      NoPriorUsed(f, r[k], a);
    } else {
      DrawnLength(rows, done, n, outN, x);
      UpByte(rows, done, n, outN, x, i, k);
      if i > 0 { UpByte(rows, done, n, outN, x, i - 1, k); }
      OtherRowSame(f, r[k], a, prior[i][k], LeftOf(prior, i, n)[k]);
      if !UsesPrior(f) { PriorUnused(f, r[k], a, prior[i][k], LeftOf(prior, i, n)[k]); }
    }
  }

  // The filters of the first row do not look at a row above.
  lemma NoPriorUsed(f: nat, r: byte, a: byte)
    requires f <= 4
    ensures !UsesPrior(FirstRowFilter(f))
  {
  }

  lemma PriorUnused(f: nat, r: byte, a: byte, b: byte, c: byte)
    requires f <= 4 && !UsesPrior(f)
    ensures Value(f, r, a, b, c) == Value(f, r, a, 0, 0)
  {
  }

  // The neighbours of the next pixel have been drawn, and there is room for it.
  lemma NeighboursDrawn(rows: seq<Row>, done: Row, n: nat, outN: nat, x: nat, f: nat)
    requires ImageOk(rows, n, x) && RowOk(done, n) && n <= outN <= n + 1 && |done| < x && f <= 4
    ensures var i, m, filter := |done|, |Drawn(rows, done, outN)|, RowFilter(rows, f);
      && outN <= x * outN && (i > 0 ==> outN <= m)
      && (UsesPrior(filter) ==> x * outN + (if i > 0 then outN else 0) <= m)
      && m + outN <= |FlatRows(rows, outN)| + x * outN
  {
    hide FlatRows, FlatOut, FirstRowFilter;
    DrawnLength(rows, done, n, outN, x);
    FlatRowsLength(rows, n, outN, x);
    MulMono(|done|, x, outN);
    NoPriorUsed(f, 0, 0);
    if |done| > 0 { MulStep(|done| - 1, outN); }
    if |rows| > 0 { MulStep(|rows| - 1, x * outN); }
  }

  // The data at `at` start with these filtered pixels.
  ghost predicate RowAhead(raw: seq<byte>, at: nat, n: nat, pixels: Row) {
    at + |pixels| * n <= |raw| && pixels == RawPixels(raw, at, n, |pixels|)
  }

  lemma PixelAhead(raw: seq<byte>, at: nat, n: nat, pixels: Row)
    requires RowAhead(raw, at, n, pixels) && pixels != []
    ensures at + n <= |raw| && pixels[0] == raw[at..at + n]
    ensures RowAhead(raw, at + n, n, pixels[1..])
  {
    MulStep(|pixels| - 1, n);
  }

  lemma DrawnNext(rows: seq<Row>, done: Row, px: Pixel, outN: nat)
    ensures Drawn(rows, done + [px], outN) == Drawn(rows, done, outN) + OutPixel(px, outN)
  {
    hide FlatRows;
    assert (done + [px])[..|done|] == done;
  }

  lemma DrawnRow(rows: seq<Row>, row: Row, outN: nat)
    ensures Drawn(rows, row, outN) == FlatRows(rows + [row], outN)
  {
    hide FlatOut;
    assert (rows + [row])[..|rows|] == rows;
  }

  // A row, from the filtered pixels at `at`, below the rows drawn so far.
  method UnfilterRow(out: array<byte>, start: nat, f: nat, stride: nat, n: nat, outN: nat, x: nat, raw: seq<byte>,
                     at: nat,
                     ghost rows: seq<Row>)
    requires ImageOk(rows, n, x) && n <= outN <= n + 1 && stride == x * outN && f <= 4
    requires start + stride <= out.Length && out[..start] == FlatRows(rows, outN) && (start == 0 <==> rows == [])
    requires at + x * n <= |raw|
    modifies out
    ensures var row := ReconRow(f, RawPixels(raw, at, n, x), Above(rows, n, x), n, x);
      out[..start + stride] == FlatRows(rows + [row], outN)
  {
    hide FlatRows, FlatOut, Drawn, RawPixels, NextPixel, OutPixel, ReconRow, FirstRowFilter, RowOk;
    hide UsesPrior, Above, ImageOk;
    ghost var pixels, prior := RawPixels(raw, at, n, x), Above(rows, n, x);
    AboveOk(rows, n, x);
    assert RowAhead(raw, at, n, pixels[0..]) by { assert pixels[0..] == pixels; }
    hide RowAhead;
    var filter := if start == 0 then FirstRowFilter(f) else f;
    var cur: nat, pos: nat := start, at;
    NothingDrawn(f, rows, pixels, n, outN, x);
    for i := 0 to x
      invariant cur <= out.Length && out[..cur] == Drawn(rows, ReconRow(f, pixels, prior, n, i), outN)
      invariant RowAhead(raw, pos, n, pixels[i..])
    {
      PixelAhead(raw, pos, n, pixels[i..]);
      NextInRow(f, rows, pixels, n, outN, x, i);
      PutPixel(out, cur, filter, i > 0, stride, n, outN, raw, pos);
      cur, pos := cur + outN, pos + n;
      assert pixels[i + 1..] == pixels[i..][1..];
    }
    RowEnd(rows, ReconRow(f, pixels, prior, n, x), n, outN, x);
  }

  // Reconstructing pixel i of a row is drawing the next pixel.
  lemma NextInRow(f: nat, rows: seq<Row>, pixels: Row, n: nat, outN: nat, x: nat, i: nat)
    requires ImageOk(rows, n, x) && n <= outN <= n + 1 && f <= 4 && i < x == |pixels| && RowOk(pixels, n)
    requires |Above(rows, n, x)| == x && RowOk(Above(rows, n, x), n)
    ensures var done := ReconRow(f, pixels, Above(rows, n, x), n, i);
      var m, filter := |Drawn(rows, done, outN)|, RowFilter(rows, f);
      && outN <= x * outN && (i > 0 ==> outN <= m)
      && (UsesPrior(filter) ==> x * outN + (if i > 0 then outN else 0) <= m)
      && m + outN <= |FlatRows(rows, outN)| + x * outN
      && Drawn(rows, ReconRow(f, pixels, Above(rows, n, x), n, i + 1), outN)
         == Drawn(rows, done, outN)
            + OutPixel(NextPixel(Drawn(rows, done, outN), filter, i > 0, x * outN, outN, pixels[i]), outN)
  {
    hide Drawn, FlatRows, NextPixel, OutPixel, ReconPixel, FirstRowFilter, UsesPrior, Above;
    var done := ReconRow(f, pixels, Above(rows, n, x), n, i);
    NeighboursDrawn(rows, done, n, outN, x, f);
    PixelRight(f, rows, done, n, outN, x, pixels[i]);
    DrawnNext(rows, done,
              NextPixel(Drawn(rows, done, outN), RowFilter(rows, f), i > 0, x * outN, outN, pixels[i]), outN);
  }

  lemma AboveOk(rows: seq<Row>, n: nat, x: nat)
    requires ImageOk(rows, n, x)
    ensures |Above(rows, n, x)| == x && RowOk(Above(rows, n, x), n)
  {
  }

  lemma NothingDrawn(f: nat, rows: seq<Row>, pixels: Row, n: nat, outN: nat, x: nat)
    requires |Above(rows, n, x)| == x == |pixels| && RowOk(Above(rows, n, x), n) && RowOk(pixels, n)
    ensures Drawn(rows, ReconRow(f, pixels, Above(rows, n, x), n, 0), outN) == FlatRows(rows, outN)
  {
  }

  lemma RowEnd(rows: seq<Row>, row: Row, n: nat, outN: nat, x: nat)
    requires ImageOk(rows, n, x) && RowOk(row, n) && |row| == x && n <= outN <= n + 1
    ensures |Drawn(rows, row, outN)| == |FlatRows(rows, outN)| + x * outN
    ensures Drawn(rows, row, outN) == FlatRows(rows + [row], outN)
  {
    FlatOutLength(row, n, outN);
    DrawnRow(rows, row, outN);
  }

  // ------------------------------------------------------------ the picture

  // The rows decoded so far and what is still to come are the whole image.
  ghost predicate Halfway(raw: seq<byte>, at: nat, n: nat, x: nat, y: nat, pos: nat, rows: seq<Row>) {
    && at + ImageSize(n, x, y) <= |raw| && |rows| <= y
    && pos + ImageSize(n, x, y - |rows|) <= |raw| && ImageOk(rows, n, x)
    && |Above(rows, n, x)| == x && RowOk(Above(rows, n, x), n)
    && DecodeImage(raw, at, n, x, y) == match DecodeRows(raw, pos, n, x, y - |rows|, Above(rows, n, x))
                                         case None => None
                                         case Some(rest) => Some(rows + rest)
  }

  lemma HalfwayStarts(raw: seq<byte>, at: nat, n: nat, x: nat, y: nat)
    requires at + ImageSize(n, x, y) <= |raw|
    ensures Halfway(raw, at, n, x, y, at, [])
  {
    var r := DecodeRows(raw, at, n, x, y, ZeroRow(n, x));
    if r.Some? { assert [] + r.value == r.value; }
  }

  lemma OneRow(raw: seq<byte>, at: nat, n: nat, x: nat, y: nat, prior: Row) returns (row: Row)
    requires 0 < y && at + ImageSize(n, x, y) <= |raw| && |prior| == x && RowOk(prior, n)
    ensures at + 1 + x * n + ImageSize(n, x, y - 1) <= |raw| && |row| == x && RowOk(row, n)
    ensures row == ReconRow(raw[at], RawPixels(raw, at + 1, n, x), prior, n, x)
    ensures raw[at] > 4 ==> DecodeRows(raw, at, n, x, y, prior) == None
    ensures raw[at] <= 4 ==>
      var rest := DecodeRows(raw, at + 1 + x * n, n, x, y - 1, row);
      DecodeRows(raw, at, n, x, y, prior) == if rest.None? then None else Some([row] + rest.value)
  {
    hide ReconRow, RawPixels, ImageSize, RowOk;
    RowOfSize(n, x, y);
    row := ReconRow(raw[at], RawPixels(raw, at + 1, n, x), prior, n, x);
  }

  // The next row, and the position behind it.
  lemma NextRow(raw: seq<byte>, at: nat, n: nat, x: nat, y: nat, pos: nat, rows: seq<Row>)
    returns (row: Row, next: nat)
    requires Halfway(raw, at, n, x, y, pos, rows) && |rows| < y
    ensures pos < next == pos + 1 + x * n <= |raw| && |Above(rows, n, x)| == x && RowOk(Above(rows, n, x), n)
    ensures row == ReconRow(raw[pos], RawPixels(raw, pos + 1, n, x), Above(rows, n, x), n, x)
  {
    hide ReconRow, RawPixels, ImageSize, DecodeImage, DecodeRows, RowOk;
    row := OneRow(raw, pos, n, x, y - |rows|, Above(rows, n, x));
    MulStep(x, n);
    next := pos + 1 + x * n;
  }

  lemma HalfwayGoesOn(raw: seq<byte>, at: nat, n: nat, x: nat, y: nat, pos: nat, rows: seq<Row>, row: Row, next: nat)
    requires Halfway(raw, at, n, x, y, pos, rows) && |rows| < y && pos < next == pos + 1 + x * n <= |raw|
    requires |Above(rows, n, x)| == x && RowOk(Above(rows, n, x), n)
    requires row == ReconRow(raw[pos], RawPixels(raw, pos + 1, n, x), Above(rows, n, x), n, x)
    ensures raw[pos] > 4 ==> DecodeImage(raw, at, n, x, y) == None
    ensures raw[pos] <= 4 ==> ImageOk(rows + [row], n, x) && Halfway(raw, at, n, x, y, next, rows + [row])
  {
    hide ReconRow, RawPixels, ImageSize, DecodeImage, DecodeRows, RowOk;
    var row' := OneRow(raw, pos, n, x, y - |rows|, Above(rows, n, x));
    var rest := DecodeRows(raw, next, n, x, y - |rows| - 1, row);
    if rest.Some? { assert rows + ([row] + rest.value) == rows + [row] + rest.value; }
  }

  lemma HalfwayEnds(raw: seq<byte>, at: nat, n: nat, x: nat, y: nat, pos: nat, rows: seq<Row>)
    requires Halfway(raw, at, n, x, y, pos, rows) && |rows| == y
    ensures DecodeImage(raw, at, n, x, y) == Some(rows)
  {
    assert rows + [] == rows;
  }

  function RowStart(j: nat, stride: nat): nat { j * stride }

  // Row j of y lies within the picture.
  lemma RowFits(j: nat, y: nat, x: nat, outN: nat)
    requires j < y && 0 < x && 0 < outN
    ensures var stride := x * outN;
      && RowStart(j, stride) + stride <= RowStart(y, stride)
      && RowStart(j + 1, stride) == RowStart(j, stride) + stride
      && (RowStart(j, stride) == 0 <==> j == 0)
  {
    var stride := x * outN;
    MulMono(0, x, outN);
    MulMono(j, y, stride);
    MulStep(j, stride);
    if j > 0 { MulMono(0, j, stride); }
  }

  // y rows of x pixels from the data at `at`: all of it if `whole` is set, else as much of
  // it as they take.
  method CreateImageRaw(raw: seq<byte>, at: nat, n: nat, outN: nat, x: nat, y: nat, whole: bool)
    returns (ok: bool, out: array<byte>)
    requires at <= |raw| && 0 < n <= outN <= n + 1 && 0 < x
    ensures fresh(out)
    ensures var size := ImageSize(n, x, y);
      if at + size > |raw| || (whole && at + size != |raw|) then !ok
      else if ok then
        DecodeImage(raw, at, n, x, y).Some? && out[..] == FlatRows(DecodeImage(raw, at, n, x, y).value, outN)
      else
        DecodeImage(raw, at, n, x, y) == None
  {
    hide *;
    var stride, imgLen := x * outN, (x * n + 1) * y;
    ImageLength(n, x, y);
    out := new byte[RowStart(y, stride)];
    if at + imgLen > |raw| || (whole && at + imgLen != |raw|) { return false, out; }
    HalfwayStarts(raw, at, n, x, y);
    ghost var rows: seq<Row> := [];
    var pos: nat, start: nat := at, 0;
    EmptyPicture(n, outN, x);
    for j := 0 to y
      invariant Halfway(raw, at, n, x, y, pos, rows) && |rows| == j && ImageOk(rows, n, x)
      invariant start == RowStart(j, stride) <= out.Length && out[..start] == FlatRows(rows, outN)
    {
      ghost var row, next := NextRow(raw, at, n, x, y, pos, rows);
      HalfwayGoesOn(raw, at, n, x, y, pos, rows, row, next);
      var filter := raw[pos];
      if filter > 4 { return false, out; }
      RowFits(j, y, x, outN);
      UnfilterRow(out, start, filter, stride, n, outN, x, raw, pos + 1, rows);
      rows := rows + [row];
      pos, start := pos + 1 + x * n, start + stride;
    }
    HalfwayEnds(raw, at, n, x, y, pos, rows);
    assert out[..] == out[..start];
    ok := true;
  }

  lemma EmptyPicture(n: nat, outN: nat, x: nat)
    ensures FlatRows([], outN) == [] && ImageOk([], n, x) && RowStart(0, x * outN) == 0
  {
  }
}
