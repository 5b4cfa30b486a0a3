/**
  PNG scanline filters (section 6 of RFC 2083) for 8-bit samples: an image is a list of
  rows, a row a list of pixels, a pixel one to four bytes.
 */
module PngFilter {
  import opened Arithmetic
  import opened Bits
  import opened Canonical

  type Pixel = seq<byte>
  type Row = seq<Pixel>

  ghost predicate RowOk(row: Row, n: nat) {
    forall i :: 0 <= i < |row| ==> |row[i]| == n
  }

  function Zero(n: nat): (px: Pixel)
    ensures |px| == n && forall k :: 0 <= k < n ==> px[k] == 0
  {
    seq(n, k => 0)
  }

  // In front of the first row, all bytes count as zero.
  function ZeroRow(n: nat, x: nat): (row: Row)
    ensures |row| == x && RowOk(row, n) && forall i :: 0 <= i < x ==> row[i] == Zero(n)
  {
    seq(x, i => Zero(n))
  }

  // ------------------------------------------------------------ prediction

  function Abs(x: int): nat { if x < 0 then -x else x }

  // The neighbour nearest to left + up - corner (section 6.6).
  function Paeth(a: int, b: int, c: int): int {
    var p := a + b - c;
    var pa, pb, pc := Abs(p - a), Abs(p - b), Abs(p - c);
    if pa <= pb && pa <= pc then a else if pb <= pc then b else c
  }

  // What filter f expects of a byte, given those to the left, above and above left.
  function Predict(f: nat, a: byte, b: byte, c: byte): int {
    match f
    case 0 => 0
    case 1 => a
    case 2 => b
    case 3 => (a + b) / 2
    case _ => Paeth(a, b, c)
  }

  function Recon(f: nat, r: byte, a: byte, b: byte, c: byte): byte {
    (r + Predict(f, a, b, c)) % 256
  }

  function Filt(f: nat, v: byte, a: byte, b: byte, c: byte): byte {
    (v - Predict(f, a, b, c)) % 256
  }

  lemma ReconFilt(f: nat, v: byte, a: byte, b: byte, c: byte)
    ensures Recon(f, Filt(f, v, a, b, c), a, b, c) == v
  {
  }

  function ReconPixel(f: nat, r: Pixel, a: Pixel, b: Pixel, c: Pixel): (px: Pixel)
    requires |r| == |a| == |b| == |c|
    ensures |px| == |r|
  {
    seq(|r|, k requires 0 <= k < |r| => Recon(f, r[k], a[k], b[k], c[k]))
  }

  function FiltPixel(f: nat, v: Pixel, a: Pixel, b: Pixel, c: Pixel): (px: Pixel)
    requires |v| == |a| == |b| == |c|
    ensures |px| == |v|
  {
    seq(|v|, k requires 0 <= k < |v| => Filt(f, v[k], a[k], b[k], c[k]))
  }

  // ------------------------------------------------------------ rows

  // The pixel to the left of number i, or zeros.
  function LeftOf(row: Row, i: nat, n: nat): (px: Pixel)
    requires i <= |row|
  {
    if i == 0 then Zero(n) else row[i - 1]
  }

  // The first i pixels of a row, from filtered ones.
  function ReconRow(f: nat, raw: Row, prior: Row, n: nat, i: nat): (row: Row)
    requires i <= |raw| == |prior| && RowOk(raw, n) && RowOk(prior, n)
    ensures |row| == i && RowOk(row, n)
  {
    if i == 0 then []
    else
      var done := ReconRow(f, raw, prior, n, i - 1);
      done + [ReconPixel(f, raw[i - 1], LeftOf(done, i - 1, n), prior[i - 1], LeftOf(prior, i - 1, n))]
  }

  function FiltRow(f: nat, row: Row, prior: Row, n: nat, i: nat): (raw: Row)
    requires i <= |row| == |prior| && RowOk(row, n) && RowOk(prior, n)
    ensures |raw| == i && RowOk(raw, n)
  {
    if i == 0 then []
    else
      FiltRow(f, row, prior, n, i - 1)
      + [FiltPixel(f, row[i - 1], LeftOf(row, i - 1, n), prior[i - 1], LeftOf(prior, i - 1, n))]
  }

  lemma {:induction false} FiltRowPrefix(f: nat, row: Row, prior: Row, n: nat, i: nat, j: nat)
    requires j <= i <= |row| == |prior| && RowOk(row, n) && RowOk(prior, n)
    ensures FiltRow(f, row, prior, n, i)[..j] == FiltRow(f, row, prior, n, j)
    decreases i
  {
    if j < i { FiltRowPrefix(f, row, prior, n, i - 1, j); }
  }

  // Whatever filter a row was sent with, it is restored.
  lemma {:induction false} RowRestored(f: nat, row: Row, prior: Row, n: nat, i: nat)
    requires i <= |row| == |prior| && RowOk(row, n) && RowOk(prior, n)
    ensures ReconRow(f, FiltRow(f, row, prior, n, |row|), prior, n, i) == row[..i]
    decreases i
  {
    hide ReconPixel, FiltPixel;
    if i > 0 {
      var raw := FiltRow(f, row, prior, n, |row|);
      RowRestored(f, row, prior, n, i - 1);
      FiltRowPrefix(f, row, prior, n, |row|, i);
      var a, b, c := LeftOf(row, i - 1, n), prior[i - 1], LeftOf(prior, i - 1, n);
      assert raw[i - 1] == raw[..i][i - 1] == FiltPixel(f, row[i - 1], a, b, c);
      PixelRestored(f, row[i - 1], a, b, c);
      assert LeftOf(row[..i - 1], i - 1, n) == a;
      assert row[..i] == row[..i - 1] + [row[i - 1]];
    }
  }

  lemma PixelRestored(f: nat, v: Pixel, a: Pixel, b: Pixel, c: Pixel)
    requires |v| == |a| == |b| == |c|
    ensures ReconPixel(f, FiltPixel(f, v, a, b, c), a, b, c) == v
  {
    hide Recon, Filt;
    forall k | 0 <= k < |v| ensures ReconPixel(f, FiltPixel(f, v, a, b, c), a, b, c)[k] == v[k] {
      ReconFilt(f, v[k], a[k], b[k], c[k]);
    }
  }

  // ------------------------------------------------------------ bytes

  // x pixels of n bytes.
  function RawPixels(raw: seq<byte>, at: nat, n: nat, x: nat): (row: Row)
    requires at + x * n <= |raw|
    ensures |row| == x && RowOk(row, n)
    decreases x
  {
    if x == 0 then []
    else
      assert x * n == (x - 1) * n + n;
      [raw[at..at + n]] + RawPixels(raw, at + n, n, x - 1)
  }

  function Flat(row: Row): seq<byte> {
    if row == [] then [] else row[0] + Flat(row[1..])
  }

  lemma {:induction false} FlatLength(row: Row, n: nat)
    requires RowOk(row, n)
    ensures |Flat(row)| == |row| * n
  {
    if row != [] {
      FlatLength(row[1..], n);
      assert |row| * n == (|row| - 1) * n + n;
    }
  }

  lemma {:induction false} RawOfFlat(before: seq<byte>, row: Row, after: seq<byte>, n: nat)
    requires RowOk(row, n)
    ensures |Flat(row)| == |row| * n
    ensures RawPixels(before + Flat(row) + after, |before|, n, |row|) == row
    decreases |row|
  {
    FlatLength(row, n);
    if row != [] {
      assert |row| * n == (|row| - 1) * n + n;
      FlatLength(row[1..], n);
      var raw := before + Flat(row) + after;
      assert raw == (before + row[0]) + Flat(row[1..]) + after;
      RawOfFlat(before + row[0], row[1..], after, n);
      assert raw[|before|..|before| + n] == row[0];
    }
  }

  // ------------------------------------------------------------ images

  ghost predicate ImageOk(rows: seq<Row>, n: nat, x: nat) {
    forall j :: 0 <= j < |rows| ==> |rows[j]| == x && RowOk(rows[j], n)
  }

  // The bytes of an image: each row behind the number of its filter.
  function ImageSize(n: nat, x: nat, y: nat): nat {
    if y == 0 then 0 else 1 + x * n + ImageSize(n, x, y - 1)
  }

  lemma {:induction false} ImageLength(n: nat, x: nat, y: nat)
    ensures (x * n + 1) * y == ImageSize(n, x, y)
  {
    if y > 0 {
      ImageLength(n, x, y - 1);
      MulStep(y - 1, x * n + 1);
    }
  }

  lemma RowOfSize(n: nat, x: nat, y: nat)
    requires y > 0
    ensures ImageSize(n, x, y) == 1 + x * n + ImageSize(n, x, y - 1)
  {
  }

  // y rows of x pixels, the first of which stands below `prior`; None if a filter is
  // unknown.
  function DecodeRows(raw: seq<byte>, at: nat, n: nat, x: nat, y: nat, prior: Row): (r: Option<seq<Row>>)
    requires at + ImageSize(n, x, y) <= |raw| && |prior| == x && RowOk(prior, n)
    ensures r.Some? ==> |r.value| == y && ImageOk(r.value, n, x)
    decreases y
  {
    if y == 0 then Some([])
    else
      RowOfSize(n, x, y);
      if raw[at] > 4 then None
      else
        var row := ReconRow(raw[at], RawPixels(raw, at + 1, n, x), prior, n, x);
        match DecodeRows(raw, at + 1 + x * n, n, x, y - 1, row)
        case None => None
        case Some(rows) => Some([row] + rows)
  }

  function DecodeImage(raw: seq<byte>, at: nat, n: nat, x: nat, y: nat): Option<seq<Row>>
    requires at + ImageSize(n, x, y) <= |raw|
  {
    DecodeRows(raw, at, n, x, y, ZeroRow(n, x))
  }

  // The rows below `prior`, each sent with a filter of its own.
  function EncodeRows(rows: seq<Row>, filters: seq<byte>, n: nat, x: nat, prior: Row): seq<byte>
    requires |filters| == |rows| && ImageOk(rows, n, x) && |prior| == x && RowOk(prior, n)
    decreases |rows|
  {
    if rows == [] then []
    else
      [filters[0]] + Flat(FiltRow(filters[0], rows[0], prior, n, x))
      + EncodeRows(rows[1..], filters[1..], n, x, rows[0])
  }

  function EncodeImage(rows: seq<Row>, filters: seq<byte>, n: nat, x: nat): seq<byte>
    requires |filters| == |rows| && ImageOk(rows, n, x)
  {
    EncodeRows(rows, filters, n, x, ZeroRow(n, x))
  }

  // The first row, sent with filter f as the pixels `filtered`.
  lemma FirstRowDecoded(raw: seq<byte>, at: nat, n: nat, x: nat, y: nat, prior: Row, f: byte, row: Row)
    requires 0 < y && at + ImageSize(n, x, y) <= |raw| && |prior| == |row| == x && RowOk(prior, n) && RowOk(row, n)
    requires raw[at] == f <= 4 && at + 1 + x * n <= |raw|
    requires RawPixels(raw, at + 1, n, x) == FiltRow(f, row, prior, n, x)
    ensures at + 1 + x * n + ImageSize(n, x, y - 1) <= |raw|
    ensures var rest := DecodeRows(raw, at + 1 + x * n, n, x, y - 1, row);
      DecodeRows(raw, at, n, x, y, prior) == if rest.None? then None else Some([row] + rest.value)
  {
    hide ReconRow, FiltRow, RawPixels;
    RowOfSize(n, x, y);
    RowRestored(f, row, prior, n, x);
    assert row[..x] == row;
  }

  lemma NoRows(raw: seq<byte>, at: nat, n: nat, x: nat, prior: Row)
    requires at <= |raw| && |prior| == x && RowOk(prior, n)
    ensures ImageSize(n, x, 0) == 0 && DecodeRows(raw, at, n, x, 0, prior) == Some([])
  {
  }

  lemma {:induction false} RowsRoundTrip(before: seq<byte>, rows: seq<Row>, filters: seq<byte>, n: nat, x: nat,
                                         prior: Row, after: seq<byte>)
    requires |filters| == |rows| && ImageOk(rows, n, x) && |prior| == x && RowOk(prior, n)
    requires forall j :: 0 <= j < |rows| ==> filters[j] <= 4
    ensures var bytes := EncodeRows(rows, filters, n, x, prior);
      && |bytes| == ImageSize(n, x, |rows|)
      && DecodeRows(before + bytes + after, |before|, n, x, |rows|, prior) == Some(rows)
    decreases |rows|
  {
    hide ReconRow, FiltRow, Flat, RawPixels, ImageSize, DecodeRows, RowOk;
    if rows == [] {
      NoRows(before + [] + after, |before|, n, x, prior);
    } else {
      var f, row := filters[0], rows[0];
      var raw := FiltRow(f, row, prior, n, x);
      var rest := EncodeRows(rows[1..], filters[1..], n, x, row);
      var head := before + [f];
      var input := before + EncodeRows(rows, filters, n, x, prior) + after;
      assert input == head + Flat(raw) + (rest + after) == (head + Flat(raw)) + rest + after;
      RawOfFlat(head, raw, rest + after, n);
      RowsRoundTrip(head + Flat(raw), rows[1..], filters[1..], n, x, row, after);
      RowOfSize(n, x, |rows|);
      FirstRowDecoded(input, |before|, n, x, |rows|, prior, f, row);
      assert [row] + rows[1..] == rows;
    }
  }

  // Any image, sent with any filters, is restored.
  lemma ImageRoundTrip(before: seq<byte>, rows: seq<Row>, filters: seq<byte>, n: nat, x: nat, after: seq<byte>)
    requires |filters| == |rows| && ImageOk(rows, n, x)
    requires forall j :: 0 <= j < |rows| ==> filters[j] <= 4
    ensures var bytes := EncodeImage(rows, filters, n, x);
      && |bytes| == ImageSize(n, x, |rows|)
      && DecodeImage(before + bytes + after, |before|, n, x, |rows|) == Some(rows)
  {
    RowsRoundTrip(before, rows, filters, n, x, ZeroRow(n, x), after);
  }
}
