/**
  What the restored bytes of a PNG image are, in the words of section 6 of RFC 2083 and
  without the functions that compute them.
 */
module PngRestored {
  import opened Arithmetic
  import opened Bits
  import opened PngFilter

  // ------------------------------------------------------------ one byte

  function Apart(x: int, y: int): nat { if x < y then y - x else x - y }

  // v is the one of left, above and above left that is nearest to left + above - above left,
  // and in a tie the first of them in this order.
  ghost predicate Nearest(v: int, left: int, above: int, corner: int) {
    var p := left + above - corner;
    && Apart(v, p) <= Apart(left, p) && Apart(v, p) <= Apart(above, p) && Apart(v, p) <= Apart(corner, p)
    && (v == left
        || (v == above && Apart(left, p) > Apart(v, p))
        || (v == corner && Apart(left, p) > Apart(v, p) && Apart(above, p) > Apart(v, p)))
  }

  lemma PaethNearest(a: byte, b: byte, c: byte)
    ensures Nearest(Paeth(a, b, c), a, b, c)
    ensures forall v: int :: Nearest(v, a, b, c) ==> v == Paeth(a, b, c)
  {
  }

  // Byte v was sent as r with filter f: what is left of it, modulo 256, when nothing, the byte
  // to the left, the one above, their mean or the nearest neighbour is taken away.
  ghost predicate Restored(f: nat, v: byte, r: byte, left: byte, above: byte, corner: byte) {
    match f
    case 0 => v == r
    case 1 => (v - left - r) % 256 == 0
    case 2 => (v - above - r) % 256 == 0
    case 3 => exists mean: nat :: 2 * mean <= left + above < 2 * mean + 2 && (v - mean - r) % 256 == 0
    case 4 => exists q: int :: Nearest(q, left, above, corner) && (v - q - r) % 256 == 0
    case _ => false
  }

  lemma ModMove(v: byte, q: int)
    ensures ((v + q) % 256 - q - v) % 256 == 0
  {
    var s := v + q;
    assert s % 256 - s == -256 * (s / 256);
    assert (s % 256 - s) % 256 == 0;
  }

  lemma ReconRestored(f: nat, r: byte, a: byte, b: byte, c: byte)
    requires f <= 4
    ensures Restored(f, Recon(f, r, a, b, c), r, a, b, c)
  {
    hide Paeth;
    var q := Predict(f, a, b, c);
    ModMove(r, q);
    if f == 3 {
      assert 2 * q <= a + b < 2 * q + 2;
    } else if f == 4 {
      PaethNearest(a, b, c);
    }
  }

  lemma SameModulo(v: byte, w: byte, q: int, r: byte)
    requires (v - q - r) % 256 == 0 && (w - q - r) % 256 == 0
    ensures v == w
  {
    var x, y := (v - q - r) / 256, (w - q - r) / 256;
    assert v - q - r == 256 * x && w - q - r == 256 * y;
  }

  // There is only one such byte.
  lemma RestoredUnique(f: nat, v: byte, w: byte, r: byte, a: byte, b: byte, c: byte)
    requires Restored(f, v, r, a, b, c) && Restored(f, w, r, a, b, c)
    ensures v == w
  {
    if f == 1 { SameModulo(v, w, a, r); }
    if f == 2 { SameModulo(v, w, b, r); }
    if f == 3 {
      var q: nat :| 2 * q <= a + b < 2 * q + 2 && (v - q - r) % 256 == 0;
      var q': nat :| 2 * q' <= a + b < 2 * q' + 2 && (w - q' - r) % 256 == 0;
      SameModulo(v, w, q, r);
    }
    if f == 4 {
      PaethNearest(a, b, c);
      SameModulo(v, w, Paeth(a, b, c), r);
    }
  }

  // ------------------------------------------------------------ whole images

  // Where pixel i of the data at `at` begins.
  function PixelAt(at: nat, i: nat, n: nat): nat { at + i * n }

  lemma {:induction false} RawPixelAt(raw: seq<byte>, at: nat, n: nat, x: nat, i: nat, k: nat)
    requires at + x * n <= |raw| && i < x && k < n
    ensures PixelAt(at, i, n) + k < |raw| && RawPixels(raw, at, n, x)[i][k] == raw[PixelAt(at, i, n) + k]
    decreases x
  {
    MulStep(x - 1, n);
    MulMono(i, x, n);
    if i > 0 {
      MulStep(i - 1, n);
      RawPixelAt(raw, at + n, n, x - 1, i - 1, k);
    }
  }

  lemma {:induction false} ReconRowAt(f: nat, raw: Row, prior: Row, n: nat, m: nat, i: nat)
    requires i < m <= |raw| == |prior| && RowOk(raw, n) && RowOk(prior, n)
    ensures var row := ReconRow(f, raw, prior, n, m);
      row[i] == ReconPixel(f, raw[i], LeftOf(row, i, n), prior[i], LeftOf(prior, i, n))
    decreases m
  {
    hide ReconPixel;
    if i < m - 1 { ReconRowAt(f, raw, prior, n, m - 1, i); }
  }

  // Byte k of the pixel to the left of number i.
  function LeftByte(row: Row, i: nat, n: nat, k: nat): byte
    requires i <= |row| && RowOk(row, n) && k < n
  {
    if i == 0 then 0 else row[i - 1][k]
  }

  // The row whose filter stands at `at`, below `prior`: all its bytes are restored.
  ghost predicate RowRight(raw: seq<byte>, at: nat, n: nat, x: nat, prior: Row, row: Row) {
    && |prior| == |row| == x && RowOk(prior, n) && RowOk(row, n) && at < at + 1 + x * n <= |raw|
    && forall i: nat, k: nat :: i < x && k < n ==> ByteRight(raw, at, n, prior, row, i, k)
  }

  ghost predicate ByteRight(raw: seq<byte>, at: nat, n: nat, prior: Row, row: Row, i: nat, k: nat)
    requires i < |prior| == |row| && RowOk(prior, n) && RowOk(row, n) && k < n
  {
    && at < PixelAt(at + 1, i, n) + k < |raw|
    && Restored(raw[at], row[i][k], raw[PixelAt(at + 1, i, n) + k], LeftByte(row, i, n, k), prior[i][k],
                LeftByte(prior, i, n, k))
  }

  lemma DecodedRowRight(raw: seq<byte>, at: nat, n: nat, x: nat, prior: Row)
    requires at < at + 1 + x * n <= |raw| && |prior| == x && RowOk(prior, n) && raw[at] <= 4
    ensures RowRight(raw, at, n, x, prior, ReconRow(raw[at], RawPixels(raw, at + 1, n, x), prior, n, x))
  {
    hide ReconRow, RawPixels, Restored, Recon;
    var pixels := RawPixels(raw, at + 1, n, x);
    var row := ReconRow(raw[at], pixels, prior, n, x);
    forall i: nat, k: nat | i < x && k < n ensures ByteRight(raw, at, n, prior, row, i, k) {
      RawPixelAt(raw, at + 1, n, x, i, k);
      ReconRowAt(raw[at], pixels, prior, n, x, i);
      ReconRestored(raw[at], pixels[i][k], LeftByte(row, i, n, k), prior[i][k], LeftByte(prior, i, n, k));
      MulLeast(0, i, n);
    }
  }

  // Where row j of an image begins, with the number of its filter.
  function RowAt(at: nat, n: nat, x: nat, j: nat): nat
    decreases j, at
  {
    if j == 0 then at else RowAt(at + 1 + x * n, n, x, j - 1)
  }

  lemma {:induction false} RowsStart(at: nat, n: nat, x: nat, j: nat)
    ensures RowAt(at, n, x, j) == at + j * (1 + x * n)
    decreases j
  {
    if j > 0 {
      RowsStart(at + 1 + x * n, n, x, j - 1);
      MulStep(j - 1, 1 + x * n);
    }
  }

  // Every row of the decoded image is restored below the one before it.
  lemma {:induction false} RowsRight(raw: seq<byte>, at: nat, n: nat, x: nat, y: nat, prior: Row, j: nat)
    requires at + ImageSize(n, x, y) <= |raw| && |prior| == x && RowOk(prior, n) && j < y
    requires DecodeRows(raw, at, n, x, y, prior).Some?
    ensures var rows := DecodeRows(raw, at, n, x, y, prior).value;
      RowRight(raw, RowAt(at, n, x, j), n, x, if j == 0 then prior else rows[j - 1], rows[j])
    decreases y
  {
    hide RowRight, ReconRow, RawPixels, RowOk, ImageSize;
    RowOfSize(n, x, y);
    MulLeast(0, x, n);
    var row := ReconRow(raw[at], RawPixels(raw, at + 1, n, x), prior, n, x);
    if j == 0 {
      DecodedRowRight(raw, at, n, x, prior);
    } else {
      RowsRight(raw, at + 1 + x * n, n, x, y - 1, row, j - 1);
    }
  }

  // All bytes of an image: each was sent with the filter of its row, which is one of the five,
  // and in front of the first row and of the first pixel of a row stand zeros.
  lemma ImageRight(raw: seq<byte>, at: nat, n: nat, x: nat, y: nat, j: nat)
    requires at + ImageSize(n, x, y) <= |raw| && DecodeImage(raw, at, n, x, y).Some? && j < y
    ensures var rows := DecodeImage(raw, at, n, x, y).value;
      RowRight(raw, RowAt(at, n, x, j), n, x, if j == 0 then ZeroRow(n, x) else rows[j - 1], rows[j])
  {
    hide RowRight, DecodeRows, ImageSize, RowAt;
    RowsRight(raw, at, n, x, y, ZeroRow(n, x), j);
  }
}
