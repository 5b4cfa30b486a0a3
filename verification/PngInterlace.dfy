/**
  Decoding an interlaced PNG image: each pass is reconstructed as an image of its own and
  its pixels are copied to their places.
 */
module PngInterlace {
  import opened Adam7
  import opened Arithmetic
  import opened Bits
  import opened Canonical
  import opened PngFilter
  import opened PngImage
  import opened Splicing

  // ------------------------------------------------------------ pixels of a picture

  // Where a pixel starts.
  function PixelStart(w: nat, outN: nat, col: nat, row: nat): nat {
    row * (w * outN) + col * outN
  }

  // How many bytes a picture takes.
  function PictureSize(w: nat, h: nat, outN: nat): nat { h * (w * outN) }

  lemma StartInside(w: nat, h: nat, outN: nat, col: nat, row: nat)
    requires col < w && row < h
    ensures PixelStart(w, outN, col, row) + outN <= PictureSize(w, h, outN)
  {
    MulMono(col, w, outN);
    MulMono(row, h, w * outN);
  }

  lemma StartsApart(w: nat, outN: nat, col: nat, row: nat, col': nat, row': nat)
    requires col < w && col' < w && (col != col' || row != row')
    ensures PixelStart(w, outN, col, row) + outN <= PixelStart(w, outN, col', row')
         || PixelStart(w, outN, col', row') + outN <= PixelStart(w, outN, col, row)
  {
    MulMono(col, w, outN);
    MulMono(col', w, outN);
    if row < row' {
      MulMono(row, row', w * outN);
      MulStep(col', outN);
    } else if row' < row {
      MulMono(row', row, w * outN);
      MulStep(col, outN);
    } else if col < col' {
      MulMono(col, col', outN);
    } else {
      MulMono(col', col, outN);
    }
  }

  // Every byte belongs to a pixel.
  lemma PixelOfByte(w: nat, h: nat, outN: nat, b: nat) returns (col: nat, row: nat, k: nat)
    requires outN > 0 && b < PictureSize(w, h, outN)
    ensures col < w && row < h && k < outN && b == PixelStart(w, outN, col, row) + k
  {
    var stride := w * outN;
    NoneOfNone(h, stride);
    row := b / stride;
    var rest := b % stride;
    assert b == row * stride + rest;
    if row >= h { MulLeast(h, row, stride); }
    col, k := rest / outN, rest % outN;
    assert rest == col * outN + k;
    if col >= w { MulLeast(w, col, outN); }
  }

  lemma NoneOfNone(h: nat, stride: nat)
    requires h * stride > 0
    ensures stride > 0
  {
  }

  ghost predicate Placed(bytes: seq<byte>, w: nat, outN: nat, col: nat, row: nat, px: Pixel) {
    var at := PixelStart(w, outN, col, row);
    at + outN <= |bytes| && bytes[at..at + outN] == OutPixel(px, outN)
  }

  ghost predicate Segment(s: seq<byte>, lo: nat, part: seq<byte>) {
    lo + |part| <= |s| && s[lo..lo + |part|] == part
  }

  lemma {:induction false} FlatRowsFrom(rows: seq<Row>, outN: nat, j: nat)
    requires j < |rows|
    ensures Segment(FlatRows(rows, outN), |FlatRows(rows[..j], outN)|, FlatOut(rows[j], outN))
    decreases |rows|
  {
    hide FlatOut;
    var m := |rows| - 1;
    var front, part, lo := rows[..m], FlatOut(rows[j], outN), |FlatRows(rows[..j], outN)|;
    if j < m {
      assert front[..j] == rows[..j];
      FlatRowsFrom(front, outN, j);
    }
    SliceOfSum(FlatRows(front, outN), FlatOut(rows[m], outN), lo, lo + |part|);
  }

  lemma PictureHasPixel(rows: seq<Row>, n: nat, outN: nat, w: nat, col: nat, row: nat)
    requires ImageOk(rows, n, w) && n <= outN <= n + 1 && row < |rows| && col < w
    ensures Placed(FlatRows(rows, outN), w, outN, col, row, rows[row][col])
  {
    hide FlatRows, FlatOut, OutPixel;
    FlatRowsLength(rows[..row], n, outN, w);
    FlatRowsFrom(rows, outN, row);
    FlatOutLength(rows[row], n, outN);
    FlatOutAt(rows[row], n, outN, col);
    SliceSlice(FlatRows(rows, outN), row * (w * outN), w * outN, col * outN, outN);
  }

  // The bytes of a pixel at its place, and alpha 255 if the picture wants one byte more.
  ghost predicate PixelShown(out: seq<byte>, n: nat, outN: nat, w: nat, col: nat, row: nat, px: Pixel) {
    var at := row * (w * outN) + col * outN;
    && 0 <= at && n <= outN && at + outN <= |out|
    && out[at..at + n] == px && (outN == n + 1 ==> out[at + n] == 255)
  }

  ghost predicate Shown(out: seq<byte>, rows: seq<Row>, n: nat, outN: nat, w: nat)
    requires ImageOk(rows, n, w)
  {
    forall col: nat, row: nat :: col < w && row < |rows| ==> PixelShown(out, n, outN, w, col, row, rows[row][col])
  }

  lemma PictureShown(rows: seq<Row>, n: nat, outN: nat, w: nat)
    requires ImageOk(rows, n, w) && n <= outN <= n + 1
    ensures Shown(FlatRows(rows, outN), rows, n, outN, w)
  {
    hide FlatRows, RowOk;
    forall col: nat, row: nat | col < w && row < |rows|
      ensures PixelShown(FlatRows(rows, outN), n, outN, w, col, row, rows[row][col])
    {
      PictureHasPixel(rows, n, outN, w, col, row);
      PlacedShown(FlatRows(rows, outN), rows, n, outN, w, col, row);
    }
  }

  lemma PlacedShown(out: seq<byte>, rows: seq<Row>, n: nat, outN: nat, w: nat, col: nat, row: nat)
    requires ImageOk(rows, n, w) && n <= outN <= n + 1 && row < |rows| && col < w
    requires Placed(out, w, outN, col, row, rows[row][col])
    ensures PixelShown(out, n, outN, w, col, row, rows[row][col])
  {
    var at, px := PixelStart(w, outN, col, row), rows[row][col];
    MulLeast(0, row, w * outN);
    MulLeast(0, col, outN);
    var shown := out[at..at + outN];
    assert out[at..at + n] == shown[..n] == px;
    if outN == n + 1 { assert out[at + n] == shown[n] == 255; }
  }

  // A picture is determined by its pixels.
  lemma WholePicture(bytes: seq<byte>, rows: seq<Row>, n: nat, outN: nat, w: nat)
    requires ImageOk(rows, n, w) && 0 < n <= outN <= n + 1 && |bytes| == |rows| * (w * outN)
    requires forall col, row :: 0 <= col < w && 0 <= row < |rows| ==> Placed(bytes, w, outN, col, row, rows[row][col])
    ensures bytes == FlatRows(rows, outN)
  {
    hide FlatRows, OutPixel, PixelStart;
    FlatRowsLength(rows, n, outN, w);
    var flat := FlatRows(rows, outN);
    forall b | 0 <= b < |bytes| ensures bytes[b] == flat[b] {
      var col, row, k := PixelOfByte(w, |rows|, outN, b);
      PictureHasPixel(rows, n, outN, w, col, row);
      assert Placed(bytes, w, outN, col, row, rows[row][col]);
      var at := PixelStart(w, outN, col, row);
      assert bytes[b] == bytes[at..at + outN][k] && flat[b] == flat[at..at + outN][k];
    }
  }

  // ------------------------------------------------------------ decoding the passes

  // The images of the passes from number p on; None if one of them is cut off, has an
  // unknown filter, or is as large as the picture without being all there is.
  function DecodePasses(raw: seq<byte>, at: nat, n: nat, w: nat, h: nat, p: nat): (r: Option<seq<seq<Row>>>)
    requires at <= |raw| && w > 0 && h > 0 && p <= 7
    ensures r.Some? ==> |r.value| == 7 - p
    decreases 7 - p
  {
    if p == 7 then Some([])
    else
      var x, y := PassWidth(w, p), PassHeight(h, p);
      var size := if x > 0 && y > 0 then ImageSize(n, x, y) else 0;
      if size > 0 && (at + size > |raw| || (x == w && y == h && at + size != |raw|)) then None
      else
        var image := if x > 0 && y > 0 then DecodeImage(raw, at, n, x, y) else Some([]);
        if image.None? then None
        else
          match DecodePasses(raw, at + size, n, w, h, p + 1)
          case None => None
          case Some(rest) => Some([image.value] + rest)
  }

  function PassBytes(n: nat, w: nat, h: nat, p: Pass): nat
    requires w > 0 && h > 0
  {
    if PassWidth(w, p) > 0 && PassHeight(h, p) > 0 then ImageSize(n, PassWidth(w, p), PassHeight(h, p)) else 0
  }

  // Where the data of pass q begin, if those of pass p are at `at`.
  function PassStart(n: nat, w: nat, h: nat, at: nat, p: nat, q: nat): nat
    requires w > 0 && h > 0 && p <= q < 7
    decreases q - p
  {
    if p == q then at else PassStart(n, w, h, at + PassBytes(n, w, h, p), p + 1, q)
  }

  // Each pass that has pixels is an image of its own, behind the ones in front of it.
  lemma {:induction false} PassIsImage(raw: seq<byte>, at: nat, n: nat, w: nat, h: nat, p: nat, q: nat)
    requires at <= |raw| && w > 0 && h > 0 && p <= q < 7 && DecodePasses(raw, at, n, w, h, p).Some?
    requires PassWidth(w, q) > 0 && PassHeight(h, q) > 0
    ensures var start, x, y := PassStart(n, w, h, at, p, q), PassWidth(w, q), PassHeight(h, q);
      && start + ImageSize(n, x, y) <= |raw|
      && DecodeImage(raw, start, n, x, y) == Some(DecodePasses(raw, at, n, w, h, p).value[q - p])
    decreases q - p
  {
    hide DecodePasses, DecodeImage, ImageSize, PassWidth, PassHeight;
    var start := at + PassBytes(n, w, h, p);
    FirstPass(raw, at, n, w, h, p, start);
    if p < q { PassIsImage(raw, start, n, w, h, p + 1, q); }
  }

  // The image of pass p, if the pass has pixels.
  ghost predicate PassFound(raw: seq<byte>, at: nat, n: nat, w: nat, h: nat, p: Pass, image: seq<Row>)
    requires w > 0 && h > 0
  {
    hide ImageSize, PassWidth, PassHeight, DecodeImage;
    var x, y := PassWidth(w, p), PassHeight(h, p);
    x > 0 && y > 0 ==> at + ImageSize(n, x, y) <= |raw| && DecodeImage(raw, at, n, x, y) == Some(image)
  }

  // Pass p, and the passes behind it.
  lemma FirstPass(raw: seq<byte>, at: nat, n: nat, w: nat, h: nat, p: nat, start: nat)
    requires at <= |raw| && w > 0 && h > 0 && p < 7 && DecodePasses(raw, at, n, w, h, p).Some?
    requires start == at + PassBytes(n, w, h, p)
    ensures start <= |raw| && DecodePasses(raw, start, n, w, h, p + 1).Some?
    ensures PassFound(raw, at, n, w, h, p, DecodePasses(raw, at, n, w, h, p).value[0])
    ensures DecodePasses(raw, at, n, w, h, p).value[1..] == DecodePasses(raw, start, n, w, h, p + 1).value
  {
    hide DecodeImage, ImageSize, PassWidth, PassHeight;
    if PassWidth(w, p) > 0 && PassHeight(h, p) > 0 { SizePositive(n, PassWidth(w, p), PassHeight(h, p)); }
  }

  // The images of the passes in front of number |images|.
  ghost predicate PassesSoFar(images: seq<seq<Row>>, n: nat, w: nat, h: nat) {
    w > 0 && h > 0 && |images| <= 7 && forall p: Pass :: p < |images| ==> PassOk(images[p], n, w, h, p)
  }

  // ------------------------------------------------------------ spreading a pass

  // Pixel (col, row) comes before pixel (i, j) of pass p.
  predicate Before(p: Pass, col: nat, row: nat, i: nat, j: nat) {
    PassOf(col, row) == p && (row / YSpacing(p) < j || (row / YSpacing(p) == j && col / XSpacing(p) < i))
  }

  ghost predicate CellSpread(before: seq<byte>, bytes: seq<byte>, image: seq<Row>, n: nat, outN: nat, w: nat, h: nat,
                             p: Pass, i: nat, j: nat, col: nat, row: nat)
    requires w > 0 && h > 0 && PassOk(image, n, w, h, p) && |before| == |bytes| == PictureSize(w, h, outN)
    requires col < w && row < h
  {
    if Before(p, col, row, i, j) then
      PixelOfPass(w, h, col, row);
      Placed(bytes, w, outN, col, row, image[row / YSpacing(p)][col / XSpacing(p)])
    else
      StartInside(w, h, outN, col, row);
      var at := PixelStart(w, outN, col, row);
      bytes[at..at + outN] == before[at..at + outN]
  }

  // The pixels in front of (i, j) of the pass are in their places, and all others are as
  // before.
  ghost predicate Spreading(before: seq<byte>, bytes: seq<byte>, image: seq<Row>, n: nat, outN: nat, w: nat, h: nat,
                            p: Pass, i: nat, j: nat)
    requires w > 0 && h > 0 && PassOk(image, n, w, h, p)
  {
    && |before| == |bytes| == PictureSize(w, h, outN)
    && forall col, row :: 0 <= col < w && 0 <= row < h ==>
         CellSpread(before, bytes, image, n, outN, w, h, p, i, j, col, row)
  }

  lemma SpreadingStarts(bytes: seq<byte>, image: seq<Row>, n: nat, outN: nat, w: nat, h: nat, p: Pass)
    requires w > 0 && h > 0 && PassOk(image, n, w, h, p) && |bytes| == PictureSize(w, h, outN)
    ensures Spreading(bytes, bytes, image, n, outN, w, h, p, 0, 0)
  {
  }

  // Writing pixel (i, j) of the pass puts that one into its place and leaves the others.
  lemma SpreadCell(before: seq<byte>, bytes: seq<byte>, image: seq<Row>, n: nat, outN: nat, w: nat, h: nat,
                   p: Pass, i: nat, j: nat, col: nat, row: nat)
    requires w > 0 && h > 0 && PassOk(image, n, w, h, p) && |before| == |bytes| == PictureSize(w, h, outN)
    requires i < PassWidth(w, p) && j < PassHeight(h, p) && n <= outN <= n + 1 && col < w && row < h
    requires CellSpread(before, bytes, image, n, outN, w, h, p, i, j, col, row)
    ensures var at := PixelStart(w, outN, i * XSpacing(p) + XOrig(p), j * YSpacing(p) + YOrig(p));
      && |OutPixel(image[j][i], outN)| == outN && at + outN <= |bytes|
      && CellSpread(before, Spliced(bytes, at, OutPixel(image[j][i], outN)), image, n, outN, w, h, p, i + 1, j,
                    col, row)
  {
    hide Spliced, PixelStart, PictureSize, PassOf, XSpacing, YSpacing, XOrig, YOrig, PassWidth, PassHeight;
    var col0, row0, px := i * XSpacing(p) + XOrig(p), j * YSpacing(p) + YOrig(p), image[j][i];
    PassPixel(w, h, p, i, j);
    StartInside(w, h, outN, col0, row0);
    StartInside(w, h, outN, col, row);
    PixelOfPass(w, h, col, row);
    if col != col0 || row != row0 { StartsApart(w, outN, col, row, col0, row0); }
    var at := PixelStart(w, outN, col, row);
    SplicedSlice(bytes, PixelStart(w, outN, col0, row0), OutPixel(px, outN), at, at + outN);
  }

  lemma SpreadPixel(before: seq<byte>, bytes: seq<byte>, image: seq<Row>, n: nat, outN: nat, w: nat, h: nat,
                    p: Pass, i: nat, j: nat)
    requires w > 0 && h > 0 && PassOk(image, n, w, h, p) && Spreading(before, bytes, image, n, outN, w, h, p, i, j)
    requires i < PassWidth(w, p) && j < PassHeight(h, p) && n <= outN <= n + 1
    ensures var at := PixelStart(w, outN, i * XSpacing(p) + XOrig(p), j * YSpacing(p) + YOrig(p));
      && |OutPixel(image[j][i], outN)| == outN && at + outN <= |bytes|
      && Spreading(before, Spliced(bytes, at, OutPixel(image[j][i], outN)), image, n, outN, w, h, p, i + 1, j)
  {
    hide Spliced, PixelStart, PassOf, XSpacing, YSpacing, XOrig, YOrig, PassWidth, PassHeight, CellSpread;
    var col0, row0, next := i * XSpacing(p) + XOrig(p), j * YSpacing(p) + YOrig(p), i + 1;
    PassPixel(w, h, p, i, j);
    StartInside(w, h, outN, col0, row0);
    var bytes' := Spliced(bytes, PixelStart(w, outN, col0, row0), OutPixel(image[j][i], outN));
    forall col, row | 0 <= col < w && 0 <= row < h
      ensures CellSpread(before, bytes', image, n, outN, w, h, p, next, j, col, row)
    {
      SpreadCell(before, bytes, image, n, outN, w, h, p, i, j, col, row);
    }
  }

  lemma SpreadRow(before: seq<byte>, bytes: seq<byte>, image: seq<Row>, n: nat, outN: nat, w: nat, h: nat, p: Pass,
                  j: nat)
    requires w > 0 && h > 0 && PassOk(image, n, w, h, p)
    requires Spreading(before, bytes, image, n, outN, w, h, p, PassWidth(w, p), j)
    ensures Spreading(before, bytes, image, n, outN, w, h, p, 0, j + 1)
  {
    hide Placed, PixelStart, PassOf, XSpacing, YSpacing, PassWidth, PassHeight, PassOk;
    var next := j + 1;
    forall col, row | 0 <= col < w && 0 <= row < h
      ensures CellSpread(before, bytes, image, n, outN, w, h, p, 0, next, col, row)
    {
      assert CellSpread(before, bytes, image, n, outN, w, h, p, PassWidth(w, p), j, col, row);
      PixelOfPass(w, h, col, row);
    }
  }

  // Pixel (i, j) of a pass within its own picture.
  lemma SourcePixel(image: seq<Row>, n: nat, outN: nat, x: nat, i: nat, j: nat)
    requires ImageOk(image, n, x) && n <= outN <= n + 1 && i < x && j < |image|
    ensures var at, flat := (j * x + i) * outN, FlatRows(image, outN);
      0 <= at && at + outN <= |flat| && flat[at..at + outN] == OutPixel(image[j][i], outN)
  {
    hide FlatRows, OutPixel;
    PictureHasPixel(image, n, outN, x, i, j);
    SameStart(x, outN, i, j);
  }

  lemma SameStart(x: nat, outN: nat, i: nat, j: nat)
    ensures (j * x + i) * outN == PixelStart(x, outN, i, j)
  {
    assert (j * x + i) * outN == j * x * outN + i * outN;
    assert j * x * outN == j * (x * outN);
  }

  // Copy the pixels of a pass to their places.
  method SpreadPass(final: array<byte>, out: array<byte>, ghost image: seq<Row>, p: Pass, x: nat, y: nat,
                    n: nat, outN: nat, w: nat, h: nat)
    requires w > 0 && h > 0 && x == PassWidth(w, p) > 0 && y == PassHeight(h, p) && PassOk(image, n, w, h, p)
    requires n <= outN <= n + 1 && final != out && final.Length == PictureSize(w, h, outN)
    requires out[..] == FlatRows(image, outN)
    modifies final
    ensures Spreading(old(final[..]), final[..], image, n, outN, w, h, p, 0, y)
  {
    hide Spreading, Spliced, FlatRows, OutPixel, PassWidth, PassHeight, XSpacing, YSpacing, XOrig, YOrig, PixelStart;
    ghost var before := final[..];
    SpreadingStarts(before, image, n, outN, w, h, p);
    for j := 0 to y
      invariant out[..] == FlatRows(image, outN)
      invariant Spreading(before, final[..], image, n, outN, w, h, p, 0, j)
    {
      for i := 0 to x
        invariant out[..] == FlatRows(image, outN)
        invariant Spreading(before, final[..], image, n, outN, w, h, p, i, j)
      {
        var outY, outX := j * YSpacing(p) + YOrig(p), i * XSpacing(p) + XOrig(p);
        SpreadPixel(before, final[..], image, n, outN, w, h, p, i, j);
        SourcePixel(image, n, outN, x, i, j);
        CopyMemory(final, PixelStart(w, outN, outX, outY), out[..], (j * x + i) * outN, outN);
      }
      SpreadRow(before, final[..], image, n, outN, w, h, p, j);
    }
  }

  // ------------------------------------------------------------ the whole picture

  // All pixels of these passes are in their places.
  ghost predicate Assembled(bytes: seq<byte>, images: seq<seq<Row>>, n: nat, outN: nat, w: nat, h: nat)
    requires PassesSoFar(images, n, w, h)
  {
    forall col, row :: 0 <= col < w && 0 <= row < h ==> CellAssembled(bytes, images, n, outN, w, h, col, row)
  }

  ghost predicate CellAssembled(bytes: seq<byte>, images: seq<seq<Row>>, n: nat, outN: nat, w: nat, h: nat,
                                col: nat, row: nat)
    requires PassesSoFar(images, n, w, h) && col < w && row < h
  {
    var p := PassOf(col, row);
    PixelOfPass(w, h, col, row);
    p < |images| ==>
      (assert PassOk(images[p], n, w, h, p);
       Placed(bytes, w, outN, col, row, images[p][row / YSpacing(p)][col / XSpacing(p)]))
  }

  lemma MorePasses(images: seq<seq<Row>>, image: seq<Row>, n: nat, w: nat, h: nat, p: Pass)
    requires PassesSoFar(images, n, w, h) && |images| == p && PassOk(image, n, w, h, p)
    ensures PassesSoFar(images + [image], n, w, h)
  {
    forall q: Pass | q < p + 1 ensures PassOk((images + [image])[q], n, w, h, q) {
      if q < p { assert PassOk(images[q], n, w, h, q); }
    }
  }

  // Spreading a pass, or skipping one without pixels, assembles it too.
  lemma AssembledNext(before: seq<byte>, bytes: seq<byte>, images: seq<seq<Row>>, image: seq<Row>, n: nat, outN: nat,
                      w: nat, h: nat, p: Pass)
    requires PassesSoFar(images, n, w, h) && |images| == p && PassOk(image, n, w, h, p)
    requires Assembled(before, images, n, outN, w, h)
    requires if PassWidth(w, p) > 0 && PassHeight(h, p) > 0
      then Spreading(before, bytes, image, n, outN, w, h, p, 0, PassHeight(h, p))
      else bytes == before
    ensures PassesSoFar(images + [image], n, w, h) && Assembled(bytes, images + [image], n, outN, w, h)
  {
    hide PassOf, XSpacing, YSpacing, PassWidth, PassHeight, PixelStart, OutPixel;
    MorePasses(images, image, n, w, h, p);
    var images' := images + [image];
    forall col, row | 0 <= col < w && 0 <= row < h ensures CellAssembled(bytes, images', n, outN, w, h, col, row) {
      PixelOfPass(w, h, col, row);
      assert CellAssembled(before, images, n, outN, w, h, col, row);
      if PassWidth(w, p) > 0 && PassHeight(h, p) > 0 {
        assert CellSpread(before, bytes, image, n, outN, w, h, p, 0, PassHeight(h, p), col, row);
        StartInside(w, h, outN, col, row);
      }
    }
  }

  lemma AssembledAll(bytes: seq<byte>, images: seq<seq<Row>>, n: nat, outN: nat, w: nat, h: nat)
    requires PassesSoFar(images, n, w, h) && |images| == 7 && Assembled(bytes, images, n, outN, w, h)
    requires 0 < n <= outN <= n + 1 && |bytes| == PictureSize(w, h, outN)
    ensures PassesOk(images, n, w, h) && bytes == FlatRows(Merged(images, n, w, h), outN)
  {
    hide FlatRows, OutPixel, PixelStart, PassOf, XSpacing, YSpacing;
    var merged := Merged(images, n, w, h);
    forall col, row | 0 <= col < w && 0 <= row < h ensures Placed(bytes, w, outN, col, row, merged[row][col]) {
      assert CellAssembled(bytes, images, n, outN, w, h, col, row);
    }
    WholePicture(bytes, merged, n, outN, w);
  }

  // Pass q in a list that starts with pass p.
  ghost predicate PassFrom(images: seq<seq<Row>>, n: nat, w: nat, h: nat, p: nat, q: Pass)
    requires w > 0 && h > 0
  {
    p <= q && q - p < |images| && PassOk(images[q - p], n, w, h, q)
  }

  lemma {:induction false} DecodedPassesOk(raw: seq<byte>, at: nat, n: nat, w: nat, h: nat, p: nat, q: Pass)
    requires at <= |raw| && w > 0 && h > 0 && p <= q
    ensures var r := DecodePasses(raw, at, n, w, h, p);
      r.Some? ==> PassFrom(r.value, n, w, h, p, q)
    decreases 7 - p
  {
    hide DecodeImage, ImageSize, PassOk, PassWidth, PassHeight;
    var r := DecodePasses(raw, at, n, w, h, p);
    if r.Some? {
      if p == q {
        DecodedPassOk(raw, at, n, w, h, p);
      } else {
        var x, y := PassWidth(w, p), PassHeight(h, p);
        var size := if x > 0 && y > 0 then ImageSize(n, x, y) else 0;
        DecodedPassesOk(raw, at + size, n, w, h, p + 1, q);
        assert r.value[1..] == DecodePasses(raw, at + size, n, w, h, p + 1).value;
      }
    }
  }

  lemma DecodedPassOk(raw: seq<byte>, at: nat, n: nat, w: nat, h: nat, p: Pass)
    requires at <= |raw| && w > 0 && h > 0 && DecodePasses(raw, at, n, w, h, p).Some?
    ensures PassOk(DecodePasses(raw, at, n, w, h, p).value[0], n, w, h, p)
  {
    var x, y := PassWidth(w, p), PassHeight(h, p);
    if x > 0 && y > 0 {
      RowOfSize(n, x, y);
      var image := DecodeImage(raw, at, n, x, y);
      assert image.Some? && |image.value| == y && ImageOk(image.value, n, x);
    }
  }

  // The picture that the data stand for: a single image, or seven passes.
  ghost function DecodePng(raw: seq<byte>, n: nat, w: nat, h: nat, interlaced: bool): (r: Option<seq<Row>>)
    requires w > 0 && h > 0
    ensures r.Some? ==> |r.value| == h && ImageOk(r.value, n, w)
  {
    if !interlaced then
      if |raw| == ImageSize(n, w, h) then DecodeImage(raw, 0, n, w, h) else None
    else
      match DecodePasses(raw, 0, n, w, h, 0)
      case None => None
      case Some(images) =>
        assert PassesOk(images, n, w, h) by { AllDecodedOk(raw, n, w, h); }
        Some(Merged(images, n, w, h))
  }

  lemma AllDecodedOk(raw: seq<byte>, n: nat, w: nat, h: nat)
    requires w > 0 && h > 0
    ensures var r := DecodePasses(raw, 0, n, w, h, 0); r.Some? ==> PassesOk(r.value, n, w, h)
  {
    var r := DecodePasses(raw, 0, n, w, h, 0);
    if r.Some? {
      forall q: Pass ensures PassOk(r.value[q], n, w, h, q) {
        DecodedPassesOk(raw, 0, n, w, h, 0, q);
        assert PassFrom(r.value, n, w, h, 0, q);
      }
    }
  }

  // The passes decoded so far and those to come are all of them.
  ghost predicate Underway(raw: seq<byte>, at: nat, n: nat, w: nat, h: nat, images: seq<seq<Row>>) {
    && at <= |raw| && PassesSoFar(images, n, w, h)
    && DecodePasses(raw, 0, n, w, h, 0) == match DecodePasses(raw, at, n, w, h, |images|)
                                           case None => None
                                           case Some(rest) => Some(images + rest)
  }

  lemma UnderwayStarts(raw: seq<byte>, n: nat, w: nat, h: nat)
    requires w > 0 && h > 0
    ensures Underway(raw, 0, n, w, h, [])
  {
    var r := DecodePasses(raw, 0, n, w, h, 0);
    if r.Some? { assert [] + r.value == r.value; }
  }

  lemma PassDecoded(raw: seq<byte>, at: nat, n: nat, w: nat, h: nat, p: Pass, image: seq<Row>, size: nat)
    requires at <= |raw| && w > 0 && h > 0
    requires var x, y := PassWidth(w, p), PassHeight(h, p);
      if x > 0 && y > 0 then
        && size == ImageSize(n, x, y) && at + size <= |raw| && !(x == w && y == h && at + size != |raw|)
        && DecodeImage(raw, at, n, x, y) == Some(image)
      else size == 0 && image == []
    ensures at + size <= |raw|
    ensures var rest := DecodePasses(raw, at + size, n, w, h, p + 1);
      DecodePasses(raw, at, n, w, h, p) == if rest.None? then None else Some([image] + rest.value)
  {
    hide DecodeImage, ImageSize, PassWidth, PassHeight;
  }

  lemma PassFails(raw: seq<byte>, at: nat, n: nat, w: nat, h: nat, p: Pass)
    requires at <= |raw| && w > 0 && h > 0
    requires var x, y := PassWidth(w, p), PassHeight(h, p);
      && x > 0 && y > 0
      && (at + ImageSize(n, x, y) > |raw| || (x == w && y == h && at + ImageSize(n, x, y) != |raw|)
          || DecodeImage(raw, at, n, x, y) == None)
    ensures DecodePasses(raw, at, n, w, h, p) == None
  {
    hide DecodeImage, ImageSize, PassWidth, PassHeight;
    SizePositive(n, PassWidth(w, p), PassHeight(h, p));
  }

  lemma SizePositive(n: nat, x: nat, y: nat)
    requires y > 0
    ensures ImageSize(n, x, y) > 0
  {
    hide ImageSize;
    RowOfSize(n, x, y);
    MulStep(x, n);
  }

  lemma UnderwayGoesOn(raw: seq<byte>, at: nat, n: nat, w: nat, h: nat, images: seq<seq<Row>>, p: Pass,
                       image: seq<Row>, size: nat)
    requires Underway(raw, at, n, w, h, images) && |images| == p && PassesSoFar(images + [image], n, w, h)
    requires at + size <= |raw|
    requires var rest := DecodePasses(raw, at + size, n, w, h, p + 1);
      DecodePasses(raw, at, n, w, h, p) == if rest.None? then None else Some([image] + rest.value)
    ensures at + size <= |raw| && Underway(raw, at + size, n, w, h, images + [image])
  {
    hide DecodePasses, PassOk;
    var rest := DecodePasses(raw, at + size, n, w, h, p + 1);
    if rest.Some? { assert images + ([image] + rest.value) == images + [image] + rest.value; }
  }

  lemma UnderwayFails(raw: seq<byte>, at: nat, n: nat, w: nat, h: nat, images: seq<seq<Row>>, p: Pass)
    requires Underway(raw, at, n, w, h, images) && |images| == p && DecodePasses(raw, at, n, w, h, p) == None
    ensures DecodePasses(raw, 0, n, w, h, 0) == None
  {
  }

  lemma UnderwayEnds(raw: seq<byte>, at: nat, n: nat, w: nat, h: nat, images: seq<seq<Row>>)
    requires Underway(raw, at, n, w, h, images) && |images| == 7
    ensures DecodePasses(raw, 0, n, w, h, 0) == Some(images)
  {
    assert images + [] == images;
  }

  // The picture of w by h pixels, with outN bytes per pixel from n in the data.
  method CreateImage(raw: seq<byte>, n: nat, outN: nat, w: nat, h: nat, interlaced: bool) returns (ok: bool,
                     out: array<byte>)
    requires 0 < n <= outN <= n + 1 && w > 0 && h > 0
    ensures var r := DecodePng(raw, n, w, h, interlaced);
      ok == r.Some? && (ok ==> out[..] == FlatRows(r.value, outN) && Shown(out[..], r.value, n, outN, w))
  {
    hide FlatRows, DecodeImage, ImageSize, DecodePasses, Underway, Assembled, PassOk, Merged, Shown;
    if !interlaced {
      ok, out := CreateImageRaw(raw, 0, n, outN, w, h, true);
    } else {
      AllDecodedOk(raw, n, w, h);
      ok, out := Deinterlace(raw, n, outN, w, h);
    }
    if ok { PictureShown(DecodePng(raw, n, w, h, interlaced).value, n, outN, w); }
  }

  // One pass: decoded from the data at `at` and spread over the picture.
  method DecodePass(final: array<byte>, raw: seq<byte>, at: nat, n: nat, outN: nat, w: nat, h: nat, p: Pass,
                    ghost images: seq<seq<Row>>)
    returns (done: bool, size: nat, ghost image: seq<Row>)
    requires 0 < n <= outN <= n + 1 && w > 0 && h > 0 && final.Length == PictureSize(w, h, outN)
    requires |images| == p && at <= |raw| && PassesSoFar(images, n, w, h) && Assembled(final[..], images, n, outN, w, h)
    modifies final
    ensures !done ==> DecodePasses(raw, at, n, w, h, p) == None
    ensures done ==>
      && PassesSoFar(images + [image], n, w, h) && Assembled(final[..], images + [image], n, outN, w, h)
      && at + size <= |raw|
      && var rest := DecodePasses(raw, at + size, n, w, h, p + 1);
         DecodePasses(raw, at, n, w, h, p) == if rest.None? then None else Some([image] + rest.value)
  {
    hide FlatRows, DecodeImage, DecodePasses, Assembled, PassOk, PassWidth, PassHeight, Spreading, ImageSize;
    hide PassesSoFar;
    var x, y := PassWidth(w, p), PassHeight(h, p);
    ghost var before := final[..];
    image, size := [], 0;
    if x > 0 && y > 0 {
      var out;
      done, out := CreateImageRaw(raw, at, n, outN, x, y, x == w && y == h);
      if !done {
        PassFails(raw, at, n, w, h, p);
        return;
      }
      size := (x * n + 1) * y;
      ImageLength(n, x, y);
      image := DecodeImage(raw, at, n, x, y).value;
      ImagePassOk(raw, at, n, w, h, p);
      SpreadPass(final, out, image, p, x, y, n, outN, w, h);
    } else {
      NoPixelsOk(n, w, h, p);
    }
    AssembledNext(before, final[..], images, image, n, outN, w, h, p);
    PassDecoded(raw, at, n, w, h, p, image, size);
    done := true;
  }

  method Deinterlace(raw: seq<byte>, n: nat, outN: nat, w: nat, h: nat) returns (ok: bool, final: array<byte>)
    requires 0 < n <= outN <= n + 1 && w > 0 && h > 0
    ensures var r := DecodePasses(raw, 0, n, w, h, 0);
      && ok == r.Some?
      && (ok ==> PassesOk(r.value, n, w, h) && final[..] == FlatRows(Merged(r.value, n, w, h), outN))
  {
    hide FlatRows, DecodePasses, Assembled, Merged, PassesSoFar, PassesOk, Underway;
    NothingAssembled(n, w, h);
    UnderwayStarts(raw, n, w, h);
    final := new byte[PictureSize(w, h, outN)];
    ghost var images: seq<seq<Row>> := [];
    var at: nat := 0;
    for p := 0 to 7
      invariant |images| == p && at <= |raw| && Underway(raw, at, n, w, h, images)
      invariant PassesSoFar(images, n, w, h) && Assembled(final[..], images, n, outN, w, h)
    {
      var done, size;
      ghost var image;
      done, size, image := DecodePass(final, raw, at, n, outN, w, h, p, images);
      if !done {
        UnderwayFails(raw, at, n, w, h, images, p);
        return false, final;
      }
      UnderwayGoesOn(raw, at, n, w, h, images, p, image, size);
      images, at := images + [image], at + size;
    }
    UnderwayEnds(raw, at, n, w, h, images);
    AssembledAll(final[..], images, n, outN, w, h);
    ok := true;
  }

  lemma NothingAssembled(n: nat, w: nat, h: nat)
    requires w > 0 && h > 0
    ensures PassesSoFar([], n, w, h)
    ensures forall bytes, outN :: Assembled(bytes, [], n, outN, w, h)
  {
  }

  lemma ImagePassOk(raw: seq<byte>, at: nat, n: nat, w: nat, h: nat, p: Pass)
    requires w > 0 && h > 0 && PassWidth(w, p) > 0 && at + ImageSize(n, PassWidth(w, p), PassHeight(h, p)) <= |raw|
    requires DecodeImage(raw, at, n, PassWidth(w, p), PassHeight(h, p)).Some?
    ensures PassOk(DecodeImage(raw, at, n, PassWidth(w, p), PassHeight(h, p)).value, n, w, h, p)
  {
  }

  lemma NoPixelsOk(n: nat, w: nat, h: nat, p: Pass)
    requires w > 0 && h > 0 && (PassWidth(w, p) == 0 || PassHeight(h, p) == 0)
    ensures PassOk([], n, w, h, p)
  {
  }

  // ------------------------------------------------------------ round trip

  // A filter for each row of each pass.
  ghost predicate FiltersOk(images: seq<seq<Row>>, filters: seq<seq<byte>>) {
    && |images| == |filters| == 7
    && forall p: Pass :: FilterListOk(images[p], filters[p])
  }

  ghost predicate FilterListOk(image: seq<Row>, filters: seq<byte>) {
    |image| == |filters| && forall j :: 0 <= j < |filters| ==> filters[j] <= 4
  }

  // The passes from number p on; those without pixels are left out.
  ghost function EncodePasses(images: seq<seq<Row>>, filters: seq<seq<byte>>, n: nat, w: nat, h: nat, p: nat): seq<byte>
    requires PassesOk(images, n, w, h) && FiltersOk(images, filters) && p <= 7
    decreases 7 - p
  {
    if p == 7 then []
    else
      assert PassOk(images[p], n, w, h, p) && FilterListOk(images[p], filters[p]);
      (if PassWidth(w, p) > 0 && PassHeight(h, p) > 0 then EncodeImage(images[p], filters[p], n, PassWidth(w, p))
       else [])
      + EncodePasses(images, filters, n, w, h, p + 1)
  }

  // Only the first pass of a single pixel is as large as the picture.
  lemma WholePass(w: nat, h: nat, p: Pass)
    requires w > 0 && h > 0 && PassWidth(w, p) == w && PassHeight(h, p) == h
    ensures w == 1 && h == 1
  {
  }

  lemma {:induction false} NothingMore(images: seq<seq<Row>>, filters: seq<seq<byte>>, n: nat, p: nat)
    requires PassesOk(images, n, 1, 1) && FiltersOk(images, filters) && 0 < p <= 7
    ensures EncodePasses(images, filters, n, 1, 1, p) == []
    decreases 7 - p
  {
    if p < 7 { NothingMore(images, filters, n, p + 1); }
  }

  lemma {:induction false} PassesRoundTrip(before: seq<byte>, images: seq<seq<Row>>, filters: seq<seq<byte>>,
                                           n: nat, w: nat, h: nat, p: nat)
    requires PassesOk(images, n, w, h) && FiltersOk(images, filters) && p <= 7
    ensures DecodePasses(before + EncodePasses(images, filters, n, w, h, p), |before|, n, w, h, p) == Some(images[p..])
    decreases 7 - p
  {
    hide DecodeImage, EncodeImage, ImageSize, PassWidth, PassHeight, DecodePasses;
    var raw := before + EncodePasses(images, filters, n, w, h, p);
    if p == 7 {
      NoPassesLeft(raw, |before|, n, w, h);
    } else {
      var x, y, image := PassWidth(w, p), PassHeight(h, p), images[p];
      var rest := EncodePasses(images, filters, n, w, h, p + 1);
      assert PassOk(image, n, w, h, p) && FilterListOk(image, filters[p]);
      var bytes: seq<byte> := if x > 0 && y > 0 then EncodeImage(image, filters[p], n, x) else [];
      assert raw == before + bytes + rest == (before + bytes) + rest;
      PassesRoundTrip(before + bytes, images, filters, n, w, h, p + 1);
      if x > 0 && y > 0 {
        ImageRoundTrip(before, image, filters[p], n, x, rest);
        if x == w && y == h {
          WholePass(w, h, p);
          NothingMore(images, filters, n, p + 1);
        }
      }
      PassDecoded(raw, |before|, n, w, h, p, image, |bytes|);
      assert images[p..] == [image] + images[p + 1..];
    }
  }

  lemma NoPassesLeft(raw: seq<byte>, at: nat, n: nat, w: nat, h: nat)
    requires at <= |raw| && w > 0 && h > 0
    ensures DecodePasses(raw, at, n, w, h, 7) == Some([])
  {
  }

  // What PNG makes of a picture, interlaced, with any filters, is decoded to the picture.
  lemma InterlacedRoundTrip(rows: seq<Row>, filters: seq<seq<byte>>, n: nat, w: nat, h: nat)
    requires w > 0 && h > 0 && |rows| == h && ImageOk(rows, n, w) && FiltersOk(AllPasses(rows, n, w, h), filters)
    ensures DecodePng(EncodePasses(AllPasses(rows, n, w, h), filters, n, w, h, 0), n, w, h, true) == Some(rows)
  {
    hide EncodePasses, DecodePasses, Merged, Split, FiltersOk;
    var images := AllPasses(rows, n, w, h);
    var raw := EncodePasses(images, filters, n, w, h, 0);
    assert [] + raw == raw && images[0..] == images;
    PassesRoundTrip([], images, filters, n, w, h, 0);
    MergedSplit(rows, n, w, h);
  }

  // And so is what it makes of the picture as a whole.
  lemma PlainRoundTrip(rows: seq<Row>, filters: seq<byte>, n: nat, w: nat, h: nat)
    requires w > 0 && h > 0 && |rows| == h && ImageOk(rows, n, w) && FilterListOk(rows, filters)
    ensures DecodePng(EncodeImage(rows, filters, n, w), n, w, h, false) == Some(rows)
  {
    hide EncodeImage, DecodeImage, ImageSize;
    var raw := EncodeImage(rows, filters, n, w);
    assert [] + raw + [] == raw;
    ImageRoundTrip([], rows, filters, n, w, []);
  }
}
