/**
  Interlaced PNG images (section 2.6 of RFC 2083): seven passes, each an image of its
  own, whose pixels are spread over the picture.
 */
module Adam7 {
  import opened Arithmetic
  import opened PngFilter

  type Pass = p: nat | p < 7

  function XOrig(p: Pass): nat {
    match p case 1 => 4 case 3 => 2 case 5 => 1 case _ => 0
  }

  function YOrig(p: Pass): nat {
    match p case 2 => 4 case 4 => 2 case 6 => 1 case _ => 0
  }

  function XSpacing(p: Pass): (s: nat)
    ensures s in {1, 2, 4, 8} && XOrig(p) < s
  {
    match p case 0 => 8 case 1 => 8 case 2 => 4 case 3 => 4 case 4 => 2 case 5 => 2 case _ => 1
  }

  function YSpacing(p: Pass): (s: nat)
    ensures s in {2, 4, 8} && YOrig(p) < s
  {
    match p case 0 => 8 case 1 => 8 case 2 => 8 case 3 => 4 case 4 => 4 case _ => 2
  }

  // How many columns and rows of a picture belong to a pass.

  function PassWidth(w: nat, p: Pass): nat
    requires w > 0
  {
    (w - XOrig(p) + XSpacing(p) - 1) / XSpacing(p)
  }

  function PassHeight(h: nat, p: Pass): nat
    requires h > 0
  {
    (h - YOrig(p) + YSpacing(p) - 1) / YSpacing(p)
  }

  // ------------------------------------------------------------ which pass owns a pixel

  predicate InPass(p: Pass, col: nat, row: nat) {
    col % XSpacing(p) == XOrig(p) && row % YSpacing(p) == YOrig(p)
  }

  function PassOf(col: nat, row: nat): Pass {
    if row % 2 == 1 then 6
    else if col % 2 == 1 then 5
    else if row % 4 == 2 then 4
    else if col % 4 == 2 then 3
    else if row % 8 == 4 then 2
    else if col % 8 == 4 then 1
    else 0
  }

  lemma Mods(x: nat)
    ensures x % 2 == x % 8 % 2 && x % 4 == x % 8 % 4
  {
    var q, r := x / 8, x % 8;
    DivMod(x, 2, 4 * q + r / 2, r % 2);
    DivMod(x, 4, 2 * q + r / 4, r % 4);
  }

  // Every pixel belongs to exactly one pass.
  lemma OnePass(p: Pass, col: nat, row: nat)
    ensures InPass(p, col, row) <==> p == PassOf(col, row)
  {
    Mods(col);
    Mods(row);
    var c, r := col % 8, row % 8;
    assert c % 2 == 0 ==> c in {0, 2, 4, 6};
    assert r % 2 == 0 ==> r in {0, 2, 4, 6};
  }

  // Pixel (i, j) of a pass is this one of the picture, and within it.
  lemma PassPixel(w: nat, h: nat, p: Pass, i: nat, j: nat)
    requires 0 < w && 0 < h && i < PassWidth(w, p) && j < PassHeight(h, p)
    ensures var col, row := i * XSpacing(p) + XOrig(p), j * YSpacing(p) + YOrig(p);
      && col < w && row < h && PassOf(col, row) == p
      && col / XSpacing(p) == i && row / YSpacing(p) == j
  {
    Spread(w, XOrig(p), XSpacing(p), i);
    Spread(h, YOrig(p), YSpacing(p), j);
    OnePass(p, i * XSpacing(p) + XOrig(p), j * YSpacing(p) + YOrig(p));
  }

  lemma Spread(w: nat, orig: nat, spacing: nat, i: nat)
    requires 0 < w && orig < spacing && spacing in {1, 2, 4, 8} && i < (w - orig + spacing - 1) / spacing
    ensures var col := i * spacing + orig;
      col < w && col % spacing == orig && col / spacing == i
  {
  }

  // And every pixel of the picture is one of its pass.
  lemma PixelOfPass(w: nat, h: nat, col: nat, row: nat)
    requires col < w && row < h
    ensures var p := PassOf(col, row);
      && col / XSpacing(p) < PassWidth(w, p) && row / YSpacing(p) < PassHeight(h, p)
      && col == col / XSpacing(p) * XSpacing(p) + XOrig(p)
      && row == row / YSpacing(p) * YSpacing(p) + YOrig(p)
  {
    var p := PassOf(col, row);
    OnePass(p, col, row);
    Gathered(w, XOrig(p), XSpacing(p), col);
    Gathered(h, YOrig(p), YSpacing(p), row);
  }

  lemma Gathered(w: nat, orig: nat, spacing: nat, col: nat)
    requires orig < spacing && spacing in {1, 2, 4, 8} && col < w && col % spacing == orig
    ensures col / spacing < (w - orig + spacing - 1) / spacing && col == col / spacing * spacing + orig
  {
  }

  // ------------------------------------------------------------ splitting and merging

  // The images of the seven passes have the sizes that a w by h picture gives them.
  ghost predicate PassesOk(images: seq<seq<Row>>, n: nat, w: nat, h: nat) {
    && w > 0 && h > 0 && |images| == 7
    && forall p: Pass :: PassOk(images[p], n, w, h, p)
  }

  ghost predicate PassOk(image: seq<Row>, n: nat, w: nat, h: nat, p: Pass)
    requires w > 0 && h > 0
  {
    if PassWidth(w, p) == 0 then image == []
    else |image| == PassHeight(h, p) && ImageOk(image, n, PassWidth(w, p))
  }

  lemma PassHasPixel(images: seq<seq<Row>>, n: nat, w: nat, h: nat, col: nat, row: nat)
    requires PassesOk(images, n, w, h) && col < w && row < h
    ensures var p := PassOf(col, row);
      && row / YSpacing(p) < |images[p]| && col / XSpacing(p) < |images[p][row / YSpacing(p)]|
      && |images[p][row / YSpacing(p)][col / XSpacing(p)]| == n
  {
    var p := PassOf(col, row);
    PixelOfPass(w, h, col, row);
    assert PassOk(images[p], n, w, h, p);
  }

  ghost function MergedPixel(images: seq<seq<Row>>, n: nat, w: nat, h: nat, col: nat, row: nat): (px: Pixel)
    requires PassesOk(images, n, w, h) && col < w && row < h
    ensures |px| == n
  {
    PassHasPixel(images, n, w, h, col, row);
    var p := PassOf(col, row);
    images[p][row / YSpacing(p)][col / XSpacing(p)]
  }

  // The picture that the passes make up.
  ghost function Merged(images: seq<seq<Row>>, n: nat, w: nat, h: nat): (rows: seq<Row>)
    requires PassesOk(images, n, w, h)
    ensures |rows| == h && ImageOk(rows, n, w)
    ensures forall row, col :: 0 <= row < h && 0 <= col < w ==> rows[row][col] == MergedPixel(images, n, w, h, col, row)
  {
    seq(h, row requires 0 <= row < h =>
      seq(w, col requires 0 <= col < w => MergedPixel(images, n, w, h, col, row)))
  }

  // Row j of one pass of a picture.
  ghost function SplitRow(rows: seq<Row>, n: nat, w: nat, h: nat, p: Pass, j: nat): (line: Row)
    requires w > 0 && h > 0 && |rows| == h && ImageOk(rows, n, w) && j < PassHeight(h, p)
    ensures |line| == PassWidth(w, p) && RowOk(line, n)
    ensures forall i :: 0 <= i < PassWidth(w, p) ==> line[i] == SplitPixel(rows, n, w, h, p, i, j)
  {
    seq(PassWidth(w, p), i requires 0 <= i < PassWidth(w, p) => SplitPixel(rows, n, w, h, p, i, j))
  }

  // Pixel (i, j) of a pass.
  ghost function SplitPixel(rows: seq<Row>, n: nat, w: nat, h: nat, p: Pass, i: nat, j: nat): (px: Pixel)
    requires w > 0 && h > 0 && |rows| == h && ImageOk(rows, n, w) && i < PassWidth(w, p) && j < PassHeight(h, p)
    ensures |px| == n
  {
    PassPixel(w, h, p, i, j);
    rows[j * YSpacing(p) + YOrig(p)][i * XSpacing(p) + XOrig(p)]
  }

  // One pass of a picture.
  ghost function Split(rows: seq<Row>, n: nat, w: nat, h: nat, p: Pass): (image: seq<Row>)
    requires w > 0 && h > 0 && |rows| == h && ImageOk(rows, n, w)
    ensures PassOk(image, n, w, h, p)
    ensures PassWidth(w, p) > 0 ==> forall j :: 0 <= j < PassHeight(h, p) ==> image[j] == SplitRow(rows, n, w, h, p, j)
  {
    if PassWidth(w, p) == 0 then []
    else seq(PassHeight(h, p), j requires 0 <= j < PassHeight(h, p) => SplitRow(rows, n, w, h, p, j))
  }

  ghost function AllPasses(rows: seq<Row>, n: nat, w: nat, h: nat): (images: seq<seq<Row>>)
    requires w > 0 && h > 0 && |rows| == h && ImageOk(rows, n, w)
    ensures PassesOk(images, n, w, h)
    ensures forall p: Pass :: images[p] == Split(rows, n, w, h, p)
  {
    seq(7, p requires 0 <= p < 7 => Split(rows, n, w, h, p))
  }

  // Splitting a picture into passes and merging them gives it back.
  lemma MergedSplit(rows: seq<Row>, n: nat, w: nat, h: nat)
    requires w > 0 && h > 0 && |rows| == h && ImageOk(rows, n, w)
    ensures Merged(AllPasses(rows, n, w, h), n, w, h) == rows
  {
    hide PassWidth, PassHeight, XSpacing, YSpacing, XOrig, YOrig, PassOf, Split, SplitRow, AllPasses;
    var images := AllPasses(rows, n, w, h);
    var merged := Merged(images, n, w, h);
    forall row | 0 <= row < h ensures merged[row] == rows[row] {
      forall col | 0 <= col < w ensures merged[row][col] == rows[row][col] {
        PixelOfPass(w, h, col, row);
        var p := PassOf(col, row);
        var image := Split(rows, n, w, h, p);
        assert images[p] == image;
        var i, j := col / XSpacing(p), row / YSpacing(p);
        assert image[j] == SplitRow(rows, n, w, h, p, j);
        assert image[j][i] == SplitPixel(rows, n, w, h, p, i, j);
      }
    }
  }
}
