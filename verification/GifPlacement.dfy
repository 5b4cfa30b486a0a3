/**
  Where stb_image puts the pixels of a GIF raster: left to right in rows that follow one
  another or, in an interlaced image, in the four passes of Appendix E of GIF89a.
 */
module GifPlacement {
  import opened Arithmetic
  import opened Bits
  import opened GifLzw
  import opened Splicing

  // The rectangle of an image in a canvas of lines of lineSize bytes, four per pixel.
  datatype Frame = Frame(lineSize: nat, x: nat, y: nat, w: nat, h: nat, interlaced: bool) {
    predicate Valid() { 0 < w && 4 * (x + w) <= lineSize }
  }

  // The next position: `row` counts within the rectangle, the rows of the current pass
  // are `stride` apart and `parse` passes are to come.
  datatype Cursor = Cursor(col: nat, row: nat, stride: nat, parse: nat)

  function Start(f: Frame): Cursor {
    if f.interlaced then Cursor(0, 0, 8, 3) else Cursor(0, 0, 1, 0)
  }

  // Behind the last row of a pass, the first row of the next pass that has any.
  function NextPass(h: nat, c: Cursor): Cursor
    decreases c.parse
  {
    if c.row >= h && c.parse > 0 then
      NextPass(h, Cursor(c.col, Pow2(c.parse) / 2, Pow2(c.parse), c.parse - 1))
    else c
  }

  function Advance(f: Frame, c: Cursor): Cursor {
    if c.col + 1 < f.w then c.(col := c.col + 1)
    else NextPass(f.h, Cursor(0, c.row + c.stride, c.stride, c.parse))
  }

  // The byte position of a pixel.
  function Address(f: Frame, col: nat, row: nat): nat {
    4 * (f.x + col) + (f.y + row) * f.lineSize
  }

  // ------------------------------------------------------------ the order of the rows

  // Every stride-th row from `row` on.
  function Every(h: nat, row: nat, stride: nat): (rows: seq<nat>)
    requires stride > 0
    decreases if row < h then h - row else 0
  {
    if row < h then [row] + Every(h, row + stride, stride) else []
  }

  // The order in which rows are transmitted.
  function Rows(f: Frame): seq<nat> {
    if f.interlaced then Every(f.h, 0, 8) + Every(f.h, 4, 8) + Every(f.h, 2, 4) + Every(f.h, 1, 2)
    else Every(f.h, 0, 1)
  }

  function EveryCount(h: nat, row: nat, stride: nat): nat
    requires stride in {1, 2, 4, 8}
  {
    if row < h then (h - row + stride - 1) / stride else 0
  }

  lemma {:induction false} EveryAt(h: nat, row: nat, stride: nat, k: nat)
    requires stride in {1, 2, 4, 8}
    ensures |Every(h, row, stride)| == EveryCount(h, row, stride)
    ensures k < EveryCount(h, row, stride) ==> Every(h, row, stride)[k] == row + k * stride < h
    decreases if row < h then h - row else 0
  {
    if row < h {
      EveryAt(h, row + stride, stride, if k > 0 then k - 1 else 0);
      if k > 0 { MulStep(k - 1, stride); }
    }
  }

  // Which row is number i of an interlaced image.
  function InterlacedRow(h: nat, i: nat): nat
    requires i < h
  {
    PassRow(i, EveryCount(h, 0, 8), EveryCount(h, 4, 8), EveryCount(h, 2, 4))
  }

  function PassRow(i: nat, a: nat, b: nat, c: nat): nat {
    if i < a then 8 * i
    else if i < a + b then 8 * (i - a) + 4
    else if i < a + b + c then 4 * (i - a - b) + 2
    else 2 * (i - a - b - c) + 1
  }

  lemma Counts(h: nat)
    ensures EveryCount(h, 0, 1) == h
    ensures EveryCount(h, 0, 8) + EveryCount(h, 4, 8) + EveryCount(h, 2, 4) + EveryCount(h, 1, 2) == h
  {
    var q, r := h / 8, h % 8;
    assert h == 8 * q + r;
    assert EveryCount(h, 0, 8) == q + if r > 0 then 1 else 0;
    assert EveryCount(h, 4, 8) == q + if r > 4 then 1 else 0;
    assert EveryCount(h, 2, 4) == 2 * q + if r > 6 then 2 else if r > 2 then 1 else 0;
    assert EveryCount(h, 1, 2) == 4 * q + r / 2;
  }

  lemma At4(a: seq<nat>, b: seq<nat>, c: seq<nat>, d: seq<nat>, i: nat)
    requires i < |a| + |b| + |c| + |d|
    ensures (a + b + c + d)[i] == if i < |a| then a[i] else if i < |a| + |b| then b[i - |a|]
      else if i < |a| + |b| + |c| then c[i - |a| - |b|] else d[i - |a| - |b| - |c|]
  {
  }

  lemma RowAt(f: Frame, i: nat)
    ensures |Rows(f)| == f.h
    ensures i < f.h ==> Rows(f)[i] < f.h && Rows(f)[i] == if f.interlaced then InterlacedRow(f.h, i) else i
  {
    hide Every, EveryCount;
    var h := f.h;
    Counts(h);
    if f.interlaced {
      var a, b, c := EveryCount(h, 0, 8), EveryCount(h, 4, 8), EveryCount(h, 2, 4);
      EveryAt(h, 0, 8, i);
      EveryAt(h, 4, 8, if i < a then 0 else i - a);
      EveryAt(h, 2, 4, if i < a + b then 0 else i - a - b);
      EveryAt(h, 1, 2, if i < a + b + c then 0 else i - a - b - c);
      if i < h { At4(Every(h, 0, 8), Every(h, 4, 8), Every(h, 2, 4), Every(h, 1, 2), i); }
    } else {
      EveryAt(h, 0, 1, i);
    }
  }

  // Each row of the rectangle comes exactly once, however small the image is.
  lemma RowsPermute(f: Frame)
    ensures |Rows(f)| == f.h
    ensures forall i :: 0 <= i < |Rows(f)| ==> Rows(f)[i] < f.h
    ensures forall i, j :: 0 <= i < j < |Rows(f)| ==> Rows(f)[i] != Rows(f)[j]
  {
    hide Rows;
    RowAt(f, 0);
    forall i | 0 <= i < |Rows(f)| ensures Rows(f)[i] < f.h {
      RowAt(f, i);
    }
    forall i, j | 0 <= i < j < |Rows(f)| ensures Rows(f)[i] != Rows(f)[j] {
      RowAt(f, i);
      RowAt(f, j);
    }
  }

  // The rows still to come from `row` on, with so many passes left.
  function RowsFrom(h: nat, row: nat, stride: nat, parse: nat): (rows: seq<nat>)
    requires stride > 0
    decreases parse
  {
    Every(h, row, stride)
    + if parse > 0 then RowsFrom(h, Pow2(parse) / 2, Pow2(parse), parse - 1) else []
  }

  function Left(h: nat, c: Cursor): seq<nat>
    requires c.stride > 0
  {
    RowsFrom(h, c.row, c.stride, c.parse)
  }

  lemma StartRows(f: Frame)
    ensures Left(f.h, Start(f)) == Rows(f)
  {
    assert Pow2(3) == 8 && Pow2(2) == 4 && Pow2(1) == 2;
    hide Every, Pow2;
    var h := f.h;
    if f.interlaced {
      assert RowsFrom(h, 1, 2, 0) == Every(h, 1, 2) + [];
      assert RowsFrom(h, 2, 4, 1) == Every(h, 2, 4) + RowsFrom(h, 1, 2, 0);
      assert RowsFrom(h, 4, 8, 2) == Every(h, 4, 8) + RowsFrom(h, 2, 4, 1);
      assert RowsFrom(h, 0, 8, 3) == Every(h, 0, 8) + RowsFrom(h, 4, 8, 2);
    }
  }

  // Going to the next pass skips no row, and stops at one unless none is left.
  lemma {:induction false} NextPassKeeps(h: nat, c: Cursor)
    requires c.stride > 0
    ensures var c' := NextPass(h, c);
      && c'.col == c.col && c'.stride > 0
      && Left(h, c') == Left(h, c)
      && (c'.row < h || Left(h, c) == [])
    decreases c.parse
  {
    if c.row >= h && c.parse > 0 {
      NextPassKeeps(h, Cursor(c.col, Pow2(c.parse) / 2, Pow2(c.parse), c.parse - 1));
    }
  }

  // ------------------------------------------------------------ the cursor after k pixels

  // A cursor that stands on a row whenever one is left.
  ghost predicate Settled(f: Frame, c: Cursor) {
    c.stride > 0 && c.col < f.w && (c.row < f.h || Left(f.h, c) == [])
  }

  ghost function CursorAt(f: Frame, k: nat): Cursor {
    if k == 0 then Start(f)
    else
      var c := CursorAt(f, k - 1);
      if c.row < f.h then Advance(f, c) else c
  }

  // The cursor stands on column `col` of the row that is number r in the transmission
  // order, or behind the image.
  ghost predicate OnCell(f: Frame, c: Cursor, r: nat, col: nat)
    requires |Rows(f)| == f.h
  {
    && Settled(f, c)
    && (c.row < f.h <==> r < f.h)
    && (c.row < f.h ==> c.col == col && Left(f.h, c) == Rows(f)[r..] && c.row == Rows(f)[r])
  }

  lemma FirstRow(h: nat, c: Cursor)
    requires c.stride > 0 && c.row < h
    ensures Left(h, c) != [] && Left(h, c)[0] == c.row
    ensures Left(h, c)[1..] == Left(h, c.(row := c.row + c.stride))
  {
  }

  lemma StartCell(f: Frame)
    requires f.Valid() && |Rows(f)| == f.h
    ensures OnCell(f, Start(f), 0, 0)
  {
    hide Rows, Every, RowsFrom;
    StartRows(f);
    if f.h > 0 { FirstRow(f.h, Start(f)); }
  }

  lemma AdvanceCell(f: Frame, c: Cursor, r: nat, col: nat)
    requires f.Valid() && |Rows(f)| == f.h && OnCell(f, c, r, col) && c.row < f.h
    ensures if col + 1 < f.w then OnCell(f, Advance(f, c), r, col + 1) else OnCell(f, Advance(f, c), r + 1, 0)
  {
    hide Rows, Every, RowsFrom, NextPass;
    if col + 1 >= f.w {
      FirstRow(f.h, c);
      var next := Cursor(0, c.row + c.stride, c.stride, c.parse);
      NextPassKeeps(f.h, next);
      assert Left(f.h, next) == Rows(f)[r..][1..] == Rows(f)[r + 1..];
      var c' := NextPass(f.h, next);
      if c'.row < f.h { FirstRow(f.h, c'); }
    }
  }

  // After k pixels the cursor is on column k % w of row number k / w.
  lemma {:induction false} CursorPosition(f: Frame, k: nat)
    requires f.Valid()
    ensures |Rows(f)| == f.h && OnCell(f, CursorAt(f, k), k / f.w, k % f.w)
  {
    hide Rows, OnCell, Start, Advance;
    RowsPermute(f);
    if k == 0 {
      StartCell(f);
      DivMod(0, f.w, 0, 0);
    } else {
      var c := CursorAt(f, k - 1);
      CursorPosition(f, k - 1);
      NextCell(k - 1, f.w);
      if c.row < f.h {
        AdvanceCell(f, c, (k - 1) / f.w, (k - 1) % f.w);
      } else {
        StaysBehind(f, c, (k - 1) / f.w, (k - 1) % f.w, k / f.w, k % f.w);
      }
    }
  }

  lemma StaysBehind(f: Frame, c: Cursor, r: nat, col: nat, r': nat, col': nat)
    requires |Rows(f)| == f.h && OnCell(f, c, r, col) && c.row >= f.h && r' >= r
    ensures OnCell(f, c, r', col')
  {
  }

  // ------------------------------------------------------------ the picture

  datatype Canvas = Canvas(out: seq<byte>, cursor: Cursor)

  // A color table has 256 entries of four bytes: blue, green, red, alpha.
  type Colors = c: seq<byte> | |c| == 1024 witness seq(1024, i => 0)

  // A pixel in place of the four bytes `under` it: transparent ones change nothing.
  function Shade(colors: Colors, v: byte, under: seq<byte>): (r: seq<byte>)
    requires |under| == 4
    ensures |r| == 4
  {
    if colors[4 * v + 3] >= 128 then [colors[4 * v + 2], colors[4 * v + 1], colors[4 * v], colors[4 * v + 3]] else under
  }

  // The canvas has a line for each row of the frame.
  ghost predicate Fits(f: Frame, size: nat) {
    f.Valid() && (f.y + f.h) * f.lineSize <= size
  }

  lemma AddressInside(f: Frame, col: nat, row: nat, size: nat)
    requires f.Valid() && (f.y + f.h) * f.lineSize <= size && col < f.w && row < f.h
    ensures Address(f, col, row) + 4 <= size
  {
    MulMono(f.y + row, f.y + f.h, f.lineSize);
  }

  // Different pixels have different bytes.
  lemma AddressesApart(f: Frame, col: nat, row: nat, col': nat, row': nat)
    requires f.Valid() && col < f.w && col' < f.w && row < f.h && row' < f.h
    requires col != col' || row != row'
    ensures Address(f, col, row) + 4 <= Address(f, col', row') || Address(f, col', row') + 4 <= Address(f, col, row)
  {
    if row < row' { MulMono(f.y + row, f.y + row', f.lineSize); }
    if row' < row { MulMono(f.y + row', f.y + row, f.lineSize); }
  }

  // One pixel; none if the image is already full.
  function Put(f: Frame, colors: Colors, cv: Canvas, v: byte): (r: Canvas)
    requires Fits(f, |cv.out|) && cv.cursor.col < f.w
    ensures |r.out| == |cv.out| && r.cursor.col < f.w
  {
    var c := cv.cursor;
    if c.row >= f.h then cv
    else
      AddressInside(f, c.col, c.row, |cv.out|);
      var a := Address(f, c.col, c.row);
      NextPassColumn(f.h, Cursor(0, c.row + c.stride, c.stride, c.parse));
      Canvas(Spliced(cv.out, a, Shade(colors, v, cv.out[a..a + 4])), Advance(f, c))
  }

  lemma {:induction false} NextPassColumn(h: nat, c: Cursor)
    ensures NextPass(h, c).col == c.col
    decreases c.parse
  {
    if c.row >= h && c.parse > 0 {
      NextPassColumn(h, Cursor(c.col, Pow2(c.parse) / 2, Pow2(c.parse), c.parse - 1));
    }
  }

  function PutAll(f: Frame, colors: Colors, cv: Canvas, px: Pixels): (r: Canvas)
    requires Fits(f, |cv.out|) && cv.cursor.col < f.w
    ensures |r.out| == |cv.out| && r.cursor.col < f.w
  {
    if px == [] then cv else Put(f, colors, PutAll(f, colors, cv, px[..|px| - 1]), px[|px| - 1])
  }

  lemma {:induction false} PutAllAppend(f: Frame, colors: Colors, cv: Canvas, a: Pixels, b: Pixels)
    requires Fits(f, |cv.out|) && cv.cursor.col < f.w
    ensures PutAll(f, colors, cv, a + b) == PutAll(f, colors, PutAll(f, colors, cv, a), b)
    decreases |b|
  {
    hide Put, Fits;
    if b == [] {
      assert a + b == a;
    } else {
      assert (a + b)[..|a + b| - 1] == a + b[..|b| - 1];
      PutAllAppend(f, colors, cv, a, b[..|b| - 1]);
    }
  }

  // The byte position of the pixel that comes as number i.
  function CellAddress(f: Frame, i: nat): nat
    requires f.Valid() && |Rows(f)| == f.h && i / f.w < f.h
  {
    Address(f, i % f.w, Rows(f)[i / f.w])
  }

  // The first n pixels are on the canvas, and it is otherwise as before.
  ghost predicate Drawn(f: Frame, colors: Colors, before: seq<byte>, px: Pixels, out: seq<byte>)
    requires f.Valid() && |Rows(f)| == f.h
  {
    && |out| == |before|
    && (forall i: nat :: i / f.w < f.h ==> CellDrawn(f, colors, before, px, out, i))
    && (forall a: nat :: a < |out| && (forall i: nat :: i / f.w < f.h ==> !InCell(f, i, a)) ==> out[a] == before[a])
  }

  predicate InCell(f: Frame, i: nat, a: nat)
    requires f.Valid() && |Rows(f)| == f.h && i / f.w < f.h
  {
    CellAddress(f, i) <= a < CellAddress(f, i) + 4
  }

  predicate CellDrawn(f: Frame, colors: Colors, before: seq<byte>, px: Pixels, out: seq<byte>, i: nat)
    requires f.Valid() && |Rows(f)| == f.h && i / f.w < f.h
  {
    var a := CellAddress(f, i);
    && a + 4 <= |before| == |out|
    && out[a..a + 4] == if i < |px| then Shade(colors, px[i], before[a..a + 4]) else before[a..a + 4]
  }

  lemma CellInside(f: Frame, i: nat, size: nat)
    requires f.Valid() && (f.y + f.h) * f.lineSize <= size && |Rows(f)| == f.h && i / f.w < f.h
    ensures CellAddress(f, i) + 4 <= size
  {
    RowsPermute(f);
    AddressInside(f, i % f.w, Rows(f)[i / f.w], size);
  }

  lemma CellsApart(f: Frame, i: nat, j: nat)
    requires f.Valid() && |Rows(f)| == f.h && i / f.w < f.h && j / f.w < f.h && i != j
    ensures CellAddress(f, i) + 4 <= CellAddress(f, j) || CellAddress(f, j) + 4 <= CellAddress(f, i)
  {
    RowsPermute(f);
    hide Rows, Address;
    DivModDiffer(i, j, f.w);
    AddressesApart(f, i % f.w, Rows(f)[i / f.w], j % f.w, Rows(f)[j / f.w]);
  }

  // Drawing moves through the picture as the cursor does, and the pixels end up where
  // they belong: number i in column i % w of row number i / w, each in its own place.
  lemma {:induction false} PixelsPlaced(f: Frame, colors: Colors, out: seq<byte>, px: Pixels)
    requires Fits(f, |out|)
    ensures |Rows(f)| == f.h
    ensures var cv := PutAll(f, colors, Canvas(out, Start(f)), px);
      cv.cursor == CursorAt(f, |px|) && Drawn(f, colors, out, px, cv.out)
    decreases |px|
  {
    assert f.Valid();
    RowsPermute(f);
    hide Rows, Start, Advance, Drawn, OnCell, Fits;
    if px == [] {
      NothingDrawn(f, colors, out);
    } else {
      var n := |px| - 1;
      PixelsPlaced(f, colors, out, px[..n]);
      CursorPosition(f, n);
      var cv := PutAll(f, colors, Canvas(out, Start(f)), px[..n]);
      PixelPlaced(f, colors, out, px, cv);
    }
  }

  lemma NothingDrawn(f: Frame, colors: Colors, out: seq<byte>)
    requires Fits(f, |out|) && |Rows(f)| == f.h
    ensures Drawn(f, colors, out, [], out)
  {
    hide Rows, Address, Shade;
    forall i: nat | i / f.w < f.h ensures CellDrawn(f, colors, out, [], out, i) {
      CellInside(f, i, |out|);
    }
  }

  lemma PixelPlaced(f: Frame, colors: Colors, before: seq<byte>, px: Pixels, cv: Canvas)
    requires Fits(f, |before|) && |Rows(f)| == f.h && px != [] && |cv.out| == |before| && cv.cursor.col < f.w
    requires var n := |px| - 1;
      Drawn(f, colors, before, px[..n], cv.out) && OnCell(f, cv.cursor, n / f.w, n % f.w)
    ensures Drawn(f, colors, before, px, Put(f, colors, cv, px[|px| - 1]).out)
  {
    hide Rows, Address, Shade, Advance, Spliced;
    var n := |px| - 1;
    var out := Put(f, colors, cv, px[n]).out;
    forall i: nat | i / f.w < f.h ensures CellDrawn(f, colors, before, px, out, i) {
      assert CellDrawn(f, colors, before, px[..n], cv.out, i);
      var a := CellAddress(f, i);
      if cv.cursor.row < f.h {
        CellInside(f, n, |before|);
        if i != n { CellsApart(f, i, n); }
        var at := CellAddress(f, n);
        SplicedSlice(cv.out, at, Shade(colors, px[n], cv.out[at..at + 4]), a, a + 4);
      } else if i >= n {
        DivMono(n, i, f.w);
      }
    }
    forall a: nat | a < |out| && (forall i: nat :: i / f.w < f.h ==> !InCell(f, i, a)) ensures out[a] == before[a] {
      if cv.cursor.row < f.h {
        assert !InCell(f, n, a);
        CellInside(f, n, |before|);
        var at := CellAddress(f, n);
        SplicedByte(cv.out, at, Shade(colors, px[n], cv.out[at..at + 4]), a);
      }
    }
  }

  // The pass of a row, and its place in that pass.
  lemma RowInPass(h: nat, row: nat) returns (pass: nat, k: nat)
    requires row < h
    ensures pass < 4
    ensures pass == 0 ==> row == 8 * k && k < EveryCount(h, 0, 8)
    ensures pass == 1 ==> row == 4 + 8 * k && k < EveryCount(h, 4, 8)
    ensures pass == 2 ==> row == 2 + 4 * k && k < EveryCount(h, 2, 4)
    ensures pass == 3 ==> row == 1 + 2 * k && k < EveryCount(h, 1, 2)
  {
    var e, r := row / 8, row % 8;
    assert row == 8 * e + r;
    if r == 0 { pass, k := 0, e; }
    else if r == 4 { pass, k := 1, e; }
    else if r == 2 || r == 6 { pass, k := 2, 2 * e + (if r == 6 then 1 else 0); }
    else { pass, k := 3, 4 * e + (r - 1) / 2; }
  }

  lemma RowTaken(f: Frame, row: nat) returns (q: nat)
    requires row < f.h
    ensures q < f.h == |Rows(f)| && Rows(f)[q] == row
  {
    hide Rows, EveryCount;
    var h := f.h;
    q := row;
    if f.interlaced {
      var a, b, c := EveryCount(h, 0, 8), EveryCount(h, 4, 8), EveryCount(h, 2, 4);
      var pass, k := RowInPass(h, row);
      q := k + if pass == 0 then 0 else if pass == 1 then a else if pass == 2 then a + b else a + b + c;
      Counts(h);
    }
    RowAt(f, q);
  }

  // Every place of the rectangle is some pixel's.
  lemma EveryPlaceTaken(f: Frame, col: nat, row: nat) returns (i: nat)
    requires f.Valid() && col < f.w && row < f.h
    ensures |Rows(f)| == f.h && i / f.w < f.h && CellAddress(f, i) == Address(f, col, row)
  {
    hide Rows, Address;
    var q := RowTaken(f, row);
    i := q * f.w + col;
    DivMod(i, f.w, q, col);
  }
}
