/**
  The colors of a GIF picture: how the color table of the file is stored, and which bytes
  each pixel gets.
 */
module GifColors {
  import opened Bits
  import opened GifLzw
  import opened GifPlacement
  import opened GifRaster

  datatype Color = Color(red: byte, green: byte, blue: byte)

  // The color table of a file: three bytes for each entry.
  function FileColors(input: seq<byte>, pos: nat, n: nat): (colors: seq<Color>)
    ensures |colors| == n
  {
    seq(n, i requires 0 <= i => Color(ByteAt(input, pos + 3 * i), ByteAt(input, pos + 3 * i + 1),
                                      ByteAt(input, pos + 3 * i + 2)))
  }

  // Entry i of the table in memory; an alpha of 0 marks the transparent color.
  ghost predicate StoredAt(table: seq<byte>, i: nat, c: Color, transparent: bool)
    requires 4 * i + 4 <= |table|
  {
    && table[4 * i] == c.blue && table[4 * i + 1] == c.green && table[4 * i + 2] == c.red
    && table[4 * i + 3] == if transparent then 0 else 255
  }

  ghost predicate Stored(table: seq<byte>, colors: seq<Color>, transp: int) {
    |table| == 1024 && |colors| <= 256 && forall i :: 0 <= i < |colors| ==> StoredAt(table, i, colors[i], i == transp)
  }

  // Read n colors; entry number `transp`, if there is one, is the transparent color.
  method ParseColorTable(input: seq<byte>, pos: nat, pal: array<byte>, numEntries: nat, transp: int) returns (pos': nat)
    requires pal.Length == 1024 && numEntries <= 256
    modifies pal
    ensures pos' == pos + 3 * numEntries && Stored(pal[..], FileColors(input, pos, numEntries), transp)
    ensures forall k :: 4 * numEntries <= k < 1024 ==> pal[k] == old(pal[k])
  {
    pos' := pos;
    ghost var colors := FileColors(input, pos, numEntries);
    for i := 0 to numEntries
      invariant pos' == pos + 3 * i
      invariant forall k :: 0 <= k < i ==> StoredAt(pal[..], k, colors[k], k == transp)
      invariant forall k :: 4 * numEntries <= k < 1024 ==> pal[k] == old(pal[k])
    {
      pal[4 * i + 2] := ByteAt(input, pos');
      pal[4 * i + 1] := ByteAt(input, pos' + 1);
      pal[4 * i] := ByteAt(input, pos' + 2);
      pal[4 * i + 3] := if transp == i then 0 else 255;
      pos' := pos' + 3;
    }
  }

  // ------------------------------------------------------------ the order of the rows

  // The pass of Appendix E of GIF89a in which a row is sent: every eighth row, every eighth
  // row from 4 on, every fourth from 2 on, every second from 1 on.
  function SentIn(row: nat): nat {
    if row % 8 == 0 then 1 else if row % 8 == 4 then 2 else if row % 4 == 2 then 3 else 4
  }

  // Rows come by their passes, and within a pass from the top; or simply from the top.
  lemma RowsInOrder(f: Frame, i: nat, j: nat)
    requires i < j < f.h
    ensures |Rows(f)| == f.h
    ensures var r, s := Rows(f)[i], Rows(f)[j];
      if f.interlaced then SentIn(r) < SentIn(s) || (SentIn(r) == SentIn(s) && r < s) else r == i && s == j
  {
    hide Rows, EveryCount;
    RowAt(f, i);
    RowAt(f, j);
    if f.interlaced {
      var h := f.h;
      PassRowSent(i, EveryCount(h, 0, 8), EveryCount(h, 4, 8), EveryCount(h, 2, 4));
      PassRowSent(j, EveryCount(h, 0, 8), EveryCount(h, 4, 8), EveryCount(h, 2, 4));
    }
  }

  lemma PassRowSent(i: nat, a: nat, b: nat, c: nat)
    ensures SentIn(PassRow(i, a, b, c))
         == if i < a then 1 else if i < a + b then 2 else if i < a + b + c then 3 else 4
  {
  }

  // ------------------------------------------------------------ the bytes of a pixel

  // A pixel's four bytes: red, green, blue and full alpha; or what was there before.
  ghost predicate PixelColored(colors: seq<Color>, transp: int, v: byte, before: seq<byte>, out: seq<byte>, at: nat)
    requires v < |colors|
  {
    && at + 4 <= |before| == |out|
    && if v == transp then out[at..at + 4] == before[at..at + 4]
       else
         && out[at] == colors[v].red && out[at + 1] == colors[v].green && out[at + 2] == colors[v].blue
         && out[at + 3] == 255
  }

  lemma ShadeColored(table: Colors, colors: seq<Color>, transp: int, v: byte, under: seq<byte>)
    requires Stored(table, colors, transp) && v < |colors| && |under| == 4
    ensures Shade(table, v, under)
         == if v == transp then under else [colors[v].red, colors[v].green, colors[v].blue, 255]
  {
    assert StoredAt(table, v, colors[v], v == transp);
  }

  // Where pixel i of a frame goes: column i % w of the row that comes as number i / w, four
  // bytes per pixel in lines of lineSize bytes.
  function PixelPlace(f: Frame, i: nat): nat
    requires f.Valid() && |Rows(f)| == f.h && i / f.w < f.h
  {
    (f.y + Rows(f)[i / f.w]) * f.lineSize + 4 * (f.x + i % f.w)
  }

  ghost predicate Colored(f: Frame, colors: seq<Color>, transp: int, px: Pixels, before: seq<byte>, out: seq<byte>)
    requires f.Valid() && |Rows(f)| == f.h
  {
    forall i: nat :: i < |px| && i / f.w < f.h && px[i] < |colors| ==>
      PixelColored(colors, transp, px[i], before, out, PixelPlace(f, i))
  }

  lemma DrawnColored(f: Frame, table: Colors, colors: seq<Color>, transp: int, px: Pixels, before: seq<byte>,
                     out: seq<byte>)
    requires f.Valid() && |Rows(f)| == f.h && Drawn(f, table, before, px, out) && Stored(table, colors, transp)
    ensures Colored(f, colors, transp, px, before, out)
  {
    hide Rows, Shade, Stored;
    forall i: nat | i < |px| && i / f.w < f.h && px[i] < |colors|
      ensures PixelColored(colors, transp, px[i], before, out, PixelPlace(f, i))
    {
      var a := PixelPlace(f, i);
      assert a == CellAddress(f, i) && CellDrawn(f, table, before, px, out, i);
      ShadeColored(table, colors, transp, px[i], before[a..a + 4]);
      var four := out[a..a + 4];
      assert out[a] == four[0] && out[a + 1] == four[1] && out[a + 2] == four[2] && out[a + 3] == four[3];
    }
  }

  // A raster drawn with a stored color table gives every pixel the bytes of its color, in its
  // place, and leaves all other bytes as they were.
  method DrawRaster(g: Gif, input: seq<byte>, start: nat, ghost colors: seq<Color>, ghost transp: int)
    returns (ok: bool, pos: nat)
    requires g.Valid() && g.cursor == Start(g.frame) && Stored(g.colorTable, colors, transp)
    modifies g, g.out, g.prefix, g.first, g.suffix
    ensures g.Valid() && ok == RasterAt(input, start).Complete? && |Rows(g.frame)| == g.frame.h
    ensures Colored(g.frame, colors, transp, RasterAt(input, start).px, old(g.out[..]), g.out[..])
    ensures Drawn(g.frame, g.colorTable, old(g.out[..]), RasterAt(input, start).px, g.out[..])
  {
    hide RasterAt, PutAll, Drawn, Colored, Rows, Start, Stored;
    ghost var before := g.out[..];
    ok, pos := ProcessGifRaster(g, input, start);
    PixelsPlaced(g.frame, g.colorTable, before, RasterAt(input, start).px);
    DrawnColored(g.frame, g.colorTable, colors, transp, RasterAt(input, start).px, before, g.out[..]);
  }
}
