/**
  stb_image's GIF raster decoder: a table of codes as linked prefixes, a bit buffer over
  sub-blocks, and pixels written straight to their place on the canvas.
 */
module GifRaster {
  import opened Arithmetic
  import opened Bits
  import opened Canonical
  import opened GifEncode
  import opened GifLzw
  import opened GifPlacement
  import opened Packing
  import opened Splicing

  // A code's entry stands for the string of its prefix and one more pixel.
  ghost predicate Entry(cs: nat, table: seq<Pixels>, prefix: seq<int>, first: seq<byte>, suffix: seq<byte>, c: nat)
    requires c < |table| && c < |prefix| == |first| == |suffix|
  {
    && table[c] != []
    && first[c] == table[c][0]
    && suffix[c] == table[c][|table[c]| - 1]
    && (if prefix[c] < 0 then |table[c]| == 1
        else prefix[c] < c && !Control(cs, prefix[c]) && table[c] == table[prefix[c]] + [suffix[c]])
  }

  // The code arrays hold the table; those of the control codes are never looked at.
  ghost predicate Represents(cs: nat, table: seq<Pixels>, prefix: seq<int>, first: seq<byte>, suffix: seq<byte>) {
    && |prefix| == |first| == |suffix| == TABLE_SIZE
    && InitialTable(cs) <= table
    && forall c :: 0 <= c < |table| && !Control(cs, c) ==> c < TABLE_SIZE && Entry(cs, table, prefix, first, suffix, c)
  }

  lemma RepresentsTable(cs: nat, table: seq<Pixels>, prefix: seq<int>, first: seq<byte>, suffix: seq<byte>)
    requires Represents(cs, table, prefix, first, suffix)
    ensures TableOk(cs, table)
    ensures Represents(cs, InitialTable(cs), prefix, first, suffix)
  {
    var initial := InitialTable(cs);
    forall c | 0 <= c < |initial| && !Control(cs, c)
      ensures c < TABLE_SIZE && Entry(cs, initial, prefix, first, suffix, c)
    {
      assert Entry(cs, table, prefix, first, suffix, c);
      assert table[c] == initial[c] == [c % 256];
    }
  }

  lemma Halves(y: nat, half: nat, w: nat)
    ensures (2 * half) * w / 2 == half * w
    ensures y * w + half * w == (y + half) * w
  {
    assert (2 * half) * w == 2 * (half * w);
  }

  class Gif {
    const frame: Frame
    const lineSize: nat
    const startX: nat
    const startY: nat
    const maxX: nat
    const maxY: nat
    const colorTable: Colors
    const out: array<byte>
    const prefix: array<int>
    const first: array<byte>
    const suffix: array<byte>

    var curX: nat
    var curY: nat
    var step: nat
    var parse: nat
    ghost var cursor: Cursor

    // The image descriptor: a frame on a canvas of at least its size.
    constructor (f: Frame, colors: Colors, out: array<byte>)
      requires Fits(f, out.Length)
      ensures Valid() && Picture() == Canvas(out[..], Start(f))
      ensures frame == f && colorTable == colors && this.out == out
      ensures fresh(prefix) && fresh(first) && fresh(suffix)
    {
      frame, colorTable, this.out := f, colors, out;
      lineSize := f.lineSize;
      startX, startY := 4 * f.x, f.y * f.lineSize;
      maxX, maxY := 4 * f.x + 4 * f.w, (f.y + f.h) * f.lineSize;
      prefix := new int[TABLE_SIZE];
      first := new byte[TABLE_SIZE];
      suffix := new byte[TABLE_SIZE];
      curX, curY := 4 * f.x, f.y * f.lineSize;
      step, parse := if f.interlaced then 8 * f.lineSize else f.lineSize, if f.interlaced then 3 else 0;
      cursor := Start(f);
    }

    ghost predicate Shape() {
      && Fits(frame, out.Length)
      && lineSize == frame.lineSize && startX == 4 * frame.x && startY == frame.y * lineSize
      && maxX == startX + 4 * frame.w && maxY == (frame.y + frame.h) * lineSize
      && prefix.Length == first.Length == suffix.Length == TABLE_SIZE
      && out != first && out != suffix && first != suffix
    }

    // The position fields are those of the cursor, in bytes.
    ghost predicate Valid()
      reads this
    {
      && Shape()
      && cursor.col < frame.w
      && curX == startX + 4 * cursor.col
      && curY == (frame.y + cursor.row) * lineSize
      && step == cursor.stride * lineSize
      && parse == cursor.parse
    }

    ghost function Picture(): Canvas
      reads this, out
    {
      Canvas(out[..], cursor)
    }

    ghost predicate Codes(cs: nat, table: seq<Pixels>)
      reads prefix, first, suffix
    {
      Represents(cs, table, prefix[..], first[..], suffix[..])
    }

    // The code arrays hold the table, and `px` have been drawn since `before`.
    ghost predicate Drawing(cs: nat, table: seq<Pixels>, before: Canvas, px: Pixels)
      reads this, out, prefix, first, suffix
    {
      && Valid() && Codes(cs, table) && TableOk(cs, table)
      && |before.out| == out.Length && before.cursor.col < frame.w
      && Picture() == PutAll(frame, colorTable, before, px)
    }

    // ---------------------------------------------------------- pixels

    // Rows and byte offsets compare the same.
    lemma RowInside(row: nat)
      requires Shape()
      ensures (frame.y + row) * lineSize >= maxY <==> row >= frame.h
      ensures row < frame.h ==> (frame.y + row) * lineSize + lineSize <= maxY
    {
      if row < frame.h {
        MulMono(frame.y + row, frame.y + frame.h, lineSize);
      } else if row > frame.h {
        MulMono(frame.y + frame.h, frame.y + row, lineSize);
      }
    }

    // On to the next pass while the row is behind the image.
    method SkipPasses()
      requires Shape() && curY == (frame.y + cursor.row) * lineSize && step == cursor.stride * lineSize
      requires parse == cursor.parse && cursor.col < frame.w && curX == startX + 4 * cursor.col
      modifies `curY, `step, `parse, `cursor
      ensures Valid() && cursor == NextPass(frame.h, old(cursor))
    {
      RowInside(cursor.row);
      while curY >= maxY && parse > 0
        invariant Valid() && (curY >= maxY <==> cursor.row >= frame.h)
        invariant NextPass(frame.h, cursor) == NextPass(frame.h, old(cursor))
        decreases parse
      {
        PassOffset(parse);
        step := Pow2(parse) * lineSize;
        curY := startY + step / 2;
        cursor := Cursor(cursor.col, Pow2(parse) / 2, Pow2(parse), parse - 1);
        parse := parse - 1;
        RowInside(cursor.row);
      }
    }

    lemma PassOffset(n: nat)
      requires Shape() && n > 0
      ensures startY + Pow2(n) * lineSize / 2 == (frame.y + Pow2(n) / 2) * lineSize
    {
      Halves(frame.y, Pow2(n - 1), lineSize);
    }

    method Paint(p: nat, v: byte)
      requires p + 4 <= out.Length
      modifies out
      ensures out[..] == Spliced(old(out[..]), p, Shade(colorTable, v, old(out[p..p + 4])))
    {
      if colorTable[4 * v + 3] >= 128 {
        out[p], out[p + 1] := colorTable[4 * v + 2], colorTable[4 * v + 1];
        out[p + 2], out[p + 3] := colorTable[4 * v], colorTable[4 * v + 3];
      }
    }

    method NextPosition()
      requires Valid()
      modifies `curX, `curY, `step, `parse, `cursor
      ensures Valid() && cursor == Advance(frame, old(cursor))
    {
      curX := curX + 4;
      if curX >= maxX {
        Halves(frame.y + cursor.row, cursor.stride, lineSize);
        curX := startX;
        curY := curY + step;
        cursor := Cursor(0, cursor.row + cursor.stride, cursor.stride, cursor.parse);
        SkipPasses();
      } else {
        cursor := cursor.(col := cursor.col + 1);
      }
    }

    lemma HerePixel()
      requires Valid()
      ensures curY >= maxY <==> cursor.row >= frame.h
      ensures curX + curY == Address(frame, cursor.col, cursor.row)
      ensures cursor.row < frame.h ==> curX + curY + 4 <= out.Length
    {
      RowInside(cursor.row);
    }

    // One pixel at the current position.
    method PutPixel(v: byte)
      requires Valid()
      modifies `curX, `curY, `step, `parse, `cursor, out
      ensures Valid() && Picture() == Put(frame, colorTable, old(Picture()), v)
    {
      HerePixel();
      hide Shade, Spliced, Address, Advance, Valid;
      if curY >= maxY { return; }
      Paint(curX + curY, v);
      NextPosition();
    }

    // The string of a code, its prefix first.
    method OutGifCode(code: nat, ghost cs: nat, ghost table: seq<Pixels>)
      requires Valid() && Codes(cs, table) && code < |table| && !Control(cs, code)
      modifies `curX, `curY, `step, `parse, `cursor, out
      ensures Valid() && Codes(cs, table)
      ensures Picture() == PutAll(frame, colorTable, old(Picture()), table[code])
      decreases code
    {
      assert Entry(cs, table, prefix[..], first[..], suffix[..], code);
      ghost var canvas, s := Picture(), table[code];
      ghost var head := s[..|s| - 1];
      if prefix[code] >= 0 {
        OutGifCode(prefix[code], cs, table);
        assert head == table[prefix[code]];
      } else {
        assert head == [];
      }
      PutPixel(suffix[code]);
    }

    // ---------------------------------------------------------- codes

    method InitCodes(cs: nat)
      requires Shape() && cs <= 12
      modifies prefix, first, suffix
      ensures Codes(cs, InitialTable(cs))
    {
      assert Pow2(12) == TABLE_SIZE;
      Pow2Mono(cs, 12);
      for c := 0 to Pow2(cs)
        invariant forall i :: 0 <= i < c ==> prefix[i] == -1 && first[i] == i % 256 && suffix[i] == i % 256
      {
        prefix[c] := -1;
        first[c], suffix[c] := c % 256, c % 256;
      }
    }

    // A new entry at the end of the table: the string of oldcode and the first pixel of
    // the string of `code`, which may be the new entry itself.
    method AddCode(cs: nat, ghost table: seq<Pixels>, oldcode: nat, code: nat, avail: nat)
      requires Shape() && Codes(cs, table) && avail == |table| < TABLE_SIZE
      requires oldcode < avail && code <= avail && !Control(cs, oldcode) && !Control(cs, code)
      modifies prefix, first, suffix
      ensures TableOk(cs, table) && Grow(cs, table, Some(oldcode), code).Some?
      ensures Codes(cs, Grow(cs, table, Some(oldcode), code).value)
    {
      RepresentsTable(cs, table, prefix[..], first[..], suffix[..]);
      assert Entry(cs, table, prefix[..], first[..], suffix[..], oldcode);
      assert code < avail ==> Entry(cs, table, prefix[..], first[..], suffix[..], code);
      prefix[avail] := oldcode;
      first[avail] := first[oldcode];
      // The C code has a special case for the new entry, but compares `code` with avail + 1
      // there, so that it never applies: the new entry's first pixel is already in place.
      suffix[avail] := first[code];
      ghost var table' := Grow(cs, table, Some(oldcode), code).value;
      assert table'[..avail] == table;
      forall c | 0 <= c < |table'| && !Control(cs, c)
        ensures c < TABLE_SIZE && Entry(cs, table', prefix[..], first[..], suffix[..], c)
      {
        if c < avail { assert old(Entry(cs, table, prefix[..], first[..], suffix[..], c)); }
      }
    }

    // A code that is no control code: a new table entry, unless it is the first one after
    // a clear, and its pixels.
    method StringCode(cs: nat, ghost table: seq<Pixels>, ghost before: Canvas, ghost px: Pixels,
                      oldcode: int, code: nat, avail: nat)
      returns (ok: bool, avail': nat)
      requires Drawing(cs, table, before, px) && avail == |table| && !Control(cs, code) && code <= avail
      requires oldcode < avail && (oldcode >= 0 ==> !Control(cs, oldcode))
      modifies `curX, `curY, `step, `parse, `cursor, out, prefix, first, suffix
      ensures var grown := Grow(cs, table, Last(oldcode), code);
        if ok then
          && grown.Some? && avail' == |grown.value|
          && Drawing(cs, grown.value, before, px + grown.value[code])
        else grown.None? && Drawing(cs, table, before, px)
    {
      hide Represents, Put, PutAll;
      avail' := avail;
      if oldcode >= 0 {
        avail' := avail + 1;
        if avail' > TABLE_SIZE { return false, avail'; }
        AddCode(cs, table, oldcode, code, avail);
      } else if code == avail {
        return false, avail;
      }
      ghost var grown := Grow(cs, table, Last(oldcode), code).value;
      OutGifCode(code, cs, grown);
      PutAllAppend(frame, colorTable, before, px, grown[code]);
      ok := true;
    }

    lemma StartDrawing(cs: nat)
      requires Valid() && Codes(cs, InitialTable(cs))
      ensures Drawing(cs, InitialTable(cs), Picture(), [])
    {
    }

    // A clear code: the table of single pixels is still there.
    lemma ClearTable(cs: nat, table: seq<Pixels>, before: Canvas, px: Pixels)
      requires Drawing(cs, table, before, px)
      ensures Drawing(cs, InitialTable(cs), before, px)
    {
      RepresentsTable(cs, table, prefix[..], first[..], suffix[..]);
    }
  }

  // The previous code, which is negative right after a clear.
  function Last(oldcode: int): Option<nat> {
    if oldcode < 0 then None else Some(oldcode)
  }

  // ------------------------------------------------------------ reading

  function DataFrom(data: seq<byte>, got: nat): seq<byte>
    requires got <= |data|
  {
    data[got..]
  }

  // The bit buffer holds the data bits that follow bit p; the rest of the data is still
  // to be read, with `len` bytes left in the current sub-block.
  ghost predicate Reading(input: seq<byte>, data: seq<byte>, pos: nat, len: nat, p: nat, bits: nat, validBits: nat) {
    && (p + validBits) % 8 == 0 && (p + validBits) / 8 <= |data|
    && DataFrom(data, (p + validBits) / 8) == Payload(input, pos, len)
    && bits == Lsb(data, p, validBits)
  }

  lemma FetchByte(input: seq<byte>, data: seq<byte>, pos: nat, len: nat, p: nat, bits: nat, validBits: nat)
    requires Reading(input, data, pos, len, p, bits, validBits) && len > 0
    ensures Reading(input, data, pos + 1, len - 1, p, bits + Shl(ByteAt(input, pos), validBits), validBits + 8)
    ensures p + validBits + 8 <= 8 * |data|
  {
    hide Lsb, Shl;
    var got := (p + validBits) / 8;
    assert data[got] == data[got..][0] == ByteAt(input, pos);
    assert data[got + 1..] == data[got..][1..];
    LsbSplit(data, p, validBits, 8);
    LsbByte(data, got, 8);
  }

  lemma TakeCode(input: seq<byte>, data: seq<byte>, pos: nat, len: nat, p: nat, bits: nat, validBits: nat, n: nat)
    requires Reading(input, data, pos, len, p, bits, validBits) && n <= validBits
    ensures Low(bits, n) == Lsb(data, p, n) && p + n <= 8 * |data|
    ensures Reading(input, data, pos, len, p + n, Shr(bits, n), validBits - n)
  {
    hide Lsb, Low, Shr;
    LsbTake(data, p, n, validBits);
  }

  // Skip sub-blocks up to and including the empty one.
  method SkipBlocks(input: seq<byte>, start: nat) returns (pos: nat)
    ensures pos == RasterEnd(input, start)
  {
    pos := start;
    var len := ByteAt(input, pos);
    pos := pos + 1;
    while len > 0
      invariant RasterEnd(input, start) == if len > 0 then RasterEnd(input, pos + len) else pos
      invariant len > 0 ==> pos <= |input|
      decreases len > 0, if pos < |input| then |input| - pos else 0
    {
      pos := pos + len;
      len := ByteAt(input, pos);
      pos := pos + 1;
    }
  }

  // Going into the next sub-block, or finding the end of the data.
  lemma NextBlock(input: seq<byte>, data: seq<byte>, pos: nat, p: nat, bits: nat, validBits: nat)
    requires Reading(input, data, pos, 0, p, bits, validBits)
    ensures var len := ByteAt(input, pos);
      && (len == 0 ==> RasterEnd(input, pos) == pos + 1 && p + validBits == 8 * |data|)
      && (len != 0 ==> RasterEnd(input, pos) == RasterEnd(input, pos + 1 + len))
      && (len != 0 ==> Reading(input, data, pos + 1, len, p, bits, validBits))
  {
  }

  lemma StartOfRaster(input: seq<byte>, start: nat)
    ensures var cs, data := ByteAt(input, start), Payload(input, start + 1, 0);
      if cs > 12 then RasterAt(input, start) == Corrupt([])
      else
        && TableOk(cs, InitialTable(cs))
        && RasterAt(input, start) == Decode(cs, data, 0, cs + 1, InitialTable(cs), None, false, [])
        && Reading(input, data, start + 1, 0, 0, 0, 0)
  {
  }

  // What the decoder does about the next code.
  lemma DecodeStep(cs: nat, data: seq<byte>, p: nat, width: nat, table: seq<Pixels>, last: Option<nat>,
                   cleared: bool, px: Pixels, code: nat)
    requires width > 0 && TableOk(cs, table) && p + width <= 8 * |data| && code == Lsb(data, p, width)
    requires last.Some? ==> last.value < |table| && !Control(cs, last.value)
    ensures TableOk(cs, InitialTable(cs))
    ensures var r := Decode(cs, data, p, width, table, last, cleared, px);
      if code == Pow2(cs) then r == Decode(cs, data, p + width, cs + 1, InitialTable(cs), None, true, px)
      else if code == Pow2(cs) + 1 then r == Complete(px)
      else if !cleared || code > |table| || Grow(cs, table, last, code).None? then r == Corrupt(px)
      else
        var table' := Grow(cs, table, last, code).value;
        && TableOk(cs, table') && code < |table'|
        && r == Decode(cs, data, p + width, Widened(width, |table'|), table', Some(code), true, px + table'[code])
  {
  }

  lemma DecodeOver(cs: nat, data: seq<byte>, p: nat, width: nat, table: seq<Pixels>, last: Option<nat>,
                   cleared: bool, px: Pixels)
    requires width > 0 && TableOk(cs, table) && p + width > 8 * |data|
    requires last.Some? ==> last.value < |table| && !Control(cs, last.value)
    ensures Decode(cs, data, p, width, table, last, cleared, px) == Complete(px)
  {
  }

  // One more byte for the bit buffer, from the next sub-block if the current one is used
  // up; false at the end of the data.
  method ReadByte(input: seq<byte>, start: nat, left: nat, bits: nat, validBits: nat, ghost data: seq<byte>,
                  ghost p: nat)
    returns (more: bool, pos: nat, len: nat, bits': nat)
    requires Reading(input, data, start, left, p, bits, validBits)
    ensures !more ==> pos == RasterEnd(input, start + left) && p + validBits == 8 * |data|
    ensures more ==> Reading(input, data, pos, len, p, bits', validBits + 8)
    ensures more ==> RasterEnd(input, pos + len) == RasterEnd(input, start + left)
    ensures more ==> pos > start && (start >= |input| ==> len < left)
  {
    hide Reading, RasterEnd, Lsb, Shl;
    pos, len, bits' := start, left, bits;
    if len == 0 {
      NextBlock(input, data, pos, p, bits, validBits);
      len := ByteAt(input, pos);
      pos := pos + 1;
      if len == 0 { return false, pos, len, bits; }
    }
    FetchByte(input, data, pos, len, p, bits, validBits);
    bits' := bits + Shl(ByteAt(input, pos), validBits);
    more, pos, len := true, pos + 1, len - 1;
  }

  // The raster at `start`, drawn by g.
  method ProcessGifRaster(g: Gif, input: seq<byte>, start: nat) returns (ok: bool, pos: nat)
    requires g.Valid()
    modifies g, g.out, g.prefix, g.first, g.suffix
    ensures g.Valid()
    ensures var r := RasterAt(input, start);
      && ok == r.Complete?
      && g.Picture() == PutAll(g.frame, g.colorTable, old(g.Picture()), r.px)
      && (ok ==> pos == RasterEnd(input, start + 1))
  {
    StartOfRaster(input, start);
    ghost var before := g.Picture();
    var lzwCs: nat := ByteAt(input, start);
    pos := start + 1;
    if lzwCs > 12 { return false, pos; }
    g.InitCodes(lzwCs);
    g.StartDrawing(lzwCs);
    ghost var px, table;
    ok, pos, px, table := DecodeCodes(g, input, start, before);
  }

  // What follows a code: the next one, or the end of the raster.
  datatype CodeStatus = Next | End | Bad

  // The state before the code at bit p of the data: what is decoded from there on is the
  // rest of the raster at `start`.
  ghost predicate Between(g: Gif, input: seq<byte>, start: nat, data: seq<byte>, p: nat, table: seq<Pixels>,
                          before: Canvas, px: Pixels, first: bool, codesize: nat, avail: int, oldcode: int)
    reads g, g.out, g.prefix, g.first, g.suffix
  {
    var cs := ByteAt(input, start);
    && g.Drawing(cs, table, before, px) && TableOk(cs, table)
    && avail == |table| && codesize > 0
    && oldcode < avail && (oldcode >= 0 ==> !Control(cs, oldcode))
    && Decode(cs, data, p, codesize, table, Last(oldcode), !first, px) == RasterAt(input, start)
  }

  lemma BeforeFirstCode(g: Gif, input: seq<byte>, start: nat, before: Canvas)
    requires var cs := ByteAt(input, start); cs <= 12 && g.Drawing(cs, InitialTable(cs), before, [])
    ensures var cs, data := ByteAt(input, start), Payload(input, start + 1, 0);
      && Between(g, input, start, data, 0, InitialTable(cs), before, [], true, cs + 1, Pow2(cs) + 2, -1)
      && Reading(input, data, start + 1, 0, 0, 0, 0)
  {
    StartOfRaster(input, start);
  }

  lemma BehindLastCode(g: Gif, input: seq<byte>, start: nat, data: seq<byte>, p: nat, table: seq<Pixels>,
                       before: Canvas, px: Pixels, first: bool, codesize: nat, avail: int, oldcode: int)
    requires Between(g, input, start, data, p, table, before, px, first, codesize, avail, oldcode)
    requires p + codesize > 8 * |data|
    ensures RasterAt(input, start) == Complete(px) && g.Drawing(ByteAt(input, start), table, before, px)
  {
    DecodeOver(ByteAt(input, start), data, p, codesize, table, Last(oldcode), !first, px);
  }

  // The code at bit p of the data has been read.
  method HandleCode(g: Gif, input: seq<byte>, start: nat, code: nat, first: bool, codesize: nat, avail: nat,
                    oldcode: int,
                    ghost data: seq<byte>, ghost p: nat, ghost table: seq<Pixels>, ghost before: Canvas,
                    ghost px: Pixels)
    returns (st: CodeStatus, first': bool, codesize': nat, avail': nat, oldcode': int,
             ghost table': seq<Pixels>, ghost px': Pixels)
    requires Between(g, input, start, data, p, table, before, px, first, codesize, avail, oldcode)
    requires p + codesize <= 8 * |data| && code == Lsb(data, p, codesize)
    modifies g, g.out, g.prefix, g.first, g.suffix
    ensures g.Drawing(ByteAt(input, start), table', before, px') && codesize' > 0
    ensures match st
      case Next =>
        Between(g, input, start, data, p + codesize, table', before, px', first', codesize', avail', oldcode')
      case End => RasterAt(input, start) == Complete(px')
      case Bad => RasterAt(input, start) == Corrupt(px')
  {
    hide Bit, Lsb, Low, InitialTable, Grow, Decode, RasterAt, Gif.Drawing, TableOk, Widened;
    var lzwCs: nat := ByteAt(input, start);
    first', codesize', avail', oldcode', table', px' := first, codesize, avail, oldcode, table, px;
    DecodeStep(lzwCs, data, p, codesize, table, Last(oldcode), !first, px, code);
    st := Bad;
    if code == Pow2(lzwCs) {
      g.ClearTable(lzwCs, table, before, px);
      codesize', avail', oldcode', first' := lzwCs + 1, Pow2(lzwCs) + 2, -1, false;
      st, table' := Next, InitialTable(lzwCs);
    } else if code == Pow2(lzwCs) + 1 {
      st := End;
    } else if code <= avail && !first {
      ghost var grown := Grow(lzwCs, table, Last(oldcode), code);
      var drawn;
      drawn, avail' := g.StringCode(lzwCs, table, before, px, oldcode, code, avail);
      if drawn {
        st, table', px' := Next, grown.value, px + grown.value[code];
        codesize', oldcode' := Widened(codesize, avail'), code;
      }
    }
  }

  method DecodeCodes(g: Gif, input: seq<byte>, start: nat, ghost before: Canvas)
    returns (ok: bool, pos: nat, ghost px: Pixels, ghost table: seq<Pixels>)
    requires var cs := ByteAt(input, start); cs <= 12 && g.Drawing(cs, InitialTable(cs), before, [])
    modifies g, g.out, g.prefix, g.first, g.suffix
    ensures RasterAt(input, start) == if ok then Complete(px) else Corrupt(px)
    ensures g.Drawing(ByteAt(input, start), table, before, px)
    ensures ok ==> pos == RasterEnd(input, start + 1)
  {
    hide Payload, Bit, Lsb, Shl, Shr, Low, InitialTable, RasterEnd, RasterAt, Gif.Drawing, Reading, DataFrom, Between;
    BeforeFirstCode(g, input, start, before);
    var lzwCs: nat := ByteAt(input, start);
    pos := start + 1;
    var first, codesize: nat, avail: nat, oldcode := true, lzwCs + 1, Pow2(lzwCs) + 2, -1;
    var len: nat, bits: nat, validBits: nat := 0, 0, 0;
    ghost var data := Payload(input, pos, 0);
    ghost var p: nat := 0;
    px, table := [], InitialTable(lzwCs);
    while true
      invariant Between(g, input, start, data, p, table, before, px, first, codesize, avail, oldcode)
      invariant Reading(input, data, pos, len, p, bits, validBits) && codesize > 0
      invariant RasterEnd(input, pos + len) == RasterEnd(input, start + 1)
      decreases if pos < |input| then |input| - pos else 0, len, validBits
    {
      if validBits < codesize {
        var more;
        more, pos, len, bits := ReadByte(input, pos, len, bits, validBits, data, p);
        if !more {
          BehindLastCode(g, input, start, data, p, table, before, px, first, codesize, avail, oldcode);
          return true, pos, px, table;
        }
        validBits := validBits + 8;
      } else {
        TakeCode(input, data, pos, len, p, bits, validBits, codesize);
        var code := Low(bits, codesize);
        bits := Shr(bits, codesize);
        validBits := validBits - codesize;
        ghost var q := p + codesize;
        var st;
        st, first, codesize, avail, oldcode, table, px :=
          HandleCode(g, input, start, code, first, codesize, avail, oldcode, data, p, table, before, px);
        p := q;
        if st == Bad { return false, pos, px, table; }
        if st == End {
          pos := SkipBlocks(input, pos + len);
          return true, pos, px, table;
        }
      }
    }
  }

  // A picture that was encoded is what decoding its raster draws, each pixel in its place.
  lemma PictureRoundTrip(f: Frame, colors: Colors, out: seq<byte>, cs: nat, px: Pixels, early: seq<bool>,
                         chunks: seq<seq<byte>>, before: seq<byte>, after: seq<byte>)
    requires Fits(f, |out|) && 2 <= cs <= 8 && InRange(cs, px)
    requires Chunks(chunks) && Joined(chunks) == Pack(Encode(cs, px, early))
    ensures |Rows(f)| == f.h
    ensures var input := before + ([cs] + SubBlocks(chunks)) + after;
      var drawn := PutAll(f, colors, Canvas(out, Start(f)), RasterAt(input, |before|).px).out;
      Drawn(f, colors, out, px, drawn)
  {
    hide Encode, RasterAt, Drawn, PutAll, SubBlocks;
    LzwRoundTrip(cs, px, early, chunks, before, after);
    PixelsPlaced(f, colors, out, px);
  }
}
