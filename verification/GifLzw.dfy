/**
  The variable-width LZW code of GIF rasters (Appendix F of GIF89a), as stb_image
  decodes it: a table of strings that grows by one entry per code.

  The data comes in sub-blocks of up to 255 bytes.  A table entry is the string of
  pixels that its code stands for; the entries of the two control codes stay empty.
 */
module GifLzw {
  import opened Bits
  import opened Canonical

  type Pixels = seq<byte>

  const TABLE_SIZE := 4096

  // ------------------------------------------------------------ sub-blocks

  // The data bytes from `pos` on, where `len` bytes of the current sub-block are left.
  // Behind the end of the input all bytes read as zero.
  function Payload(input: seq<byte>, pos: nat, len: nat): seq<byte>
    decreases if pos < |input| then |input| - pos else 0, len
  {
    if len > 0 then [ByteAt(input, pos)] + Payload(input, pos + 1, len - 1)
    else if ByteAt(input, pos) == 0 then []
    else Payload(input, pos + 1, ByteAt(input, pos))
  }

  // The position behind the empty sub-block that ends the data.
  function RasterEnd(input: seq<byte>, pos: nat): (end: nat)
    ensures end > pos
    decreases if pos < |input| then |input| - pos else 0
  {
    if ByteAt(input, pos) == 0 then pos + 1 else RasterEnd(input, pos + 1 + ByteAt(input, pos))
  }

  // ------------------------------------------------------------ codes

  // One string per pixel value, and the clear and end codes.
  function InitialTable(cs: nat): (table: seq<Pixels>)
    ensures |table| == Pow2(cs) + 2
    ensures forall c :: 0 <= c < Pow2(cs) ==> table[c] == [c % 256]
    ensures table[Pow2(cs)] == table[Pow2(cs) + 1] == []
  {
    seq(Pow2(cs), c => [c % 256]) + [[], []]
  }

  predicate Control(cs: nat, code: nat) {
    code == Pow2(cs) || code == Pow2(cs) + 1
  }

  // Every pixel value and every later entry has a string.
  ghost predicate TableOk(cs: nat, table: seq<Pixels>) {
    && |table| >= Pow2(cs) + 2
    && forall c :: 0 <= c < |table| && !Control(cs, c) ==> table[c] != []
  }

  // Codes get wider when the table has outgrown them, up to twelve bits.
  function Widened(width: nat, avail: nat): (w: nat)
    ensures width <= w <= width + 1
  {
    if Low(avail, width) == 0 && avail <= 0x0FFF then width + 1 else width
  }

  // The table after `code`: the previous string and the first pixel of the new one
  // become an entry, which may be the new string itself.  None if `code` is illegal.
  function Grow(cs: nat, table: seq<Pixels>, last: Option<nat>, code: nat): (r: Option<seq<Pixels>>)
    requires TableOk(cs, table) && !Control(cs, code)
    requires last.Some? ==> last.value < |table| && !Control(cs, last.value)
    ensures r.Some? ==> TableOk(cs, r.value) && code < |r.value| && |table| <= |r.value| <= |table| + 1
  {
    if code > |table| then None
    else if last.None? then (if code == |table| then None else Some(table))
    else if |table| >= TABLE_SIZE then None
    else
      var w := table[last.value];
      Some(table + [w + [(if code == |table| then w else table[code])[0]]])
  }

  // The raster ends normally or is found corrupt; `px` are the pixels up to there.
  datatype Raster = Complete(px: Pixels) | Corrupt(px: Pixels)

  // Decode from bit p of the data on.
  function Decode(cs: nat, data: seq<byte>, p: nat, width: nat, table: seq<Pixels>, last: Option<nat>,
                  cleared: bool, px: Pixels): Raster
    requires width > 0 && TableOk(cs, table)
    requires last.Some? ==> last.value < |table| && !Control(cs, last.value)
    decreases if p < 8 * |data| then 8 * |data| - p else 0
  {
    if p + width > 8 * |data| then Complete(px)
    else
      var code, q := Lsb(data, p, width), p + width;
      if code == Pow2(cs) then Decode(cs, data, q, cs + 1, InitialTable(cs), None, true, px)
      else if code == Pow2(cs) + 1 then Complete(px)
      else if !cleared then Corrupt(px)
      else
        match Grow(cs, table, last, code)
        case None => Corrupt(px)
        case Some(table') =>
          Decode(cs, data, q, Widened(width, |table'|), table', Some(code), true, px + table'[code])
  }

  // The raster at `pos`: the minimum code size and the sub-blocks.
  function RasterAt(input: seq<byte>, pos: nat): Raster {
    var cs := ByteAt(input, pos);
    if cs > 12 then Corrupt([])
    else Decode(cs, Payload(input, pos + 1, 0), 0, cs + 1, InitialTable(cs), None, false, [])
  }
}
