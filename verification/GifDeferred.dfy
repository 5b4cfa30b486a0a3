/**
  Encoders that do not clear a full table.  GIF89a lets them go on with the table as it is;
  stb_image refuses the next code.
 */
module GifDeferred {
  import opened Bits
  import opened Canonical
  import opened GifLzw
  import opened GifEncode
  import opened Packing

  // ------------------------------------------------------------ the encoder

  // The codes for `px` and the end code; `clears` says after which codes the table is
  // cleared, and if it is full and not cleared it stays as it is.
  ghost function DeferFrom(cs: nat, width: nat, table: seq<Pixels>, px: Pixels, clears: seq<bool>): seq<bit>
    requires EncoderOk(cs, width, table) && px != [] && InRange(cs, px)
    decreases |px|, 1
  {
    SinglePixel(cs, table, px);
    var n := MatchLength(table, px, 1);
    FieldBits(IndexOf(table, px[..n]), width) + DeferAfter(cs, width, table, px, n, clears)
  }

  ghost function DeferAfter(cs: nat, width: nat, table: seq<Pixels>, px: Pixels, n: nat, clears: seq<bool>): seq<bit>
    requires EncoderOk(cs, width, table) && 0 < n <= |px| && InRange(cs, px)
    decreases |px|, 0
  {
    var width' := NextWidth(width, |table|);
    if n == |px| then FieldBits(Pow2(cs) + 1, width')
    else if Head(clears) then
      InitialOk(cs);
      FieldBits(Pow2(cs), width') + DeferFrom(cs, cs + 1, InitialTable(cs), px[n..], Tail(clears))
    else if |table| == TABLE_SIZE then
      FullOk(cs, width, table);
      DeferFrom(cs, width', table, px[n..], Tail(clears))
    else
      var entry := px[..n] + [px[n]];
      EntryOk(cs, width, table, entry);
      DeferFrom(cs, width', table + [entry], px[n..], Tail(clears))
  }

  ghost function Defer(cs: nat, px: Pixels, clears: seq<bool>): seq<bit>
    requires 2 <= cs <= 8 && InRange(cs, px) && px != []
  {
    InitialOk(cs);
    FieldBits(Pow2(cs), cs + 1) + DeferFrom(cs, cs + 1, InitialTable(cs), px, clears)
  }

  lemma FullOk(cs: nat, width: nat, table: seq<Pixels>)
    requires EncoderOk(cs, width, table) && |table| == TABLE_SIZE
    ensures width == 12 && NextWidth(width, |table|) == width
  {
    CodeSizeBounds(cs);
    if width < 12 { Pow2Mono(width, 11); }
  }

  // ------------------------------------------------------------ what the decoder makes of it

  // All pixels, unless a code follows a full table: then those up to there.
  ghost function Outcome(cs: nat, width: nat, table: seq<Pixels>, px: Pixels, clears: seq<bool>, done: Pixels): Raster
    requires EncoderOk(cs, width, table) && px != [] && InRange(cs, px)
    decreases |px|
  {
    SinglePixel(cs, table, px);
    var n := MatchLength(table, px, 1);
    if n == |px| then Complete(done + px)
    else if Head(clears) then
      InitialOk(cs);
      Outcome(cs, cs + 1, InitialTable(cs), px[n..], Tail(clears), done + px[..n])
    else if |table| == TABLE_SIZE then Corrupt(done + px[..n])
    else
      var entry := px[..n] + [px[n]];
      EntryOk(cs, width, table, entry);
      Outcome(cs, NextWidth(width, |table|), table + [entry], px[n..], Tail(clears), done + px[..n])
  }

  // A full table refuses every string code.
  lemma FullRefuses(cs: nat, width: nat, table: seq<Pixels>, last: nat, s: Pixels, data: seq<byte>, p: nat,
                    done: Pixels)
    requires EncoderOk(cs, width, table) && |table| == TABLE_SIZE && s != [] && s in table
    requires last < |table| && !Control(cs, last)
    requires Holds(data, p, FieldBits(IndexOf(table, s), width)) && p + width <= 8 * |data|
    ensures Decode(cs, data, p, width, table, Some(last), true, done) == Corrupt(done)
  {
    hide Lsb, FieldBits, Holds, Low;
    var code := IndexOf(table, s);
    assert table[Pow2(cs)] == InitialTable(cs)[Pow2(cs)];
    assert table[Pow2(cs) + 1] == InitialTable(cs)[Pow2(cs) + 1];
    ReadField(data, p, code, width);
  }

  lemma {:induction false} DecodeDeferred(cs: nat, width: nat, table: seq<Pixels>, px: Pixels, clears: seq<bool>,
                                          known: seq<Pixels>, last: Option<nat>, data: seq<byte>, p: nat, done: Pixels)
    requires EncoderOk(cs, width, table) && px != [] && InRange(cs, px) && InStep(cs, table, known, last, px[0])
    requires var bits := DeferFrom(cs, width, table, px, clears);
      Holds(data, p, bits) && p + |bits| <= 8 * |data|
    ensures Decode(cs, data, p, width, known, last, true, done) == Outcome(cs, width, table, px, clears, done)
    decreases |px|, 1
  {
    hide Decode, FieldBits, Holds, InitialTable, Grow, Pow2, IndexOf, MatchLength, DeferAfter;
    SinglePixel(cs, table, px);
    var n := MatchLength(table, px, 1);
    var code := IndexOf(table, px[..n]);
    HoldsSplit(data, p, FieldBits(code, width), DeferAfter(cs, width, table, px, n, clears));
    DecodeString(cs, width, table, known, last, px[..n], data, p, done);
    DecodeDeferredAfter(cs, width, table, px, n, clears, code, data, p + width, done);
  }

  lemma {:induction false} DecodeDeferredAfter(cs: nat, width: nat, table: seq<Pixels>, px: Pixels, n: nat,
                                               clears: seq<bool>, code: nat, data: seq<byte>, p: nat, done: Pixels)
    requires EncoderOk(cs, width, table) && px != [] && InRange(cs, px) && px[..1] in table
    requires n == MatchLength(table, px, 1)
    requires code < |table| && !Control(cs, code) && table[code] == px[..n]
    requires var bits := DeferAfter(cs, width, table, px, n, clears);
      Holds(data, p, bits) && p + |bits| <= 8 * |data|
    ensures Decode(cs, data, p, NextWidth(width, |table|), table, Some(code), true, done + px[..n])
         == Outcome(cs, width, table, px, clears, done)
    decreases |px|, 0
  {
    hide Decode, FieldBits, Holds, InitialTable, Grow, Pow2, DeferFrom, IndexOf, MatchLength;
    var width', rest, done' := NextWidth(width, |table|), px[n..], done + px[..n];
    InitialOk(cs);
    if n == |px| {
      DecodeControl(cs, width', table, Some(code), data, p, true, done');
      assert px[..n] == px;
    } else if Head(clears) {
      var more := DeferFrom(cs, cs + 1, InitialTable(cs), rest, Tail(clears));
      HoldsSplit(data, p, FieldBits(Pow2(cs), width'), more);
      DecodeControl(cs, width', table, Some(code), data, p, true, done');
      DecodeDeferred(cs, cs + 1, InitialTable(cs), rest, Tail(clears), InitialTable(cs), None, data, p + width', done');
    } else if |table| == TABLE_SIZE {
      FullOk(cs, width, table);
      NextRefused(cs, width, table, rest, Tail(clears), code, data, p, done');
    } else {
      var entry := px[..n] + [px[n]];
      EntryOk(cs, width, table, entry);
      DecodeDeferred(cs, width', table + [entry], rest, Tail(clears), table, Some(code), data, p, done');
    }
  }

  lemma NextRefused(cs: nat, width: nat, table: seq<Pixels>, px: Pixels, clears: seq<bool>, last: nat,
                    data: seq<byte>, p: nat, done: Pixels)
    requires EncoderOk(cs, width, table) && |table| == TABLE_SIZE && px != [] && InRange(cs, px)
    requires last < |table| && !Control(cs, last)
    requires var bits := DeferFrom(cs, width, table, px, clears);
      Holds(data, p, bits) && p + |bits| <= 8 * |data|
    ensures Decode(cs, data, p, width, table, Some(last), true, done) == Corrupt(done)
  {
    hide Decode, FieldBits, Holds, InitialTable, Pow2, IndexOf, MatchLength, DeferAfter;
    SinglePixel(cs, table, px);
    var n := MatchLength(table, px, 1);
    HoldsSplit(data, p, FieldBits(IndexOf(table, px[..n]), width), DeferAfter(cs, width, table, px, n, clears));
    FullRefuses(cs, width, table, last, px[..n], data, p, done);
  }

  // ------------------------------------------------------------ without any clears

  // How many string codes are sent if the table is never cleared.
  ghost function CodeCount(cs: nat, width: nat, table: seq<Pixels>, px: Pixels): (count: nat)
    requires EncoderOk(cs, width, table) && px != [] && InRange(cs, px)
    ensures count > 0
    decreases |px|
  {
    SinglePixel(cs, table, px);
    var n := MatchLength(table, px, 1);
    if n == |px| then 1
    else if |table| == TABLE_SIZE then
      FullOk(cs, width, table);
      1 + CodeCount(cs, width, table, px[n..])
    else
      var entry := px[..n] + [px[n]];
      EntryOk(cs, width, table, entry);
      1 + CodeCount(cs, NextWidth(width, |table|), table + [entry], px[n..])
  }

  // The picture is complete exactly if the codes fit the table.
  lemma {:induction false} CompleteExactly(cs: nat, width: nat, table: seq<Pixels>, px: Pixels, done: Pixels)
    requires EncoderOk(cs, width, table) && px != [] && InRange(cs, px)
    ensures var r := Outcome(cs, width, table, px, [], done);
      if |table| + CodeCount(cs, width, table, px) <= TABLE_SIZE + 1 then r == Complete(done + px) else r.Corrupt?
    decreases |px|
  {
    hide MatchLength, InitialTable, Pow2, EncoderOk, NextWidth;
    SinglePixelOf(cs, width, table, px);
    var n := MatchLength(table, px, 1);
    if n < |px| {
      if |table| < TABLE_SIZE {
        var entry := px[..n] + [px[n]];
        EntryOk(cs, width, table, entry);
        CompleteExactly(cs, NextWidth(width, |table|), table + [entry], px[n..], done + px[..n]);
        assert done + px[..n] + px[n..] == done + px;
      }
    }
  }

  lemma SinglePixelOf(cs: nat, width: nat, table: seq<Pixels>, px: Pixels)
    requires EncoderOk(cs, width, table) && px != [] && InRange(cs, px)
    ensures px[..1] in table && |table| <= TABLE_SIZE
  {
    SinglePixel(cs, table, px);
  }

  ghost predicate ShortEntries(table: seq<Pixels>) {
    forall c :: 0 <= c < |table| ==> |table[c]| <= |table|
  }

  // No code stands for more than 4096 pixels.
  lemma {:induction false} PixelsBounded(cs: nat, width: nat, table: seq<Pixels>, px: Pixels)
    requires EncoderOk(cs, width, table) && px != [] && InRange(cs, px) && ShortEntries(table)
    ensures |px| <= TABLE_SIZE * CodeCount(cs, width, table, px)
    decreases |px|
  {
    hide MatchLength, InitialTable, Pow2, EncoderOk, NextWidth;
    SinglePixelOf(cs, width, table, px);
    var n := MatchLength(table, px, 1);
    assert n == |px[..n]| <= |table|;
    if n < |px| {
      if |table| == TABLE_SIZE {
        FullOk(cs, width, table);
        PixelsBounded(cs, width, table, px[n..]);
      } else {
        var entry := px[..n] + [px[n]];
        EntryOk(cs, width, table, entry);
        PixelsBounded(cs, NextWidth(width, |table|), table + [entry], px[n..]);
      }
    }
  }

  // ------------------------------------------------------------ rasters

  ghost function PictureOutcome(cs: nat, px: Pixels, clears: seq<bool>): Raster
    requires 2 <= cs <= 8 && InRange(cs, px) && px != []
  {
    InitialOk(cs);
    Outcome(cs, cs + 1, InitialTable(cs), px, clears, [])
  }

  // How many string codes an encoder sends for a picture that never clears its table.
  ghost function PictureCodes(cs: nat, px: Pixels): nat
    requires 2 <= cs <= 8 && InRange(cs, px) && px != []
  {
    InitialOk(cs);
    CodeCount(cs, cs + 1, InitialTable(cs), px)
  }

  lemma DecodeDefer(cs: nat, px: Pixels, clears: seq<bool>, data: seq<byte>)
    requires 2 <= cs <= 8 && InRange(cs, px) && px != [] && data == Pack(Defer(cs, px, clears))
    ensures Decode(cs, data, 0, cs + 1, InitialTable(cs), None, false, []) == PictureOutcome(cs, px, clears)
  {
    hide Decode, FieldBits, Holds, InitialTable, DeferFrom, DeferAfter, Pow2, Pack, Outcome;
    InitialOk(cs);
    var bits := Defer(cs, px, clears);
    PackHolds(bits);
    HoldsSplit(data, 0, FieldBits(Pow2(cs), cs + 1), DeferFrom(cs, cs + 1, InitialTable(cs), px, clears));
    DecodeControl(cs, cs + 1, InitialTable(cs), None, data, 0, false, []);
    DecodeDeferred(cs, cs + 1, InitialTable(cs), px, clears, InitialTable(cs), None, data, cs + 1, []);
  }

  // The raster at position `pos` of a file.
  ghost predicate IsRaster(input: seq<byte>, pos: nat, cs: nat, px: Pixels, clears: seq<bool>, chunks: seq<seq<byte>>)
    requires 2 <= cs <= 8 && InRange(cs, px) && px != []
  {
    && Chunks(chunks) && Joined(chunks) == Pack(Defer(cs, px, clears))
    && pos < |input| && [cs] + SubBlocks(chunks) <= input[pos..]
  }

  // A raster whose encoder clears its table where it likes is decoded up to the first code
  // that follows a full table.
  lemma DeferredRaster(input: seq<byte>, pos: nat, cs: nat, px: Pixels, clears: seq<bool>, chunks: seq<seq<byte>>)
    requires 2 <= cs <= 8 && InRange(cs, px) && px != [] && IsRaster(input, pos, cs, px, clears, chunks)
    ensures RasterAt(input, pos) == PictureOutcome(cs, px, clears)
  {
    hide Defer, Pack, Decode, Payload, SubBlocks, PictureOutcome, InRange;
    var before, raster := input[..pos], [cs] + SubBlocks(chunks);
    var after := input[pos + |raster|..];
    assert input[pos..] == raster + input[pos..][|raster|..];
    assert input[pos..][|raster|..] == after;
    assert input == (before + [cs]) + SubBlocks(chunks) + after;
    SubBlocksCarry(chunks, before + [cs], after);
    DecodeDefer(cs, px, clears, Joined(chunks));
    assert ByteAt(input, pos) == cs;
  }

  // If it never clears the table, the picture is whole exactly up to a number of codes; and
  // one of more than 4096 * 4095 pixels never is.
  lemma UnclearedRaster(input: seq<byte>, pos: nat, cs: nat, px: Pixels, chunks: seq<seq<byte>>)
    requires 2 <= cs <= 8 && InRange(cs, px) && px != [] && IsRaster(input, pos, cs, px, [], chunks)
    ensures RasterAt(input, pos) == Complete(px) <==> PictureCodes(cs, px) <= 4095 - Pow2(cs)
    ensures RasterAt(input, pos) != Complete(px) ==> RasterAt(input, pos).Corrupt?
    ensures |px| > 0xFF_F000 ==> RasterAt(input, pos).Corrupt?
  {
    hide IsRaster, RasterAt, Outcome, CodeCount, InRange, EncoderOk;
    DeferredRaster(input, pos, cs, px, [], chunks);
    InitialOk(cs);
    CompleteExactly(cs, cs + 1, InitialTable(cs), px, []);
    PixelsBounded(cs, cs + 1, InitialTable(cs), px);
    assert [] + px == px;
  }
}
