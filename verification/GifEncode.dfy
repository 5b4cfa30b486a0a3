/**
  The LZW encoder of Appendix F of GIF89a and the round trip: what it makes of any
  pixels decodes to them.

  The encoder starts with a clear code, sends the longest string of its table each time,
  and clears the table when it is full; it may clear it earlier.
 */
module GifEncode {
  import opened Bits
  import opened Canonical
  import opened GifLzw
  import opened Packing
  import opened Splicing

  // ------------------------------------------------------------ the encoder

  // How far the pixels match a table entry, extending a match of n pixels one by one.
  function MatchLength(table: seq<Pixels>, px: Pixels, n: nat): (r: nat)
    requires 0 < n <= |px| && px[..n] in table
    ensures n <= r <= |px| && px[..r] in table
    ensures r < |px| ==> px[..r + 1] !in table
    decreases |px| - n
  {
    if n < |px| && px[..n + 1] in table then MatchLength(table, px, n + 1) else n
  }

  function IndexOf(table: seq<Pixels>, s: Pixels): (r: nat)
    requires s in table
    ensures r < |table| && table[r] == s
    decreases |table|
  {
    if table[0] == s then 0 else 1 + IndexOf(table[1..], s)
  }

  // The width after a code sent while the table has n entries.
  function NextWidth(width: nat, n: nat): nat {
    if n == Pow2(width) && width < 12 then width + 1 else width
  }

  predicate InRange(cs: nat, px: Pixels) {
    forall i :: 0 <= i < |px| ==> px[i] < Pow2(cs)
  }

  // The table of an encoder that is about to send a code of this width.
  ghost predicate EncoderOk(cs: nat, width: nat, table: seq<Pixels>) {
    && 2 <= cs <= 8 && cs < width <= 12
    && |table| <= TABLE_SIZE && Pow2(width - 1) < |table| <= Pow2(width)
    && InitialTable(cs) <= table && TableOk(cs, table)
  }

  // The codes for `px` and the end code; `early` says after which codes the table is
  // cleared without being full.
  ghost function EncodeFrom(cs: nat, width: nat, table: seq<Pixels>, px: Pixels, early: seq<bool>): seq<bit>
    requires EncoderOk(cs, width, table) && px != [] && InRange(cs, px)
    decreases |px|, 1
  {
    SinglePixel(cs, table, px);
    var n := MatchLength(table, px, 1);
    FieldBits(IndexOf(table, px[..n]), width) + EncodeAfter(cs, width, table, px, n, early)
  }

  // What follows the code for the first n pixels.
  ghost function EncodeAfter(cs: nat, width: nat, table: seq<Pixels>, px: Pixels, n: nat, early: seq<bool>): seq<bit>
    requires EncoderOk(cs, width, table) && 0 < n <= |px| && InRange(cs, px)
    decreases |px|, 0
  {
    var width' := NextWidth(width, |table|);
    if n == |px| then FieldBits(Pow2(cs) + 1, width')
    else if |table| == TABLE_SIZE || Head(early) then
      InitialOk(cs);
      FieldBits(Pow2(cs), width') + EncodeFrom(cs, cs + 1, InitialTable(cs), px[n..], Tail(early))
    else
      var entry := px[..n] + [px[n]];
      EntryOk(cs, width, table, entry);
      EncodeFrom(cs, width', table + [entry], px[n..], Tail(early))
  }

  predicate Head(early: seq<bool>) { early != [] && early[0] }

  function Tail(early: seq<bool>): seq<bool> { if early == [] then [] else early[1..] }

  ghost function Encode(cs: nat, px: Pixels, early: seq<bool>): seq<bit>
    requires 2 <= cs <= 8 && InRange(cs, px)
  {
    InitialOk(cs);
    FieldBits(Pow2(cs), cs + 1)
    + if px == [] then FieldBits(Pow2(cs) + 1, cs + 1)
      else EncodeFrom(cs, cs + 1, InitialTable(cs), px, early)
  }

  lemma CodeSizeBounds(cs: nat)
    requires 2 <= cs <= 8
    ensures 4 <= Pow2(cs) <= 256 && Pow2(cs + 1) == 2 * Pow2(cs) && Pow2(12) == 4096
  {
    Pow2Values();
    Pow2Mono(2, cs);
    Pow2Mono(cs, 8);
    assert Pow2(12) == 4 * Pow2(10);
  }

  lemma InitialOk(cs: nat)
    requires 2 <= cs <= 8
    ensures EncoderOk(cs, cs + 1, InitialTable(cs))
  {
    CodeSizeBounds(cs);
  }

  lemma SinglePixel(cs: nat, table: seq<Pixels>, px: Pixels)
    requires InitialTable(cs) <= table && 2 <= cs <= 8 && px != [] && InRange(cs, px)
    ensures px[..1] in table
  {
    CodeSizeBounds(cs);
    var v := px[0];
    assert v < |InitialTable(cs)| && table[v] == InitialTable(cs)[v] == [v];
    assert px[..1] == [v];
  }

  lemma EntryOk(cs: nat, width: nat, table: seq<Pixels>, entry: Pixels)
    requires EncoderOk(cs, width, table) && |table| < TABLE_SIZE && entry != []
    ensures EncoderOk(cs, NextWidth(width, |table|), table + [entry])
  {
    CodeSizeBounds(cs);
    assert Pow2(width + 1) == 2 * Pow2(width);
  }

  // ------------------------------------------------------------ decoding

  // What the decoder has when the encoder is about to send a code: right after a clear
  // the same table, later one that lacks the newest entry.
  ghost predicate InStep(cs: nat, table: seq<Pixels>, known: seq<Pixels>, last: Option<nat>, next: byte) {
    && TableOk(cs, known)
    && match last
       case None => known == table
       case Some(o) => o < |known| && !Control(cs, o) && table == known + [known[o] + [next]]
  }

  // Receiving the encoder's code, the decoder catches up.
  lemma CatchUp(cs: nat, width: nat, table: seq<Pixels>, known: seq<Pixels>, last: Option<nat>, s: Pixels)
    requires EncoderOk(cs, width, table) && s != [] && s in table && InStep(cs, table, known, last, s[0])
    ensures var code := IndexOf(table, s);
      && !Control(cs, code) && code < Pow2(width)
      && Grow(cs, known, last, code) == Some(table)
  {
    var code := IndexOf(table, s);
    assert table[Pow2(cs)] == InitialTable(cs)[Pow2(cs)];
    assert table[Pow2(cs) + 1] == InitialTable(cs)[Pow2(cs) + 1];
    if last.Some? {
      var w := known[last.value];
      if code == |known| {
        assert s == w + [s[0]];
        assert s[0] == w[0];
      } else {
        assert table[code] == known[code];
      }
    }
  }

  // Both sides widen their codes at the same time.
  lemma SameWidth(cs: nat, width: nat, table: seq<Pixels>)
    requires EncoderOk(cs, width, table)
    ensures Widened(width, |table|) == NextWidth(width, |table|)
  {
    CodeSizeBounds(cs);
    LowStep(0, width);
    if |table| < Pow2(width) {
      LowSame(|table|, width);
    } else {
      LowSame(0, width);
      if width < 12 { Pow2Mono(width, 11); }
    }
  }

  // One string code: the decoder adds its entry, puts out the string and may widen.
  lemma DecodeString(cs: nat, width: nat, table: seq<Pixels>, known: seq<Pixels>, last: Option<nat>, s: Pixels,
                     data: seq<byte>, p: nat, done: Pixels)
    requires EncoderOk(cs, width, table) && s != [] && s in table && InStep(cs, table, known, last, s[0])
    requires Holds(data, p, FieldBits(IndexOf(table, s), width)) && p + width <= 8 * |data|
    ensures var code := IndexOf(table, s);
      && code < |table| && !Control(cs, code)
      && Decode(cs, data, p, width, known, last, true, done)
         == Decode(cs, data, p + width, NextWidth(width, |table|), table, Some(code), true, done + s)
  {
    hide Grow, Lsb, FieldBits, Holds, Low;
    CatchUp(cs, width, table, known, last, s);
    SameWidth(cs, width, table);
    ReadField(data, p, IndexOf(table, s), width);
  }

  lemma ControlFits(cs: nat, width: nat)
    requires 2 <= cs <= 8 && cs < width
    ensures Pow2(cs) + 1 < Pow2(width)
  {
    CodeSizeBounds(cs);
    Pow2Mono(cs + 1, width);
  }

  // A clear code resets the decoder, an end code stops it.
  lemma DecodeControl(cs: nat, width: nat, table: seq<Pixels>, last: Option<nat>, data: seq<byte>, p: nat,
                      cleared: bool, done: Pixels)
    requires 2 <= cs <= 8 && cs < width && TableOk(cs, table) && p + width <= 8 * |data|
    requires last.Some? ==> last.value < |table| && !Control(cs, last.value)
    ensures Holds(data, p, FieldBits(Pow2(cs), width)) ==>
      Decode(cs, data, p, width, table, last, cleared, done)
      == Decode(cs, data, p + width, cs + 1, InitialTable(cs), None, true, done)
    ensures Holds(data, p, FieldBits(Pow2(cs) + 1, width)) ==>
      Decode(cs, data, p, width, table, last, cleared, done) == Complete(done)
  {
    hide Lsb, FieldBits, Holds, InitialTable, Grow, Widened, Pow2;
    ControlFits(cs, width);
    if Holds(data, p, FieldBits(Pow2(cs), width)) { ReadField(data, p, Pow2(cs), width); }
    if Holds(data, p, FieldBits(Pow2(cs) + 1, width)) { ReadField(data, p, Pow2(cs) + 1, width); }
  }

  // From any point of the encoding on, a decoder in step puts out the rest of the pixels.
  lemma {:induction false} DecodeRest(cs: nat, width: nat, table: seq<Pixels>, px: Pixels, early: seq<bool>,
                                      known: seq<Pixels>, last: Option<nat>, data: seq<byte>, p: nat, done: Pixels)
    requires EncoderOk(cs, width, table) && px != [] && InRange(cs, px) && InStep(cs, table, known, last, px[0])
    requires var bits := EncodeFrom(cs, width, table, px, early);
      Holds(data, p, bits) && p + |bits| <= 8 * |data|
    ensures Decode(cs, data, p, width, known, last, true, done) == Complete(done + px)
    decreases |px|, 1
  {
    hide Decode, FieldBits, Holds, InitialTable, Grow, Pow2, IndexOf, MatchLength, EncodeAfter;
    SinglePixel(cs, table, px);
    var n := MatchLength(table, px, 1);
    var s := px[..n];
    var code := IndexOf(table, s);
    HoldsSplit(data, p, FieldBits(code, width), EncodeAfter(cs, width, table, px, n, early));
    DecodeString(cs, width, table, known, last, s, data, p, done);
    DecodeAfter(cs, width, table, px, n, early, code, data, p + width, done + s);
    assert done + s + px[n..] == done + px;
  }

  lemma {:induction false} DecodeAfter(cs: nat, width: nat, table: seq<Pixels>, px: Pixels, n: nat, early: seq<bool>,
                                       code: nat, data: seq<byte>, p: nat, done: Pixels)
    requires EncoderOk(cs, width, table) && 0 < n <= |px| && InRange(cs, px)
    requires code < |table| && !Control(cs, code) && table[code] == px[..n]
    requires var bits := EncodeAfter(cs, width, table, px, n, early);
      Holds(data, p, bits) && p + |bits| <= 8 * |data|
    ensures Decode(cs, data, p, NextWidth(width, |table|), table, Some(code), true, done) == Complete(done + px[n..])
    decreases |px|, 0
  {
    hide Decode, FieldBits, Holds, InitialTable, Grow, Pow2, EncodeFrom, IndexOf, MatchLength;
    var width', rest := NextWidth(width, |table|), px[n..];
    InitialOk(cs);
    if n == |px| {
      DecodeControl(cs, width', table, Some(code), data, p, true, done);
      assert done + rest == done;
    } else if |table| == TABLE_SIZE || Head(early) {
      var more := EncodeFrom(cs, cs + 1, InitialTable(cs), rest, Tail(early));
      HoldsSplit(data, p, FieldBits(Pow2(cs), width'), more);
      DecodeControl(cs, width', table, Some(code), data, p, true, done);
      DecodeRest(cs, cs + 1, InitialTable(cs), rest, Tail(early), InitialTable(cs), None, data, p + width', done);
    } else {
      var entry := px[..n] + [px[n]];
      EntryOk(cs, width, table, entry);
      DecodeRest(cs, width', table + [entry], rest, Tail(early), table, Some(code), data, p, done);
    }
  }

  lemma DecodeEncoded(cs: nat, px: Pixels, early: seq<bool>, data: seq<byte>)
    requires 2 <= cs <= 8 && InRange(cs, px) && data == Pack(Encode(cs, px, early))
    ensures Decode(cs, data, 0, cs + 1, InitialTable(cs), None, false, []) == Complete(px)
  {
    hide Decode, FieldBits, Holds, InitialTable, EncodeFrom, EncodeAfter, Pow2, Pack;
    var bits := Encode(cs, px, early);
    PackHolds(bits);
    InitialOk(cs);
    var tail := bits[cs + 1..];
    assert bits == FieldBits(Pow2(cs), cs + 1) + tail;
    HoldsSplit(data, 0, FieldBits(Pow2(cs), cs + 1), tail);
    DecodeControl(cs, cs + 1, InitialTable(cs), None, data, 0, false, []);
    if px == [] {
      DecodeControl(cs, cs + 1, InitialTable(cs), None, data, cs + 1, true, []);
    } else {
      assert tail == EncodeFrom(cs, cs + 1, InitialTable(cs), px, early);
      DecodeRest(cs, cs + 1, InitialTable(cs), px, early, InitialTable(cs), None, data, cs + 1, []);
      assert [] + px == px;
    }
  }

  // ------------------------------------------------------------ sub-blocks

  // A way to cut data into sub-blocks.
  predicate Chunks(chunks: seq<seq<byte>>) {
    forall i :: 0 <= i < |chunks| ==> 0 < |chunks[i]| < 256
  }

  function Joined(chunks: seq<seq<byte>>): seq<byte> {
    if chunks == [] then [] else chunks[0] + Joined(chunks[1..])
  }

  // Each chunk behind its length, and an empty one at the end.
  function SubBlocks(chunks: seq<seq<byte>>): seq<byte>
    requires Chunks(chunks)
  {
    if chunks == [] then [0] else [|chunks[0]|] + chunks[0] + SubBlocks(chunks[1..])
  }

  lemma {:induction false} PayloadOfChunk(input: seq<byte>, pos: nat, len: nat)
    requires pos + len <= |input|
    ensures Payload(input, pos, len) == input[pos..pos + len] + Payload(input, pos + len, 0)
    decreases len
  {
    if len > 0 {
      PayloadOfChunk(input, pos + 1, len - 1);
      assert input[pos..pos + len] == [input[pos]] + input[pos + 1..pos + len];
    }
  }

  lemma OneChunk(input: seq<byte>, pos: nat, c: seq<byte>)
    requires 0 < |c| < 256 && pos + 1 + |c| <= |input|
    requires input[pos] == |c| && input[pos + 1..pos + 1 + |c|] == c
    ensures Payload(input, pos, 0) == c + Payload(input, pos + 1 + |c|, 0)
    ensures RasterEnd(input, pos) == RasterEnd(input, pos + 1 + |c|)
  {
    PayloadOfChunk(input, pos + 1, |c|);
  }

  lemma NoChunks(input: seq<byte>, pos: nat)
    requires pos < |input| && input[pos] == 0
    ensures Payload(input, pos, 0) == [] && RasterEnd(input, pos) == pos + 1
  {
  }

  // The parts of a chunk and what follows it.
  lemma ChunkParts(input: seq<byte>, pos: nat, c: seq<byte>, rest: seq<byte>)
    requires |c| < 256 && pos + 1 + |c| + |rest| <= |input|
    requires input[pos..pos + (1 + |c| + |rest|)] == [|c|] + c + rest
    ensures input[pos] == |c| && input[pos + 1..pos + 1 + |c|] == c
    ensures input[pos + 1 + |c|..pos + 1 + |c| + |rest|] == rest
  {
    var n := 1 + |c| + |rest|;
    var all := input[pos..pos + n];
    assert input[pos] == all[0];
    SliceSlice(input, pos, n, 1, |c|);
    SliceSlice(input, pos, n, 1 + |c|, |rest|);
    assert all[1..1 + |c|] == c && all[1 + |c|..n] == rest;
  }

  lemma {:induction false} SubBlocksAt(chunks: seq<seq<byte>>, input: seq<byte>, pos: nat)
    requires Chunks(chunks) && pos + |SubBlocks(chunks)| <= |input|
    requires input[pos..pos + |SubBlocks(chunks)|] == SubBlocks(chunks)
    ensures Payload(input, pos, 0) == Joined(chunks)
    ensures RasterEnd(input, pos) == pos + |SubBlocks(chunks)|
    decreases |chunks|
  {
    hide Payload, RasterEnd;
    if chunks == [] {
      assert input[pos] == input[pos..pos + 1][0];
      NoChunks(input, pos);
    } else {
      var c, rest := chunks[0], SubBlocks(chunks[1..]);
      ChunkParts(input, pos, c, rest);
      OneChunk(input, pos, c);
      SubBlocksAt(chunks[1..], input, pos + 1 + |c|);
    }
  }

  // However the data is cut, the sub-blocks carry it, and their end is found.
  lemma SubBlocksCarry(chunks: seq<seq<byte>>, before: seq<byte>, after: seq<byte>)
    requires Chunks(chunks)
    ensures var input := before + SubBlocks(chunks) + after;
      && Payload(input, |before|, 0) == Joined(chunks)
      && RasterEnd(input, |before|) == |before| + |SubBlocks(chunks)|
  {
    hide Payload, RasterEnd, SubBlocks;
    var input := before + SubBlocks(chunks) + after;
    assert input[|before|..|before| + |SubBlocks(chunks)|] == SubBlocks(chunks);
    SubBlocksAt(chunks, input, |before|);
  }

  // Any pixels, encoded with any early clears, cut into any sub-blocks and put anywhere
  // into a file, decode to themselves, and reading goes on right behind them.
  lemma LzwRoundTrip(cs: nat, px: Pixels, early: seq<bool>, chunks: seq<seq<byte>>, before: seq<byte>, after: seq<byte>)
    requires 2 <= cs <= 8 && InRange(cs, px)
    requires Chunks(chunks) && Joined(chunks) == Pack(Encode(cs, px, early))
    ensures var raster := [cs] + SubBlocks(chunks);
      var input := before + raster + after;
      && RasterAt(input, |before|) == Complete(px)
      && RasterEnd(input, |before| + 1) == |before| + |raster|
  {
    hide Encode, Pack, Decode, Payload, SubBlocks;
    var input := before + ([cs] + SubBlocks(chunks)) + after;
    assert input == (before + [cs]) + SubBlocks(chunks) + after;
    SubBlocksCarry(chunks, before + [cs], after);
    DecodeEncoded(cs, px, early, Joined(chunks));
    assert ByteAt(input, |before|) == cs;
  }
}
