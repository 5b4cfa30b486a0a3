/**
  The round trip over whole streams: an encoder for lists of blocks, and the decoder
  of module Deflate run on its packed output.
 */
module DeflateRoundTrip {
  import opened Arithmetic
  import opened Bits
  import opened Canonical
  import opened Deflate
  import opened DeflateEncode
  import opened DeflateHeader
  import opened Packing
  import opened DeflateTrailer

  datatype Chunk =
    | Raw(data: seq<byte>)
    | FixedCoded(ts: seq<Token>)
    | DynamicCoded(form: Form, lit: seq<nat>, dist: seq<nat>, ts: seq<Token>)

  // The chunk can be written after n bytes of output.
  ghost predicate Writable(c: Chunk, n: nat) {
    match c
    case Raw(data) => |data| <= 0xFFFF
    case FixedCoded(ts) => AllFit(ts, n)
    case DynamicCoded(form, lit, dist, ts) =>
      Announces(form, lit, dist) && AllCodable(lit, dist, ts) && AllFit(ts, n)
  }

  ghost function ChunkMeaning(c: Chunk, out: seq<byte>): (r: seq<byte>)
    requires Writable(c, |out|)
    ensures |r| >= |out|
  {
    match c
    case Raw(data) => out + data
    case FixedCoded(ts) => Meaning(ts, out)
    case DynamicCoded(_, _, _, ts) => Meaning(ts, out)
  }

  ghost predicate AllWritable(cs: seq<Chunk>, out: seq<byte>)
    decreases |cs|
  {
    cs == [] || (Writable(cs[0], |out|) && AllWritable(cs[1..], ChunkMeaning(cs[0], out)))
  }

  ghost function AllMeaning(cs: seq<Chunk>, out: seq<byte>): (r: seq<byte>)
    requires AllWritable(cs, out)
    ensures |r| >= |out|
    decreases |cs|
  {
    if cs == [] then out else AllMeaning(cs[1..], ChunkMeaning(cs[0], out))
  }

  // ------------------------------------------------------------ what the chunks say about the bytes

  ghost predicate ChunkSpells(c: Chunk, n: nat, r: seq<byte>) {
    match c
    case Raw(data) => n + |data| <= |r| && r[n..n + |data|] == data
    case FixedCoded(ts) => Spells(ts, n, r)
    case DynamicCoded(_, _, _, ts) => Spells(ts, n, r)
  }

  function ChunkSize(c: Chunk): nat {
    match c
    case Raw(data) => |data|
    case FixedCoded(ts) => TokensSize(ts)
    case DynamicCoded(_, _, _, ts) => TokensSize(ts)
  }

  // The chunks stand for the bytes from n on, and nothing comes behind them.
  ghost predicate AllSpell(cs: seq<Chunk>, n: nat, r: seq<byte>)
    decreases |cs|
  {
    if cs == [] then n == |r| else ChunkSpells(cs[0], n, r) && AllSpell(cs[1..], n + ChunkSize(cs[0]), r)
  }

  lemma ChunkMeaningSpells(c: Chunk, out: seq<byte>)
    requires Writable(c, |out|)
    ensures out <= ChunkMeaning(c, out) && |ChunkMeaning(c, out)| == |out| + ChunkSize(c)
    ensures ChunkSpells(c, |out|, ChunkMeaning(c, out))
  {
    hide Announces, AllCodable, AllFit, Meaning, Spells, TokensSize;
    match c
    case Raw(data) =>
    case FixedCoded(ts) => MeaningSpells(ts, out);
    case DynamicCoded(_, _, _, ts) => MeaningSpells(ts, out);
  }

  lemma ChunkLonger(c: Chunk, n: nat, r: seq<byte>, r': seq<byte>)
    requires ChunkSpells(c, n, r) && r <= r'
    ensures ChunkSpells(c, n, r')
  {
    match c
    case Raw(data) => assert r'[n..n + |data|] == r[n..n + |data|];
    case FixedCoded(ts) => SpellsLonger(ts, n, r, r');
    case DynamicCoded(_, _, _, ts) => SpellsLonger(ts, n, r, r');
  }

  lemma {:induction false} AllMeaningSpells(cs: seq<Chunk>, out: seq<byte>)
    requires AllWritable(cs, out)
    ensures out <= AllMeaning(cs, out) && AllSpell(cs, |out|, AllMeaning(cs, out))
    decreases |cs|
  {
    hide Writable, ChunkMeaning, ChunkSpells;
    if cs != [] {
      ChunkMeaningSpells(cs[0], out);
      AllMeaningSpells(cs[1..], ChunkMeaning(cs[0], out));
      ChunkLonger(cs[0], |out|, ChunkMeaning(cs[0], out), AllMeaning(cs, out));
    }
  }

  // ------------------------------------------------------------ stored data

  function Zeros(n: nat): (r: seq<bit>)
    ensures |r| == n
  {
    if n == 0 then [] else Zeros(n - 1) + [0]
  }

  function DataBits(data: seq<byte>): (r: seq<bit>)
    ensures |r| == 8 * |data|
  {
    if data == [] then [] else FieldBits(data[0], 8) + DataBits(data[1..])
  }

  lemma {:induction false} ReadData(input: seq<byte>, i: nat, data: seq<byte>)
    requires i + |data| <= |input| && Holds(input, 8 * i, DataBits(data))
    ensures input[i..i + |data|] == data
    decreases |data|
  {
    hide Bit, Lsb, Holds, FieldBits;
    if data != [] {
      HoldsSplit(input, 8 * i, FieldBits(data[0], 8), DataBits(data[1..]));
      Pow2Values();
      ReadField(input, 8 * i, data[0], 8);
      LsbByte(input, i, 8);
      ReadData(input, i + 1, data[1..]);
      assert input[i..i + |data|] == [input[i]] + input[i + 1..i + 1 + |data[1..]|];
    }
  }

  // A stored block's body, written from bit p on.
  function RawBits(data: seq<byte>, p: nat): (r: seq<bit>)
    requires |data| <= 0xFFFF
    ensures |r| == RoundUp(p) - p + 32 + 8 * |data|
  {
    Zeros(RoundUp(p) - p) + (FieldBits(|data|, 16) + (FieldBits(0xFFFF - |data|, 16) + DataBits(data)))
  }

  lemma ReadRaw(data: seq<byte>, input: seq<byte>, p: nat, out: seq<byte>, limit: nat)
    requires |data| <= 0xFFFF && |out| + |data| <= limit
    requires Holds(input, p, RawBits(data, p)) && p + |RawBits(data, p)| <= 8 * |input|
    ensures StoredBlock(input, p, out, limit) == Accepted(out + data, p + |RawBits(data, p)|)
  {
    hide Bit, Lsb, Holds, FieldBits, DataBits;
    var q := RoundUp(p);
    var f1, f2 := FieldBits(|data|, 16), FieldBits(0xFFFF - |data|, 16);
    HoldsSplit(input, p, Zeros(q - p), f1 + (f2 + DataBits(data)));
    HoldsSplit(input, q, f1, f2 + DataBits(data));
    HoldsSplit(input, q + 16, f2, DataBits(data));
    Pow2Values();
    ReadField(input, q, |data|, 16);
    ReadField(input, q + 16, 0xFFFF - |data|, 16);
    var i := q / 8 + 4;
    assert q + 32 == 8 * i;
    ReadData(input, i, data);
  }

  // ------------------------------------------------------------ blocks

  lemma FixedCodable(ts: seq<Token>, n: nat)
    requires AllFit(ts, n)
    ensures AllCodable(FixedLit(), FixedDist(), ts)
    decreases |ts|
  {
    hide LengthIndex, DistIndex;
    if ts != [] {
      FixedCodable(ts[1..], n + Size(ts[0]));
      if ts[0].Match? {
        LengthIndexCovers(ts[0].len);
        DistIndexCovers(ts[0].distance);
      }
      assert Codable(FixedLit(), FixedDist(), ts[0]);
      assert forall i :: 0 < i < |ts| ==> ts[i] == ts[1..][i - 1];
    }
  }

  function Kind(c: Chunk): nat {
    match c
    case Raw(_) => 0
    case FixedCoded(_) => 1
    case DynamicCoded(_, _, _, _) => 2
  }

  ghost function BodyBits(c: Chunk, p: nat, n: nat): (r: seq<bit>)
    requires Writable(c, n)
  {
    match c
    case Raw(data) => RawBits(data, p)
    case FixedCoded(ts) =>
      FixedCodable(ts, n);
      TokensBits(FixedLit(), FixedDist(), ts, n)
    case DynamicCoded(form, lit, dist, ts) =>
      HeaderBits(form, |lit|, |dist|) + TokensBits(lit, dist, ts, n)
  }

  lemma ReadDynamic(form: Form, lit: seq<nat>, dist: seq<nat>, ts: seq<Token>, input: seq<byte>, p: nat,
                    out: seq<byte>, limit: nat)
    requires Announces(form, lit, dist) && AllCodable(lit, dist, ts) && AllFit(ts, |out|) && |Meaning(ts, out)| <= limit
    requires Holds(input, p, HeaderBits(form, |lit|, |dist|) + TokensBits(lit, dist, ts, |out|))
    ensures BlockOfKind(2, input, p, out, limit)
         == Accepted(Meaning(ts, out), p + |HeaderBits(form, |lit|, |dist|) + TokensBits(lit, dist, ts, |out|)|)
  {
    hide Holds, HuffmanBlock, DynamicTables, Meaning, TokensBits, HeaderBits, CodeLengthCode, RunsCodable, RunsOk;
    hide RunsMeaning, KraftSum, AllCodable;
    HoldsSplit(input, p, HeaderBits(form, |lit|, |dist|), TokensBits(lit, dist, ts, |out|));
    ReadHeader(form, lit, dist, input, p);
    ReadTokens(lit, dist, input, p + |HeaderBits(form, |lit|, |dist|)|, ts, out, limit);
  }

  lemma ReadBody(c: Chunk, input: seq<byte>, p: nat, out: seq<byte>, limit: nat)
    requires Writable(c, |out|) && |ChunkMeaning(c, out)| <= limit
    requires Holds(input, p, BodyBits(c, p, |out|)) && p + |BodyBits(c, p, |out|)| <= 8 * |input|
    ensures BlockOfKind(Kind(c), input, p, out, limit) == Accepted(ChunkMeaning(c, out), p + |BodyBits(c, p, |out|)|)
  {
    hide Holds, HuffmanBlock, StoredBlock, DynamicTables, Meaning, TokensBits, HeaderBits, RawBits;
    hide FixedLit, FixedDist, KraftSum, Announces, AllCodable;
    match c
    case Raw(data) =>
      ReadRaw(data, input, p, out, limit);
    case FixedCoded(ts) =>
      FixedCodable(ts, |out|);
      FixedUsable();
      ReadTokens(FixedLit(), FixedDist(), input, p, ts, out, limit);
    case DynamicCoded(form, lit, dist, ts) =>
      ReadDynamic(form, lit, dist, ts, input, p, out, limit);
  }

  function Flags(final: bool, kind: nat): (r: seq<bit>)
    ensures |r| == 3
  {
    [if final then 1 else 0] + FieldBits(kind, 2)
  }

  // The blocks for these chunks, written from bit p on after n bytes of output.
  ghost function StreamBits(cs: seq<Chunk>, p: nat, out: seq<byte>): (r: seq<bit>)
    requires AllWritable(cs, out)
    decreases |cs|
  {
    if cs == [] then []
    else
      var block := Flags(|cs| == 1, Kind(cs[0])) + BodyBits(cs[0], p + 3, |out|);
      block + StreamBits(cs[1..], p + |block|, ChunkMeaning(cs[0], out))
  }

  lemma ReadFlags(input: seq<byte>, p: nat, final: bool, kind: nat)
    requires kind < 4 && Holds(input, p, Flags(final, kind))
    ensures (Bit(input, p) == 1) == final && Lsb(input, p + 1, 2) == kind
  {
    hide Bit, Lsb, FieldBits;
    HoldsSplit(input, p, [if final then 1 else 0], FieldBits(kind, 2));
    assert Bit(input, p + 0) == [if final then 1 else 0][0];
    assert Pow2(2) == 4;
    ReadField(input, p + 1, kind, 2);
  }

  lemma {:induction false} ReadStream(cs: seq<Chunk>, input: seq<byte>, p: nat, out: seq<byte>, limit: nat)
    requires cs != [] && AllWritable(cs, out) && |AllMeaning(cs, out)| <= limit
    requires Holds(input, p, StreamBits(cs, p, out)) && p + |StreamBits(cs, p, out)| <= 8 * |input|
    ensures |out| <= limit
    ensures Blocks(input, p, out, limit) == Accepted(AllMeaning(cs, out), p + |StreamBits(cs, p, out)|)
    decreases |cs|
  {
    hide Bit, Lsb, Holds, BlockOfKind, BodyBits, Flags, ChunkMeaning, Writable;
    var flags, body := Flags(|cs| == 1, Kind(cs[0])), BodyBits(cs[0], p + 3, |out|);
    var out' := ChunkMeaning(cs[0], out);
    var q := p + |flags + body|;
    var rest := StreamBits(cs[1..], q, out');
    HoldsSplit(input, p, flags + body, rest);
    HoldsSplit(input, p, flags, body);
    ReadFlags(input, p, |cs| == 1, Kind(cs[0]));
    assert |AllMeaning(cs[1..], out')| >= |out'|;
    ReadBody(cs[0], input, p + 3, out, limit);
    if |cs| > 1 {
      ReadStream(cs[1..], input, q, out', limit);
    }
  }

  // Any list of chunks, written as a raw DEFLATE stream and packed into bytes, decodes
  // to what the chunks stand for.
  lemma RoundTrip(cs: seq<Chunk>, limit: nat)
    requires cs != [] && AllWritable(cs, []) && |AllMeaning(cs, [])| <= limit
    ensures var bits := StreamBits(cs, 0, []);
      Inflate(Pack(bits), false, limit) == Accepted(AllMeaning(cs, []), |bits|)
    ensures AllSpell(cs, 0, AllMeaning(cs, []))
  {
    hide Holds, Blocks, StreamBits, AllMeaning, AllWritable, AllSpell;
    AllMeaningSpells(cs, []);
    var bits := StreamBits(cs, 0, []);
    PackHolds(bits);
    ReadStream(cs, Pack(bits), 0, [], limit);
  }

  // ------------------------------------------------------------ zlib streams

  // What the two bytes in front of a zlib stream say (section 2.2 of RFC 1950): the size of
  // the window and how hard the compressor has tried.
  datatype Preamble = Preamble(window: nat, level: nat)

  predicate PreambleOk(h: Preamble) { h.window <= 7 && h.level <= 3 }

  // Method 8 and the window.
  function MethodByte(h: Preamble): byte
    requires PreambleOk(h)
  {
    16 * h.window + 8
  }

  // The level in the two highest bits, and a check value that makes both bytes together a
  // multiple of 31; there is no preset dictionary.
  function FlagByte(h: Preamble): byte
    requires PreambleOk(h)
  {
    64 * h.level + Check(256 * MethodByte(h) + 64 * h.level)
  }

  // What is missing to a multiple of 31.
  function Check(n: nat): (r: nat)
    ensures r < 31
  {
    (31 - n % 31) % 31
  }

  // Both bytes are accepted, whatever the window and the level.
  lemma PreambleAccepted(h: Preamble, input: seq<byte>)
    requires PreambleOk(h) && ByteAt(input, 0) == MethodByte(h) && ByteAt(input, 1) == FlagByte(h)
    ensures HeaderOk(input)
  {
    hide Check, HeaderOk, MethodByte, FlagByte;
    var n := 256 * MethodByte(h) + 64 * h.level;
    PreambleBytes(h);
    CheckValue(n);
    BytesAccepted(input, h.window, h.level, Check(n), n);
  }

  lemma PreambleBytes(h: Preamble)
    requires PreambleOk(h)
    ensures MethodByte(h) == 16 * h.window + 8
    ensures FlagByte(h) == 64 * h.level + Check(256 * MethodByte(h) + 64 * h.level)
  {
    hide Check;
  }

  lemma BytesAccepted(input: seq<byte>, window: nat, level: nat, check: nat, n: nat)
    requires ByteAt(input, 0) == 16 * window + 8 && ByteAt(input, 1) == 64 * level + check && check < 32
    requires n == 256 * (16 * window + 8) + 64 * level && (n + check) % 31 == 0
    ensures HeaderOk(input)
  {
    NoDictionary(level, check);
    EightInLow(window);
    assert ByteAt(input, 0) * 256 + ByteAt(input, 1) == n + check;
  }

  lemma EightInLow(window: nat)
    ensures (16 * window + 8) % 16 == 8
  {
  }

  lemma CheckValue(n: nat)
    ensures (n + Check(n)) % 31 == 0
  {
    var q, r := n / 31, n % 31;
    assert n == 31 * q + r;
    if r != 0 { assert n + (31 - r) == 31 * (q + 1); }
  }

  lemma NoDictionary(level: nat, check: nat)
    requires check < 32
    ensures (64 * level + check) / 32 % 2 == 0
  {
    assert (64 * level + check) / 32 == 2 * level;
  }

  // What is accepted, in terms of the bits: compression method 8, no preset dictionary, and
  // the check value.
  lemma HeaderExactly(input: seq<byte>)
    ensures HeaderOk(input)
       <==> Lsb(input, 0, 4) == 8 && Bit(input, 13) == 0 && (256 * Lsb(input, 0, 8) + Lsb(input, 8, 8)) % 31 == 0
  {
    hide Lsb, Bit;
    LsbByte(input, 0, 8);
    LsbByte(input, 1, 8);
    MethodBits(input, 4, 8);
    DictionaryBit(input, 5);
  }

  lemma MethodBits(input: seq<byte>, n: nat, m: nat)
    requires n == 4 && m == 8
    ensures Lsb(input, 0, n) == ByteAt(input, 0) % 16
  {
    LsbByte(input, 0, m);
    LsbTake(input, 0, n, m);
    hide Lsb;
    LowFour(ByteAt(input, 0), n);
  }

  lemma DictionaryBit(input: seq<byte>, n: nat)
    requires n == 5
    ensures Bit(input, 8 + n) == ByteAt(input, 1) / 32 % 2
  {
    ShrFive(ByteAt(input, 1), n);
  }

  lemma LowFour(x: nat, n: nat)
    requires n == 4
    ensures Low(x, n) == x % 16
  {
    LowIsMod(x, n);
    assert Pow2(4) == 16;
  }

  lemma {:induction false} LowIsMod(x: nat, n: nat)
    ensures Low(x, n) == x % Pow2(n)
    decreases n
  {
    if n > 0 {
      LowIsMod(x / 2, n - 1);
      HalfMod(x, Pow2(n - 1));
    }
  }

  lemma HalfMod(x: nat, m: nat)
    requires m > 0
    ensures x % (2 * m) == x % 2 + 2 * (x / 2 % m)
  {
    var q, r := x / 2 / m, x / 2 % m;
    assert x / 2 == q * m + r;
    assert q * (2 * m) == 2 * (q * m);
    DivMod(x, 2 * m, q, x % 2 + 2 * r);
  }

  lemma ShrFive(x: nat, n: nat)
    requires n == 5
    ensures Shr(x, n) == x / 32
  {
    ShrBelow(x, x / 32 + 1, n);
    ShrBelow(x, x / 32, n);
    ShlFive(x / 32 + 1, n);
    ShlFive(x / 32, n);
  }

  lemma ShlFive(x: nat, n: nat)
    requires n == 5
    ensures Shl(x, n) == 32 * x
  {
    assert Shl(x, 1) == 2 * x && Shl(x, 2) == 4 * x && Shl(x, 3) == 8 * x && Shl(x, 4) == 16 * x;
  }

  // A zlib stream: the preamble and the chunks.
  ghost function ZlibBits(h: Preamble, cs: seq<Chunk>): (r: seq<bit>)
    requires PreambleOk(h) && AllWritable(cs, [])
  {
    FieldBits(MethodByte(h), 8) + FieldBits(FlagByte(h), 8) + StreamBits(cs, 16, [])
  }

  lemma ZlibHeader(h: Preamble, stream: seq<bit>)
    requires PreambleOk(h)
    ensures var input := Pack(FieldBits(MethodByte(h), 8) + FieldBits(FlagByte(h), 8) + stream);
      HeaderOk(input) && Holds(input, 16, stream)
  {
    hide Bit, Lsb, Holds, FieldBits, Pack, HeaderOk, MethodByte, FlagByte;
    var f1, f2 := FieldBits(MethodByte(h), 8), FieldBits(FlagByte(h), 8);
    var input := Pack(f1 + f2 + stream);
    PackHolds(f1 + f2 + stream);
    HoldsSplit(input, 0, f1 + f2, stream);
    HoldsSplit(input, 0, f1, f2);
    Pow2Values();
    ReadField(input, 0, MethodByte(h), 8);
    ReadField(input, 8, FlagByte(h), 8);
    LsbByte(input, 0, 8);
    LsbByte(input, 1, 8);
    PreambleAccepted(h, input);
  }

  // The same inside a zlib stream, with any trailer behind it.
  lemma ZlibRoundTrip(h: Preamble, cs: seq<Chunk>, trailer: seq<byte>, limit: nat)
    requires PreambleOk(h) && cs != [] && AllWritable(cs, []) && |AllMeaning(cs, [])| <= limit
    ensures var bits := ZlibBits(h, cs);
      Inflate(Pack(bits) + trailer, true, limit) == Accepted(AllMeaning(cs, []), |bits|)
    ensures AllSpell(cs, 0, AllMeaning(cs, []))
  {
    hide Bit, Lsb, Holds, Blocks, StreamBits, AllMeaning, AllWritable, AllSpell, FieldBits, Pack, HeaderOk;
    hide MethodByte, FlagByte;
    AllMeaningSpells(cs, []);
    var stream := StreamBits(cs, 16, []);
    var input := Pack(ZlibBits(h, cs));
    ZlibHeader(h, stream);
    ReadStream(cs, input, 16, [], limit);
    TrailerIrrelevant(input, trailer, true, limit);
  }
}
