/**
  Streams given byte by byte, and what they decode to: one with the fixed codes, one with
  codes of its own, and the code lengths that section 3.2 of RFC 1951 gives as examples.
 */
module KnownStreams {
  import opened Bits
  import opened Canonical
  import opened Deflate
  import opened DeflateEncode
  import opened DeflateRoundTrip
  import opened Packing

  // ------------------------------------------------------------ the example of section 3.2.2

  // Symbols A to H with lengths 3, 3, 3, 3, 3, 2, 4, 4.
  function ExampleLengths(): seq<nat> { [3, 3, 3, 3, 3, 2, 4, 4] }

  lemma {:induction false} ExampleCount(s: nat)
    ensures Count(ExampleLengths(), s) == if s == 2 then 1 else if s == 3 then 5 else if s == 4 then 2 else 0
  {
    var lens := ExampleLengths();
    assert CountTo(lens, 0, s) == 0;
    assert CountTo(lens, 1, s) == if s == 3 then 1 else 0;
    assert CountTo(lens, 2, s) == if s == 3 then 2 else 0;
    assert CountTo(lens, 3, s) == if s == 3 then 3 else 0;
    assert CountTo(lens, 4, s) == if s == 3 then 4 else 0;
    assert CountTo(lens, 5, s) == if s == 3 then 5 else 0;
    assert CountTo(lens, 6, s) == if s == 3 then 5 else if s == 2 then 1 else 0;
    assert CountTo(lens, 7, s) == if s == 3 then 5 else if s == 2 then 1 else if s == 4 then 1 else 0;
  }

  // Their codes are 010, 011, 100, 101, 110, 00, 1110 and 1111.
  lemma ExampleCodes()
    ensures var lens := ExampleLengths();
      && Code(lens, 0) == 2 && Code(lens, 1) == 3 && Code(lens, 2) == 4 && Code(lens, 3) == 5 && Code(lens, 4) == 6
      && Code(lens, 5) == 0 && Code(lens, 6) == 14 && Code(lens, 7) == 15
  {
    var lens := ExampleLengths();
    ExampleCount(1);
    ExampleCount(2);
    ExampleCount(3);
    assert End(lens, 0) == 0 && End(lens, 1) == 0 && End(lens, 2) == 1 && End(lens, 3) == 7;
    assert CountTo(lens, 1, 3) == 1 && CountTo(lens, 2, 3) == 2 && CountTo(lens, 3, 3) == 3 && CountTo(lens, 4, 3) == 4;
    assert CountTo(lens, 5, 2) == 0 && CountTo(lens, 6, 4) == 0 && CountTo(lens, 7, 4) == 1;
  }

  // ------------------------------------------------------------ the fixed codes (section 3.2.6)

  lemma {:induction false} FixedCount(n: nat, s: nat)
    requires n <= 288
    ensures CountTo(FixedLit(), n, s) ==
      if s == 7 then (if n <= 256 then 0 else if n <= 280 then n - 256 else 24)
      else if s == 8 then (if n <= 144 then n else if n <= 280 then 144 else n - 136)
      else if s == 9 then (if n <= 144 then 0 else if n <= 256 then n - 144 else 112)
      else 0
    decreases n
  {
    if n > 0 { FixedCount(n - 1, s); }
  }

  lemma FixedEnds()
    ensures End(FixedLit(), 6) == 0 && End(FixedLit(), 7) == 24 && End(FixedLit(), 8) == 200
  {
    hide FixedLit, CountTo;
    FixedCount(288, 7);
    FixedCount(288, 8);
    NoShortFixed(6);
  }

  lemma {:induction false} NoShortFixed(s: nat)
    requires s <= 6
    ensures End(FixedLit(), s) == 0
    decreases s
  {
    hide FixedLit, CountTo;
    if s > 0 {
      NoShortFixed(s - 1);
      FixedCount(288, s);
    }
  }

  // Literals and lengths: 8 bits from 00110000 on, 9 bits from 110010000 on, 7 bits from
  // 0000000 on, 8 bits from 11000000 on.
  lemma FixedCodes(v: nat)
    requires v < 288
    ensures FixedLit()[v] == if v < 144 then 8 else if v < 256 then 9 else if v < 280 then 7 else 8
    ensures Code(FixedLit(), v) ==
      if v < 144 then 48 + v else if v < 256 then 400 + (v - 144) else if v < 280 then v - 256 else 192 + (v - 280)
  {
    FixedCount(v, FixedLit()[v]);
    hide End, CountTo;
    FixedEnds();
  }

  lemma {:induction false} FiveCount(n: nat, s: nat)
    requires n <= 32
    ensures CountTo(FixedDist(), n, s) == if s == 5 then n else 0
    decreases n
  {
    if n > 0 { FiveCount(n - 1, s); }
  }

  lemma {:induction false} NoShortDist(s: nat)
    requires s <= 4
    ensures End(FixedDist(), s) == 0
    decreases s
  {
    hide FixedDist, CountTo;
    if s > 0 {
      NoShortDist(s - 1);
      FiveCount(32, s);
    }
  }

  // Distances: their numbers in 5 bits.
  lemma FixedDistances(d: nat)
    requires d < 32
    ensures FixedDist()[d] == 5 && Code(FixedDist(), d) == d
  {
    FiveCount(d, 5);
    hide CountTo;
    NoShortDist(4);
  }

  // ------------------------------------------------------------ bits of given bytes

  lemma {:induction false} FieldBit(v: nat, n: nat, k: nat)
    requires k < n
    ensures FieldBits(v, n)[k] == Shr(v, k) % 2
    decreases n
  {
    if k > 0 { FieldBit(v / 2, n - 1, k - 1); }
  }

  // Bits that lie in two bytes, each byte sent from its lowest bit up.
  lemma Piece(input: seq<byte>, i: nat, lo: nat, piece: seq<bit>)
    requires i + 1 < |input| && lo + |piece| <= 16
    requires forall k :: 0 <= k < |piece| ==>
               piece[k] == (FieldBits(input[i], 8) + FieldBits(input[i + 1], 8))[lo + k]
    ensures Holds(input, 8 * i + lo, piece)
  {
    hide FieldBits, Shr;
    var two := FieldBits(input[i], 8) + FieldBits(input[i + 1], 8);
    forall k | 0 <= k < |piece| ensures Bit(input, 8 * i + lo + k) == piece[k] {
      assert piece[k] == two[lo + k];
      if lo + k < 8 {
        FieldBit(input[i], 8, lo + k);
        assert (8 * i + lo + k) / 8 == i && (8 * i + lo + k) % 8 == lo + k;
      } else {
        FieldBit(input[i + 1], 8, lo + k - 8);
        assert (8 * i + lo + k) / 8 == i + 1 && (8 * i + lo + k) % 8 == lo + k - 8;
      }
    }
  }

  // ------------------------------------------------------------ a block with the fixed codes

  // A literal a, a literal b, three bytes from two bytes back, and the end.
  function FixedExample(): seq<byte> { [75, 76, 2, 66, 0] }

  lemma ExampleBits()
    ensures var input := FixedExample();
      && Holds(input, 0, [1, 1, 0])
      && Holds(input, 3, [1, 0, 0, 1, 0, 0, 0, 1])
      && Holds(input, 11, [1, 0, 0, 1, 0, 0, 1, 0])
      && Holds(input, 19, [0, 0, 0, 0, 0, 0, 1])
      && Holds(input, 26, [0, 0, 0, 0, 1])
      && Holds(input, 31, [0, 0, 0, 0, 0, 0, 0])
  {
    hide Holds, FieldBits;
    var input := FixedExample();
    ExampleBytes();
    Piece(input, 0, 0, [1, 1, 0]);
    Piece(input, 0, 3, [1, 0, 0, 1, 0, 0, 0, 1]);
    Piece(input, 1, 3, [1, 0, 0, 1, 0, 0, 1, 0]);
    Piece(input, 2, 3, [0, 0, 0, 0, 0, 0, 1]);
    Piece(input, 3, 2, [0, 0, 0, 0, 1]);
    Piece(input, 3, 7, [0, 0, 0, 0, 0, 0, 0]);
  }

  lemma ExampleBytes()
    ensures FieldBits(75, 8) == [1, 1, 0, 1, 0, 0, 1, 0]
    ensures FieldBits(76, 8) == [0, 0, 1, 1, 0, 0, 1, 0]
    ensures FieldBits(2, 8) == [0, 1, 0, 0, 0, 0, 0, 0]
    ensures FieldBits(66, 8) == [0, 1, 0, 0, 0, 0, 1, 0]
    ensures FieldBits(0, 8) == [0, 0, 0, 0, 0, 0, 0, 0]
  {
    hide FieldBits;
    EightBits(75, 1, 1, 0, 1, 0, 0, 1, 0);
    EightBits(76, 0, 0, 1, 1, 0, 0, 1, 0);
    EightBits(2, 0, 1, 0, 0, 0, 0, 0, 0);
    EightBits(66, 0, 1, 0, 0, 0, 0, 1, 0);
    EightBits(0, 0, 0, 0, 0, 0, 0, 0, 0);
  }

  lemma EightBits(v: nat, a: bit, b: bit, c: bit, d: bit, e: bit, f: bit, g: bit, h: bit)
    requires v == a + 2 * b + 4 * c + 8 * d + 16 * e + 32 * f + 64 * g + 128 * h
    ensures FieldBits(v, 8) == [a, b, c, d, e, f, g, h]
  {
    hide FieldBits;
    var x1 := b + 2 * c + 4 * d + 8 * e + 16 * f + 32 * g + 64 * h;
    var x2 := c + 2 * d + 4 * e + 8 * f + 16 * g + 32 * h;
    var x3 := d + 2 * e + 4 * f + 8 * g + 16 * h;
    var x4 := e + 2 * f + 4 * g + 8 * h;
    FirstBit(v, 8, a, x1);
    FirstBit(x1, 7, b, x2);
    FirstBit(x2, 6, c, x3);
    FirstBit(x3, 5, d, x4);
    FirstBit(x4, 4, e, f + 2 * g + 4 * h);
    FirstBit(f + 2 * g + 4 * h, 3, f, g + 2 * h);
    FirstBit(g + 2 * h, 2, g, h);
    FirstBit(h, 1, h, 0);
  }

  lemma FirstBit(v: nat, n: nat, b: bit, rest: nat)
    requires n > 0 && v == b + 2 * rest
    ensures FieldBits(v, n) == [b] + FieldBits(rest, n - 1)
  {
  }

  // The code bits of the five symbols.
  lemma ExampleSymbols()
    ensures SymbolBits(FixedLit(), 97) == [1, 0, 0, 1, 0, 0, 0, 1]
    ensures SymbolBits(FixedLit(), 98) == [1, 0, 0, 1, 0, 0, 1, 0]
    ensures SymbolBits(FixedLit(), 257) == [0, 0, 0, 0, 0, 0, 1]
    ensures SymbolBits(FixedDist(), 1) == [0, 0, 0, 0, 1]
    ensures SymbolBits(FixedLit(), 256) == [0, 0, 0, 0, 0, 0, 0]
  {
    hide FixedLit, FixedDist, Code, CodeBits;
    FixedCodes(97);
    FixedCodes(98);
    FixedCodes(257);
    FixedCodes(256);
    FixedDistances(1);
    ExampleCodeBits();
  }

  lemma ExampleCodeBits()
    ensures CodeBits(145, 8) == [1, 0, 0, 1, 0, 0, 0, 1] && CodeBits(146, 8) == [1, 0, 0, 1, 0, 0, 1, 0]
    ensures CodeBits(1, 7) == [0, 0, 0, 0, 0, 0, 1] && CodeBits(0, 7) == [0, 0, 0, 0, 0, 0, 0]
    ensures CodeBits(1, 5) == [0, 0, 0, 0, 1]
  {
    hide CodeBits;
    LastBit(0, 0, 0);
    LastBit(0, 1, 0);
    LastBit(0, 2, 0);
    LastBit(0, 3, 0);
    LastBit(0, 4, 1);
    LastBit(0, 4, 0);
    LastBit(0, 5, 0);
    LastBit(0, 6, 1);
    LastBit(0, 6, 0);
    LastBit(0, 0, 1);
    LastBit(1, 1, 0);
    LastBit(2, 2, 0);
    LastBit(4, 3, 1);
    LastBit(9, 4, 0);
    LastBit(18, 5, 0);
    LastBit(36, 6, 0);
    LastBit(72, 7, 1);
    LastBit(36, 6, 1);
    LastBit(73, 7, 0);
    NoBits(0);
  }

  lemma NoBits(c: nat)
    ensures CodeBits(c, 0) == []
  {
  }

  lemma LastBit(c: nat, n: nat, b: bit)
    ensures CodeBits(2 * c + b, n + 1) == CodeBits(c, n) + [b]
  {
  }

  // The four symbols in front of the end: their bytes.
  lemma ExampleBlock(limit: nat)
    requires limit >= 5
    ensures HuffmanBlock(FixedLit(), FixedDist(), FixedExample(), 3, [], limit) == Accepted([97, 98, 97, 98, 97], 38)
  {
    hide Holds, SymbolBits, NextSymbol, FixedLit, FixedDist, FixedExample, KraftSum, CopyStep, Bit, Lsb;
    var lit, dist, input := FixedLit(), FixedDist(), FixedExample();
    FixedUsable();
    ExampleBits();
    ExampleSymbols();
    FixedCodes(97);
    FixedCodes(98);
    FixedCodes(256);
    ReadSymbol(lit, input, 3, 97);
    ReadSymbol(lit, input, 11, 98);
    ReadSymbol(lit, input, 31, 256);
    ExampleCopy(limit);
    var a, ab, all := [97], [97, 98], [97, 98, 97, 98, 97];
    assert [] + [97] == a && a + [98] == ab;
    assert HuffmanBlock(lit, dist, input, 31, all, limit) == Accepted(all, 38);
    assert HuffmanBlock(lit, dist, input, 19, ab, limit) == Accepted(all, 38);
    assert HuffmanBlock(lit, dist, input, 11, a, limit) == Accepted(all, 38);
  }

  lemma ExampleCopy(limit: nat)
    requires limit >= 5
    ensures SymbolStep(FixedLit(), FixedDist(), FixedExample(), 19, [97, 98], limit)
         == Continue([97, 98, 97, 98, 97], 31)
  {
    hide Holds, SymbolBits, NextSymbol, FixedLit, FixedDist, FixedExample, KraftSum, Bit, Lsb, Extend, DistBase;
    var lit, dist, input := FixedLit(), FixedDist(), FixedExample();
    FixedUsable();
    ExampleBits();
    ExampleSymbols();
    FixedCodes(257);
    FixedDistances(1);
    ReadSymbol(lit, input, 19, 257);
    ReadSymbol(dist, input, 26, 1);
    SmallTables(input);
    RepeatsIsExtend([97, 98], 2, 3, [97, 98, 97, 98, 97]);
  }

  lemma SmallTables(input: seq<byte>)
    ensures LengthBase(0) == 3 && LengthExtra(0) == 0 && DistBase(1) == 2 && DistExtra(1) == 0
    ensures Lsb(input, 26, 0) == 0 && Lsb(input, 31, 0) == 0
  {
  }

  // The whole stream: ababa, in 38 bits.
  lemma KnownFixed(limit: nat)
    requires limit >= 5
    ensures Inflate([75, 76, 2, 66, 0], false, limit) == Accepted([97, 98, 97, 98, 97], 38)
  {
    hide Holds, HuffmanBlock, FixedLit, FixedDist, Bit, Lsb, Flags, StoredBlock, DynamicTables;
    var input := FixedExample();
    ExampleBits();
    ExampleFlags();
    ReadFlags(input, 0, true, 1);
    ExampleBlock(limit);
    assert Block(input, 0, [], limit) == Accepted([97, 98, 97, 98, 97], 38);
  }

  lemma ExampleFlags()
    ensures Flags(true, 1) == [1, 1, 0]
  {
  }
}
