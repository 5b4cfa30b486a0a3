/**
  An encoder for the symbols of DEFLATE, as bits: codes, and the tokens - single bytes and
  copies - of a block with any codes; the decoder of module Deflate reads them back.
 */
module DeflateEncode {
  import opened Bits
  import opened Canonical
  import opened Deflate
  import opened Packing
  import opened SymbolTables

  // ------------------------------------------------------------ codes

  lemma {:induction false} ReadCode(input: seq<byte>, p: nat, c: nat, n: nat)
    requires c < Pow2(n) && Holds(input, p, CodeBits(c, n))
    ensures Msb(input, p, n) == c
    decreases n
  {
    hide Bit;
    if n > 0 {
      HoldsSplit(input, p, CodeBits(c / 2, n - 1), [c % 2]);
      assert Bit(input, p + (n - 1) + 0) == [c % 2][0];
      ReadCode(input, p, c / 2, n - 1);
    }
  }

  // The code of symbol v.
  function SymbolBits(lens: seq<nat>, v: nat): (r: seq<bit>)
    requires v < |lens| && lens[v] > 0
    ensures |r| == lens[v]
  {
    CodeBits(Code(lens, v), lens[v])
  }

  lemma ReadSymbol(lens: seq<nat>, input: seq<byte>, p: nat, v: nat)
    requires CodeLengths(lens) && KraftSum(lens) <= Pow2(15)
    requires v < |lens| && lens[v] > 0 && Holds(input, p, SymbolBits(lens, v))
    ensures NextSymbol(lens, input, p) == Some(v)
  {
    hide Bit;
    CodeFits(lens, v);
    ReadCode(input, p, Code(lens, v), lens[v]);
    NextIsUnique(lens, input, p, v);
  }

  // ------------------------------------------------------------ tokens

  // What LZ77 produces: single bytes, and copies of earlier output.
  datatype Token = Literal(b: byte) | Match(len: nat, distance: nat)

  // The token makes sense after n bytes of output.
  predicate Fits(t: Token, n: nat) {
    t.Match? ==> 3 <= t.len <= 258 && 1 <= t.distance <= 32768 && t.distance <= n
  }

  function Size(t: Token): nat { if t.Literal? then 1 else t.len }

  ghost predicate AllFit(ts: seq<Token>, n: nat) {
    ts == [] || (Fits(ts[0], n) && AllFit(ts[1..], n + Size(ts[0])))
  }

  function Apply(t: Token, out: seq<byte>): (r: seq<byte>)
    requires Fits(t, |out|)
    ensures |r| == |out| + Size(t)
  {
    match t
    case Literal(b) => out + [b]
    case Match(len, distance) => Extend(out, distance, len)
  }

  ghost function Meaning(ts: seq<Token>, out: seq<byte>): (r: seq<byte>)
    requires AllFit(ts, |out|)
    ensures |r| >= |out|
    decreases |ts|
  {
    if ts == [] then out else Meaning(ts[1..], Apply(ts[0], out))
  }

  // ------------------------------------------------------------ what the tokens say about the bytes

  // The token stands for the bytes from n on: its own byte, or bytes that repeat those
  // `distance` places before them.
  ghost predicate TokenAt(t: Token, n: nat, r: seq<byte>) {
    match t
    case Literal(b) => n < |r| && r[n] == b
    case Match(len, distance) =>
      distance <= n && n + len <= |r| && forall i {:trigger r[i]} :: n <= i < n + len ==> r[i] == r[i - distance]
  }

  // The tokens stand for the bytes from n on, one after the other.
  ghost predicate Spells(ts: seq<Token>, n: nat, r: seq<byte>)
    decreases |ts|
  {
    ts == [] || (TokenAt(ts[0], n, r) && Spells(ts[1..], n + Size(ts[0]), r))
  }

  function TokensSize(ts: seq<Token>): nat {
    if ts == [] then 0 else Size(ts[0]) + TokensSize(ts[1..])
  }

  lemma {:induction false} SpellsLonger(ts: seq<Token>, n: nat, r: seq<byte>, r': seq<byte>)
    requires Spells(ts, n, r) && r <= r'
    ensures Spells(ts, n, r')
    decreases |ts|
  {
    if ts != [] {
      assert TokenAt(ts[0], n, r') by { assert forall i :: 0 <= i < |r| ==> r'[i] == r[i]; }
      SpellsLonger(ts[1..], n + Size(ts[0]), r, r');
    }
  }

  lemma ApplySpells(t: Token, out: seq<byte>)
    requires Fits(t, |out|)
    ensures out <= Apply(t, out) && TokenAt(t, |out|, Apply(t, out))
  {
    if t.Match? { ExtendRepeats(out, t.distance, t.len); }
  }

  // The meaning of the tokens goes on behind the output with the bytes that they stand for.
  lemma {:induction false} MeaningSpells(ts: seq<Token>, out: seq<byte>)
    requires AllFit(ts, |out|)
    ensures out <= Meaning(ts, out) && |Meaning(ts, out)| == |out| + TokensSize(ts)
    ensures Spells(ts, |out|, Meaning(ts, out))
    decreases |ts|
  {
    hide Apply, TokenAt;
    if ts != [] {
      ApplySpells(ts[0], out);
      MeaningSpells(ts[1..], Apply(ts[0], out));
      TokenLonger(ts[0], |out|, Apply(ts[0], out), Meaning(ts, out));
    }
  }

  lemma TokenLonger(t: Token, n: nat, r: seq<byte>, r': seq<byte>)
    requires TokenAt(t, n, r) && r <= r'
    ensures TokenAt(t, n, r')
  {
    assert forall i :: 0 <= i < |r| ==> r'[i] == r[i];
  }

  // The tokens determine those bytes.
  lemma {:induction false} SpellsUnique(ts: seq<Token>, n: nat, r: seq<byte>, r': seq<byte>)
    requires Spells(ts, n, r) && Spells(ts, n, r') && AllFit(ts, n)
    requires n <= |r| && n <= |r'| && r[..n] == r'[..n]
    ensures n + TokensSize(ts) <= |r| && n + TokensSize(ts) <= |r'|
    ensures r[..n + TokensSize(ts)] == r'[..n + TokensSize(ts)]
    decreases |ts|
  {
    hide TokenAt;
    if ts != [] {
      TokenUnique(ts[0], n, r, r');
      SpellsUnique(ts[1..], n + Size(ts[0]), r, r');
    }
  }

  lemma TokenUnique(t: Token, n: nat, r: seq<byte>, r': seq<byte>)
    requires TokenAt(t, n, r) && TokenAt(t, n, r') && Fits(t, n)
    requires n <= |r| && n <= |r'| && r[..n] == r'[..n]
    ensures n + Size(t) <= |r| && n + Size(t) <= |r'| && r[..n + Size(t)] == r'[..n + Size(t)]
  {
    match t
    case Literal(b) =>
      assert r[..n + 1] == r[..n] + [b] && r'[..n + 1] == r'[..n] + [b];
    case Match(len, distance) => CopyUnique(n, distance, len, r, r');
  }

  lemma {:induction false} CopyUnique(n: nat, distance: nat, len: nat, r: seq<byte>, r': seq<byte>)
    requires 0 < distance <= n && n + len <= |r| && n + len <= |r'| && r[..n] == r'[..n]
    requires forall i {:trigger r[i]} :: n <= i < n + len ==> r[i] == r[i - distance]
    requires forall i {:trigger r'[i]} :: n <= i < n + len ==> r'[i] == r'[i - distance]
    ensures r[..n + len] == r'[..n + len]
    decreases len
  {
    if len > 0 {
      CopyUnique(n, distance, len - 1, r, r');
      var k := n + len - 1;
      assert r[k] == r[k - distance] == r[..k][k - distance];
      assert r'[k] == r'[k - distance] == r'[..k][k - distance];
    }
  }

  // The length symbol and the distance symbol for a length and a distance.

  function LengthFrom(len: nat, i: nat): nat {
    if i == 0 || LengthBase(i) <= len then i else LengthFrom(len, i - 1)
  }

  function LengthIndex(len: nat): nat {
    if len == 258 then 28 else LengthFrom(len, 27)
  }

  function DistFrom(distance: nat, d: nat): nat {
    if d == 0 || DistBase(d) <= distance then d else DistFrom(distance, d - 1)
  }

  function DistIndex(distance: nat): nat {
    DistFrom(distance, 29)
  }

  lemma {:induction false} LengthFromCovers(len: nat, i: nat)
    requires 3 <= len && i < 28 && len < LengthBase(i) + Pow2(LengthExtra(i))
    ensures var j := LengthFrom(len, i);
      j <= i && LengthBase(j) <= len < LengthBase(j) + Pow2(LengthExtra(j))
    decreases i
  {
    if i > 0 && LengthBase(i) > len { LengthFromCovers(len, i - 1); }
  }

  lemma {:induction false} DistFromCovers(distance: nat, d: nat)
    requires 1 <= distance && d < 30 && distance < DistBase(d) + Pow2(DistExtra(d))
    ensures var j := DistFrom(distance, d);
      j <= d && DistBase(j) <= distance < DistBase(j) + Pow2(DistExtra(j))
    decreases d
  {
    if d > 0 && DistBase(d) > distance { DistFromCovers(distance, d - 1); }
  }

  lemma LengthIndexCovers(len: nat)
    requires 3 <= len <= 258
    ensures var i := LengthIndex(len);
      i <= 28 && LengthBase(i) <= len && len - LengthBase(i) < Pow2(LengthExtra(i))
  {
    hide LengthBase, LengthFrom, LengthExtra;
    if len == 258 {
      LengthTable(28);
      SmallPowers();
    } else {
      LengthTable(27);
      SmallPowers();
      LengthFromCovers(len, 27);
    }
  }

  lemma DistIndexCovers(distance: nat)
    requires 1 <= distance <= 32768
    ensures var d := DistIndex(distance);
      d < 30 && DistBase(d) <= distance && distance - DistBase(d) < Pow2(DistExtra(d))
  {
    hide DistBase, DistFrom, DistExtra;
    DistTable(29);
    SmallPowers();
    DistFromCovers(distance, 29);
  }

  // ------------------------------------------------------------ writing tokens

  // Every symbol that the token needs has a code.
  ghost predicate Codable(lit: seq<nat>, dist: seq<nat>, t: Token) {
    match t
    case Literal(b) => b < |lit| && lit[b] > 0
    case Match(len, distance) =>
      && 257 + LengthIndex(len) < |lit| && lit[257 + LengthIndex(len)] > 0
      && DistIndex(distance) < |dist| && dist[DistIndex(distance)] > 0
  }

  ghost predicate AllCodable(lit: seq<nat>, dist: seq<nat>, ts: seq<Token>) {
    && 256 < |lit| && lit[256] > 0
    && forall i :: 0 <= i < |ts| ==> Codable(lit, dist, ts[i])
  }

  ghost function LengthBits(lit: seq<nat>, len: nat): (r: seq<bit>)
    requires 3 <= len <= 258 && 257 + LengthIndex(len) < |lit| && lit[257 + LengthIndex(len)] > 0
  {
    var i := LengthIndex(len);
    LengthIndexCovers(len);
    SymbolBits(lit, 257 + i) + FieldBits(len - LengthBase(i), LengthExtra(i))
  }

  ghost function DistanceBits(dist: seq<nat>, distance: nat): (r: seq<bit>)
    requires 1 <= distance <= 32768 && DistIndex(distance) < |dist| && dist[DistIndex(distance)] > 0
  {
    var d := DistIndex(distance);
    DistIndexCovers(distance);
    SymbolBits(dist, d) + FieldBits(distance - DistBase(d), DistExtra(d))
  }

  ghost function TokenBits(lit: seq<nat>, dist: seq<nat>, t: Token, n: nat): (r: seq<bit>)
    requires Codable(lit, dist, t) && Fits(t, n)
  {
    match t
    case Literal(b) => SymbolBits(lit, b)
    case Match(len, distance) => LengthBits(lit, len) + DistanceBits(dist, distance)
  }

  ghost function TokensBits(lit: seq<nat>, dist: seq<nat>, ts: seq<Token>, n: nat): (r: seq<bit>)
    requires AllCodable(lit, dist, ts) && AllFit(ts, n)
    decreases |ts|
  {
    if ts == [] then SymbolBits(lit, 256)
    else TokenBits(lit, dist, ts[0], n) + TokensBits(lit, dist, ts[1..], n + Size(ts[0]))
  }

  lemma ReadDistance(dist: seq<nat>, input: seq<byte>, p: nat, len: nat, distance: nat, out: seq<byte>, limit: nat)
    requires UsableCode(dist, 32) && 1 <= distance <= 32768
    requires DistIndex(distance) < |dist| && dist[DistIndex(distance)] > 0
    requires distance <= |out| && 0 < len && |out| + len <= limit
    requires Holds(input, p, DistanceBits(dist, distance))
    ensures CopyStep(dist, input, p, len, out, limit)
         == Continue(Extend(out, distance, len), p + |DistanceBits(dist, distance)|)
  {
    hide Bit, Lsb, Holds, SymbolBits, FieldBits, NextSymbol, DistIndex, DistBase, DistExtra, Pow2, Extend, KraftSum;
    var d := DistIndex(distance);
    DistIndexCovers(distance);
    var symbol, field := SymbolBits(dist, d), FieldBits(distance - DistBase(d), DistExtra(d));
    HoldsSplit(input, p, symbol, field);
    ReadSymbol(dist, input, p, d);
    ReadField(input, p + |symbol|, distance - DistBase(d), DistExtra(d));
  }

  // A length is read, and copying it comes next.
  lemma ReadLength(lit: seq<nat>, dist: seq<nat>, input: seq<byte>, p: nat, len: nat, out: seq<byte>, limit: nat)
    requires UsableCode(lit, 288) && |out| <= limit
    requires 3 <= len <= 258 && 257 + LengthIndex(len) < |lit| && lit[257 + LengthIndex(len)] > 0
    requires Holds(input, p, LengthBits(lit, len))
    ensures SymbolStep(lit, dist, input, p, out, limit)
         == CopyStep(dist, input, p + |LengthBits(lit, len)|, len, out, limit)
  {
    hide Lsb, Holds, SymbolBits, FieldBits, NextSymbol, LengthIndex, LengthBase, LengthExtra, Pow2, KraftSum;
    hide CopyStep, SymbolStep;
    var i := LengthIndex(len);
    LengthIndexCovers(len);
    var symbol, field := SymbolBits(lit, 257 + i), FieldBits(len - LengthBase(i), LengthExtra(i));
    HoldsSplit(input, p, symbol, field);
    ReadSymbol(lit, input, p, 257 + i);
    ReadField(input, p + |symbol|, len - LengthBase(i), LengthExtra(i));
    LengthStep(lit, dist, input, p, i, out, limit);
  }

  lemma ReadMatch(lit: seq<nat>, dist: seq<nat>, input: seq<byte>, p: nat, len: nat, distance: nat, out: seq<byte>,
                  limit: nat)
    requires UsableCodes(lit, dist) && Codable(lit, dist, Match(len, distance)) && Fits(Match(len, distance), |out|)
    requires |out| + len <= limit
    requires Holds(input, p, LengthBits(lit, len) + DistanceBits(dist, distance))
    ensures SymbolStep(lit, dist, input, p, out, limit)
         == Continue(Extend(out, distance, len), p + |LengthBits(lit, len) + DistanceBits(dist, distance)|)
  {
    hide Holds, LengthIndex, DistIndex, Extend, UsableCode, CopyStep, LengthBits, DistanceBits, SymbolStep;
    HoldsSplit(input, p, LengthBits(lit, len), DistanceBits(dist, distance));
    ReadLength(lit, dist, input, p, len, out, limit);
    ReadDistance(dist, input, p + |LengthBits(lit, len)|, len, distance, out, limit);
  }

  // A length symbol leads to its copy.
  lemma LengthStep(lit: seq<nat>, dist: seq<nat>, input: seq<byte>, p: nat, i: nat, out: seq<byte>, limit: nat)
    requires |out| <= limit && NextSymbol(lit, input, p) == Some(257 + i)
    ensures var q := p + lit[257 + i];
      SymbolStep(lit, dist, input, p, out, limit)
      == CopyStep(dist, input, q + LengthExtra(i), LengthBase(i) + Lsb(input, q, LengthExtra(i)), out, limit)
  {
    hide Lsb, NextSymbol, CopyStep, LengthBase, LengthExtra;
  }

  lemma ReadToken(lit: seq<nat>, dist: seq<nat>, input: seq<byte>, p: nat, t: Token, out: seq<byte>, limit: nat)
    requires UsableCodes(lit, dist) && Codable(lit, dist, t) && Fits(t, |out|) && |out| + Size(t) <= limit
    requires Holds(input, p, TokenBits(lit, dist, t, |out|))
    ensures SymbolStep(lit, dist, input, p, out, limit) == Continue(Apply(t, out), p + |TokenBits(lit, dist, t, |out|)|)
  {
    hide Bit, Lsb, Holds, NextSymbol, LengthBits, DistanceBits, KraftSum, Pow2, CodeBits, Code;
    match t
    case Literal(b) => ReadSymbol(lit, input, p, b);
    case Match(len, distance) => ReadMatch(lit, dist, input, p, len, distance, out, limit);
  }

  lemma {:induction false} TokensRead(lit: seq<nat>, dist: seq<nat>, input: seq<byte>, p: nat, ts: seq<Token>,
                                      out: seq<byte>, limit: nat)
    requires UsableCodes(lit, dist) && AllCodable(lit, dist, ts) && AllFit(ts, |out|) && |Meaning(ts, out)| <= limit
    requires Holds(input, p, TokensBits(lit, dist, ts, |out|))
    ensures HuffmanBlock(lit, dist, input, p, out, limit)
         == Accepted(Meaning(ts, out), p + |TokensBits(lit, dist, ts, |out|)|)
    decreases |ts|
  {
    hide Bit, Lsb, Holds, NextSymbol, TokenBits, KraftSum, Pow2, CodeBits, Code, Apply;
    if ts == [] {
      ReadSymbol(lit, input, p, 256);
    } else {
      var bits := TokenBits(lit, dist, ts[0], |out|);
      HoldsSplit(input, p, bits, TokensBits(lit, dist, ts[1..], |out| + Size(ts[0])));
      assert |Apply(ts[0], out)| == |out| + Size(ts[0]) <= |Meaning(ts[1..], Apply(ts[0], out))|;
      ReadToken(lit, dist, input, p, ts[0], out, limit);
      TokensRead(lit, dist, input, p + |bits|, ts[1..], Apply(ts[0], out), limit);
    }
  }

  // A block written with any usable codes reads back as the tokens' meaning: the bytes that
  // the tokens stand for, behind the output so far.
  lemma ReadTokens(lit: seq<nat>, dist: seq<nat>, input: seq<byte>, p: nat, ts: seq<Token>, out: seq<byte>, limit: nat)
    requires UsableCodes(lit, dist) && AllCodable(lit, dist, ts) && AllFit(ts, |out|) && |Meaning(ts, out)| <= limit
    requires Holds(input, p, TokensBits(lit, dist, ts, |out|))
    ensures HuffmanBlock(lit, dist, input, p, out, limit)
         == Accepted(Meaning(ts, out), p + |TokensBits(lit, dist, ts, |out|)|)
    ensures out <= Meaning(ts, out) && Spells(ts, |out|, Meaning(ts, out))
  {
    hide UsableCodes, AllCodable, Holds, TokensBits, HuffmanBlock, Meaning, Spells;
    TokensRead(lit, dist, input, p, ts, out, limit);
    MeaningSpells(ts, out);
  }
}
