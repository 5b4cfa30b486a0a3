/**
  Decoding the coefficients of a JPEG block (section F.2.2 of ITU-T T.81): Huffman codes,
  each followed by the extra bits of a value, with stb_image's table that gives both at
  once for short ones.
 */
module JpegBlock {
  import opened Bits
  import opened Canonical
  import opened JpegBits
  import opened JpegHuffman

  type Place = z: nat | z < 64

  // Eight entries of stb_image's table.
  function DezigzagRow(r: nat): (row: seq<Place>)
    ensures |row| == 8
  {
    match r
    case 0 => [ 0,  1,  8, 16,  9,  2,  3, 10]
    case 1 => [17, 24, 32, 25, 18, 11,  4,  5]
    case 2 => [12, 19, 26, 33, 40, 48, 41, 34]
    case 3 => [27, 20, 13,  6,  7, 14, 21, 28]
    case 4 => [35, 42, 49, 56, 57, 50, 43, 36]
    case 5 => [29, 22, 15, 23, 30, 37, 44, 51]
    case 6 => [58, 59, 52, 45, 38, 31, 39, 46]
    case 7 => [53, 60, 61, 54, 47, 55, 62, 63]
    case _ => [63, 63, 63, 63, 63, 63, 63, 63]
  }

  // Where coefficient k goes; positions behind the last one are harmless.
  function Dezigzag(k: nat): Place
    requires k < 79
  {
    DezigzagRow(k / 8)[k % 8]
  }

  // The value that n extra bits stand for (figure F.12).
  function Extend(v: nat, n: nat): int {
    if n > 0 && v < Pow2(n - 1) then v - Pow2(n) + 1 else v
  }

  // A cast to a 16-bit integer.
  function ToShort(x: int): (r: int)
    ensures -0x8000 <= r < 0x8000
  {
    (x + 0x8000) % 0x1_0000 - 0x8000
  }

  // ------------------------------------------------------------ AC coefficients

  // A block's coefficients and the position behind them.  There is no verdict on DC sizes
  // that stb_image's tables do not cover.
  datatype Coefficients = Decoded(coefs: seq<int>, pos: nat) | BadCode | Unspecified

  type Block = c: seq<int> | |c| == 64 witness seq(64, i => 0)

  type Bytes64 = c: seq<byte> | |c| == 64 witness seq(64, i => 0)

  type Bytes256 = c: seq<byte> | |c| == 256 witness seq(256, i => 0)

  // How words are read: by their codes, or as stb_image takes them.
  datatype Reading = AsSpecified | AsBuilt

  function WordOf(m: Reading, sizes: seq<nat>, t: nat): Option<(int, nat)> {
    if m == AsSpecified then Word(sizes, t) else FoundWord(sizes, t)
  }

  // Coefficient k is the value read from s bits, times its quantizer.
  function SetCoef(coefs: Block, k: nat, value: int, dequant: Bytes64): Block
    requires k < 79
  {
    coefs[Dezigzag(k) := ToShort(value * dequant[Dezigzag(k)])]
  }

  // The coefficients from number k on (figures F.13 and F.14).
  ghost function AcFrom(m: Reading, data: seq<byte>, p: nat, sizes: seq<nat>, values: Bytes256, dequant: Bytes64,
                        k: nat, coefs: Block): Coefficients
    decreases if k < 64 then 64 - k else 0
  {
    if k >= 64 then Decoded(coefs, p)
    else
      match WordOf(m, sizes, Top(data, p, 16))
      case None => BadCode
      case Some((i, len)) =>
        if i < 0 || i >= 256 then Unspecified
        else AcSymbol(m, data, p + len, values[i], sizes, values, dequant, k, coefs)
  }

  // Run and size have been read.
  ghost function AcSymbol(m: Reading, data: seq<byte>, q: nat, rs: byte, sizes: seq<nat>, values: Bytes256,
                          dequant: Bytes64, k: nat, coefs: Block): Coefficients
    requires k < 64
    decreases 64 - k, 0
  {
    var r, s := rs / 16, rs % 16;
    if s == 0 then
      if rs != 0xF0 then Decoded(coefs, q) else AcFrom(m, data, q, sizes, values, dequant, k + 16, coefs)
    else
      var value := Extend(Top(data, q, s), s);
      AcFrom(m, data, q + s, sizes, values, dequant, k + r + 1, SetCoef(coefs, k + r, value, dequant))
  }

  // ------------------------------------------------------------ the fast table

  // The entry for the nine bits c that start with a code of len bits for rs: value, run
  // and total length, or 0 if the value is too long or too large.
  function FastAc(rs: byte, len: nat, c: nat): int
    requires len <= 9
  {
    var run, magbits := rs / 16, rs % 16;
    if magbits == 0 || len + magbits > 9 then 0
    else
      var k := Extend(Shr(Low(Shl(c, len), 9), 9 - magbits), magbits);
      if -128 <= k <= 127 then k * 256 + run * 16 + len + magbits else 0
  }

  // The extra bits within the nine bits that the table is indexed with.
  lemma ExtraBits(data: seq<byte>, p: nat, len: nat, n: nat)
    requires len + n <= 9
    ensures Shr(Low(Shl(Top(data, p, 9), len), 9), 9 - n) == Top(data, p + len, n)
  {
    hide Top, Shl, Shr, Low;
    var x := Top(data, p + len, 9 - len);
    assert Shl(Top(data, p, 9), 0) == Top(data, p, 9) by { ShlNone(Top(data, p, 9)); }
    ShiftOut(data, p, 9, len, 9);
    assert len + (9 - len - n) == 9 - n;
    ShrOfShl(x, len, 9 - len - n);
    TopTake(data, p + len, n, 9 - len);
  }

  lemma ShlNone(x: nat)
    ensures Shl(x, 0) == x
  {
  }

  // Wherever the entry is not 0, it holds the run, the value and the number of bits that
  // decoding the code and then the extra bits would give.
  lemma FastAcExact(data: seq<byte>, p: nat, rs: byte, len: nat)
    requires len <= 9
    ensures var e := FastAc(rs, len, Top(data, p, 9));
      e != 0 ==>
        && rs % 16 != 0 && len + rs % 16 <= 9
        && e / 256 == Extend(Top(data, p + len, rs % 16), rs % 16)
        && e / 16 % 16 == rs / 16
        && e % 16 == len + rs % 16
  {
    var run, magbits := rs / 16, rs % 16;
    if magbits != 0 && len + magbits <= 9 {
      ExtraBits(data, p, len, magbits);
      hide Top, Shl, Shr, Low, Extend;
      var k := Extend(Top(data, p + len, magbits), magbits);
      Packed(k, run, len + magbits);
    }
  }

  lemma Packed(k: int, run: nat, n: nat)
    requires run < 16 && n < 16
    ensures var e := k * 256 + run * 16 + n;
      e / 256 == k && e / 16 % 16 == run && e % 16 == n
  {
    var e := k * 256 + run * 16 + n;
    var high := k * 16 + run;
    assert e == high * 16 + n;
    assert e / 16 == high && e % 16 == n;
    assert high / 16 == k && high % 16 == run;
  }

  // The table agrees with the Huffman table's own fast table.
  ghost predicate FastAcTable(sizes: seq<nat>, values: Bytes256, fast: seq<byte>, fac: seq<int>) {
    && |fast| == |fac| == 512
    && forall c :: 0 <= c < 512 ==> FastAcEntry(sizes, values, c, fast[c], fac[c])
  }

  ghost predicate FastAcEntry(sizes: seq<nat>, values: Bytes256, c: nat, f: byte, e: int) {
    e == if f != NO_FAST && f < |sizes| && sizes[f] <= 9 then FastAc(values[f], sizes[f], c) else 0
  }

  method BuildFastAc(fac: array<int>, h: JHuffman, ghost sizes: seq<nat>)
    requires h.Built(sizes) && fac.Length == 512 && fac !in h.Repr()
    modifies fac
    ensures FastAcTable(sizes, h.values, h.fast[..], fac[..]) && h.Built(sizes)
  {
    hide FastAc, EntriesBelow, CodeSum, UpTo;
    for i := 0 to 512
      invariant h.Built(sizes)
      invariant forall c :: 0 <= c < i ==> FastAcEntry(sizes, h.values, c, h.fast[c], fac[c])
    {
      var f := h.fast[i];
      fac[i] := 0;
      FastIsShort(sizes, h.fast[..], i);
      if f < NO_FAST {
        assert h.size[f] == sizes[f];
        fac[i] := FastAc(h.values[f], h.size[f], i);
      }
    }
  }

  lemma FastIsShort(sizes: seq<nat>, fast: seq<byte>, c: nat)
    requires CodeSizes(sizes) && FastTable(sizes, UpTo(sizes, 9), fast) && c < 512
    ensures fast[c] != NO_FAST ==> fast[c] < |sizes| && sizes[fast[c]] <= 9
  {
    hide CodeSum;
    assert FastEntry(sizes, UpTo(sizes, 9), c, fast[c]);
    if fast[c] != NO_FAST { UpToSplits(sizes, 9); }
  }

  // ------------------------------------------------------------ the decoder

  class Jpeg {
    const input: seq<byte>
    ghost const data: seq<byte>     // the entropy-coded data from `start` on
    var pos: nat
    var codeBuffer: nat
    var codeBits: int
    var marker: byte
    var nomore: bool
    ghost var p: nat                // how many data bits have been used

    // Start reading entropy-coded data.
    constructor (input: seq<byte>, start: nat)
      ensures Valid() && p == 0 && data == Entropy(input, start) && this.input == input
    {
      this.input := input;
      data := Entropy(input, start);
      pos, codeBuffer, codeBits, marker, nomore, p := start, 0, 0, 0, false, 0;
      new;
      ShlZero(32);
    }

    // The reservoir is a window of the data; what has not been loaded is still in the
    // input, unless a marker was found.
    ghost predicate Valid()
      reads this
    {
      && Window(data, p, codeBuffer, codeBits)
      && (nomore ==> p + codeBits >= 8 * |data|)
      && (!nomore ==>
           (codeBits >= 0 && (p + codeBits) % 8 == 0 && Rest((p + codeBits) / 8)))
    }

    ghost predicate Rest(got: nat)
      reads this
    {
      if got <= |data| then data[got..] == Entropy(input, pos) else pos >= |input|
    }

    // Enough bits for the next n, or no more data.
    ghost predicate Enough(n: nat)
      reads this
    {
      codeBits >= n || nomore
    }

    // The next data byte, behind byte number `got`; true at a marker.
    method NextByte(ghost got: nat) returns (stop: bool, b: byte)
      requires Rest(got)
      modifies `pos, `marker, `nomore
      ensures stop ==> nomore && got == |data|
      ensures !stop ==> nomore == old(nomore) && Rest(got + 1) && b == ByteAt(data, got)
    {
      b := ByteAt(input, pos);
      pos := pos + 1;
      if b == 0xFF {
        var c := ByteAt(input, pos);
        pos := pos + 1;
        if c != 0 {
          marker, nomore := c, true;
          return true, b;
        }
      }
      assert got < |data| ==> data[got..][0] == data[got] && data[got..][1..] == data[got + 1..];
      stop := false;
    }

    // Load bytes until the reservoir has more than 24 bits, or a marker is found.
    method GrowBuffer()
      requires Valid() && codeBits <= 24
      modifies `pos, `codeBuffer, `codeBits, `marker, `nomore
      ensures Valid() && p == old(p)
      ensures codeBits > 24 || nomore
      ensures old(nomore) ==> codeBits > 24
      ensures nomore && !old(nomore) ==> p + codeBits == 8 * |data| && codeBits <= 24
    {
      hide Window, ByteAt, Shl;
      while true
        invariant Valid() && codeBits <= 24 && nomore == old(nomore)
        decreases 24 - codeBits
      {
        var stop, b := false, 0;
        if !nomore {
          stop, b := NextByte((p + codeBits) / 8);
          if stop { return; }
        }
        GrownWindow(b);
        codeBuffer := codeBuffer + Shl(b, 24 - codeBits);
        codeBits := codeBits + 8;
        if codeBits > 24 { return; }
      }
    }

    lemma GrownWindow(b: byte)
      requires Window(data, p, codeBuffer, codeBits) && codeBits <= 24
      requires nomore ==> b == 0 && p + codeBits >= 8 * |data|
      requires !nomore ==> codeBits >= 0 && (p + codeBits) % 8 == 0 && b == ByteAt(data, (p + codeBits) / 8)
      ensures Window(data, p, codeBuffer + Shl(b, 24 - codeBits), codeBits + 8)
    {
      hide Window, Shl;
      WindowGrow(data, p, codeBuffer, codeBits, b);
    }

    // The next n bits are at the top of the reservoir.
    lemma Peek(n: nat)
      requires Valid() && Enough(n) && n <= 32
      ensures Shr(codeBuffer, 32 - n) == Top(data, p, n)
    {
      WindowTop(data, p, codeBuffer, codeBits, n);
    }

    // Drop the next n bits.
    method Skip(n: nat)
      requires Valid() && Enough(n) && n <= 32
      modifies `codeBuffer, `codeBits, `p
      ensures Valid() && p == old(p) + n && codeBits == old(codeBits) - n
    {
      WindowSkip(data, p, codeBuffer, codeBits, n);
      hide Window, Low, Shl;
      codeBuffer := Low(Shl(codeBuffer, n), 32);
      codeBits := codeBits - n;
      p := p + n;
    }

    // The next symbol; or -1 if there is no code, or if the marker behind the data was found
    // by this call and the code goes on behind it.
    method HuffDecode(h: JHuffman, ghost sizes: seq<nat>) returns (v: int)
      requires Valid() && h.Built(sizes)
      modifies `pos, `codeBuffer, `codeBits, `marker, `nomore, `p
      ensures v < 256 && (v >= 0 ==> Valid())
      ensures var word := FoundWord(sizes, Top(data, old(p), 16));
        && (v < 0 <==> word.None? || (old(codeBits < 16 && !nomore) && nomore && old(p) + word.value.1 > 8 * |data|))
        && (v >= 0 ==> 0 <= word.value.0 < 256 && v == h.values[word.value.0] && p == old(p) + word.value.1)
    {
      if codeBits < 16 { GrowBuffer(); }
      ghost var t := Top(data, p, 16);
      NineBits();
      WordRightIffClear(sizes, t);
      hide Valid, Top, Shr, CodeSum, UpTo, Next, FastTable, LongWord;
      var k := h.fast[Shr(codeBuffer, 32 - FAST_BITS)];
      if k < NO_FAST {
        FastHit(sizes, h.fast[..], t);
        var s := h.size[k];
        assert s == sizes[k];
        if s > codeBits { return -1; }
        Skip(s);
        return h.values[k];
      }
      FastMiss(sizes, h.fast[..], t);
      v := SlowDecode(h, sizes);
    }

    // The table index is the nine bits in front.
    lemma NineBits()
      requires Valid() && Enough(16)
      ensures Shr(codeBuffer, 32 - FAST_BITS) == Shr(Top(data, p, 16), 7) < 512
      ensures Shr(codeBuffer, 16) == Top(data, p, 16) < 0x1_0000
    {
      Peek(9);
      Peek(16);
      TopTake(data, p, 9, 16);
      TopBound(data, p, 9);
      TopBound(data, p, 16);
      Pow2Values();
    }

    // The first length past nine whose codes end above the next sixteen bits.
    method SlowLength(h: JHuffman, ghost sizes: seq<nat>, temp: nat) returns (k: nat)
      requires h.Built(sizes) && temp < 0x1_0000
      ensures 10 <= k <= 17
      ensures k == 17 ==> LongWord(sizes, temp, 10).None?
      ensures k < 17 ==>
        LongWord(sizes, temp, 10)
        == Some((Shr(temp, 16 - k) + UpTo(sizes, k - 1) - CodeSum(sizes, UpTo(sizes, k - 1), k), k))
    {
      hide CodeSum, UpTo, Next, Shr, FastTable;
      k := FAST_BITS + 1;
      while true
        invariant 10 <= k <= 17 && LongWord(sizes, temp, 10) == LongWord(sizes, temp, k)
        decreases 17 - k
      {
        if k <= 16 { assert LengthEntry(sizes, k, h.maxcode[..], h.delta[..]); }
        if temp < h.maxcode[k] { return; }
        k := k + 1;
      }
    }

    static lemma SlowWord(sizes: seq<nat>, t: nat)
      requires !IsFast(sizes, t)
      ensures FoundWord(sizes, t) == LongWord(sizes, t, 10)
    {
    }

    // The next symbol by the limits.
    method SlowDecode(h: JHuffman, ghost sizes: seq<nat>) returns (v: int)
      requires Valid() && Enough(16) && h.Built(sizes)
      requires Shr(codeBuffer, 16) == Top(data, p, 16) < 0x1_0000 && !IsFast(sizes, Top(data, p, 16))
      modifies `codeBuffer, `codeBits, `p
      ensures v < 256 && (v >= 0 ==> Valid())
      ensures var word := FoundWord(sizes, Top(data, old(p), 16));
        && (v < 0 <==> word.None? || word.value.1 > old(codeBits))
        && (v >= 0 ==> 0 <= word.value.0 < 256 && v == h.values[word.value.0] && p == old(p) + word.value.1)
    {
      hide CodeSum, UpTo, Next, Shr, FastTable, Top, Window, LongWord, IsFast, FoundWord, Word, Clear, Rest;
      ghost var t := Top(data, p, 16);
      SlowWord(sizes, t);
      WordRightIffClear(sizes, t);
      var k := SlowLength(h, sizes, Shr(codeBuffer, 16));
      if k == 17 {
        codeBits := codeBits - 16;
        return -1;
      }
      if k > codeBits { return -1; }
      Peek(k);
      TopTake(data, p, k, 16);
      assert LengthEntry(sizes, k, h.maxcode[..], h.delta[..]);
      var c := Shr(codeBuffer, 32 - k) + h.delta[k];
      Skip(k);
      return h.values[c];
    }

    // The next n bits as a signed value.
    method ExtendReceive(n: nat) returns (value: int)
      requires Valid() && 0 < n <= 16
      modifies `pos, `codeBuffer, `codeBits, `marker, `nomore, `p
      ensures Valid() && p == old(p) + n
      ensures value == Extend(Top(data, old(p), n), n)
    {
      if codeBits < n { GrowBuffer(); }
      Peek(n);
      Peek(1);
      SignBit(data, p, n);
      hide Valid, Top, Shr, Pow2;
      var negative := Shr(codeBuffer, 31) == 0;
      var k := Shr(codeBuffer, 32 - n);
      Skip(n);
      value := k + if negative then 1 - Pow2(n) else 0;
    }

    // What a step does about the coefficients from number k on.
    ghost predicate AcStep(r: Coefficients, st: AcStatus, h: JHuffman, sizes: seq<nat>, dequant: Bytes64, k': nat,
                           coefs: Block)
      requires |h.values| == 256
      reads this
    {
      match st
      case More => AcFrom(AsBuilt, data, p, sizes, h.values, dequant, k', coefs) == r
      case End => r == Decoded(coefs, p)
      case Error => r == BadCode
    }

    // A coefficient whose code and extra bits are decoded one after the other.
    method SlowCoefficient(h: JHuffman, ghost sizes: seq<nat>, dequant: Bytes64, k: nat, coefs: array<int>)
      returns (st: AcStatus, k': nat)
      requires Valid() && Enough(16) && h.Built(sizes)
      requires k < 64 && coefs.Length == 64 && coefs !in h.Repr()
      modifies `pos, `codeBuffer, `codeBits, `marker, `nomore, `p, coefs
      ensures st != Error ==> Valid()
      ensures st == More ==> k' > k
      ensures AcStep(AcFrom(AsBuilt, data, old(p), sizes, h.values, dequant, k, old(coefs[..])), st, h, sizes, dequant,
                     k', coefs[..])
    {
      hide FastTable, EntriesBelow, CodeSum, CodeSizes, UpTo, Valid, Top, FoundWord, Extend, SetCoef, AcFrom;
      ghost var t, at := Top(data, p, 16), p;
      var rs := HuffDecode(h, sizes);
      NextStep(AsBuilt, data, at, sizes, h.values, dequant, k, coefs[..]);
      if rs < 0 { return Error, k; }
      var s := rs % 16;
      if s == 0 {
        if rs != 0xF0 { return End, k; }
        return More, k + 16;
      }
      k' := k + rs / 16;
      var value := ExtendReceive(s);
      StoreCoefficient(dequant, k', coefs, value);
      st, k' := More, k' + 1;
    }

    // A coefficient that the fast table has the whole of.
    method FastStep(r: int, dequant: Bytes64, k: nat, coefs: array<int>) returns (k': nat)
      requires Valid() && Enough(16) && 0 <= r % 16 <= 9 && k < 64 && coefs.Length == 64
      modifies `codeBuffer, `codeBits, `p, coefs
      ensures Valid() && p == old(p) + r % 16 && k' == k + r / 16 % 16 + 1
      ensures coefs[..] == SetCoef(old(coefs[..]), k + r / 16 % 16, r / 256, dequant)
    {
      hide Window;
      Skip(r % 16);
      k' := k + r / 16 % 16;
      StoreCoefficient(dequant, k', coefs, r / 256);
      k' := k' + 1;
    }

    // One AC coefficient: by the fast table if that has the whole of it.
    method AcCoefficient(h: JHuffman, fac: array<int>, ghost sizes: seq<nat>, dequant: Bytes64, k: nat,
                         coefs: array<int>)
      returns (st: AcStatus, k': nat)
      requires Valid() && Enough(16) && h.Built(sizes)
      requires fac.Length == 512 && FastAcTable(sizes, h.values, h.fast[..], fac[..])
      requires k < 64 && coefs.Length == 64 && coefs != fac && coefs !in h.Repr() && fac !in h.Repr()
      modifies `pos, `codeBuffer, `codeBits, `marker, `nomore, `p, coefs
      ensures st != Error ==> Valid()
      ensures st == More ==> k' > k
      ensures AcStep(AcFrom(AsBuilt, data, old(p), sizes, h.values, dequant, k, old(coefs[..])), st, h, sizes, dequant,
                     k', coefs[..])
    {
      hide Dezigzag, Valid, Top, Shr, AcFrom, FastAcTable, FastTable, EntriesBelow, CodeSizes, CodeSum, UpTo, SetCoef;
      NineBits();
      var c := Shr(codeBuffer, 32 - FAST_BITS);
      var r := fac[c];
      if r == 0 {
        st, k' := SlowCoefficient(h, sizes, dequant, k, coefs);
      } else {
        FastCoefficient(h.fast[..], fac[..], h.values, sizes, dequant, k, coefs[..], c);
        k' := FastStep(r, dequant, k, coefs);
        st := More;
      }
    }

    // An entry of the fast table makes the same step as decoding would.
    lemma FastCoefficient(fast: seq<byte>, fac: seq<int>, values: Bytes256, sizes: seq<nat>, dequant: Bytes64,
                          k: nat, coefs: Block, c: nat)
      requires Top(data, p, 16) < 0x1_0000 && c == Shr(Top(data, p, 16), 7) < 512 && k < 64
      requires CodeSizes(sizes) && FastTable(sizes, UpTo(sizes, FAST_BITS), fast)
      requires FastAcTable(sizes, values, fast, fac) && fac[c] != 0
      ensures var r := fac[c];
        && r % 16 <= 9 && r / 16 % 16 < 16
        && AcFrom(AsBuilt, data, p, sizes, values, dequant, k, coefs)
           == AcFrom(AsBuilt, data, p + r % 16, sizes, values, dequant, k + r / 16 % 16 + 1,
                     SetCoef(coefs, k + r / 16 % 16, r / 256, dequant))
    {
      hide Top, Shr, FastTable, CodeSum, UpTo, FastAc, SetCoef, Extend, Next;
      var t, f := Top(data, p, 16), fast[c];
      TopTake(data, p, 9, 16);
      assert FastAcEntry(sizes, values, c, f, fac[c]);
      FastHit(sizes, fast, t);
      FastAcExact(data, p, values[f], sizes[f]);
      NextStep(AsBuilt, data, p, sizes, values, dequant, k, coefs);
    }

    // The AC coefficients of a block; false if a code is bad.
    method DecodeAc(h: JHuffman, fac: array<int>, ghost sizes: seq<nat>, dequant: Bytes64,
                    coefs: array<int>) returns (ok: bool)
      requires Valid() && h.Built(sizes) && fac.Length == 512 && FastAcTable(sizes, h.values, h.fast[..], fac[..])
      requires coefs.Length == 64 && coefs != fac && coefs !in h.Repr() && fac !in h.Repr()
      modifies `pos, `codeBuffer, `codeBits, `marker, `nomore, `p, coefs
      ensures ok ==> Valid()
      ensures AcFrom(AsBuilt, data, old(p), sizes, h.values, dequant, 1, old(coefs[..]))
        == if ok then Decoded(coefs[..], p) else BadCode
    {
      hide Dezigzag, Valid, AcFrom, FastAcTable, FastTable, EntriesBelow, CodeSizes, CodeSum, UpTo;
      ghost var r := AcFrom(AsBuilt, data, p, sizes, h.values, dequant, 1, coefs[..]);
      var k := 1;
      while true
        invariant Valid() && k < 64
        invariant h.Built(sizes) && FastAcTable(sizes, h.values, h.fast[..], fac[..])
        invariant AcFrom(AsBuilt, data, p, sizes, h.values, dequant, k, coefs[..]) == r
        decreases 64 - k
      {
        if codeBits < 16 { LowOnBits(); GrowBuffer(); }
        var st;
        st, k := AcCoefficient(h, fac, sizes, dequant, k, coefs);
        if st != More { return st == End; }
        if k >= 64 {
          NoneLeft(AsBuilt, data, p, sizes, h.values, dequant, k, coefs[..]);
          return true;
        }
      }
    }

    lemma LowOnBits()
      requires Valid() && codeBits < 16
      ensures codeBits <= 24
    {
    }

    // The difference of the DC coefficient; End if it has more bits than the C code has
    // biases for.
    method DecodeDifference(h: JHuffman, ghost sizes: seq<nat>) returns (st: AcStatus, diff: int)
      requires Valid() && h.Built(sizes)
      modifies `pos, `codeBuffer, `codeBits, `marker, `nomore, `p
      ensures st == More ==> Valid()
      ensures match DcAt(AsBuilt, data, old(p), sizes, h.values)
        case NoCode => st == Error
        case TooLong => st == End
        case Difference(d, q) => st == More && diff == d && p == q
    {
      hide FastTable, EntriesBelow, CodeSizes, CodeSum, UpTo, Valid, Top, FoundWord, Extend;
      if codeBits < 16 { LowOnBits(); GrowBuffer(); }
      ghost var at := p;
      var t := HuffDecode(h, sizes);
      if t < 0 { return Error, 0; }
      if t > 15 { return End, 0; }
      diff := 0;
      if t != 0 { diff := ExtendReceive(t); } else { NoBits(data, p); }
      st := More;
    }

    // A whole block: the DC coefficient, as the difference to `pred`, and the others.
    method DecodeBlock(hdc: JHuffman, hac: JHuffman, fac: array<int>, ghost dcSizes: seq<nat>, ghost acSizes: seq<nat>,
                       dequant: Bytes64, pred: int, coefs: array<int>)
      returns (st: AcStatus, dc: int)
      requires Valid() && hdc.Built(dcSizes) && hac.Built(acSizes)
      requires fac.Length == 512 && FastAcTable(acSizes, hac.values, hac.fast[..], fac[..])
      requires coefs.Length == 64 && coefs != fac && coefs !in hac.Repr() && fac !in hac.Repr()
      modifies `pos, `codeBuffer, `codeBits, `marker, `nomore, `p, coefs
      ensures st == More ==> Valid()
      ensures match BlockAt(AsBuilt, data, old(p), dcSizes, hdc.values, acSizes, hac.values, dequant, pred)
        case Decoded(c, q) => st == More && coefs[..] == c && p == q
        case BadCode => st == Error
        case Unspecified => st == End
      ensures var d := DcAt(AsBuilt, data, old(p), dcSizes, hdc.values);
        d.Difference? ==> dc == pred + d.diff
    {
      hide Valid, AcFrom, FastAcTable, FastTable, EntriesBelow, CodeSizes, CodeSum, UpTo, DcAt;
      var diff;
      st, diff := DecodeDifference(hdc, dcSizes);
      if st != More { return st, pred; }
      ClearBlock(coefs);
      dc := pred + diff;
      coefs[0] := ToShort(dc * dequant[0]);
      assert coefs[..] == DcOnly(ToShort(dc * dequant[0]));
      var ok := DecodeAc(hac, fac, acSizes, dequant, coefs);
      if !ok { st := Error; }
    }
  }

  // Without extra bits the value is 0.
  lemma NoBits(data: seq<byte>, p: nat)
    ensures Extend(Top(data, p, 0), 0) == 0
  {
  }

  // ------------------------------------------------------------ the DC coefficient

  function DcOnly(v: int): (b: Block) {
    [v] + seq(63, i => 0)
  }

  method ClearBlock(coefs: array<int>)
    requires coefs.Length == 64
    modifies coefs
    ensures forall i :: 0 <= i < 64 ==> coefs[i] == 0
  {
    for i := 0 to 64
      invariant forall j :: 0 <= j < i ==> coefs[j] == 0
    {
      coefs[i] := 0;
    }
  }

  // The difference at p and the position behind it.
  datatype DcResult = Difference(diff: int, pos: nat) | NoCode | TooLong

  ghost function DcAt(m: Reading, data: seq<byte>, p: nat, sizes: seq<nat>, values: Bytes256): DcResult {
    match WordOf(m, sizes, Top(data, p, 16))
    case None => NoCode
    case Some((i, len)) =>
      if i < 0 || i >= 256 || values[i] > 15 then TooLong
      else
        var n := values[i];
        Difference(Extend(Top(data, p + len, n), n), p + len + n)
  }

  // A block whose DC code is at p (figures F.12 to F.14).
  ghost function BlockAt(m: Reading, data: seq<byte>, p: nat, dcSizes: seq<nat>, dcValues: Bytes256,
                         acSizes: seq<nat>, acValues: Bytes256, dequant: Bytes64, pred: int): Coefficients
  {
    match DcAt(m, data, p, dcSizes, dcValues)
    case NoCode => BadCode
    case TooLong => Unspecified
    case Difference(diff, q) =>
      AcFrom(m, data, q, acSizes, acValues, dequant, 1, DcOnly(ToShort((pred + diff) * dequant[0])))
  }

  lemma NoneLeft(m: Reading, data: seq<byte>, p: nat, sizes: seq<nat>, values: Bytes256, dequant: Bytes64, k: nat,
                 coefs: Block)
    requires k >= 64
    ensures AcFrom(m, data, p, sizes, values, dequant, k, coefs) == Decoded(coefs, p)
  {
  }

  lemma NextStep(m: Reading, data: seq<byte>, p: nat, sizes: seq<nat>, values: Bytes256, dequant: Bytes64, k: nat,
                 coefs: Block)
    requires k < 64
    ensures AcFrom(m, data, p, sizes, values, dequant, k, coefs)
      == match WordOf(m, sizes, Top(data, p, 16))
         case None => BadCode
         case Some((i, len)) =>
           if i < 0 || i >= 256 then Unspecified
           else AcSymbol(m, data, p + len, values[i], sizes, values, dequant, k, coefs)
  {
  }

  // ------------------------------------------------------------ reading as specified

  lemma {:induction false} AcAlike(data: seq<byte>, p: nat, sizes: seq<nat>, values: Bytes256, dequant: Bytes64,
                                   k: nat, coefs: Block)
    requires CodeSizes(sizes) && CodeSum(sizes, |sizes|, 16) <= 0x1_0000 && Clean(sizes)
    ensures AcFrom(AsBuilt, data, p, sizes, values, dequant, k, coefs)
         == AcFrom(AsSpecified, data, p, sizes, values, dequant, k, coefs)
    decreases if k < 64 then 64 - k else 0
  {
    hide CodeSum, CodeSizes, FoundWord, Word, SetCoef, Extend, Top, Clean;
    if k < 64 {
      CleanWord(data, p, sizes);
      NextStep(AsBuilt, data, p, sizes, values, dequant, k, coefs);
      NextStep(AsSpecified, data, p, sizes, values, dequant, k, coefs);
      var word := Word(sizes, Top(data, p, 16));
      if word.Some? && 0 <= word.value.0 < 256 {
        var q, rs := p + word.value.1, values[word.value.0];
        var r, s := rs / 16, rs % 16;
        if rs == 0xF0 {
          AcAlike(data, q, sizes, values, dequant, k + 16, coefs);
        } else if s != 0 {
          var value := Extend(Top(data, q, s), s);
          AcAlike(data, q + s, sizes, values, dequant, k + r + 1, SetCoef(coefs, k + r, value, dequant));
        }
      }
    }
  }

  lemma CleanWord(data: seq<byte>, p: nat, sizes: seq<nat>)
    requires CodeSizes(sizes) && CodeSum(sizes, |sizes|, 16) <= 0x1_0000 && Clean(sizes)
    ensures FoundWord(sizes, Top(data, p, 16)) == Word(sizes, Top(data, p, 16))
  {
    hide CodeSum, FoundWord, Word, Top;
    TopBound(data, p, 16);
    Pow2Values();
    CleanExactly(sizes);
    WordRightIffClear(sizes, Top(data, p, 16));
  }

  // With tables that are clean, a block is decoded as the standard says.
  lemma BlockAlike(data: seq<byte>, p: nat, dcSizes: seq<nat>, dcValues: Bytes256, acSizes: seq<nat>,
                   acValues: Bytes256, dequant: Bytes64, pred: int)
    requires CodeSizes(dcSizes) && CodeSum(dcSizes, |dcSizes|, 16) <= 0x1_0000 && Clean(dcSizes)
    requires CodeSizes(acSizes) && CodeSum(acSizes, |acSizes|, 16) <= 0x1_0000 && Clean(acSizes)
    ensures BlockAt(AsBuilt, data, p, dcSizes, dcValues, acSizes, acValues, dequant, pred)
         == BlockAt(AsSpecified, data, p, dcSizes, dcValues, acSizes, acValues, dequant, pred)
  {
    hide CodeSum, CodeSizes, FoundWord, Word, AcFrom, Extend, Top, Clean, DcOnly;
    CleanWord(data, p, dcSizes);
    var d := DcAt(AsSpecified, data, p, dcSizes, dcValues);
    if d.Difference? {
      AcAlike(data, d.pos, acSizes, acValues, dequant, 1, DcOnly(ToShort((pred + d.diff) * dequant[0])));
    }
  }

  // ------------------------------------------------------------ DC sizes that are not covered

  // Every AC code is decoded, whatever the table.
  lemma {:induction false} AcSpecified(data: seq<byte>, p: nat, sizes: seq<nat>, values: Bytes256, dequant: Bytes64,
                                       k: nat, coefs: Block)
    requires CodeSizes(sizes) && CodeSum(sizes, |sizes|, 16) <= 0x1_0000
    ensures AcFrom(AsBuilt, data, p, sizes, values, dequant, k, coefs) != Unspecified
    decreases if k < 64 then 64 - k else 0
  {
    hide CodeSum, CodeSizes, FoundWord, Clear, SetCoef, Extend, Top;
    if k < 64 {
      var t := Top(data, p, 16);
      WordRightIffClear(sizes, t);
      assert |sizes| <= 256 by { AtMost256(sizes); }
      NextStep(AsBuilt, data, p, sizes, values, dequant, k, coefs);
      var word := FoundWord(sizes, t);
      if word.Some? {
        var q, rs := p + word.value.1, values[word.value.0];
        var r, s := rs / 16, rs % 16;
        if rs == 0xF0 {
          AcSpecified(data, q, sizes, values, dequant, k + 16, coefs);
        } else if s != 0 {
          var value := Extend(Top(data, q, s), s);
          AcSpecified(data, q + s, sizes, values, dequant, k + r + 1, SetCoef(coefs, k + r, value, dequant));
        }
      }
    }
  }

  lemma AtMost256(sizes: seq<nat>)
    requires CodeSizes(sizes)
    ensures |sizes| <= 256
  {
  }

  // The symbol of the DC table announces more bits than there are biases for.
  ghost predicate LongDc(data: seq<byte>, p: nat, sizes: seq<nat>, values: Bytes256) {
    var word := FoundWord(sizes, Top(data, p, 16));
    word.Some? && 0 <= word.value.0 < 256 && values[word.value.0] > 15
  }

  // A block is not covered exactly if that is so at its start.
  lemma UnspecifiedExactly(data: seq<byte>, p: nat, dcSizes: seq<nat>, dcValues: Bytes256, acSizes: seq<nat>,
                           acValues: Bytes256, dequant: Bytes64, pred: int)
    requires CodeSizes(dcSizes) && CodeSum(dcSizes, |dcSizes|, 16) <= 0x1_0000
    requires CodeSizes(acSizes) && CodeSum(acSizes, |acSizes|, 16) <= 0x1_0000
    ensures BlockAt(AsBuilt, data, p, dcSizes, dcValues, acSizes, acValues, dequant, pred) == Unspecified
       <==> LongDc(data, p, dcSizes, dcValues)
  {
    hide CodeSum, CodeSizes, FoundWord, Clear, AcFrom, Extend, Top, DcOnly;
    WordRightIffClear(dcSizes, Top(data, p, 16));
    AtMost256(dcSizes);
    var d := DcAt(AsBuilt, data, p, dcSizes, dcValues);
    if d.Difference? {
      AcSpecified(data, d.pos, acSizes, acValues, dequant, 1, DcOnly(ToShort((pred + d.diff) * dequant[0])));
    }
  }

  // A table of a single code of one bit, whose symbol is 16, and no data.
  lemma LongDcExists(values: Bytes256)
    requires values[0] == 16
    ensures var sizes := SizeList(OneCodeCount(), 16);
      CodeSizes(sizes) && CodeSum(sizes, |sizes|, 16) <= 0x1_0000 && LongDc([], 0, sizes, values)
  {
    hide LongDc, SizeList, CodeSum, CodeSizes;
    OneCodeSizes();
    LongDcOf([1], values);
  }

  lemma LongDcOf(sizes: seq<nat>, values: Bytes256)
    requires sizes == [1] && values[0] == 16
    ensures CodeSizes(sizes) && CodeSum(sizes, 1, 16) <= 0x1_0000 && LongDc([], 0, sizes, values)
  {
    hide Top;
    TopPastEnd([], 0, 16);
    Pow2Values();
    assert CodeSum(sizes, 1, 16) == Pow2(15);
    NextExact(sizes, 0, 0);
  }

  method StoreCoefficient(dequant: Bytes64, k: nat, coefs: array<int>, value: int)
    requires k < 79 && coefs.Length == 64
    modifies coefs
    ensures coefs[..] == SetCoef(old(coefs[..]), k, value, dequant)
  {
    coefs[Dezigzag(k)] := ToShort(value * dequant[Dezigzag(k)]);
  }

  datatype AcStatus = More | End | Error

  // The top bit tells whether a value is negative.
  lemma SignBit(data: seq<byte>, p: nat, n: nat)
    requires n > 0
    ensures Top(data, p, 1) == 0 <==> Top(data, p, n) < Pow2(n - 1)
  {
    TopTake(data, p, 1, n);
    ShrBelow(Top(data, p, n), 1, n - 1);
    ShlPow2(0, n - 1);
  }
}
