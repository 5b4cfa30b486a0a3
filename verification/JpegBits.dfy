/**
  JPEG entropy-coded data: bytes in which 0xFF is followed by a stuffed zero, up to a
  marker (section F.1.2.3 of ITU-T T.81), read highest bit first through a 32-bit
  reservoir.  Behind the data every bit reads as zero.
 */
module JpegBits {
  import opened Bits

  // The data bytes from `pos` on.
  function Entropy(input: seq<byte>, pos: nat): seq<byte>
    decreases if pos < |input| then |input| - pos else 0
  {
    if pos >= |input| then []
    else if input[pos] != 0xFF then [input[pos]] + Entropy(input, pos + 1)
    else if ByteAt(input, pos + 1) != 0 then []
    else [0xFF] + Entropy(input, pos + 2)
  }

  // Writing data: a zero is stuffed in behind every 0xFF.
  function Stuffed(data: seq<byte>): seq<byte> {
    if data == [] then [] else (if data[0] == 0xFF then [0xFF, 0] else [data[0]]) + Stuffed(data[1..])
  }

  // Any data, up to a marker, are read back.
  lemma {:induction false} StuffedRead(before: seq<byte>, data: seq<byte>, marker: byte, after: seq<byte>)
    requires marker != 0
    ensures Entropy(before + Stuffed(data) + [0xFF, marker] + after, |before|) == data
    decreases |data|
  {
    var input := before + Stuffed(data) + [0xFF, marker] + after;
    if data == [] {
      assert input[|before|] == 0xFF && input[|before| + 1] == marker;
    } else {
      var first := if data[0] == 0xFF then [0xFF, 0] else [data[0]];
      assert input == (before + first) + Stuffed(data[1..]) + [0xFF, marker] + after;
      assert forall i :: 0 <= i < |first| ==> input[|before| + i] == first[i];
      assert input[|before| + 0] == data[0];
      if data[0] == 0xFF { assert input[|before| + 1] == 0; }
      StuffedRead(before + first, data[1..], marker, after);
      assert [data[0]] + data[1..] == data;
    }
  }

  // Bit p of the data.
  function TopBit(data: seq<byte>, p: nat): (b: nat)
    ensures b < 2
  {
    Shr(ByteAt(data, p / 8), 7 - p % 8) % 2
  }

  // The next n bits as a number.
  function Top(data: seq<byte>, p: nat, n: nat): nat
    decreases n, p
  {
    if n == 0 then 0 else 2 * Top(data, p, n - 1) + TopBit(data, p + n - 1)
  }

  lemma {:induction false} TopBound(data: seq<byte>, p: nat, n: nat)
    ensures Top(data, p, n) < Pow2(n)
    decreases n
  {
    if n > 0 { TopBound(data, p, n - 1); }
  }

  lemma {:induction false} TopSplit(data: seq<byte>, p: nat, m: nat, n: nat)
    ensures Top(data, p, m + n) == Shl(Top(data, p, m), n) + Top(data, p + m, n)
    decreases n
  {
    if n > 0 {
      TopSplit(data, p, m, n - 1);
      assert Top(data, p, m + n) == 2 * Top(data, p, m + n - 1) + TopBit(data, p + m + n - 1);
    }
  }

  lemma {:induction false} TopPastEnd(data: seq<byte>, p: nat, n: nat)
    requires p >= 8 * |data|
    ensures Top(data, p, n) == 0
    decreases n
  {
    if n > 0 {
      TopPastEnd(data, p, n - 1);
      ShrOfZero(7 - (p + n - 1) % 8);
    }
  }

  lemma TopByte(data: seq<byte>, i: nat)
    ensures Top(data, 8 * i, 8) == ByteAt(data, i)
  {
    var b := ByteAt(data, i);
    TopOfByte(data, i, 8);
    assert Shr(b, 0) == b;
  }

  lemma {:induction false} TopOfByte(data: seq<byte>, i: nat, n: nat)
    requires n <= 8
    ensures Top(data, 8 * i, n) == Shr(ByteAt(data, i), 8 - n)
    decreases n
  {
    var b := ByteAt(data, i);
    if n == 0 {
      Pow2Values();
      assert Shl(1, 8) == 256;
      ShrBelow(b, 1, 8);
    } else {
      TopOfByte(data, i, n - 1);
      assert (8 * i + n - 1) / 8 == i && (8 * i + n - 1) % 8 == n - 1;
      ShrStep(b, 8 - n);
    }
  }

  // The first n of m bits.
  lemma {:induction false} TopTake(data: seq<byte>, p: nat, n: nat, m: nat)
    requires n <= m
    ensures Shr(Top(data, p, m), m - n) == Top(data, p, n)
    decreases m
  {
    if n < m {
      TopTake(data, p, n, m - 1);
      HalfOf(TopBit(data, p + m - 1), Top(data, p, m - 1));
    }
  }

  // The last n of m + n bits.
  lemma {:induction false} TopLow(data: seq<byte>, p: nat, m: nat, n: nat)
    ensures Low(Top(data, p, m + n), n) == Top(data, p + m, n)
    decreases n
  {
    if n > 0 {
      TopLow(data, p, m, n - 1);
      var b := TopBit(data, p + m + n - 1);
      assert Top(data, p, m + n) == 2 * Top(data, p, m + n - 1) + b;
      HalfOf(b, Top(data, p, m + n - 1));
    }
  }

  // ------------------------------------------------------------ the reservoir

  // The reservoir holds the next 32 bits, of which `bits` have been loaded; the others
  // are zero.  `bits` gets negative if more bits are used than there are data.
  ghost predicate Window(data: seq<byte>, p: nat, buffer: nat, bits: int) {
    && bits <= 32
    && buffer == Shl(Top(data, p, Loaded(bits)), 32 - Loaded(bits))
    && (bits < 0 ==> p >= 8 * |data|)
  }

  function Loaded(bits: int): nat {
    if bits < 0 then 0 else if bits > 32 then 32 else bits
  }

  // With n bits loaded, or all data loaded, the first n bits of the reservoir are right.
  lemma WindowTop(data: seq<byte>, p: nat, buffer: nat, bits: int, n: nat)
    requires Window(data, p, buffer, bits) && n <= 32
    requires bits >= n || p + Loaded(bits) >= 8 * |data|
    ensures Shr(buffer, 32 - n) == Top(data, p, n)
  {
    hide Top, Shl, Shr;
    var m := Loaded(bits);
    if m >= n {
      assert 32 - m + (m - n) == 32 - n;
      ShrOfShl(Top(data, p, m), 32 - m, m - n);
      TopTake(data, p, n, m);
    } else {
      // the missing bits are zero
      assert m + (n - m) == n && (32 - m) - (32 - n) == n - m;
      TopSplit(data, p, m, n - m);
      TopPastEnd(data, p + m, n - m);
      ShlShr(Top(data, p, m), 32 - m, 32 - n);
    }
  }

  lemma {:induction false} ShrOfShl(x: nat, n: nat, k: nat)
    ensures Shr(Shl(x, n), n + k) == Shr(x, k)
    decreases n
  {
    if n > 0 {
      assert Shl(x, n) == 2 * Shl(x, n - 1);
      ShrOfShl(x, n - 1, k);
    }
  }

  lemma {:induction false} ShlShr(x: nat, n: nat, k: nat)
    requires k <= n
    ensures Shr(Shl(x, n), k) == Shl(x, n - k)
    decreases k
  {
    if k > 0 {
      assert Shl(x, n) == 2 * Shl(x, n - 1);
      ShlShr(x, n - 1, k - 1);
    }
  }

  // Shifting out the first n of the m bits at the top of a w-bit word.
  lemma ShiftOut(data: seq<byte>, p: nat, m: nat, n: nat, w: nat)
    requires n <= m <= w
    ensures Low(Shl(Shl(Top(data, p, m), w - m), n), w) == Shl(Top(data, p + n, m - n), w - m + n)
  {
    hide Top, Shl, Low;
    var first, rest := Top(data, p, n), Top(data, p + n, m - n);
    assert n + (m - n) == m && m - n + (w - m + n) == w;
    TopSplit(data, p, n, m - n);
    ShlShl(Top(data, p, m), w - m, n);
    ShlAdd(Shl(first, m - n), rest, w - m + n);
    ShlShl(first, m - n, w - m + n);
    TopBound(data, p + n, m - n);
    ShlMono(rest, Pow2(m - n), w - m + n);
    ShlPow2(m - n, w - m + n);
    LowOfSum(first, Shl(rest, w - m + n), w);
  }

  // Discarding n bits: the 32-bit word is shifted left.
  lemma WindowSkip(data: seq<byte>, p: nat, buffer: nat, bits: int, n: nat)
    requires Window(data, p, buffer, bits) && n <= 32
    requires bits >= n || p + Loaded(bits) >= 8 * |data|
    ensures Window(data, p + n, Low(Shl(buffer, n), 32), bits - n)
  {
    hide Top, Shl, Low;
    var m := Loaded(bits);
    if m >= n {
      ShiftOut(data, p, m, n, 32);
      if bits < n { TopNone(data, p + n); }
    } else {
      var x := Top(data, p, m);
      assert 32 - m + n == n - m + 32;
      ShlShl(x, 32 - m, n);
      ShlShl(x, n - m, 32);
      assert Pow2(32) > 0;
      LowOfSum(Shl(x, n - m), 0, 32);
      TopNone(data, p + n);
      ShlZero(32);
    }
  }

  lemma TopNone(data: seq<byte>, p: nat)
    ensures Top(data, p, 0) == 0
  {
  }

  lemma {:induction false} LowOfSum(x: nat, y: nat, n: nat)
    requires y < Pow2(n)
    ensures Low(Shl(x, n) + y, n) == y
    decreases n
  {
    if n > 0 {
      assert Shl(x, n) == 2 * Shl(x, n - 1);
      assert (Shl(x, n) + y) / 2 == Shl(x, n - 1) + y / 2;
      LowOfSum(x, y / 2, n - 1);
    }
  }

  // A byte more, behind the loaded bits.
  lemma WindowGrow(data: seq<byte>, p: nat, buffer: nat, bits: int, b: byte)
    requires Window(data, p, buffer, bits) && bits <= 24
    requires if bits >= 0 && p + bits < 8 * |data| then (p + bits) % 8 == 0 && b == data[(p + bits) / 8] else b == 0
    ensures Window(data, p, buffer + Shl(b, 24 - bits), bits + 8)
  {
    hide Top, Shl;
    if bits >= 0 {
      TopSplit(data, p, bits, 8);
      if p + bits < 8 * |data| {
        TopByte(data, (p + bits) / 8);
      } else {
        TopPastEnd(data, p + bits, 8);
      }
      ShlAdd(Shl(Top(data, p, bits), 8), b, 24 - bits);
      ShlShl(Top(data, p, bits), 8, 24 - bits);
    } else {
      ShlZero(24 - bits);
      TopPastEnd(data, p, 0);
      TopPastEnd(data, p, Loaded(bits + 8));
      ShlZero(32);
      ShlZero(32 - Loaded(bits + 8));
    }
  }
}
