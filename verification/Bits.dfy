/**
  Shifts, bytes and bit streams.

  DEFLATE packs bits into bytes starting from the least significant bit
  (section 3.1.1 of RFC 1951).  The stream of a byte sequence is infinite here:
  after the last byte it reads as zero bits, because stbi__zget8 delivers zero
  bytes once its input is exhausted.
 */
module Bits {

  type bit = b: int | 0 <= b < 2
  type byte = b: int | 0 <= b < 256
  type u16 = x: int | 0 <= x < 0x1_0000
  type u32 = x: int | 0 <= x < 0x1_0000_0000

  function Pow2(n: nat): (r: nat)
    ensures r > 0
  {
    if n == 0 then 1 else 2 * Pow2(n - 1)
  }

  // x << n, x >> n and x & ((1 << n) - 1).

  function Shl(x: nat, n: nat): nat
    decreases n, x
  {
    if n == 0 then x else 2 * Shl(x, n - 1)
  }

  function Shr(x: nat, n: nat): nat
    decreases n, x
  {
    if n == 0 then x else Shr(x / 2, n - 1)
  }

  function Low(x: nat, n: nat): nat
    decreases n, x
  {
    if n == 0 then 0 else x % 2 + 2 * Low(x / 2, n - 1)
  }

  lemma {:induction false} Pow2Mono(m: nat, n: nat)
    requires m <= n
    ensures Pow2(m) <= Pow2(n)
  {
    if m < n { Pow2Mono(m, n - 1); }
  }

  lemma Pow2Values()
    ensures Pow2(0) == 1 && Pow2(3) == 8 && Pow2(5) == 32 && Pow2(6) == 64 && Pow2(7) == 128
    ensures Pow2(8) == 256 && Pow2(9) == 512 && Pow2(10) == 1024 && Pow2(15) == 32768 && Pow2(16) == 65536
    ensures Pow2(32) == 0x1_0000_0000
  {
    assert Pow2(8) == 256;
    assert Pow2(16) == 65536;
    assert Pow2(24) == 0x100_0000;
  }

  // ------------------------------------------------------------ shifting

  lemma {:induction false} ShlPow2(m: nat, n: nat)
    ensures Shl(Pow2(m), n) == Pow2(m + n)
    decreases n
  {
    if n > 0 { ShlPow2(m, n - 1); }
  }

  lemma {:induction false} ShlMono(x: nat, y: nat, n: nat)
    ensures x <= y ==> Shl(x, n) <= Shl(y, n)
    ensures x < y ==> Shl(x, n) < Shl(y, n)
    decreases n
  {
    if n > 0 { ShlMono(x, y, n - 1); }
  }

  lemma {:induction false} ShlZero(n: nat)
    ensures Shl(0, n) == 0
  {
    if n > 0 { ShlZero(n - 1); }
  }

  lemma {:induction false} ShlDouble(x: nat, n: nat)
    ensures Shl(2 * x, n) == 2 * Shl(x, n)
    decreases n
  {
    if n > 0 { ShlDouble(x, n - 1); }
  }

  lemma {:induction false} ShlAdd(x: nat, y: nat, n: nat)
    ensures Shl(x + y, n) == Shl(x, n) + Shl(y, n)
    decreases n
  {
    if n > 0 { ShlAdd(x, y, n - 1); }
  }

  lemma {:induction false} ShlShl(x: nat, m: nat, n: nat)
    ensures Shl(Shl(x, m), n) == Shl(x, m + n)
    decreases n
  {
    if n > 0 { ShlShl(x, m, n - 1); }
  }

  // One byte up.
  lemma ShlEight(x: nat, n: nat)
    requires n == 8
    ensures Shl(x, n) == 256 * x
  {
    assert Shl(x, 1) == 2 * x && Shl(x, 2) == 4 * x && Shl(x, 3) == 8 * x && Shl(x, 4) == 16 * x;
    assert Shl(x, 5) == 32 * x && Shl(x, 6) == 64 * x && Shl(x, 7) == 128 * x && Shl(x, 8) == 256 * x;
  }

  // Shifting the bound up or the value down compares the same.
  lemma {:induction false} ShrBelow(x: nat, y: nat, n: nat)
    ensures Shr(x, n) < y <==> x < Shl(y, n)
    decreases n
  {
    if n > 0 {
      ShrBelow(x / 2, y, n - 1);
    }
  }

  lemma {:induction false} LowBound(x: nat, n: nat)
    ensures Low(x, n) < Pow2(n)
    decreases n
  {
    if n > 0 { LowBound(x / 2, n - 1); }
  }

  lemma {:induction false} LowSame(x: nat, n: nat)
    requires x < Pow2(n)
    ensures Low(x, n) == x
    decreases n
  {
    if n > 0 { LowSame(x / 2, n - 1); }
  }

  // Numbers 2^n apart have the same low bits; nearer ones do not.
  lemma {:induction false} LowStep(x: nat, n: nat)
    ensures Low(x + Pow2(n), n) == Low(x, n)
    decreases n
  {
    if n > 0 {
      assert (x + Pow2(n)) / 2 == x / 2 + Pow2(n - 1);
      LowStep(x / 2, n - 1);
    }
  }

  lemma {:induction false} LowDiffers(x: nat, d: nat, n: nat)
    requires 0 < d < Pow2(n)
    ensures Low(x + d, n) != Low(x, n)
    decreases n
  {
    if n > 0 && d % 2 == 0 {
      assert (x + d) / 2 == x / 2 + d / 2;
      LowDiffers(x / 2, d / 2, n - 1);
    }
  }

  // ------------------------------------------------------------ bit streams

  function ByteAt(input: seq<byte>, i: nat): byte {
    if i < |input| then input[i] else 0
  }

  // Bit p of the zero-padded stream.
  function Bit(input: seq<byte>, p: nat): (b: nat)
    ensures b < 2
  {
    Shr(ByteAt(input, p / 8), p % 8) % 2
  }

  // The next n bits as a number, least significant bit first: how every field
  // other than a Huffman code is stored.
  function Lsb(input: seq<byte>, p: nat, n: nat): nat
    decreases n, p
  {
    if n == 0 then 0 else Bit(input, p) + 2 * Lsb(input, p + 1, n - 1)
  }

  // The next n bits as a number, most significant bit first: how Huffman codes
  // are stored.
  function Msb(input: seq<byte>, p: nat, n: nat): nat
    decreases n, p
  {
    if n == 0 then 0 else 2 * Msb(input, p, n - 1) + Bit(input, p + n - 1)
  }

  lemma {:induction false} LsbBound(input: seq<byte>, p: nat, n: nat)
    ensures Lsb(input, p, n) < Pow2(n)
    decreases n
  {
    if n > 0 { LsbBound(input, p + 1, n - 1); }
  }

  lemma {:induction false} MsbBound(input: seq<byte>, p: nat, n: nat)
    ensures Msb(input, p, n) < Pow2(n)
    decreases n
  {
    if n > 0 { MsbBound(input, p, n - 1); }
  }

  // m bits in the reservoir and n more above them.
  lemma {:induction false} LsbSplit(input: seq<byte>, p: nat, m: nat, n: nat)
    ensures Lsb(input, p, m + n) == Lsb(input, p, m) + Shl(Lsb(input, p + m, n), m)
    decreases m
  {
    if m > 0 { LsbSplit(input, p + 1, m - 1, n); }
  }

  lemma HalfOf(b: nat, rest: nat)
    requires b < 2
    ensures (b + 2 * rest) % 2 == b && (b + 2 * rest) / 2 == rest
  {
  }

  // A reservoir holding m bits gives up its first n.
  lemma {:induction false} LsbTake(input: seq<byte>, p: nat, n: nat, m: nat)
    requires n <= m
    ensures Low(Lsb(input, p, m), n) == Lsb(input, p, n)
    ensures Shr(Lsb(input, p, m), n) == Lsb(input, p + n, m - n)
    decreases n
  {
    if n > 0 {
      var rest := Lsb(input, p + 1, m - 1);
      HalfOf(Bit(input, p), rest);
      LsbTake(input, p + 1, n - 1, m - 1);
      assert p + 1 + (n - 1) == p + n && (m - 1) - (n - 1) == m - n;
    }
  }

  lemma {:induction false} MsbTake(input: seq<byte>, p: nat, n: nat, m: nat)
    requires n <= m
    ensures Shr(Msb(input, p, m), m - n) == Msb(input, p, n)
    decreases m
  {
    hide Bit;
    if n < m {
      MsbTake(input, p, n, m - 1);
      HalfOf(Bit(input, p + m - 1), Msb(input, p, m - 1));
    }
  }

  lemma {:induction false} MsbFront(input: seq<byte>, p: nat, n: nat)
    requires n > 0
    ensures Msb(input, p, n) == Shl(Bit(input, p), n - 1) + Msb(input, p + 1, n - 1)
    decreases n
  {
    if n > 1 { MsbFront(input, p, n - 1); }
  }

  // Eight bits from a byte boundary are that byte.
  lemma LsbByte(input: seq<byte>, i: nat, n: nat)
    requires n == 8
    ensures Lsb(input, 8 * i, n) == ByteAt(input, i)
  {
    LsbOfByte(input, i, 0, n);
  }

  lemma {:induction false} ShrStep(x: nat, k: nat)
    ensures Shr(x, k + 1) == Shr(x, k) / 2
    decreases k
  {
    if k > 0 { ShrStep(x / 2, k - 1); }
  }

  lemma {:induction false} LsbOfByte(input: seq<byte>, i: nat, k: nat, n: nat)
    requires k + n == 8
    ensures Lsb(input, 8 * i + k, n) == Shr(ByteAt(input, i), k)
    decreases n
  {
    var b := ByteAt(input, i);
    if n == 0 {
      Pow2Values();
      assert Shl(1, 8) == 256;
      ShrBelow(b, 1, 8);
    } else {
      LsbOfByte(input, i, k + 1, n - 1);
      assert (8 * i + k) / 8 == i && (8 * i + k) % 8 == k;
      ShrStep(b, k);
    }
  }

  // Past the end of the input every bit is zero.
  lemma BitPastEnd(input: seq<byte>, p: nat)
    requires p >= 8 * |input|
    ensures Bit(input, p) == 0
  {
    ShrOfZero(p % 8);
  }

  lemma {:induction false} ShrOfZero(k: nat)
    ensures Shr(0, k) == 0
  {
    if k > 0 { ShrOfZero(k - 1); }
  }

  lemma {:induction false} LsbPastEnd(input: seq<byte>, p: nat, n: nat)
    requires p >= 8 * |input|
    ensures Lsb(input, p, n) == 0
    decreases n
  {
    if n > 0 {
      LsbPastEnd(input, p + 1, n - 1);
      BitPastEnd(input, p);
    }
  }

  lemma {:induction false} MsbPastEnd(input: seq<byte>, p: nat, n: nat)
    requires p >= 8 * |input|
    ensures Msb(input, p, n) == 0
    decreases n
  {
    if n > 0 {
      MsbPastEnd(input, p, n - 1);
      BitPastEnd(input, p + n - 1);
    }
  }

  // ------------------------------------------------------------ bit reversal

  // The low n bits of v in the opposite order.
  function Reverse(v: nat, n: nat): nat
    decreases n, v
  {
    if n == 0 then 0 else Shl(v % 2, n - 1) + Reverse(v / 2, n - 1)
  }

  lemma {:induction false} ReverseBound(v: nat, n: nat)
    ensures Reverse(v, n) < Pow2(n)
    decreases n
  {
    if n > 0 {
      ReverseBound(v / 2, n - 1);
      ShlMono(v % 2, 1, n - 1);
      ShlPow2(0, n - 1);
    }
  }

  // Reversal turns one reading order into the other.
  lemma {:induction false} ReverseLsb(input: seq<byte>, p: nat, n: nat)
    ensures Reverse(Lsb(input, p, n), n) == Msb(input, p, n)
    decreases n
  {
    if n > 0 {
      ReverseLsb(input, p + 1, n - 1);
      MsbFront(input, p, n);
    }
  }

  // The top bit of v becomes the bottom bit of its reversal.
  lemma {:induction false} ReverseTop(b: nat, v: nat, n: nat)
    requires b < 2 && v < Pow2(n)
    ensures Reverse(Shl(b, n) + v, n + 1) == 2 * Reverse(v, n) + b
    decreases n
  {
    if n > 0 {
      ReverseTop(b, v / 2, n - 1);
      assert (Shl(b, n) + v) / 2 == Shl(b, n - 1) + v / 2;
    }
  }

  lemma {:induction false} ReverseInvolution(v: nat, n: nat)
    requires v < Pow2(n)
    ensures Reverse(Reverse(v, n), n) == v
    decreases n
  {
    hide Shl, Reverse;
    if n > 0 {
      ReverseBound(v / 2, n - 1);
      ReverseTop(v % 2, Reverse(v / 2, n - 1), n - 1);
      ReverseInvolution(v / 2, n - 1);
      ReverseStep(v, n);
    } else {
      ReverseNone(v);
      ReverseNone(Reverse(v, 0));
    }
  }

  lemma ReverseNone(v: nat)
    ensures Reverse(v, 0) == 0
  {
  }

  lemma ReverseStep(v: nat, n: nat)
    requires n > 0
    ensures Reverse(v, n) == Shl(v % 2, n - 1) + Reverse(v / 2, n - 1)
  {
  }

  // Reversing a short number in a longer word leaves the result at the top.
  lemma {:induction false} ReverseLonger(v: nat, n: nat, k: nat)
    requires v < Pow2(k)
    ensures Shr(Reverse(v, k + n), n) == Reverse(v, k)
    decreases n
  {
    if n > 0 {
      Pow2Mono(k, k + n - 1);
      ReverseTop(0, v, k + n - 1);
      ShlZero(k + n - 1);
      ReverseLonger(v, n - 1, k);
    }
  }
}
