/**
  The mask-and-shift bit reversal of stb_image, over 16-bit words, and its
  agreement with the arithmetic reversal of module Bits.
 */
module Reversal {
  import opened Bits

  // Swap neighbouring bits, then pairs, nibbles and bytes.
  function BitReverse16(n: bv16): bv16 {
    var n1 := ((n & 0xAAAA) >> 1) | ((n & 0x5555) << 1);
    var n2 := ((n1 & 0xCCCC) >> 2) | ((n1 & 0x3333) << 2);
    var n3 := ((n2 & 0xF0F0) >> 4) | ((n2 & 0x0F0F) << 4);
    ((n3 & 0xFF00) >> 8) | ((n3 & 0x00FF) << 8)
  }

  // To reverse the low `bits` bits, reverse a whole word and shift.
  function BitReverse(v: nat, bits: nat): nat
    requires bits <= 16
  {
    Shr(FromWord(BitReverse16(ToWord(v, 16))), 16 - bits)
  }

  // ------------------------------------------------------------ words and numbers

  // The low `bits` bits of a number as a word.
  function ToWord(n: nat, bits: nat): bv16
    decreases bits, n
  {
    if bits == 0 then 0 else Push(ToWord(n / 2, bits - 1), n % 2 == 1)
  }

  function Push(w: bv16, odd: bool): bv16 {
    (w << 1) | (if odd then 1 else 0)
  }

  // The word with only bit k set.
  function Hot(k: nat): bv16 {
    if k == 0 then 1 else Hot(k - 1) << 1
  }

  function Set(w: bv16, mask: bv16): (b: nat)
    ensures b < 2
  {
    if w & mask != 0 then 1 else 0
  }

  // Bits k, k+1, .., k+n-1 of a word as a number, lowest first ...
  function Up(w: bv16, k: nat, n: nat): nat
    decreases n, w
  {
    if n == 0 then 0 else Set(w, Hot(k)) + 2 * Up(w, k + 1, n - 1)
  }

  // ... and highest first.
  function Down(w: bv16, k: nat, n: nat): nat
    decreases n, w
  {
    if n == 0 then 0 else Shl(Set(w, Hot(k)), n - 1) + Down(w, k + 1, n - 1)
  }

  // The number a word stands for.
  function FromWord(w: bv16): nat {
    Up(w, 0, 16)
  }

  lemma HotValues()
    ensures Hot(0) == 1
    ensures Hot(1) == 2
    ensures Hot(2) == 4
    ensures Hot(3) == 8
    ensures Hot(4) == 16
    ensures Hot(5) == 32
    ensures Hot(6) == 64
    ensures Hot(7) == 128
    ensures Hot(8) == 256
    ensures Hot(9) == 512
    ensures Hot(10) == 1024
    ensures Hot(11) == 2048
    ensures Hot(12) == 4096
    ensures Hot(13) == 8192
    ensures Hot(14) == 16384
    ensures Hot(15) == 32768
  {
    assert Hot(0) == 1;
    assert Hot(1) == 2;
    assert Hot(2) == 4;
    assert Hot(3) == 8;
    assert Hot(4) == 16;
    assert Hot(5) == 32;
    assert Hot(6) == 64;
    assert Hot(7) == 128;
    assert Hot(8) == 256;
    assert Hot(9) == 512;
    assert Hot(10) == 1024;
    assert Hot(11) == 2048;
    assert Hot(12) == 4096;
    assert Hot(13) == 8192;
    assert Hot(14) == 16384;
    assert Hot(15) == 32768;
  }

  lemma {:induction false} HotLow(k: nat)
    requires k < 15
    ensures Hot(k) & 0x8000 == 0
  {
    HotValues();
  }

  lemma PushBit(w: bv16, odd: bool, mask: bv16)
    requires mask & 0x8000 == 0
    ensures Set(Push(w, odd), mask << 1) == Set(w, mask)
  {
  }

  lemma {:induction false} UpMoved(p: bv16, w: bv16, k: nat, n: nat)
    requires forall j :: k <= j < k + n ==> Set(p, Hot(j + 1)) == Set(w, Hot(j))
    ensures Up(p, k + 1, n) == Up(w, k, n)
    decreases n
  {
    if n > 0 {
      assert Set(p, Hot(k + 1)) == Set(w, Hot(k));
      UpMoved(p, w, k + 1, n - 1);
    }
  }

  lemma {:induction false} UpAppend(w: bv16, k: nat, n: nat)
    ensures Up(w, k, n + 1) == Up(w, k, n) + Shl(Set(w, Hot(k + n)), n)
    decreases n
  {
    if n == 0 {
      assert Up(w, k, 1) == Set(w, Hot(k)) + 2 * Up(w, k + 1, 0);
    } else {
      UpAppend(w, k + 1, n - 1);
      assert k + 1 + (n - 1) == k + n;
    }
  }

  // A word moved up one bit, losing nothing at the top.
  lemma UpMovedIn(p: bv16, w: bv16, n: nat)
    requires n == 15 && Up(w, 0, n + 1) < 32768
    requires forall j :: 0 <= j < n ==> Set(p, Hot(j + 1)) == Set(w, Hot(j))
    ensures Up(p, 0, n + 1) == Set(p, Hot(0)) + 2 * Up(w, 0, n + 1)
  {
    UpMoved(p, w, 0, n);
    UpTop(w, n);
  }

  lemma UpTop(w: bv16, n: nat)
    requires n == 15 && Up(w, 0, n + 1) < 32768
    ensures Up(w, 0, n + 1) == Up(w, 0, n)
  {
    UpAppend(w, 0, n);
    TopZero(Set(w, Hot(n)), n);
  }

  lemma TopZero(top: nat, n: nat)
    requires n == 15 && top < 2 && Shl(top, n) < 32768
    ensures Shl(top, n) == 0
  {
    ShlPow2(0, n);
    Pow2Values();
    ShlZero(n);
  }

  lemma PushBits(w: bv16, odd: bool)
    ensures forall j :: 0 <= j < 15 ==> Set(Push(w, odd), Hot(j + 1)) == Set(w, Hot(j))
  {
    forall j | 0 <= j < 15 ensures Set(Push(w, odd), Hot(j + 1)) == Set(w, Hot(j)) {
      HotLow(j);
      PushBit(w, odd, Hot(j));
    }
  }

  lemma FromPush(w: bv16, odd: bool)
    requires FromWord(w) < 32768
    ensures FromWord(Push(w, odd)) == (if odd then 1 else 0) + 2 * FromWord(w)
  {
    PushBits(w, odd);
    UpMovedIn(Push(w, odd), w, 15);
    PushLowest(w, odd);
  }

  lemma PushLowest(w: bv16, odd: bool)
    ensures Set(Push(w, odd), Hot(0)) == if odd then 1 else 0
  {
  }

  lemma {:induction false} FromToWord(n: nat, bits: nat)
    requires bits <= 16
    ensures FromWord(ToWord(n, bits)) == Low(n, bits)
  {
    hide FromWord, Push;
    if bits == 0 {
      ZeroWord();
    } else {
      FromToWord(n / 2, bits - 1);
      LowBound(n / 2, bits - 1);
      Pow2Mono(bits - 1, 15);
      Pow2Values();
      FromPush(ToWord(n / 2, bits - 1), n % 2 == 1);
    }
  }

  lemma ZeroWord()
    ensures FromWord(0) == 0
  {
    UpZero(0, 16);
  }

  lemma {:induction false} UpZero(k: nat, n: nat)
    ensures Up(0, k, n) == 0
    decreases n
  {
    if n > 0 { UpZero(k + 1, n - 1); }
  }

  lemma ReversedBit(w: bv16, k: nat)
    requires k < 16
    ensures Set(BitReverse16(w), Hot(k)) == Set(w, Hot(15 - k))
  {
    HotValues();
    ReversedBits(w);
  }

  lemma ReversedBits(w: bv16)
    ensures var r := BitReverse16(w);
      && Set(r, 1) == Set(w, 32768)
      && Set(r, 2) == Set(w, 16384)
      && Set(r, 4) == Set(w, 8192)
      && Set(r, 8) == Set(w, 4096)
      && Set(r, 16) == Set(w, 2048)
      && Set(r, 32) == Set(w, 1024)
      && Set(r, 64) == Set(w, 512)
      && Set(r, 128) == Set(w, 256)
      && Set(r, 256) == Set(w, 128)
      && Set(r, 512) == Set(w, 64)
      && Set(r, 1024) == Set(w, 32)
      && Set(r, 2048) == Set(w, 16)
      && Set(r, 4096) == Set(w, 8)
      && Set(r, 8192) == Set(w, 4)
      && Set(r, 16384) == Set(w, 2)
      && Set(r, 32768) == Set(w, 1)
  {
  }

  lemma {:induction false} ReverseUp(w: bv16, k: nat, n: nat)
    ensures Reverse(Up(w, k, n), n) == Down(w, k, n)
    decreases n
  {
    if n > 0 { ReverseUp(w, k + 1, n - 1); }
  }

  lemma {:induction false} UpOfReversed(w: bv16, k: nat, n: nat)
    requires k + n == 16
    ensures Up(BitReverse16(w), 0, n) == Down(w, k, n)
    decreases n
  {
    if n > 0 {
      UpAppend(BitReverse16(w), 0, n - 1);
      ReversedBit(w, n - 1);
      UpOfReversed(w, k + 1, n - 1);
    }
  }

  // The four swaps reverse the word.
  lemma FromReversed(w: bv16)
    ensures FromWord(BitReverse16(w)) == Reverse(FromWord(w), 16)
  {
    ReverseUp(w, 0, 16);
    UpOfReversed(w, 0, 16);
  }

  // Reversing n bits the stb_image way is reversal of n bits.
  lemma BitReverseIsReverse(v: nat, bits: nat)
    requires bits <= 16 && v < Pow2(bits)
    ensures BitReverse(v, bits) == Reverse(v, bits)
  {
    FromToWord(v, 16);
    Pow2Mono(bits, 16);
    LowSame(v, 16);
    FromReversed(ToWord(v, 16));
    ReverseLonger(v, 16 - bits, bits);
  }
}
