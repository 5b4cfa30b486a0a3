/**
  Writing bits: fields, and bits packed into bytes from the lowest bit up.
 */
module Packing {
  import opened Bits

  // The stream holds these bits at p.
  ghost predicate Holds(input: seq<byte>, p: nat, bits: seq<bit>) {
    forall i :: 0 <= i < |bits| ==> Bit(input, p + i) == bits[i]
  }

  lemma HoldsSplit(input: seq<byte>, p: nat, a: seq<bit>, b: seq<bit>)
    requires Holds(input, p, a + b)
    ensures Holds(input, p, a) && Holds(input, p + |a|, b)
  {
    hide Bit;
    forall i | 0 <= i < |a| ensures Bit(input, p + i) == a[i] {
      assert (a + b)[i] == a[i];
    }
    forall i | 0 <= i < |b| ensures Bit(input, p + |a| + i) == b[i] {
      assert (a + b)[|a| + i] == b[i];
    }
  }

  // A number in n bits, lowest bit first.
  function FieldBits(v: nat, n: nat): (r: seq<bit>)
    ensures |r| == n
    decreases n, v
  {
    if n == 0 then [] else [v % 2] + FieldBits(v / 2, n - 1)
  }

  lemma {:induction false} ReadField(input: seq<byte>, p: nat, v: nat, n: nat)
    requires v < Pow2(n) && Holds(input, p, FieldBits(v, n))
    ensures Lsb(input, p, n) == v
    decreases n
  {
    hide Bit;
    if n > 0 {
      HoldsSplit(input, p, [v % 2], FieldBits(v / 2, n - 1));
      assert Bit(input, p + 0) == [v % 2][0];
      ReadField(input, p + 1, v / 2, n - 1);
    }
  }

  // A code of n bits, highest bit first.
  function CodeBits(c: nat, n: nat): (r: seq<bit>)
    ensures |r| == n
    decreases n, c
  {
    if n == 0 then [] else CodeBits(c / 2, n - 1) + [c % 2]
  }

  // ------------------------------------------------------------ packing bits into bytes

  function ByteOf(bits: seq<bit>, n: nat): (b: nat)
    ensures b < Pow2(n)
    decreases n
  {
    if n == 0 || bits == [] then 0 else bits[0] + 2 * ByteOf(bits[1..], n - 1)
  }

  function Pack(bits: seq<bit>): (r: seq<byte>)
    ensures |r| == (|bits| + 7) / 8
    decreases |bits|
  {
    if bits == [] then []
    else
      var n := if |bits| < 8 then |bits| else 8;
      assert ByteOf(bits, 8) < 256 by { Pow2Values(); }
      [ByteOf(bits, 8)] + Pack(bits[n..])
  }

  lemma {:induction false} BitOfByte(bits: seq<bit>, n: nat, k: nat)
    requires k < n
    ensures Shr(ByteOf(bits, n), k) % 2 == if k < |bits| then bits[k] else 0
    decreases n
  {
    if bits == [] {
      ShrOfZero(k);
    } else if k > 0 {
      BitOfByte(bits[1..], n - 1, k - 1);
      HalfOf(bits[0], ByteOf(bits[1..], n - 1));
    }
  }

  // Bit p of the packed bytes is bit p of the list, and 0 behind it.
  lemma {:induction false} PackBit(bits: seq<bit>, p: nat)
    ensures Bit(Pack(bits), p) == if p < |bits| then bits[p] else 0
    decreases p
  {
    if bits == [] {
      BitPastEnd([], p);
    } else {
      var n := if |bits| < 8 then |bits| else 8;
      var head, rest := [ByteOf(bits, 8)], Pack(bits[n..]);
      if p < 8 {
        BitOfByte(bits, 8, p);
        assert ByteAt(Pack(bits), 0) == ByteOf(bits, 8);
      } else {
        PackBit(bits[n..], p - 8);
        assert ByteAt(Pack(bits), p / 8) == ByteAt(rest, (p - 8) / 8);
        assert Bit(Pack(bits), p) == Bit(rest, p - 8);
        if |bits| < 8 { assert bits[n..] == []; }
      }
    }
  }

  lemma PackHolds(bits: seq<bit>)
    ensures Holds(Pack(bits), 0, bits)
  {
    hide Bit;
    forall i | 0 <= i < |bits| ensures Bit(Pack(bits), i) == bits[i] {
      PackBit(bits, i);
    }
  }
}
