/**
  stb_image's zlib decoder: a 32-bit reservoir over an input buffer, two Huffman
  tables, and an output buffer that is either fixed or doubles when it is full.
 */
module Inflater {
  import opened Bits
  import opened Reversal
  import opened Canonical
  import opened Huffman
  import opened Lookup
  import opened Deflate
  import opened SymbolTables

  // Buffer sizes are C ints.  An allocator that grants no more than this lets the
  // doubling stay below 2^31.
  const MAX_MEMORY := 0x3FFF_0000

  // The largest size reachable from c by doubling within m bytes.
  function Grown(c: nat, m: nat): (r: nat)
    requires 1 <= c <= m
    ensures c <= r <= m
    decreases m - c
  {
    if 2 * c > m then c else Grown(2 * c, m)
  }

  // It is a number of doublings of c, within m, and one more would not be.
  lemma {:induction false} GrownExact(c: nat, m: nat) returns (k: nat)
    requires 1 <= c <= m
    ensures Grown(c, m) == Shl(c, k) <= m < 2 * Grown(c, m)
    decreases m - c
  {
    k := 0;
    if 2 * c <= m {
      var k' := GrownExact(2 * c, m);
      k := k' + 1;
      ShlDouble(c, k');
    }
  }

  // The bytes from z to n repeat those `distance` places before them, and all others are as
  // they were.
  ghost predicate Copied(was: seq<byte>, now: seq<byte>, z: nat, distance: nat, n: nat) {
    && |was| == |now| && distance <= z <= n <= |now|
    && (forall i :: z <= i < n ==> now[i] == now[i - distance])
    && (forall i :: 0 <= i < z || n <= i < |now| ==> now[i] == was[i])
  }

  lemma CopiedIsExtend(was: seq<byte>, now: seq<byte>, z: nat, distance: nat, len: nat)
    requires 0 < distance <= z && z + len <= |now| && Copied(was, now, z, distance, z + len)
    ensures now[..z + len] == Extend(was[..z], distance, len)
  {
    assert now[..z] == was[..z];
    RepeatsIsExtend(was[..z], distance, len, now[..z + len]);
  }

  // A run of the byte in front of z.
  method FillRun(buffer: array<byte>, z: nat, len: nat)
    requires 0 < z && z + len <= buffer.Length
    modifies buffer
    ensures forall i :: z <= i < z + len ==> buffer[i] == old(buffer[z - 1])
    ensures forall i :: 0 <= i < z || z + len <= i < buffer.Length ==> buffer[i] == old(buffer[i])
    ensures buffer[..z + len] == Extend(old(buffer[..z]), 1, len)
  {
    var v := buffer[z - 1];
    var n: nat, left: nat := z, len;
    while left > 0
      invariant n + left == z + len && z <= n
      invariant forall i :: z <= i < n ==> buffer[i] == v
      invariant forall i :: 0 <= i < z || n <= i < buffer.Length ==> buffer[i] == old(buffer[i])
    {
      buffer[n] := v;
      n, left := n + 1, left - 1;
    }
    hide Extend;
    CopiedIsExtend(old(buffer[..]), buffer[..], z, 1, len);
    assert old(buffer[..])[..z] == old(buffer[..z]) && buffer[..][..z + len] == buffer[..z + len];
  }

  // Copy len bytes from `distance` places back to z; the two ranges may overlap, and then a
  // byte that has been copied is copied again.
  method CopyBack(buffer: array<byte>, z: nat, distance: nat, len: nat)
    requires 0 < distance <= z && z + len <= buffer.Length
    modifies buffer
    ensures forall i :: z <= i < z + len ==> buffer[i] == buffer[i - distance]
    ensures forall i :: 0 <= i < z || z + len <= i < buffer.Length ==> buffer[i] == old(buffer[i])
    ensures buffer[..z + len] == Extend(old(buffer[..z]), distance, len)
  {
    if distance == 1 {
      FillRun(buffer, z, len);
      return;
    }
    var n: nat, p: nat, left: nat := z, z - distance, len;
    while left > 0
      invariant n + left == z + len && z <= n && p == n - distance
      invariant forall i {:trigger buffer[i]} :: z <= i < n ==> buffer[i] == buffer[i - distance]
      invariant forall i :: 0 <= i < z || n <= i < buffer.Length ==> buffer[i] == old(buffer[i])
    {
      buffer[n] := buffer[p];
      n, p, left := n + 1, p + 1, left - 1;
    }
    hide Extend;
    CopiedIsExtend(old(buffer[..]), buffer[..], z, distance, len);
    assert old(buffer[..])[..z] == old(buffer[..z]) && buffer[..][..z + len] == buffer[..z + len];
  }

  // memset of a run of code lengths.
  method RepeatLength(lencodes: array<nat>, n: nat, v: nat, run: nat)
    requires n + run <= lencodes.Length
    modifies lencodes
    ensures lencodes[..n + run] == old(lencodes[..n]) + Times(v, run)
  {
    for i := 0 to run
      invariant lencodes[..n + i] == old(lencodes[..n]) + Times(v, i)
    {
      lencodes[n + i] := v;
    }
  }

  // How a call ends: normally, with an error, by leaving what C defines, or never.
  datatype Status = Done | Failed | Unspecified | Endless

  class ZBuf {
    const input: seq<byte>
    var zbuffer: nat                // next byte of the input
    var padding: nat                // zero bytes handed out since the input ended
    var numBits: nat
    var codeBuffer: u32

    var buffer: array<byte>         // zout_start up to zout_end
    var zout: nat
    const expandable: bool
    const memory: nat               // the allocator grants at most this many bytes

    const zLength: ZHuffman
    const zDistance: ZHuffman

    // Decode `input` into `buffer`.
    constructor (input: seq<byte>, buffer: array<byte>, expandable: bool, memory: nat)
      requires expandable ==> 1 <= buffer.Length <= memory <= MAX_MEMORY
      ensures Valid() && Source() && zbuffer == padding == 0 && zout == 0
      ensures this.input == input && this.buffer == buffer && this.expandable == expandable && this.memory == memory
      ensures fresh(zLength.Repr()) && fresh(zDistance.Repr())
    {
      this.input := input;
      this.buffer := buffer;
      this.expandable := expandable;
      this.memory := memory;
      zbuffer, padding, numBits, codeBuffer, zout := 0, 0, 0, 0, 0;
      zLength := new ZHuffman();
      zDistance := new ZHuffman();
    }

    // The tables and the output buffer are separate pieces of memory.
    ghost predicate Valid()
      reads this
    {
      && zout <= buffer.Length
      && zLength.Shape() && zDistance.Shape()
      && zLength.Repr() !! zDistance.Repr()
      && buffer as object !in zLength.Repr() && buffer as object !in zDistance.Repr()
      && (expandable ==> 1 <= buffer.Length <= memory <= MAX_MEMORY)
    }

    // The output bound that the buffer amounts to.
    function Cap(): nat
      requires expandable ==> 1 <= buffer.Length <= memory
      reads this
    {
      if expandable then Grown(buffer.Length, memory) else buffer.Length
    }

    // ---------------------------------------------------------- the reservoir

    // The stream position of the next unread bit.
    function Pos(): nat
      requires numBits <= 8 * (zbuffer + padding)
      reads this
    {
      8 * (zbuffer + padding) - numBits
    }

    ghost predicate Source()
      reads this
    {
      zbuffer <= |input| && (padding > 0 ==> zbuffer == |input|)
    }

    // The reservoir holds the next numBits bits of the zero-padded stream.
    ghost predicate Reservoir()
      reads this
    {
      && Source()
      && numBits <= 32 && numBits <= 8 * (zbuffer + padding)
      && codeBuffer == Lsb(input, Pos(), numBits)
    }

    method Zget8() returns (b: byte)
      requires Source()
      modifies `zbuffer, `padding
      ensures Source() && zbuffer + padding == old(zbuffer + padding) + 1
      ensures b == ByteAt(input, old(zbuffer + padding))
    {
      if zbuffer >= |input| {
        padding := padding + 1;
        return 0;
      }
      b := input[zbuffer];
      zbuffer := zbuffer + 1;
    }

    method FillByte()
      requires Reservoir() && numBits <= 24
      modifies `zbuffer, `padding, `numBits, `codeBuffer
      ensures Reservoir() && Pos() == old(Pos()) && numBits == old(numBits) + 8
    {
      ghost var p, n, i := Pos(), numBits, zbuffer + padding;
      LsbBound(input, p, n);
      assert codeBuffer < Pow2(numBits);
      var b := Zget8();
      Refill(input, p, n, i, n + 8);
      codeBuffer := codeBuffer + Shl(b, numBits);
      numBits := numBits + 8;
    }

    method FillBits()
      requires Reservoir() && numBits <= 24
      modifies `zbuffer, `padding, `numBits, `codeBuffer
      ensures Reservoir() && Pos() == old(Pos()) && numBits > 24
    {
      FillByte();
      while numBits <= 24
        invariant Reservoir() && Pos() == old(Pos())
        decreases 32 - numBits
      {
        FillByte();
      }
    }

    // Discard n bits from the reservoir.
    method Consume(n: nat)
      requires Reservoir() && n <= numBits
      modifies `numBits, `codeBuffer
      ensures Reservoir() && Pos() == old(Pos()) + n && numBits == old(numBits) - n
    {
      Drain(input, Pos(), n, numBits);
      codeBuffer := Shr(codeBuffer, n);
      numBits := numBits - n;
    }

    // The next n bits as a little-endian number.
    method Receive(n: nat) returns (k: nat)
      requires Reservoir() && n <= 25
      modifies `zbuffer, `padding, `numBits, `codeBuffer
      ensures Reservoir() && Pos() == old(Pos()) + n && numBits <= 32 - n
      ensures k == Lsb(input, old(Pos()), n)
    {
      if numBits < n { FillBits(); }
      Drain(input, Pos(), n, numBits);
      k := Low(codeBuffer, n);
      Consume(n);
    }

    // ---------------------------------------------------------- Huffman decoding

    // The next symbol of the code that the table was built for, or -1 if no code
    // matches.
    method HuffmanDecode(z: ZHuffman, ghost lens: seq<nat>) returns (v: int)
      requires Reservoir() && z.Built(lens)
      modifies `zbuffer, `padding, `numBits, `codeBuffer
      ensures Reservoir()
      ensures NextSymbol(lens, input, old(Pos())) == if v < 0 then None else Some(v)
      ensures v >= 0 ==> v < |lens| && Pos() == old(Pos()) + lens[v]
    {
      if numBits < 16 { FillBits(); }
      ghost var p := Pos();
      NineBits(input, p, numBits);
      var b := z.fast[Low(codeBuffer, FAST_BITS)];
      assert FastEntry(lens, |lens|, Lsb(input, p, 9), b);
      if b != 0 {
        FastHit(lens, input, p, b);
        NextIsUnique(lens, input, p, b % 512);
        Consume(b / 512);
        return b % 512;
      }
      v := HuffmanDecodeSlowPath(z, lens);
    }

    method HuffmanDecodeSlowPath(z: ZHuffman, ghost lens: seq<nat>) returns (v: int)
      requires Reservoir() && z.Built(lens) && numBits >= 16
      requires FastEntry(lens, |lens|, Lsb(input, Pos(), 9), 0)
      modifies `numBits, `codeBuffer
      ensures Reservoir()
      ensures NextSymbol(lens, input, old(Pos())) == if v < 0 then None else Some(v)
      ensures v >= 0 ==> v < |lens| && Pos() == old(Pos()) + lens[v]
    {
      hide NextSymbol, Lsb, Shr, Low, Msb, Below, FastEntry;
      var k := SixteenReversed();
      var s := FindLength(z, k, lens);
      if s == 16 {
        NoneNext(lens, input, Pos());
        return -1;
      }
      ghost var w := SlotOfNext(z, lens, Pos(), s);
      var b := Shr(k, 16 - s) - z.firstcode[s] + z.firstsymbol[s];
      assert z.size[b] == s;
      Consume(s);
      return z.value[b];
    }

    // The first length past nine whose limit lies above the next sixteen bits; 16 if none.
    method FindLength(z: ZHuffman, k: nat, ghost lens: seq<nat>) returns (s: nat)
      requires Reservoir() && z.Built(lens) && k == Msb(input, Pos(), 16)
      requires FastEntry(lens, |lens|, Lsb(input, Pos(), 9), 0)
      ensures FAST_BITS < s <= 16 && !Below(lens, input, Pos(), s - 1)
      ensures s < 16 ==> Below(lens, input, Pos(), s)
    {
      FastMiss(lens, input, Pos());
      s := FAST_BITS + 1;
      while true
        invariant FAST_BITS < s <= 16 && !Below(lens, input, Pos(), s - 1)
        decreases 16 - s
      {
        AtLimit(z, lens, Pos(), s);
        if k < z.maxcode[s] { return; }
        s := s + 1;
      }
    }

    lemma SlotOfNext(z: ZHuffman, lens: seq<nat>, p: nat, s: nat) returns (v: nat)
      requires z.Built(lens) && 0 < s <= 15
      requires Below(lens, input, p, s) && !Below(lens, input, p, s - 1)
      ensures NextSymbol(lens, input, p) == Some(v) && v < |lens| && lens[v] == s
      ensures var b := Shr(Msb(input, p, 16), 16 - s) - z.firstcode[s] + z.firstsymbol[s];
        0 <= b < 288 && z.size[b] == s && z.value[b] == v
    {
      v := SlowHit(lens, input, p, s);
      assert LengthEntry(lens, s, z.firstcode[..], z.firstsymbol[..], z.maxcode[..]);
      assert SymbolEntry(lens, v, z.size[..], z.value[..]);
      NextIsUnique(lens, input, p, v);
    }

    // The next sixteen bits, most significant first.
    function SixteenReversed(): (k: nat)
      requires Reservoir() && numBits >= 16
      reads this
      ensures k == Msb(input, Pos(), 16)
    {
      LsbTake(input, Pos(), 16, numBits);
      LsbBound(input, Pos(), 16);
      ReverseLsb(input, Pos(), 16);
      BitReverseIsReverse(Low(codeBuffer, 16), 16);
      BitReverse(Low(codeBuffer, 16), 16)
    }

    lemma AtLimit(z: ZHuffman, lens: seq<nat>, p: nat, s: nat)
      requires z.Built(lens) && FAST_BITS < s <= 16
      ensures s <= 15 ==> (Msb(input, p, 16) < z.maxcode[s] <==> Below(lens, input, p, s))
      ensures s == 16 ==> Msb(input, p, 16) < z.maxcode[s]
    {
      if s <= 15 {
        assert LengthEntry(lens, s, z.firstcode[..], z.firstsymbol[..], z.maxcode[..]);
        LimitIsBelow(lens, input, p, s);
      } else {
        MsbBound(input, p, 16);
        Pow2Values();
      }
    }

    // ---------------------------------------------------------- output

    // Make room for n bytes at z: double the buffer until they fit, or give up.
    method Zexpand(z: nat, n: nat) returns (ok: bool)
      requires Valid() && z <= buffer.Length < z + n && n <= 0xFFFF
      modifies `zout, `buffer
      ensures Valid() && zout == z
      ensures ok <==> z + n <= old(Cap())
      ensures ok ==> expandable && fresh(buffer) && Cap() == old(Cap()) && z + n <= buffer.Length
                     && buffer[..z] == old(buffer[..z])
      ensures !ok ==> buffer == old(buffer)
    {
      zout := z;
      if !expandable { return false; }
      var limit := buffer.Length;
      while z + n > limit
        invariant 1 <= limit
        invariant limit <= memory ==> Grown(limit, memory) == old(Cap())
        invariant limit > memory ==> old(Cap()) < z + n
        decreases z + n - limit
      {
        assert limit * 2 < 0x8000_0000;
        limit := limit * 2;
      }
      if limit > memory { return false; }
      var b := buffer;
      var q := new byte[limit];
      for i := 0 to z
        invariant buffer == b && zout == z
        invariant q[..i] == b[..i]
      {
        q[i] := b[i];
      }
      buffer := q;
      ok := true;
    }

    // Write one byte at z, growing the buffer if it is full.
    method PutByte(z: nat, v: byte) returns (ok: bool)
      requires Valid() && z <= buffer.Length
      modifies `zout, `buffer, buffer
      ensures Valid() && (buffer == old(buffer) || (expandable && fresh(buffer)))
      ensures ok <==> z < old(Cap())
      ensures ok ==> Cap() == old(Cap()) && z < buffer.Length && buffer[..z + 1] == old(buffer[..z]) + [v]
    {
      if z >= buffer.Length {
        ok := Zexpand(z, 1);
        if !ok { return; }
      }
      buffer[z] := v;
      ok := true;
    }

    // ---------------------------------------------------------- a Huffman block

    // How a finished call relates to a verdict about the stream.
    ghost predicate Agrees(st: Status, v: Verdict)
      requires zout <= buffer.Length && numBits <= 8 * (zbuffer + padding)
      reads this, buffer
    {
      match st
      case Done => v == Accepted(buffer[..zout], Pos())
      case Failed => v == Rejected
      case Unspecified => v == Undefined
      case Endless => v == Diverges
    }

    // A table base and its extra bits, if there are any.
    method ReceiveExtra(base: nat, extra: nat) returns (k: nat)
      requires Reservoir() && extra <= 25
      modifies `zbuffer, `padding, `numBits, `codeBuffer
      ensures Reservoir() && Pos() == old(Pos()) + extra
      ensures k == base + Lsb(input, old(Pos()), extra)
    {
      k := base;
      if extra != 0 {
        var more := Receive(extra);
        k := k + more;
      }
    }

    // The copy itself, with z bytes written so far.
    method PlaceCopy(z: nat, distance: nat, len: nat) returns (st: Status)
      requires Valid() && distance <= z <= buffer.Length && len <= 0xFFFF
      modifies `zout, `buffer, buffer
      ensures Valid() && (buffer == old(buffer) || (expandable && fresh(buffer)))
      ensures match st
        case Done => Cap() == old(Cap()) && z + len <= buffer.Length && (len > 0 ==> distance > 0)
                     && buffer[..z + len]
                         == if len == 0 then old(buffer[..z]) else Extend(old(buffer[..z]), distance, len)
        case Failed => z + len > old(Cap())
        case Unspecified => z + len <= old(Cap()) && distance == 0 < len
        case Endless => false
    {
      if z + len > buffer.Length {
        var ok := Zexpand(z, len);
        if !ok { return Failed; }
      }
      if distance == 0 {
        // the C code would copy bytes that were never written onto themselves
        return if len > 0 then Unspecified else Done;
      }
      CopyBack(buffer, z, distance, len);
      return Done;
    }

    // How the handling of one symbol, with n bytes written after it, relates to a step.
    ghost predicate Placed(st: Status, n: nat, step: Step)
      requires numBits <= 8 * (zbuffer + padding)
      reads this, buffer
    {
      match st
      case Done => n <= buffer.Length && step == Continue(buffer[..n], Pos())
      case Failed => step == Stop(Rejected)
      case Unspecified => step == Stop(Undefined)
      case Endless => false
    }

    // The length that length symbol 257 + i and its extra bits stand for.
    method ReceiveLength(i: nat) returns (len: nat)
      requires Reservoir() && i < 31
      modifies `zbuffer, `padding, `numBits, `codeBuffer
      ensures Reservoir() && Pos() == old(Pos()) + LengthExtra(i)
      ensures len == LengthBase(i) + Lsb(input, old(Pos()), LengthExtra(i)) <= 258
    {
      LengthTable(i);
      LengthBound(i);
      LsbBound(input, Pos(), LengthExtra(i));
      len := ReceiveExtra(LENGTH_BASE[i], LENGTH_EXTRA[i]);
    }

    // The distance that distance symbol d and its extra bits stand for.
    method ReceiveDistance(d: nat) returns (distance: nat)
      requires Reservoir() && d < 32
      modifies `zbuffer, `padding, `numBits, `codeBuffer
      ensures Reservoir() && Pos() == old(Pos()) + DistExtra(d)
      ensures distance == DistBase(d) + Lsb(input, old(Pos()), DistExtra(d))
    {
      DistTable(d);
      distance := ReceiveExtra(DIST_BASE[d], DIST_EXTRA[d]);
    }

    // Distance symbol d has been read: its extra bits, and the copy.
    method CopyFromDistance(d: nat, z: nat, len: nat) returns (st: Status)
      requires Valid() && Reservoir() && d < 32 && z <= buffer.Length && len <= 0xFFFF
      modifies `zbuffer, `padding, `numBits, `codeBuffer, `zout, `buffer, buffer
      ensures Valid() && Reservoir() && (buffer == old(buffer) || (expandable && fresh(buffer)))
      ensures st.Done? ==> Cap() == old(Cap())
      ensures Placed(st, z + len, CopyFrom(d, input, old(Pos()), len, old(buffer[..z]), old(Cap())))
    {
      hide Bit, Lsb, NextSymbol, DistBase, LengthBase, DistExtra, LengthExtra, Pow2, Extend, Grown;
      var distance := ReceiveDistance(d);
      if z < distance {
        st := Failed;
      } else {
        st := PlaceCopy(z, distance, len);
      }
    }

    // The distance after a length, and the copy they ask for.
    method CopyMatch(z: nat, len: nat, ghost dist: seq<nat>) returns (st: Status)
      requires Valid() && Reservoir() && zDistance.Built(dist) && |dist| <= 32 && z <= buffer.Length && len <= 0xFFFF
      modifies `zbuffer, `padding, `numBits, `codeBuffer, `zout, `buffer, buffer
      ensures Valid() && Reservoir() && (buffer == old(buffer) || (expandable && fresh(buffer)))
      ensures st.Done? ==> Cap() == old(Cap())
      ensures Placed(st, z + len, CopyStep(dist, input, old(Pos()), len, old(buffer[..z]), old(Cap())))
    {
      hide Bit, Lsb, NextSymbol, DistBase, LengthBase, DistExtra, LengthExtra, Pow2, Extend, Grown;
      var v := HuffmanDecode(zDistance, dist);
      if v < 0 {
        st := Failed;
      } else {
        st := CopyFromDistance(v, z, len);
      }
    }

    // Length symbol v has been read: the rest of the match, ending at n.
    method ParseMatch(v: nat, z: nat, ghost dist: seq<nat>) returns (st: Status, n: nat)
      requires Valid() && Reservoir() && zDistance.Built(dist) && |dist| <= 32 && z <= buffer.Length
      requires 256 < v < 288
      modifies `zbuffer, `padding, `numBits, `codeBuffer, `zout, `buffer, buffer
      ensures Valid() && Reservoir() && (buffer == old(buffer) || (expandable && fresh(buffer)))
      ensures st.Done? ==> Cap() == old(Cap())
      ensures Placed(st, n, SymbolAction(v, dist, input, old(Pos()), old(buffer[..z]), old(Cap())))
    {
      hide Bit, Lsb, NextSymbol, DistBase, LengthBase, DistExtra, LengthExtra, Pow2, Extend, Grown;
      var len := ReceiveLength(v - 257);
      n := z + len;
      st := CopyMatch(z, len, dist);
    }

    // Decode one symbol, with z bytes written before it and n after it.
    method ParseSymbol(z: nat, ghost lit: seq<nat>, ghost dist: seq<nat>) returns (st: Status, n: nat, end: bool)
      requires Valid() && Reservoir() && zLength.Built(lit) && zDistance.Built(dist)
      requires |dist| <= 32 && z <= buffer.Length
      modifies `zbuffer, `padding, `numBits, `codeBuffer, `zout, `buffer, buffer
      ensures Valid() && Reservoir() && (buffer == old(buffer) || (expandable && fresh(buffer)))
      ensures st.Done? ==> Cap() == old(Cap())
      ensures end ==> st.Done? && n == z && buffer == old(buffer) && buffer[..z] == old(buffer[..z])
      ensures var step := SymbolStep(lit, dist, input, old(Pos()), old(buffer[..z]), old(Cap()));
        if end then step == EndOfBlock(Pos()) else Placed(st, n, step)
    {
      hide Bit, Lsb, NextSymbol, DistBase, LengthBase, DistExtra, LengthExtra, Pow2, Extend, Grown;
      n, end := z, false;
      var v := HuffmanDecode(zLength, lit);
      if v < 0 {
        st := Failed;
      } else if v < 256 {
        var ok := PutByte(z, v);
        st, n := if ok then Done else Failed, z + 1;
      } else if v == 256 {
        st, end := Done, true;
      } else {
        st, n := ParseMatch(v, z, dist);
      }
    }

    method ParseHuffmanBlock(ghost lit: seq<nat>, ghost dist: seq<nat>) returns (st: Status)
      requires Valid() && Reservoir() && zLength.Built(lit) && zDistance.Built(dist) && |dist| <= 32
      modifies `zbuffer, `padding, `numBits, `codeBuffer, `zout, `buffer, buffer
      ensures Valid() && Reservoir() && (buffer == old(buffer) || (expandable && fresh(buffer)))
      ensures st.Done? ==> Cap() == old(Cap())
      ensures Agrees(st, HuffmanBlock(lit, dist, input, old(Pos()), old(buffer[..zout]), old(Cap())))
    {
      hide Bit, Lsb, NextSymbol, DistBase, LengthBase, DistExtra, LengthExtra, Pow2, Extend, Grown, SymbolStep;
      var z: nat, end: bool := zout, false;
      ghost var whole := HuffmanBlock(lit, dist, input, Pos(), buffer[..z], Cap());
      while !end
        invariant Valid() && Reservoir() && zLength.Built(lit) && zDistance.Built(dist)
        invariant buffer == old(buffer) || (expandable && fresh(buffer))
        invariant Cap() == old(Cap()) && z <= buffer.Length
        invariant if end then whole == Accepted(buffer[..z], Pos())
                  else HuffmanBlock(lit, dist, input, Pos(), buffer[..z], Cap()) == whole
        decreases !end, Cap() - z, BitsLeft(input, Pos())
      {
        var start := Pos();
        var n;
        st, n, end := ParseSymbol(z, lit, dist);
        if !st.Done? { return; }
        // decoded from the padding, an empty copy leaves everything as it was: the C loop never ends
        if !end && n == z && start >= 8 * |input| { return Endless; }
        z := n;
      }
      zout := z;
      st := Done;
    }

    // ---------------------------------------------------------- the codes of a dynamic block

    // The lengths of the code length code.
    method ReadZigzag(hclen: nat) returns (sizes: seq<nat>)
      requires Reservoir() && hclen <= 19
      modifies `zbuffer, `padding, `numBits, `codeBuffer
      ensures Reservoir() && Pos() == old(Pos()) + 3 * hclen
      ensures sizes == ZigzagLengths(input, old(Pos()), hclen)
    {
      hide Bit, Lsb, Pow2, Times;
      var a := new nat[19](_ => 0);
      ghost var p := Pos();
      assert a[..] == Times(0, 19);
      for i := 0 to hclen
        invariant Reservoir() && Pos() == p + 3 * i
        invariant a[..] == ZigzagLengths(input, p, i)
      {
        var s := Receive(3);
        a[DEZIGZAG[i]] := s;
      }
      sizes := a[..];
    }

    // One code length symbol: what it adds to the n lengths read so far.
    method ReadRun(lencodes: array<nat>, n: nat, c: nat) returns (ok: bool, n': nat)
      requires Reservoir() && lencodes.Length == MAX_LENGTHS && n < 320 && c < 19
      requires forall i :: 0 <= i < n ==> lencodes[i] <= 15
      modifies `zbuffer, `padding, `numBits, `codeBuffer, lencodes
      ensures Reservoir()
      ensures var r := LengthRun(input, old(Pos()), c, old(lencodes[..n]));
        if ok then n' <= MAX_LENGTHS && r == Lengths(lencodes[..n'], Pos()) else r == NoLengths(Undefined)
    {
      hide Bit, Lsb, Pow2, Times;
      if c < 16 {
        lencodes[n] := c;
        return true, n + 1;
      }
      if c == 16 && n == 0 {
        // the C code would repeat the byte in front of the array
        return false, n;
      }
      var v := if c == 16 then lencodes[n - 1] else 0;
      var run := Receive(if c == 16 then 2 else if c == 17 then 3 else 7);
      run := run + if c == 18 then 11 else 3;
      if n + run > MAX_LENGTHS {
        // the C code would write past the end of the array
        return false, n;
      }
      RepeatLength(lencodes, n, v, run);
      return true, n + run;
    }

    // The code lengths of both codes in one list.
    method ReadCodeLengths(z: ZHuffman, total: nat, ghost clens: seq<nat>) returns (st: Status, lens: seq<nat>)
      requires Reservoir() && z.Built(clens) && |clens| <= 19 && total <= 320
      modifies `zbuffer, `padding, `numBits, `codeBuffer
      ensures Reservoir()
      ensures var r := ReadLengths(clens, input, old(Pos()), total, []);
        match st
        case Done => r == Lengths(lens, Pos())
        case Failed => r == NoLengths(Rejected)
        case Unspecified => r == NoLengths(Undefined)
        case Endless => false
    {
      hide Bit, Lsb, Pow2, NextSymbol, LengthRun;
      var lencodes := new nat[MAX_LENGTHS](_ => 0);
      var n := 0;
      ghost var whole := ReadLengths(clens, input, Pos(), total, []);
      while n < total
        invariant Reservoir() && z.Built(clens) && n <= MAX_LENGTHS
        invariant forall i :: 0 <= i < n ==> lencodes[i] <= 15
        invariant ReadLengths(clens, input, Pos(), total, lencodes[..n]) == whole
        decreases total - n
      {
        var c := HuffmanDecode(z, clens);
        if c < 0 || c >= 19 { return Failed, []; }
        var ok, n' := ReadRun(lencodes, n, c);
        if !ok { return Unspecified, []; }
        assert forall i :: 0 <= i < n' ==> lencodes[..n'][i] <= 15;
        n := n';
      }
      if n != total { return Failed, []; }
      return Done, lencodes[..n];
    }

    // How many lengths the header announces for each code.
    method ReadCounts() returns (hlit: nat, hdist: nat, hclen: nat)
      requires Reservoir()
      modifies `zbuffer, `padding, `numBits, `codeBuffer
      ensures Reservoir() && Pos() == old(Pos()) + 14
      ensures hlit == HLit(input, old(Pos())) && hdist == HDist(input, old(Pos())) && hclen == HCLen(input, old(Pos()))
    {
      hlit := Receive(5);
      hdist := Receive(5);
      hclen := Receive(4);
      hlit, hdist, hclen := hlit + 257, hdist + 1, hclen + 4;
    }

    method ReadDynamicLengths() returns (st: Status, lens: seq<nat>, hlit: nat)
      requires Reservoir()
      modifies `zbuffer, `padding, `numBits, `codeBuffer
      ensures Reservoir() && hlit == HLit(input, old(Pos()))
      ensures var r := DynamicLengths(input, old(Pos()));
        match st
        case Done => r == Lengths(lens, Pos())
        case Failed => r == NoLengths(Rejected)
        case Unspecified => r == NoLengths(Undefined)
        case Endless => false
    {
      hide Bit, Lsb, Pow2, NextSymbol, ReadLengths, ZigzagLengths, KraftSum, HLit, HDist, HCLen;
      lens := [];
      var hdist, hclen;
      hlit, hdist, hclen := ReadCounts();
      var codelengthSizes := ReadZigzag(hclen);
      var zCodelength := new ZHuffman();
      var ok := zCodelength.Build(codelengthSizes);
      if !ok { st := Failed; return; }
      st, lens := ReadCodeLengths(zCodelength, hlit + hdist, codelengthSizes);
    }

    ghost predicate TablesAgree(st: Status, lit: seq<nat>, dist: seq<nat>, r: Tables)
      requires numBits <= 8 * (zbuffer + padding)
      reads this
    {
      match st
      case Done => r == Tables(lit, dist, Pos())
      case Failed => r == NoTables(Rejected)
      case Unspecified => r == NoTables(Undefined)
      case Endless => false
    }

    method ComputeHuffmanCodes() returns (st: Status, ghost lit: seq<nat>, ghost dist: seq<nat>)
      requires Valid() && Reservoir()
      modifies `zbuffer, `padding, `numBits, `codeBuffer, zLength.Repr(), zDistance.Repr()
      ensures Reservoir()
      ensures TablesAgree(st, lit, dist, DynamicTables(input, old(Pos())))
      ensures st.Done? ==> zLength.Built(lit) && zDistance.Built(dist) && |dist| <= 32
    {
      hide Bit, Lsb, Pow2, KraftSum, DynamicLengths;
      lit, dist := [], [];
      var lens, hlit;
      st, lens, hlit := ReadDynamicLengths();
      if st.Done? {
        lit, dist := lens[..hlit], lens[hlit..];
        st := BuildTables(lens[..hlit], lens[hlit..]);
      }
    }

    method BuildTables(lit: seq<nat>, dist: seq<nat>) returns (st: Status)
      requires Valid() && CodeLengths(lit) && CodeLengths(dist)
      modifies zLength.Repr(), zDistance.Repr()
      ensures st == if SplitTables(lit, dist, 0).NoTables? then Failed else Done
      ensures st.Done? ==> zLength.Built(lit) && zDistance.Built(dist)
    {
      hide KraftSum, Pow2;
      var ok := zLength.Build(lit);
      if !ok { return Failed; }
      ok := zDistance.Build(dist);
      return if ok then Done else Failed;
    }

    // ---------------------------------------------------------- a stored block

    // Skip to the next byte boundary.
    method AlignToByte()
      requires Reservoir()
      modifies `zbuffer, `padding, `numBits, `codeBuffer
      ensures Reservoir() && Pos() == RoundUp(old(Pos())) && numBits == old(numBits) - old(numBits) % 8
    {
      hide Bit, Lsb, Pow2;
      if numBits % 8 != 0 {
        Consume(numBits % 8);
      }
    }

    // One whole byte out of the reservoir.
    method DrainByte(ghost i: nat) returns (b: byte)
      requires Reservoir() && numBits >= 8 && Pos() == 8 * i
      modifies `numBits, `codeBuffer
      ensures Reservoir() && Pos() == 8 * (i + 1) && numBits == old(numBits) - 8
      ensures b == ByteAt(input, i)
    {
      hide Bit, Pow2;
      Drain(input, Pos(), 8, numBits);
      LsbByte(input, i, 8);
      b := Low(codeBuffer, 8);
      Consume(8);
    }

    // The whole bytes left in the reservoir, at most three.
    method DrainHeader(header: array<byte>, ghost i: nat) returns (k: nat)
      requires Reservoir() && numBits <= 30 && numBits % 8 == 0 && Pos() == 8 * i && header.Length == 4
      modifies `numBits, `codeBuffer, header
      ensures Reservoir() && numBits == 0 && k <= 3 && Pos() == 8 * (i + k)
      ensures forall j :: 0 <= j < k ==> header[j] == ByteAt(input, i + j)
    {
      hide Bit, Lsb, Pow2;
      k := 0;
      while numBits > 0
        invariant Reservoir() && numBits % 8 == 0 && numBits + 8 * k <= 24
        invariant Pos() == 8 * (i + k)
        invariant forall j :: 0 <= j < k ==> header[j] == ByteAt(input, i + j)
        decreases numBits
      {
        header[k] := DrainByte(i + k);
        k := k + 1;
      }
    }

    // The four bytes LEN and NLEN: first what the reservoir holds, then bytes from
    // the input.
    method ReadStoredHeader(ghost i: nat) returns (header: array<byte>)
      requires Reservoir() && numBits <= 30 && numBits % 8 == 0 && Pos() == 8 * i
      modifies `zbuffer, `padding, `numBits, `codeBuffer
      ensures Reservoir() && numBits == 0 && Pos() == 8 * (i + 4)
      ensures fresh(header) && header.Length == 4
      ensures forall j :: 0 <= j < 4 ==> header[j] == ByteAt(input, i + j)
    {
      hide Bit, Lsb, Pow2;
      header := new byte[4];
      var k := DrainHeader(header, i);
      while k < 4
        invariant Reservoir() && numBits == 0 && k <= 4 && Pos() == 8 * (i + k)
        invariant forall j :: 0 <= j < k ==> header[j] == ByteAt(input, i + j)
      {
        EmptyReservoir(input, Pos());
        header[k] := Zget8();
        EmptyReservoir(input, Pos());
        k := k + 1;
      }
    }

    // LEN, if NLEN is its complement and the data lies within the input.
    method ReadStoredLength(ghost i: nat) returns (ok: bool, len: nat)
      requires Reservoir() && numBits <= 30 && numBits % 8 == 0 && Pos() == 8 * i
      modifies `zbuffer, `padding, `numBits, `codeBuffer
      ensures Reservoir() && numBits == 0 && Pos() == 8 * (i + 4)
      ensures ok <==> Lsb(input, 8 * i + 16, 16) == 0xFFFF - Lsb(input, 8 * i, 16)
                      && i + 4 + Lsb(input, 8 * i, 16) <= |input|
      ensures ok ==> len == Lsb(input, 8 * i, 16) <= 0xFFFF && zbuffer == i + 4
    {
      hide Bit, Lsb, Pow2;
      var header := ReadStoredHeader(i);
      len := header[1] as int * 256 + header[0] as int;
      var nlen: nat := header[3] as int * 256 + header[2] as int;
      TwoBytes(input, i, 16);
      TwoBytes(input, i + 2, 16);
      assert 8 * (i + 2) == 8 * i + 16;
      ok := nlen == 0xFFFF - len;
      // if the header was cut off by the end of the input, NLEN is below 256 and LEN is not 0
      ok := ok && zbuffer + len <= |input|;
    }

    method ParseUncompressedBlock() returns (st: Status)
      requires Valid() && Reservoir() && numBits <= 30
      modifies `zbuffer, `padding, `numBits, `codeBuffer, `zout, `buffer, buffer
      ensures Valid() && Reservoir() && (buffer == old(buffer) || (expandable && fresh(buffer)))
      ensures st.Done? ==> Cap() == old(Cap())
      ensures Agrees(st, StoredBlock(input, old(Pos()), old(buffer[..zout]), old(Cap())))
    {
      hide Bit, Lsb, Pow2, Grown;
      AlignToByte();
      var ok, len := ReadStoredLength(Pos() / 8);
      if !ok { return Failed; }
      if zout + len > buffer.Length {
        ok := Zexpand(zout, len);
        if !ok { return Failed; }
      }
      CopyInput(len);
      return Done;
    }

    // Copy len bytes of the input to the output.
    method CopyInput(len: nat)
      requires Valid() && Reservoir() && numBits == 0
      requires zbuffer + len <= |input| && zout + len <= buffer.Length
      modifies `zbuffer, `codeBuffer, `zout, buffer
      ensures Valid() && Reservoir() && numBits == 0 && zbuffer == old(zbuffer) + len && zout == old(zout) + len
      ensures buffer[..zout] == old(buffer[..zout]) + input[old(zbuffer)..zbuffer]
    {
      hide Bit, Pow2, Grown;
      for i := 0 to len
        invariant Valid() && Reservoir() && numBits == 0 && zbuffer == old(zbuffer) && zout == old(zout)
        invariant buffer[..zout + i] == old(buffer[..zout]) + input[zbuffer..zbuffer + i]
      {
        buffer[zout + i] := input[zbuffer + i];
      }
      zbuffer := zbuffer + len;
      zout := zout + len;
    }

    // ---------------------------------------------------------- the whole stream

    method ParseZlibHeader() returns (ok: bool)
      requires Source() && zbuffer == padding == 0
      modifies `zbuffer, `padding
      ensures Source() && ok == HeaderOk(input)
      ensures ok ==> zbuffer + padding == 2
    {
      var cmf: int := Zget8();
      var cm := cmf % 16;
      var flg: int := Zget8();
      if (cmf * 256 + flg) % 31 != 0 { return false; }
      if flg / 32 % 2 != 0 { return false; }
      return cm == 8;
    }

    method ParseBlock(kind: nat) returns (st: Status)
      requires Valid() && Reservoir() && numBits <= 30 && kind < 4
      modifies `zbuffer, `padding, `numBits, `codeBuffer, `zout, `buffer, buffer, zLength.Repr(), zDistance.Repr()
      ensures Valid() && Reservoir() && (buffer == old(buffer) || (expandable && fresh(buffer)))
      ensures st.Done? ==> Cap() == old(Cap())
      ensures Agrees(st, BlockOfKind(kind, input, old(Pos()), old(buffer[..zout]), old(Cap())))
    {
      hide Bit, Lsb, Pow2, Grown, KraftSum, HuffmanBlock, DynamicTables, StoredBlock;
      if kind == 0 {
        st := ParseUncompressedBlock();
      } else if kind == 3 {
        st := Failed;
      } else {
        ghost var lit, dist;
        if kind == 1 {
          FixedUsable();
          st := BuildTables(FixedLit(), FixedDist());
          lit, dist := FixedLit(), FixedDist();
        } else {
          st, lit, dist := ComputeHuffmanCodes();
        }
        if st.Done? {
          st := ParseHuffmanBlock(lit, dist);
        }
      }
    }

    // Decode one block with its header.
    method ParseNextBlock() returns (st: Status, final: nat)
      requires Valid() && Reservoir()
      modifies `zbuffer, `padding, `numBits, `codeBuffer, `zout, `buffer, buffer, zLength.Repr(), zDistance.Repr()
      ensures Valid() && Reservoir() && (buffer == old(buffer) || (expandable && fresh(buffer)))
      ensures st.Done? ==> Cap() == old(Cap()) && BitsLeft(input, Pos()) < BitsLeft(input, old(Pos()))
      ensures var whole := Blocks(input, old(Pos()), old(buffer[..zout]), old(Cap()));
        if st.Done? && final == 0 then whole == Blocks(input, Pos(), buffer[..zout], old(Cap())) else Agrees(st, whole)
    {
      hide Bit, Lsb, Pow2, Grown, Blocks, BlockOfKind;
      BlocksUnfold(input, Pos(), buffer[..zout], Cap());
      final := Receive(1);
      var kind := Receive(2);
      st := ParseBlock(kind);
    }

    // Decode blocks up to and including the one marked as last.
    method ParseBlocks() returns (st: Status)
      requires Valid() && Reservoir()
      modifies `zbuffer, `padding, `numBits, `codeBuffer, `zout, `buffer, buffer, zLength.Repr(), zDistance.Repr()
      ensures Valid() && Reservoir() && (buffer == old(buffer) || (expandable && fresh(buffer)))
      ensures Agrees(st, Blocks(input, old(Pos()), old(buffer[..zout]), old(Cap())))
    {
      hide Bit, Lsb, Pow2, Grown, Blocks;
      ghost var whole := Blocks(input, Pos(), buffer[..zout], Cap());
      var final;
      st, final := ParseNextBlock();
      while st.Done? && final == 0
        invariant Valid() && Reservoir() && (buffer == old(buffer) || (expandable && fresh(buffer)))
        invariant st.Done? ==> Cap() == old(Cap())
        invariant if st.Done? && final == 0 then whole == Blocks(input, Pos(), buffer[..zout], old(Cap()))
                  else Agrees(st, whole)
        decreases st.Done?, BitsLeft(input, Pos())
      {
        st, final := ParseNextBlock();
      }
    }

    // Judge and decode the stream.
    method ParseZlib(parseHeader: bool) returns (st: Status)
      requires Valid() && Source() && zbuffer == padding == 0 && zout == 0
      modifies `zbuffer, `padding, `numBits, `codeBuffer, `zout, `buffer, buffer, zLength.Repr(), zDistance.Repr()
      ensures Valid() && Reservoir() && (buffer == old(buffer) || (expandable && fresh(buffer)))
      ensures Agrees(st, Inflate(input, parseHeader, old(Cap())))
    {
      hide Bit, Pow2, Grown, Blocks;
      var ok := true;
      if parseHeader {
        ok := ParseZlibHeader();
      }
      numBits := 0;
      codeBuffer := 0;
      if !ok { return Failed; }
      assert buffer[..zout] == [];
      st := ParseBlocks();
    }
  }

  lemma EmptyReservoir(input: seq<byte>, p: nat)
    ensures Lsb(input, p, 0) == 0
  {
  }

  // One block and the rest of the stream, in terms of the three header bits.
  lemma BlocksUnfold(input: seq<byte>, p: nat, out: seq<byte>, limit: nat)
    requires |out| <= limit
    ensures Lsb(input, p, 1) < 2 && Lsb(input, p + 1, 2) < 4
    ensures var block := BlockOfKind(Lsb(input, p + 1, 2), input, p + 3, out, limit);
      && (block.Accepted? ==> p < 8 * |input|)
      && Blocks(input, p, out, limit) ==
           if block.Accepted? && Lsb(input, p, 1) == 0 then Blocks(input, block.pos, block.out, limit) else block
  {
    assert Lsb(input, p + 1, 0) == 0;
    assert Lsb(input, p, 1) == Bit(input, p);
    LsbBound(input, p + 1, 2);
    assert Pow2(2) == 4;
    if p >= 8 * |input| { NoBlockPastEnd(input, p, out, limit); }
  }

  // Two bytes from a byte boundary, the low one first.
  lemma TwoBytes(input: seq<byte>, i: nat, n: nat)
    requires n == 16
    ensures Lsb(input, 8 * i, n) == ByteAt(input, i) + 256 * ByteAt(input, i + 1)
  {
    var m: nat := n - 8;
    LsbSplit(input, 8 * i, m, m);
    LsbByte(input, i, m);
    LsbByte(input, i + 1, m);
    assert 8 * i + m == 8 * (i + 1);
    ShlEight(ByteAt(input, i + 1), m);
  }

  // A byte shifted in above the n bits already held.
  lemma Refill(input: seq<byte>, p: nat, n: nat, i: nat, m: nat)
    requires p + n == 8 * i && m == n + 8 <= 32
    ensures Lsb(input, p, n) + Shl(ByteAt(input, i), n) == Lsb(input, p, m) < 0x1_0000_0000
  {
    LsbByte(input, i, m - n);
    assert Lsb(input, p + n, m - n) == ByteAt(input, i);
    LsbSplit(input, p, n, m - n);
    assert n + (m - n) == m;
    WordBound(input, p, m);
  }

  lemma WordBound(input: seq<byte>, p: nat, n: nat)
    requires n <= 32
    ensures Lsb(input, p, n) < 0x1_0000_0000
  {
    LsbBound(input, p, n);
    Pow2Mono(n, 32);
    Pow2Values();
  }

  // Bits shifted out at the bottom.
  lemma Drain(input: seq<byte>, p: nat, n: nat, m: nat)
    requires n <= m <= 32
    ensures Low(Lsb(input, p, m), n) == Lsb(input, p, n)
    ensures Shr(Lsb(input, p, m), n) == Lsb(input, p + n, m - n) < 0x1_0000_0000
  {
    LsbTake(input, p, n, m);
    WordBound(input, p + n, m - n);
  }

  lemma NineBits(input: seq<byte>, p: nat, m: nat)
    requires 9 <= m
    ensures Low(Lsb(input, p, m), 9) == Lsb(input, p, 9) < 512
  {
    LsbTake(input, p, 9, m);
    LsbBound(input, p, 9);
    Pow2Values();
  }

  lemma NoneNext(lens: seq<nat>, input: seq<byte>, p: nat)
    requires CodeLengths(lens) && !Below(lens, input, p, 15)
    ensures NextSymbol(lens, input, p) == None
  {
    NoNextAbove(lens, input, p, 15);
  }
}
