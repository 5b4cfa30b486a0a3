/**
  Lemmas that tie the two-level table lookup to the canonical code: what a hit or a
  miss in the fast table means, and what the per-length limits find after a miss.
 */
module Lookup {
  import opened Bits
  import opened Canonical
  import opened Huffman
  import opened Packing

  lemma MatchIsNext(lens: seq<nat>, input: seq<byte>, p: nat, v: nat)
    requires CodeLengths(lens) && KraftSum(lens) <= Pow2(15)
    requires v < |lens| && 0 < lens[v] <= FAST_BITS
    ensures FastMatch(lens, v, Lsb(input, p, 9)) <==> IsNext(lens, input, p, v)
  {
    var s := lens[v];
    LsbTake(input, p, s, 9);
    ReverseLsb(input, p, s);
    CodeFits(lens, v);
    ReverseInvolution(Code(lens, v), s);
    LsbBound(input, p, s);
    ReverseInvolution(Lsb(input, p, s), s);
  }

  // A hit names the next symbol and its length.
  lemma FastHit(lens: seq<nat>, input: seq<byte>, p: nat, entry: nat)
    requires CodeLengths(lens) && KraftSum(lens) <= Pow2(15)
    requires FastEntry(lens, |lens|, Lsb(input, p, 9), entry) && entry != 0
    ensures IsNext(lens, input, p, entry % 512) && lens[entry % 512] == entry / 512 <= FAST_BITS
  {
    var v :| 0 <= v < |lens| && FastMatch(lens, v, Lsb(input, p, 9)) && entry == Packed(lens[v], v);
    Unpack(lens[v], v);
    MatchIsNext(lens, input, p, v);
  }

  lemma Unpack(length: nat, v: nat)
    requires v < 512
    ensures Packed(length, v) / 512 == length && Packed(length, v) % 512 == v
  {
  }

  // A miss means that the next code, if any, is longer than nine bits.
  lemma FastMiss(lens: seq<nat>, input: seq<byte>, p: nat)
    requires CodeLengths(lens) && KraftSum(lens) <= Pow2(15)
    requires FastEntry(lens, |lens|, Lsb(input, p, 9), 0)
    ensures !Below(lens, input, p, FAST_BITS)
  {
    if Below(lens, input, p, FAST_BITS) {
      var v := BelowHasNext(lens, input, p, FAST_BITS);
      MatchIsNext(lens, input, p, v);
    }
  }

  // No two symbols match one nine-bit word, so that the table does not depend on the order
  // in which they are entered.
  lemma FastMatchUnique(lens: seq<nat>, v: nat, w: nat, key: nat)
    requires CodeLengths(lens) && KraftSum(lens) <= Pow2(15) && key < FAST_SIZE
    requires v < |lens| && w < |lens| && FastMatch(lens, v, key) && FastMatch(lens, w, key)
    ensures v == w
  {
    hide KraftSum, FieldBits, Pack, Holds, Low, Reverse, Code;
    var input := Pack(FieldBits(key, 9));
    PackHolds(FieldBits(key, 9));
    Pow2Values();
    ReadField(input, 0, key, 9);
    MatchIsNext(lens, input, 0, v);
    MatchIsNext(lens, input, 0, w);
    NextUnique(lens, input, 0, v, w);
  }

  // The lengths give every entry of the fast table a single value.
  lemma FastEntryUnique(lens: seq<nat>, key: nat, entry: nat, entry': nat)
    requires CodeLengths(lens) && KraftSum(lens) <= Pow2(15) && key < FAST_SIZE
    requires FastEntry(lens, |lens|, key, entry) && FastEntry(lens, |lens|, key, entry')
    ensures entry == entry'
  {
    hide KraftSum, FastMatch;
    if entry != 0 && entry' != 0 {
      var v :| 0 <= v < |lens| && FastMatch(lens, v, key) && entry == Packed(lens[v], v);
      var w :| 0 <= w < |lens| && FastMatch(lens, w, key) && entry' == Packed(lens[w], w);
      FastMatchUnique(lens, v, w, key);
    }
  }

  lemma {:induction false} LimitMono(lens: seq<nat>, s: nat, t: nat)
    requires s <= t <= 16
    ensures Limit(lens, s) <= Limit(lens, t)
    decreases t
  {
    if s < t {
      LimitMono(lens, s, t - 1);
      ShlDouble(End(lens, t - 1), 16 - t);
      ShlMono(2 * End(lens, t - 1), End(lens, t), 16 - t);
    }
  }

  lemma LimitBound(lens: seq<nat>, s: nat)
    requires s <= 15 && End(lens, 15) <= Pow2(15)
    ensures Limit(lens, s) <= Pow2(16)
  {
    EndFits(lens, s);
    ShlMono(End(lens, s), Pow2(s), 16 - s);
    ShlPow2(s, 16 - s);
  }

  // The limits rise with the length, up to the sentinel.
  lemma MaxcodeSorted(lens: seq<nat>, firstcode: seq<u16>, firstsymbol: seq<u16>, maxcode: seq<nat>, s: nat, t: nat)
    requires CodeLengths(lens) && KraftSum(lens) <= Pow2(15)
    requires LengthTables(lens, 16, firstcode, firstsymbol, maxcode) && maxcode[16] == 0x1_0000
    requires 1 <= s <= t <= 16
    ensures maxcode[s] <= maxcode[t]
  {
    hide KraftSum;
    if s < 16 {
      assert LengthEntry(lens, s, firstcode, firstsymbol, maxcode);
      if t < 16 {
        assert LengthEntry(lens, t, firstcode, firstsymbol, maxcode);
        LimitMono(lens, s, t);
      } else {
        EndIsKraftSum(lens);
        LimitBound(lens, s);
        Pow2Values();
      }
    }
  }

  // Comparing sixteen bits with a shifted limit compares the first s bits.
  lemma LimitIsBelow(lens: seq<nat>, input: seq<byte>, p: nat, s: nat)
    requires s <= 16
    ensures Msb(input, p, 16) < Limit(lens, s) <==> Below(lens, input, p, s)
  {
    MsbTake(input, p, s, 16);
    ShrBelow(Msb(input, p, 16), End(lens, s), 16 - s);
  }

  // The symbol that the slow path computes.
  lemma SlowHit(lens: seq<nat>, input: seq<byte>, p: nat, s: nat) returns (v: nat)
    requires CodeLengths(lens) && 0 < s <= 15
    requires Below(lens, input, p, s) && !Below(lens, input, p, s - 1)
    ensures IsNext(lens, input, p, v) && lens[v] == s
    ensures Shr(Msb(input, p, 16), 16 - s) - FirstCode(lens, s) + FirstSymbol(lens, s) == Slot(lens, v)
  {
    v := FirstBelowHasNext(lens, input, p, s);
    MsbTake(input, p, s, 16);
  }
}
