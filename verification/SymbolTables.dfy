/**
  stb_image's tables of length and distance symbols, and their agreement with the
  ranges of section 3.2.5 of RFC 1951.
 */
module SymbolTables {
  import opened Bits
  import opened Deflate

  // stb_image's base and extra-bit tables.

  const LENGTH_BASE: seq<nat> := [
    3, 4, 5, 6, 7, 8, 9, 10, 11, 13, 15, 17, 19, 23, 27, 31, 35, 43, 51, 59,
    67, 83, 99, 115, 131, 163, 195, 227, 258, 0, 0]

  const LENGTH_EXTRA: seq<nat> := [
    0, 0, 0, 0, 0, 0, 0, 0, 1, 1, 1, 1, 2, 2, 2, 2, 3, 3, 3, 3, 4, 4, 4, 4, 5, 5, 5, 5, 0, 0, 0]

  const DIST_BASE: seq<nat> := [
    1, 2, 3, 4, 5, 7, 9, 13, 17, 25, 33, 49, 65, 97, 129, 193, 257, 385, 513, 769,
    1025, 1537, 2049, 3073, 4097, 6145, 8193, 12289, 16385, 24577, 0, 0]

  const DIST_EXTRA: seq<nat> := [
    0, 0, 0, 0, 1, 1, 2, 2, 3, 3, 4, 4, 5, 5, 6, 6, 7, 7, 8, 8, 9, 9, 10, 10, 11, 11, 12, 12, 13, 13, 0, 0]

  function LengthRange(i: nat): nat {
    if i < 8 then 3 + i
    else if i < 12 then 11 + 2 * (i - 8)
    else if i < 16 then 19 + 4 * (i - 12)
    else if i < 20 then 35 + 8 * (i - 16)
    else if i < 24 then 67 + 16 * (i - 20)
    else if i < 28 then 131 + 32 * (i - 24)
    else if i == 28 then 258
    else 0
  }

  function DistRange(d: nat): nat {
    if d < 4 then 1 + d
    else if d < 6 then 5 + 2 * (d - 4)
    else if d < 8 then 9 + 4 * (d - 6)
    else if d < 10 then 17 + 8 * (d - 8)
    else if d < 12 then 33 + 16 * (d - 10)
    else if d < 14 then 65 + 32 * (d - 12)
    else if d < 16 then 129 + 64 * (d - 14)
    else if d < 18 then 257 + 128 * (d - 16)
    else if d < 20 then 513 + 256 * (d - 18)
    else if d < 22 then 1025 + 512 * (d - 20)
    else if d < 24 then 2049 + 1024 * (d - 22)
    else if d < 26 then 4097 + 2048 * (d - 24)
    else if d < 28 then 8193 + 4096 * (d - 26)
    else if d < 30 then 16385 + 8192 * (d - 28)
    else 0
  }

  lemma SmallPowers()
    ensures Pow2(0) == 1 && Pow2(1) == 2 && Pow2(2) == 4 && Pow2(3) == 8 && Pow2(4) == 16
    ensures Pow2(5) == 32 && Pow2(6) == 64 && Pow2(7) == 128 && Pow2(8) == 256 && Pow2(9) == 512
    ensures Pow2(10) == 1024 && Pow2(11) == 2048 && Pow2(12) == 4096 && Pow2(13) == 8192
  {
  }

  lemma RangesAdjacent(i: nat)
    ensures i < 27 ==> LengthRange(i + 1) == LengthRange(i) + Pow2(LengthExtra(i))
    ensures i < 29 ==> DistRange(i + 1) == DistRange(i) + Pow2(DistExtra(i))
  {
    SmallPowers();
  }

  lemma {:induction false} LengthBaseRange(i: nat)
    requires i < 28
    ensures LengthBase(i) == LengthRange(i)
  {
    if i > 0 {
      LengthBaseRange(i - 1);
      RangesAdjacent(i - 1);
    }
  }

  lemma {:induction false} DistBaseRange(d: nat)
    requires d < 30
    ensures DistBase(d) == DistRange(d)
  {
    if d > 0 {
      DistBaseRange(d - 1);
      RangesAdjacent(d - 1);
    }
  }

  // The tables are those of section 3.2.5 of RFC 1951.
  lemma LengthTable(i: nat)
    requires i < 31
    ensures LENGTH_BASE[i] == LengthBase(i) && LENGTH_EXTRA[i] == LengthExtra(i)
  {
    if i < 28 { LengthBaseRange(i); }
    LengthRangeTable(i);
  }

  lemma LengthRangeTable(i: nat)
    requires i < 31
    ensures LENGTH_BASE[i] == LengthRange(i) && LENGTH_EXTRA[i] == LengthExtra(i)
  {
    hide LengthRange, LengthExtra;
    LengthBases(i);
    LengthExtras(i);
  }

  lemma LengthBases(i: nat)
    requires i < 31
    ensures LENGTH_BASE[i] == LengthRange(i)
  {
  }

  lemma LengthExtras(i: nat)
    requires i < 31
    ensures LENGTH_EXTRA[i] == LengthExtra(i)
  {
  }

  lemma LengthBound(i: nat)
    requires i < 31
    ensures LengthBase(i) + Pow2(LengthExtra(i)) <= 259
  {
    hide LengthRange, Pow2;
    if i < 28 {
      LengthBaseRange(i);
      LengthRangeBound(i);
    } else {
      assert LengthExtra(i) == 0;
      assert LengthBase(i) <= 258;
      SmallPowers();
    }
  }

  lemma LengthRangeBound(i: nat)
    requires i < 28
    ensures LengthRange(i) + Pow2(LengthExtra(i)) <= 259
  {
    hide LengthBase;
    SmallPowers();
  }

  lemma DistTable(d: nat)
    requires d < 32
    ensures DIST_BASE[d] == DistBase(d) && DIST_EXTRA[d] == DistExtra(d)
  {
    if d < 30 { DistBaseRange(d); }
    DistRangeTable(d);
  }

  lemma DistRangeTable(d: nat)
    requires d < 32
    ensures DIST_BASE[d] == DistRange(d) && DIST_EXTRA[d] == DistExtra(d)
  {
    hide DistRange, DistExtra;
    if d < 16 { NearBases(d); } else { FarBases(d); }
    DistExtras(d);
  }

  lemma NearBases(d: nat)
    requires d < 16
    ensures DIST_BASE[d] == DistRange(d)
  {
  }

  lemma FarBases(d: nat)
    requires 16 <= d < 32
    ensures DIST_BASE[d] == DistRange(d)
  {
  }

  lemma DistExtras(d: nat)
    requires d < 32
    ensures DIST_EXTRA[d] == DistExtra(d)
  {
  }
}
