/**
  Tables of numbers stored as byte planes: plane i holds byte i of every entry, lowest
  byte first, and planes above the table's depth are missing.
 */
module ByteTable {
  import opened Bits
  import opened Canonical

  // The planes of a region of the given size, as pointers into the memory at its address
  // (axfs_do_fill_metadata_ptrs); the memory may go on behind the region.
  method FillMetadataPtrs(data: seq<byte>, size: nat, depth: nat) returns (planes: array<Option<seq<byte>>>)
    requires size > 0 ==> 0 < depth <= 8 && size <= |data|
    ensures fresh(planes) && planes.Length == 8
    ensures planes[..] == Planes(data, size, depth)
  {
    planes := new Option<seq<byte>>[8](_ => None);
    if size != 0 {
      var split := size / depth;
      for i := 0 to depth
        invariant forall k :: 0 <= k < 8 ==> planes[k] == if k < i then Some(PlaneFrom(data, size, depth, k)) else None
      {
        PlaneInside(size, depth, i);
        planes[i] := Some(data[i * split..]);
      }
    }
  }

  lemma PlaneInside(size: nat, depth: nat, i: nat)
    requires 0 < depth && i < depth
    ensures i * (size / depth) + size / depth <= size
  {
    var split := size / depth;
    assert size == split * depth + size % depth;
    MulLe(i + 1, depth, split);
  }

  lemma MulLe(a: nat, b: nat, c: nat)
    requires a <= b
    ensures a * c <= b * c
  {
  }

  // Plane k starts k times the number of entries into the table.
  function PlaneFrom(data: seq<byte>, size: nat, depth: nat, k: nat): (p: seq<byte>)
    requires 0 < depth && k < depth && size <= |data|
    ensures |p| >= size / depth
  {
    PlaneInside(size, depth, k);
    data[k * (size / depth)..]
  }

  function Planes(data: seq<byte>, size: nat, depth: nat): (r: seq<Option<seq<byte>>>)
    requires size > 0 ==> 0 < depth <= 8 && size <= |data|
    ensures |r| == 8
  {
    if size == 0 then seq(8, k => None)
    else seq(8, k requires 0 <= k => if k < depth then Some(PlaneFrom(data, size, depth, k)) else None)
  }

  // Every plane that is present has an entry at index.
  predicate Covers(planes: seq<Option<seq<byte>>>, index: nat) {
    forall k :: 0 <= k < |planes| && planes[k].Some? ==> index < |planes[k].value|
  }

  // AXFS_U64_STITCH and AXFS_U32_STITCH: the sum over planes k, k+1, .. of each plane's
  // byte shifted to its place.
  function StitchFrom(planes: seq<Option<seq<byte>>>, index: nat, k: nat): nat
    requires k <= |planes| && Covers(planes, index)
    decreases |planes| - k
  {
    if k == |planes| then 0
    else (if planes[k].None? then 0 else Shl(planes[k].value[index], 8 * k)) + StitchFrom(planes, index, k + 1)
  }

  function Stitch(planes: seq<Option<seq<byte>>>, index: nat): nat
    requires Covers(planes, index)
  {
    StitchFrom(planes, index, 0)
  }

  // The number with these bytes, lowest first; missing planes count as zeros.
  function Digits(planes: seq<Option<seq<byte>>>, index: nat, k: nat): nat
    requires k <= |planes| && Covers(planes, index)
    decreases |planes| - k
  {
    if k == |planes| then 0
    else (if planes[k].None? then 0 else planes[k].value[index]) + 256 * Digits(planes, index, k + 1)
  }

  // Plane k is the byte k of the number that is stitched together.
  lemma {:induction false} StitchIsDigits(planes: seq<Option<seq<byte>>>, index: nat, k: nat)
    requires k <= |planes| && Covers(planes, index)
    ensures StitchFrom(planes, index, k) == Shl(Digits(planes, index, k), 8 * k)
    decreases |planes| - k
  {
    if k == |planes| {
      ShlZero(8 * k);
    } else {
      StitchIsDigits(planes, index, k + 1);
      var digit, rest := if planes[k].None? then 0 else planes[k].value[index], Digits(planes, index, k + 1);
      ShlAdd(digit, 256 * rest, 8 * k);
      ShlUp(rest, 8 * k, 8);
      ShlZero(8 * k);
    }
  }

  lemma ShlUp(x: nat, m: nat, n: nat)
    requires n == 8
    ensures Shl(256 * x, m) == Shl(x, m + n)
  {
    ShlEight(x, n);
    ShlShl(x, n, m);
  }

  lemma StitchedNumber(planes: seq<Option<seq<byte>>>, index: nat)
    requires Covers(planes, index)
    ensures Stitch(planes, index) == Digits(planes, index, 0)
  {
    StitchIsDigits(planes, index, 0);
  }

  // The user-space reader (axfs_bytetable_stitch) computes the same number with a loop.
  method BytetableStitch(data: seq<byte>, depth: nat, index: nat) returns (output: nat)
    requires 0 < depth <= 8 && index < |data| / depth
    ensures Covers(Planes(data, |data|, depth), index)
    ensures output == Stitch(Planes(data, |data|, depth), index)
  {
    AllCovered(data, depth, index);
    hide Shl, StitchFrom, Planes, Covers;
    ghost var planes := Planes(data, |data|, depth);
    var split := |data| / depth;
    output := 0;
    for i := 0 to depth
      invariant output + StitchFrom(planes, index, i) == Stitch(planes, index)
    {
      var j := index + i * split;
      assert j < |data| by { PlaneInside(|data|, depth, i); }
      StitchStep(data, depth, index, i, j);
      output := output + Shl(data[j], 8 * i);
    }
    PlanesEnd(data, depth);
    NothingAbove(planes, index, depth);
  }

  lemma AllCovered(data: seq<byte>, depth: nat, index: nat)
    requires 0 < depth <= 8 && index < |data| / depth
    ensures Covers(Planes(data, |data|, depth), index)
  {
  }

  lemma PlanesEnd(data: seq<byte>, depth: nat)
    requires 0 < depth <= 8
    ensures forall k :: depth <= k < 8 ==> Planes(data, |data|, depth)[k].None?
  {
  }

  // The next plane's byte is the one `split` further on.
  lemma StitchStep(data: seq<byte>, depth: nat, index: nat, i: nat, j: nat)
    requires 0 < depth <= 8 && index < |data| / depth && i < depth
    requires j == index + i * (|data| / depth) < |data| && Covers(Planes(data, |data|, depth), index)
    ensures var planes := Planes(data, |data|, depth);
      StitchFrom(planes, index, i) == Shl(data[j], 8 * i) + StitchFrom(planes, index, i + 1)
  {
    hide Shl;
    PlaneInside(|data|, depth, i);
    assert PlaneFrom(data, |data|, depth, i)[index] == data[j];
  }

  lemma {:induction false} NothingAbove(planes: seq<Option<seq<byte>>>, index: nat, k: nat)
    requires k <= |planes| && Covers(planes, index)
    requires forall j :: k <= j < |planes| ==> planes[j].None?
    ensures StitchFrom(planes, index, k) == 0
    decreases |planes| - k
  {
    if k < |planes| { NothingAbove(planes, index, k + 1); }
  }

  // ------------------------------------------------------------ writing a table

  // Byte k of every value.
  function Plane(values: seq<nat>, k: nat): (p: seq<byte>)
    ensures |p| == |values|
  {
    seq(|values|, j requires 0 <= j < |values| => Shr(values[j], 8 * k) % 256)
  }

  function Written(values: seq<nat>, depth: nat): (data: seq<byte>)
    ensures |data| == depth * |values|
  {
    if depth == 0 then [] else Written(values, depth - 1) + Plane(values, depth - 1)
  }

  lemma {:induction false} PlaneOfWritten(values: seq<nat>, depth: nat, k: nat)
    requires k < depth
    ensures k * |values| + |values| <= depth * |values|
    ensures Written(values, depth)[k * |values|..k * |values| + |values|] == Plane(values, k)
    decreases depth
  {
    if k < depth - 1 {
      PlaneOfWritten(values, depth - 1, k);
    }
  }

  lemma {:induction false} StitchWritten(values: seq<nat>, depth: nat, data: seq<byte>,
                                         planes: seq<Option<seq<byte>>>, index: nat, k: nat)
    requires 0 < depth <= 8 && index < |values| && values[index] < Pow2(8 * depth)
    requires Written(values, depth) <= data && |Written(values, depth)| / depth == |values|
    requires |Written(values, depth)| > 0 && planes == Planes(data, |Written(values, depth)|, depth)
    requires k <= 8 && Covers(planes, index)
    ensures StitchFrom(planes, index, k) == Shl(Shr(values[index], 8 * k), 8 * k)
    decreases 8 - k
  {
    hide Written, Plane;
    var v := values[index];
    if k < depth {
      PlaneOfWritten(values, depth, k);
      var plane := Plane(values, k);
      PlaneInData(data, Written(values, depth), k * |values|, |values|);
      assert planes[k].value[index] == plane[index] == Shr(v, 8 * k) % 256 by { PlaneAt(values, k, index); }
      StitchWritten(values, depth, data, planes, index, k + 1);
      JoinByte(v, 8 * k, 8);
    } else {
      NothingAbove(planes, index, k);
      ShrVanishes(v, 8 * depth, 8 * k);
      ShlZero(8 * k);
    }
  }

  lemma PlaneInData(data: seq<byte>, table: seq<byte>, at: nat, n: nat)
    requires table <= data && at + n <= |table|
    ensures data[at..][..n] == table[at..at + n]
  {
    assert data[..|table|][at..at + n] == table[at..at + n];
  }

  lemma PlaneAt(values: seq<nat>, k: nat, index: nat)
    requires index < |values|
    ensures Plane(values, k)[index] == Shr(values[index], 8 * k) % 256
  {
  }

  lemma {:induction false} ShrVanishes(v: nat, m: nat, n: nat)
    requires v < Pow2(m) && m <= n
    ensures Shr(v, n) == 0
  {
    Pow2Mono(m, n);
    ShlPow2(0, n);
    ShrBelow(v, 1, n);
  }

  lemma {:induction false} ShrAdd(v: nat, m: nat, n: nat)
    ensures Shr(v, m + n) == Shr(Shr(v, m), n)
    decreases m
  {
    if m > 0 { ShrAdd(v / 2, m - 1, n); }
  }

  // The byte at bit m, and what lies above it.
  lemma JoinByte(v: nat, m: nat, n: nat)
    requires n == 8
    ensures Shl(Shr(v, m) % 256, m) + Shl(Shr(v, m + n), m + n) == Shl(Shr(v, m), m)
  {
    var x := Shr(v, m);
    ShrAdd(v, m, n);
    EightDown(x, n);
    ShlShl(x / 256, n, m);
    ShlEight(x / 256, n);
    ShlAdd(x % 256, 256 * (x / 256), m);
    assert x == x % 256 + 256 * (x / 256);
  }

  lemma EightDown(x: nat, n: nat)
    requires n == 8
    ensures Shr(x, n) == x / 256
  {
    ShrBelow(x, x / 256 + 1, n);
    ShrBelow(x, x / 256, n);
    ShlEight(x / 256 + 1, n);
    ShlEight(x / 256, n);
  }

  // A table written with enough planes reads back every entry, wherever it lies in memory,
  // and no sum of planes exceeds 64 bits.
  lemma TableRoundTrip(values: seq<nat>, depth: nat, data: seq<byte>, index: nat)
    requires 0 < depth <= 8 && index < |values| && values[index] < Pow2(8 * depth)
    requires Written(values, depth) <= data
    ensures var planes := Planes(data, |Written(values, depth)|, depth);
      Covers(planes, index) && Stitch(planes, index) == values[index]
  {
    hide Written, Shl, Shr, StitchFrom;
    EntryCount(|values|, depth);
    MulLe(1, depth, |values|);
    var planes := Planes(data, |Written(values, depth)|, depth);
    StitchWritten(values, depth, data, planes, index, 0);
    NoShift(values[index]);
  }

  lemma NoShift(v: nat)
    ensures Shl(Shr(v, 0), 0) == v
  {
  }

  lemma EntryCount(n: nat, depth: nat)
    requires depth > 0
    ensures depth * n / depth == n
  {
    var x := depth * n;
    var q, r := x / depth, x % depth;
    assert x == q * depth + r;
    assert (n - q) * depth == r;
    if n - q >= 1 { MulLe(1, n - q, depth); } else if n - q <= -1 { MulLe(1, q - n, depth); }
  }
}
