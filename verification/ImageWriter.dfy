/**
  Writing an image as bytes: the descriptors of its regions, their data, and tables of
  numbers; and what setting up a file system reads back from them.
 */
module ImageWriter {
  import opened Bits
  import opened Canonical
  import opened Media
  import opened ByteTable
  import opened ReadPage
  import opened Mount

  // ------------------------------------------------------------ regions and descriptors

  datatype RegionSpec = RegionSpec(
    stored: seq<byte>,
    size: nat,
    compressedSize: nat,
    maxIndex: nat,
    depth: byte,
    incore: byte)

  // The number v in n bytes, highest first.
  function Be64Bytes(v: nat, n: nat): (r: seq<byte>)
    ensures |r| == n
    decreases n, v
  {
    if n == 0 then [] else Be64Bytes(v / 256, n - 1) + [v % 256]
  }

  lemma {:induction false} ReadBe64(bytes: seq<byte>, at: nat, v: nat, n: nat)
    requires at + n <= |bytes| && bytes[at..at + n] == Be64Bytes(v, n) && v < Pow2(8 * n)
    ensures Be64(bytes, at, n) == v
    decreases n
  {
    if n > 0 {
      var m: nat := 8 * (n - 1);
      assert Pow2(m + 8) == 256 * Pow2(m) by { ShlPow2(m, 8); ShlEight(Pow2(m), 8); }
      assert bytes[at..at + n - 1] == bytes[at..at + n][..n - 1] == Be64Bytes(v / 256, n - 1);
      ReadBe64(bytes, at, v / 256, n - 1);
      assert bytes[at + n - 1] == bytes[at..at + n][n - 1];
    }
  }

  function DescriptorBytes(start: nat, r: RegionSpec): (d: seq<byte>)
    ensures |d| == 40
  {
    Be64Bytes(start, 8) + Be64Bytes(r.size, 8) + Be64Bytes(r.compressedSize, 8) + Be64Bytes(r.maxIndex, 8)
    + [r.depth, r.incore, 0, 0, 0, 0, 0, 0]
  }

  function Datas(rs: seq<RegionSpec>): seq<byte> {
    if rs == [] then [] else Datas(rs[..|rs| - 1]) + rs[|rs| - 1].stored
  }

  // The descriptors of regions that lie one behind the other from `start` on.
  function Descriptors(rs: seq<RegionSpec>, start: nat): (r: seq<byte>)
    ensures |r| == 40 * |rs|
  {
    if rs == [] then []
    else
      var front := rs[..|rs| - 1];
      Descriptors(front, start) + DescriptorBytes(start + |Datas(front)|, rs[|rs| - 1])
  }

  // The super block, the descriptors, and the regions.
  function Image(super: seq<byte>, rs: seq<RegionSpec>): seq<byte> {
    super + Descriptors(rs, |super| + 40 * |rs|) + Datas(rs)
  }

  function RegionStart(super: seq<byte>, rs: seq<RegionSpec>, i: nat): nat
    requires i <= |rs|
  {
    |super| + 40 * |rs| + |Datas(rs[..i])|
  }

  lemma {:induction false} DescriptorInList(rs: seq<RegionSpec>, start: nat, i: nat)
    requires i < |rs|
    ensures Descriptors(rs, start)[40 * i..40 * i + 40] == DescriptorBytes(start + |Datas(rs[..i])|, rs[i])
    decreases |rs|
  {
    hide DescriptorBytes;
    var front := rs[..|rs| - 1];
    if i == |front| {
      assert rs[..i] == front;
    } else {
      DescriptorInList(front, start, i);
      assert front[..i] == rs[..i];
    }
  }

  lemma {:induction false} DataInList(rs: seq<RegionSpec>, i: nat)
    requires i < |rs|
    ensures var from := |Datas(rs[..i])|;
      from + |rs[i].stored| <= |Datas(rs)| && Datas(rs)[from..from + |rs[i].stored|] == rs[i].stored
    decreases |rs|
  {
    var front := rs[..|rs| - 1];
    if i == |front| {
      assert rs[..i] == front;
    } else {
      DataInList(front, i);
      assert front[..i] == rs[..i];
    }
  }

  lemma PartOf(a: seq<byte>, b: seq<byte>, c: seq<byte>, lo: nat, hi: nat)
    ensures lo <= hi <= |b| ==> (a + b + c)[|a| + lo..|a| + hi] == b[lo..hi]
    ensures lo <= hi <= |c| ==> (a + b + c)[|a| + |b| + lo..|a| + |b| + hi] == c[lo..hi]
  {
  }

  // Region i of an image: its descriptor and its data.
  lemma RegionInImage(super: seq<byte>, rs: seq<RegionSpec>, i: nat)
    requires i < |rs|
    ensures var image, at, from := Image(super, rs), |super| + 40 * i, RegionStart(super, rs, i);
      && at + 40 <= |image| && image[at..at + 40] == DescriptorBytes(from, rs[i])
      && from + |rs[i].stored| <= |image| && image[from..from + |rs[i].stored|] == rs[i].stored
  {
    hide Descriptors, Datas, DescriptorBytes;
    var start := |super| + 40 * |rs|;
    DescriptorInList(rs, start, i);
    PartOf(super, Descriptors(rs, start), Datas(rs), 40 * i, 40 * i + 40);
    DataInList(rs, i);
    var from := |Datas(rs[..i])|;
    PartOf(super, Descriptors(rs, start), Datas(rs), from, from + |rs[i].stored|);
  }

  lemma DescriptorParts(start: nat, r: RegionSpec)
    ensures var d := DescriptorBytes(start, r);
      && d[0..8] == Be64Bytes(start, 8) && d[8..16] == Be64Bytes(r.size, 8)
      && d[16..24] == Be64Bytes(r.compressedSize, 8) && d[24..32] == Be64Bytes(r.maxIndex, 8)
      && d[32] == r.depth && d[33] == r.incore
  {
    hide Be64Bytes;
  }

  // What reading the descriptor gives.
  lemma DescriptorRead(image: seq<byte>, at: nat, start: nat, r: RegionSpec)
    requires at + 40 <= |image| && image[at..at + 40] == DescriptorBytes(start, r)
    requires start < U64 && r.size < U64 && r.compressedSize < U64 && r.maxIndex < U64
    ensures StartOf(image, at) == start && SizeOf(image, at) == r.size
    ensures Be64(image, at + 16, 8) == r.compressedSize && Be64(image, at + 24, 8) == r.maxIndex
    ensures DepthOf(image, at) == r.depth && image[at + 33] == r.incore
  {
    hide Be64, Be64Bytes, DescriptorBytes, Pow2;
    var d := image[at..at + 40];
    DescriptorParts(start, r);
    DescriptorAt(image, at);
    var n: nat := 8;
    U64IsPow2(n);
    ReadBe64(d, 0, start, n);
    ReadBe64(d, 8, r.size, n);
    ReadBe64(d, 16, r.compressedSize, n);
    ReadBe64(d, 24, r.maxIndex, n);
  }

  lemma {:induction false} BytesOfPow2(n: nat)
    ensures Pow2(8 * n + 8) == 256 * Pow2(8 * n)
  {
    ShlPow2(8 * n, 8);
    ShlEight(Pow2(8 * n), 8);
  }

  lemma U64IsPow2(n: nat)
    requires n == 8
    ensures Pow2(8 * n) == U64
  {
    hide Pow2;
    BytesOfPow2(n - 1);
    BytesOfPow2(n - 2);
    BytesOfPow2(n - 3);
    BytesOfPow2(n - 4);
    Pow2Values();
  }

  // A region that is stored as it is.
  predicate Plain(r: RegionSpec) {
    r.size == |r.stored| && r.compressedSize == 0 && r.maxIndex < U64
  }

  lemma PlainCarried(super: seq<byte>, rs: seq<RegionSpec>, i: nat)
    requires i < |rs| && Plain(rs[i]) && |Image(super, rs)| < U64
    ensures var image, at := Image(super, rs), |super| + 40 * i;
      && Described(image, at) && RegionData(image, at) == rs[i].stored && DepthOf(image, at) == rs[i].depth
  {
    hide Image, RegionStart, DescriptorBytes, Be64;
    RegionInImage(super, rs, i);
    DescriptorRead(Image(super, rs), |super| + 40 * i, RegionStart(super, rs, i), rs[i]);
  }

  // ------------------------------------------------------------ tables

  function TableSpec(values: seq<nat>, depth: byte, incore: byte): (r: RegionSpec) {
    RegionSpec(Written(values, depth), depth * |values|, 0, |values|, depth, incore)
  }

  ghost predicate FitsDepth(values: seq<nat>, depth: byte, pointers: nat) {
    && |values| < U64 && 0 < depth <= pointers
    && forall i :: 0 <= i < |values| ==> values[i] < Pow2(8 * depth)
  }

  // The table has these values.
  ghost predicate TableIs(t: Table, values: seq<nat>) {
    forall i :: 0 <= i < |values| ==> Covers(t, i) && Stitch(t, i) == values[i]
  }

  // A table in an image, with no more planes than `pointers`.
  lemma TableCarried(super: seq<byte>, rs: seq<RegionSpec>, i: nat, values: seq<nat>, depth: byte, incore: byte,
                     pointers: nat)
    requires i < |rs| && rs[i] == TableSpec(values, depth, incore) && FitsDepth(values, depth, pointers)
    requires |Image(super, rs)| < U64
    ensures TableDescribed(Image(super, rs), |super| + 40 * i, pointers)
  {
    hide Image, Described, RegionData, DepthOf, SizeOf, Written;
    PlainCarried(super, rs, i);
    TableSized(super, rs, i);
  }

  // Its planes read as its values.
  lemma TableReads(super: seq<byte>, rs: seq<RegionSpec>, i: nat, values: seq<nat>, depth: byte, incore: byte, t: Table)
    requires i < |rs| && rs[i] == TableSpec(values, depth, incore) && FitsDepth(values, depth, 8)
    requires |Image(super, rs)| < U64
    requires TableDescribed(Image(super, rs), |super| + 40 * i, 8)
    requires PlanesOf(t, Image(super, rs), |super| + 40 * i)
    ensures TableIs(t, values)
  {
    hide Image, Described, RegionData, DepthOf, SizeOf, Written, Planes, Covers, Stitch, Pow2;
    var image, at := Image(super, rs), |super| + 40 * i;
    PlainCarried(super, rs, i);
    TableSized(super, rs, i);
    var memory: seq<byte> :|
      RegionData(image, at) <= memory && t == Planes(memory, SizeOf(image, at), DepthOf(image, at));
    forall k | 0 <= k < |values| ensures Covers(t, k) && Stitch(t, k) == values[k] {
      TableRoundTrip(values, depth, memory, k);
    }
  }

  function DataSpec(data: seq<byte>, depth: byte, incore: byte): (r: RegionSpec)
    ensures Plain(r)
  {
    RegionSpec(data, |data|, 0, 0, depth, incore)
  }

  // A table of single bytes.
  lemma TypesCarried(super: seq<byte>, rs: seq<RegionSpec>, i: nat, types: seq<byte>, incore: byte)
    requires i < |rs| && rs[i] == DataSpec(types, 1, incore) && |Image(super, rs)| < U64
    ensures TableDescribed(Image(super, rs), |super| + 40 * i, 1)
  {
    hide Image, Described, RegionData, DepthOf, SizeOf;
    PlainCarried(super, rs, i);
    TableSized(super, rs, i);
  }

  lemma TypesRead(super: seq<byte>, rs: seq<RegionSpec>, i: nat, types: seq<byte>, incore: byte, t: Table)
    requires i < |rs| && rs[i] == DataSpec(types, 1, incore) && |Image(super, rs)| < U64
    requires TableDescribed(Image(super, rs), |super| + 40 * i, 8)
    requires PlanesOf(t, Image(super, rs), |super| + 40 * i)
    ensures types <= FirstPlane(t)
  {
    hide Image, Described, RegionData, DepthOf, SizeOf;
    var image, at := Image(super, rs), |super| + 40 * i;
    PlainCarried(super, rs, i);
    TableSized(super, rs, i);
    var memory: seq<byte> :|
      RegionData(image, at) <= memory && t == Planes(memory, SizeOf(image, at), DepthOf(image, at));
    if types != [] {
      assert t[0] == Some(PlaneFrom(memory, |types|, 1, 0));
      assert memory[0..] == memory;
    }
  }

  // A region object for such a descriptor has the region's data.
  ghost predicate Holding(store: Store, region: Region, data: seq<byte>)
    reads region
  {
    && region.size == |data| && region.fsoffset + |data| <= |store.image|
    && store.image[region.fsoffset..region.fsoffset + |data|] == data
  }

  lemma RegionHolds(super: seq<byte>, rs: seq<RegionSpec>, i: nat, store: Store, region: Region)
    requires i < |rs| && Plain(rs[i]) && |Image(super, rs)| < U64 && store.image == Image(super, rs)
    requires |super| + 40 * i + 40 <= |store.image| && region.Describes(store.image, |super| + 40 * i)
    ensures Holding(store, region, rs[i].stored)
  {
    hide Image, RegionStart, DescriptorBytes, Be64;
    RegionInImage(super, rs, i);
    DescriptorRead(Image(super, rs), |super| + 40 * i, RegionStart(super, rs, i), rs[i]);
  }

  lemma TableSized(super: seq<byte>, rs: seq<RegionSpec>, i: nat)
    requires i < |rs| && Plain(rs[i]) && |Image(super, rs)| < U64
    ensures |super| + 40 * i + 40 <= |Image(super, rs)|
    ensures SizeOf(Image(super, rs), |super| + 40 * i) == |rs[i].stored|
  {
    hide Image, RegionStart, DescriptorBytes, Be64;
    RegionInImage(super, rs, i);
    DescriptorRead(Image(super, rs), |super| + 40 * i, RegionStart(super, rs, i), rs[i]);
  }
}
