/**
  Setting up a file system from its image: axfs_do_fill_super, as far as reading files
  depends on it.
 */
module Mount {
  import opened Bits
  import opened Media
  import opened ByteTable
  import opened ReadPage

  // Where the super block says that the descriptors are.
  datatype Offsets = Offsets(
    xip: nat,
    compressed: nat,
    byteAligned: nat,
    nodeType: nat,
    nodeIndex: nat,
    cnodeOffset: nat,
    cnodeIndex: nat,
    banodeOffset: nat,
    cblockOffset: nat,
    inodeFileSize: nat,
    inodeArrayIndex: nat)

  // ------------------------------------------------------------ what a descriptor says

  function StartOf(image: seq<byte>, at: nat): nat
    requires at + 40 <= |image|
  {
    Be64(image, at, 8)
  }

  function SizeOf(image: seq<byte>, at: nat): nat
    requires at + 40 <= |image|
  {
    Be64(image, at + 8, 8)
  }

  function DepthOf(image: seq<byte>, at: nat): byte
    requires at + 40 <= |image|
  {
    image[at + 32]
  }

  // The descriptor of a region that is stored as it is.
  ghost predicate Described(image: seq<byte>, at: nat) {
    at + 40 <= |image| && StartOf(image, at) + SizeOf(image, at) <= |image| && Be64(image, at + 16, 8) == 0
  }

  ghost function RegionData(image: seq<byte>, at: nat): (r: seq<byte>)
    requires Described(image, at)
    ensures |r| == SizeOf(image, at)
  {
    image[StartOf(image, at)..StartOf(image, at) + SizeOf(image, at)]
  }

  // The descriptor of a table, with no more planes than there are pointers for them.
  ghost predicate TableDescribed(image: seq<byte>, at: nat, pointers: nat) {
    Described(image, at) && (SizeOf(image, at) > 0 ==> 0 < DepthOf(image, at) <= pointers)
  }

  ghost predicate AllDescribed(image: seq<byte>, o: Offsets) {
    && Described(image, o.xip) && Described(image, o.compressed) && Described(image, o.byteAligned)
    && TableDescribed(image, o.nodeType, 1) && TableDescribed(image, o.nodeIndex, 8)
    && TableDescribed(image, o.cnodeOffset, 4) && TableDescribed(image, o.cnodeIndex, 8)
    && TableDescribed(image, o.banodeOffset, 8) && TableDescribed(image, o.cblockOffset, 8)
    && TableDescribed(image, o.inodeFileSize, 8) && TableDescribed(image, o.inodeArrayIndex, 8)
  }

  // The planes point into memory that starts with the table.
  ghost predicate PlanesOf(t: Table, image: seq<byte>, at: nat)
    requires TableDescribed(image, at, 8)
  {
    exists memory: seq<byte> ::
      RegionData(image, at) <= memory && t == Planes(memory, SizeOf(image, at), DepthOf(image, at))
  }

  // ------------------------------------------------------------ setting up

  // A region object for the descriptor at `at`.
  method SetUp(store: Store, at: nat, forceVa: bool) returns (region: Region)
    requires store.Valid() && Described(store.image, at)
    ensures fresh(region) && region.Ready(store) && region.Describes(store.image, at)
    ensures forceVa && region.size > 0 ==> region.virt.Some? && |region.virt.value| >= region.size
  {
    hide Be64;
    region := new Region();
    var err := region.DoFillDataPtrs(store, at, forceVa);
  }

  // The plane pointers of a table.
  method SetUpTable(store: Store, at: nat) returns (t: Table)
    requires store.Valid() && TableDescribed(store.image, at, 8)
    ensures |t| == 8 && PlanesOf(t, store.image, at)
  {
    hide Be64, Planes;
    var region := SetUp(store, at, true);
    var memory := if region.virt.Some? then region.virt.value else [];
    assert RegionData(store.image, at) <= memory by { MemoryStarts(store, region, at); }
    var planes := FillMetadataPtrs(memory, region.size, region.tableByteDepth);
    t := planes[..];
    assert t == Planes(memory, SizeOf(store.image, at), DepthOf(store.image, at));
  }

  lemma MemoryStarts(store: Store, region: Region, at: nat)
    requires store.Valid() && Described(store.image, at) && region.Ready(store) && region.Describes(store.image, at)
    requires region.size > 0 ==> region.virt.Some? && |region.virt.value| >= region.size
    ensures RegionData(store.image, at) <= if region.virt.Some? then region.virt.value else []
  {
    hide Be64;
    if region.size > 0 {
      assert region.virt.value[..region.size] == RegionData(store.image, at);
    }
  }

  // The node types, which are one plane.
  function FirstPlane(t: Table): seq<byte> {
    if |t| > 0 && t[0].Some? then t[0].value else []
  }

  // The metadata tables of an image.
  ghost predicate MetadataFrom(md: Metadata, image: seq<byte>, o: Offsets)
    requires AllDescribed(image, o)
  {
    && (exists t: Table :: PlanesOf(t, image, o.nodeType) && md.nodeType == FirstPlane(t))
    && PlanesOf(md.nodeIndex, image, o.nodeIndex) && PlanesOf(md.cnodeOffset, image, o.cnodeOffset)
    && PlanesOf(md.cnodeIndex, image, o.cnodeIndex) && PlanesOf(md.banodeOffset, image, o.banodeOffset)
    && PlanesOf(md.cblockOffset, image, o.cblockOffset) && PlanesOf(md.inodeFileSize, image, o.inodeFileSize)
    && PlanesOf(md.inodeArrayIndex, image, o.inodeArrayIndex)
  }

  // The state of a file system that has been set up from its image.
  ghost predicate MountedFrom(a: Axfs, o: Offsets)
    reads a.xip, a.compressed, a.byteAligned
  {
    && AllDescribed(a.store.image, o) && MetadataFrom(a.md, a.store.image, o)
    && a.xip.Describes(a.store.image, o.xip) && a.compressed.Describes(a.store.image, o.compressed)
    && a.byteAligned.Describes(a.store.image, o.byteAligned)
  }

  method FillMetadata(store: Store, o: Offsets) returns (md: Metadata)
    requires store.Valid() && AllDescribed(store.image, o)
    ensures MetadataFrom(md, store.image, o)
  {
    hide Be64, Planes, Described, PlanesOf;
    var nodeType := SetUpTable(store, o.nodeType);
    var nodeIndex := SetUpTable(store, o.nodeIndex);
    var cnodeOffset := SetUpTable(store, o.cnodeOffset);
    var cnodeIndex := SetUpTable(store, o.cnodeIndex);
    var banodeOffset := SetUpTable(store, o.banodeOffset);
    var cblockOffset := SetUpTable(store, o.cblockOffset);
    var inodeFileSize := SetUpTable(store, o.inodeFileSize);
    var inodeArrayIndex := SetUpTable(store, o.inodeArrayIndex);
    md := Metadata(FirstPlane(nodeType), nodeIndex, cnodeOffset, cnodeIndex, banodeOffset, cblockOffset,
                   inodeFileSize, inodeArrayIndex);
  }

  method FillSuper(store: Store, o: Offsets, cblockSize: nat) returns (a: Axfs)
    requires store.Valid() && AllDescribed(store.image, o)
    ensures fresh(a) && fresh(a.cblock) && fresh(a.scratch)
    ensures a.Valid() && a.store == store && a.cblockSize == cblockSize && MountedFrom(a, o)
  {
    hide Be64, Planes, PlanesOf, MetadataFrom;
    var md := FillMetadata(store, o);
    var xip := SetUp(store, o.xip, true);
    var compressed := SetUp(store, o.compressed, false);
    var byteAligned := SetUp(store, o.byteAligned, false);
    a := new Axfs(store, md, xip, compressed, byteAligned, cblockSize);
  }
}
