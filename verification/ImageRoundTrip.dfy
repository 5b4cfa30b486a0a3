/**
  The round trip over whole images: files are written, the image is set up, and every page
  that is read is the page that was written.
 */
module ImageRoundTrip {
  import opened Bits
  import opened Media
  import opened ByteTable
  import opened ReadPage
  import opened Mount
  import opened ImageLayout
  import opened ImageWriter
  import opened Deflate
  import opened DeflateRoundTrip
  import opened Packing
  import opened Splicing

  datatype Depths = Depths(
    nodeIndex: byte,
    cnodeOffset: byte,
    cnodeIndex: byte,
    banodeOffset: byte,
    cblockOffset: byte,
    inodeFileSize: byte,
    inodeArrayIndex: byte)

  // What is written: files, a place for each of their pages, the compressed blocks, how many
  // bytes the entries of each table have, and which regions are to be copied to memory.
  datatype Plan = Plan(
    files: seq<seq<byte>>,
    places: seq<seq<Place>>,
    blocks: seq<Block>,
    cblockSize: nat,
    depths: Depths,
    incore: seq<byte>)

  ghost function Pages(plan: Plan): (r: seq<Page>)
    requires Placed(plan.files, plan.places)
    ensures Paged(r)
  {
    AllPages(plan.files, plan.places)
  }

  ghost function LayoutOf(plan: Plan): Layout
    requires Placed(plan.files, plan.places)
  {
    LaidOut(Pages(plan))
  }

  // n bytes of node a, which is byte-aligned, are not lost to the 32 bits in which the
  // length is kept (see ShareComplete).
  predicate Kept(l: Layout, a: nat, n: nat) {
    && a < |l.nodeIndex| && l.nodeIndex[a] < |l.banodeOffset| && l.banodeOffset[l.nodeIndex[a]] <= |l.aligned|
    && ByteAlignedShare(|l.aligned| - l.banodeOffset[l.nodeIndex[a]]) >= n
  }

  // A compressed page is found in its block, and a byte-aligned one is kept.
  ghost predicate PageOk(plan: Plan, l: Layout, a: nat, p: Page)
    requires BlocksFit(plan.blocks, plan.cblockSize)
  {
    match p.place
    case InXip => true
    case InAligned => Kept(l, a, |p.bytes|)
    case InBlock(c, o) =>
      c < |plan.blocks| && o <= |Content(plan.blocks[c])| && p.bytes <= Content(plan.blocks[c])[o..]
  }

  // The size of each file.
  ghost function FileSizes(files: seq<seq<byte>>): (r: seq<nat>)
    ensures |r| == |files|
  {
    seq(|files|, i requires 0 <= i < |files| => |files[i]|)
  }

  ghost predicate DepthsOk(plan: Plan, l: Layout)
    requires Placed(plan.files, plan.places) && BlocksFit(plan.blocks, plan.cblockSize)
  {
    var d := plan.depths;
    && FitsDepth(l.nodeIndex, d.nodeIndex, 8) && FitsDepth(l.cnodeOffset, d.cnodeOffset, 4)
    && FitsDepth(l.cnodeIndex, d.cnodeIndex, 8) && FitsDepth(l.banodeOffset, d.banodeOffset, 8)
    && FitsDepth(FormStarts(plan.blocks, plan.cblockSize), d.cblockOffset, 8)
    && FitsDepth(FileSizes(plan.files), d.inodeFileSize, 8)
    && FitsDepth(FirstPages(plan.files, plan.places), d.inodeArrayIndex, 8)
  }

  ghost predicate PlanOk(plan: Plan) {
    && Placed(plan.files, plan.places) && BlocksFit(plan.blocks, plan.cblockSize) && |plan.incore| == 11
    && |plan.blocks| < NO_BLOCK
    && DepthsOk(plan, LayoutOf(plan))
    && (forall a :: 0 <= a < |Pages(plan)| ==> PageOk(plan, LayoutOf(plan), a, Pages(plan)[a]))
  }

  // The eleven regions, in the order of Offsets.
  ghost function Specs(plan: Plan): (rs: seq<RegionSpec>)
    requires PlanOk(plan)
    ensures |rs| == 11
  {
    var l, d, c := LayoutOf(plan), plan.depths, plan.incore;
    [DataSpec(l.xip, 0, c[0]),
     DataSpec(Forms(plan.blocks, plan.cblockSize), 0, c[1]),
     DataSpec(l.aligned, 0, c[2]),
     DataSpec(l.nodeType, 1, c[3]),
     TableSpec(l.nodeIndex, d.nodeIndex, c[4]),
     TableSpec(l.cnodeOffset, d.cnodeOffset, c[5]),
     TableSpec(l.cnodeIndex, d.cnodeIndex, c[6]),
     TableSpec(l.banodeOffset, d.banodeOffset, c[7]),
     TableSpec(FormStarts(plan.blocks, plan.cblockSize), d.cblockOffset, c[8]),
     TableSpec(FileSizes(plan.files), d.inodeFileSize, c[9]),
     TableSpec(FirstPages(plan.files, plan.places), d.inodeArrayIndex, c[10])]
  }

  function OffsetsAfter(n: nat): Offsets {
    Offsets(n, n + 40, n + 80, n + 120, n + 160, n + 200, n + 240, n + 280, n + 320, n + 360, n + 400)
  }

  // ------------------------------------------------------------ what is loaded

  ghost predicate LayoutLoaded(md: Metadata, l: Layout) {
    && l.nodeType <= md.nodeType
    && TableIs(md.nodeIndex, l.nodeIndex) && TableIs(md.cnodeOffset, l.cnodeOffset)
    && TableIs(md.cnodeIndex, l.cnodeIndex) && TableIs(md.banodeOffset, l.banodeOffset)
  }

  ghost predicate TablesLoaded(md: Metadata, plan: Plan)
    requires PlanOk(plan)
  {
    && LayoutLoaded(md, LayoutOf(plan))
    && TableIs(md.cblockOffset, FormStarts(plan.blocks, plan.cblockSize))
    && TableIs(md.inodeFileSize, FileSizes(plan.files))
    && TableIs(md.inodeArrayIndex, FirstPages(plan.files, plan.places))
  }

  ghost predicate AllReady(a: Axfs)
    reads a.xip, a.compressed, a.byteAligned
  {
    a.store.Valid() && a.xip.Ready(a.store) && a.compressed.Ready(a.store) && a.byteAligned.Ready(a.store)
  }

  ghost predicate Loaded(a: Axfs, plan: Plan)
    requires PlanOk(plan)
    reads a.xip, a.compressed, a.byteAligned
  {
    && AllReady(a) && a.cblockSize == plan.cblockSize && TablesLoaded(a.md, plan)
    && Holding(a.store, a.xip, LayoutOf(plan).xip)
    && Holding(a.store, a.compressed, Forms(plan.blocks, plan.cblockSize))
    && Holding(a.store, a.byteAligned, LayoutOf(plan).aligned)
  }

  ghost predicate Carries(plan: Plan, image: seq<byte>, super: seq<byte>)
    requires PlanOk(plan)
  {
    image == Image(super, Specs(plan)) && |image| < U64
  }

  // The descriptors are in place.
  lemma DescriptorsInPlace(plan: Plan, image: seq<byte>, super: seq<byte>)
    requires PlanOk(plan) && Carries(plan, image, super)
    ensures AllDescribed(image, OffsetsAfter(|super|))
  {
    hide Image, Described, FitsDepth, LayoutOf, FormStarts, FirstPages, FileSizes, Forms, Placed, BlocksFit, PageOk;
    hide DataSpec, TableSpec, TableDescribed;
    var l, d, c, rs := LayoutOf(plan), plan.depths, plan.incore, Specs(plan);
    PlainCarried(super, rs, 0);
    PlainCarried(super, rs, 1);
    PlainCarried(super, rs, 2);
    TypesCarried(super, rs, 3, l.nodeType, c[3]);
    TableCarried(super, rs, 4, l.nodeIndex, d.nodeIndex, c[4], 8);
    TableCarried(super, rs, 5, l.cnodeOffset, d.cnodeOffset, c[5], 4);
    TableCarried(super, rs, 6, l.cnodeIndex, d.cnodeIndex, c[6], 8);
    TableCarried(super, rs, 7, l.banodeOffset, d.banodeOffset, c[7], 8);
    TableCarried(super, rs, 8, FormStarts(plan.blocks, plan.cblockSize), d.cblockOffset, c[8], 8);
    TableCarried(super, rs, 9, FileSizes(plan.files), d.inodeFileSize, c[9], 8);
    TableCarried(super, rs, 10, FirstPages(plan.files, plan.places), d.inodeArrayIndex, c[10], 8);
  }

  lemma AllTablesLoaded(md: Metadata, plan: Plan, image: seq<byte>, super: seq<byte>)
    requires PlanOk(plan) && Carries(plan, image, super)
    requires AllDescribed(image, OffsetsAfter(|super|)) && MetadataFrom(md, image, OffsetsAfter(|super|))
    ensures TablesLoaded(md, plan)
  {
    hide Image, Described, FitsDepth, LayoutOf, FormStarts, FirstPages, FileSizes, Forms, Placed, BlocksFit, PageOk;
    hide DataSpec, TableSpec, TableIs, PlanesOf, DepthOf, SizeOf;
    var l, d, c, rs := LayoutOf(plan), plan.depths, plan.incore, Specs(plan);
    var t: Table :| PlanesOf(t, image, |super| + 120) && md.nodeType == FirstPlane(t);
    TypesRead(super, rs, 3, l.nodeType, c[3], t);
    Deeper(l.cnodeOffset, d.cnodeOffset);
    TableReads(super, rs, 4, l.nodeIndex, d.nodeIndex, c[4], md.nodeIndex);
    TableReads(super, rs, 5, l.cnodeOffset, d.cnodeOffset, c[5], md.cnodeOffset);
    TableReads(super, rs, 6, l.cnodeIndex, d.cnodeIndex, c[6], md.cnodeIndex);
    TableReads(super, rs, 7, l.banodeOffset, d.banodeOffset, c[7], md.banodeOffset);
    TableReads(super, rs, 8, FormStarts(plan.blocks, plan.cblockSize), d.cblockOffset, c[8], md.cblockOffset);
    TableReads(super, rs, 9, FileSizes(plan.files), d.inodeFileSize, c[9], md.inodeFileSize);
    TableReads(super, rs, 10, FirstPages(plan.files, plan.places), d.inodeArrayIndex, c[10], md.inodeArrayIndex);
  }

  lemma RegionsLoaded(plan: Plan, super: seq<byte>, store: Store, xip: Region, compressed: Region, byteAligned: Region)
    requires PlanOk(plan) && Carries(plan, store.image, super) && |super| + 120 <= |store.image|
    requires xip.Describes(store.image, |super|) && compressed.Describes(store.image, |super| + 40)
    requires byteAligned.Describes(store.image, |super| + 80)
    ensures Holding(store, xip, LayoutOf(plan).xip)
    ensures Holding(store, compressed, Forms(plan.blocks, plan.cblockSize))
    ensures Holding(store, byteAligned, LayoutOf(plan).aligned)
  {
    hide Image, FitsDepth, LayoutOf, FormStarts, FirstPages, FileSizes, Forms, Placed, BlocksFit, PageOk, TableSpec;
    hide Holding;
    hide Region.Describes;
    var rs := Specs(plan);
    RegionHolds(super, rs, 0, store, xip);
    RegionHolds(super, rs, 1, store, compressed);
    RegionHolds(super, rs, 2, store, byteAligned);
  }

  // The tables and regions of a file system that has been set up are those of the plan.
  lemma AllLoaded(a: Axfs, plan: Plan, super: seq<byte>)
    requires PlanOk(plan) && Carries(plan, a.store.image, super)
    requires AllReady(a) && a.cblockSize == plan.cblockSize && MountedFrom(a, OffsetsAfter(|super|))
    ensures Loaded(a, plan)
  {
    hide Carries, AllDescribed, PlanOk, Holding, TablesLoaded, MetadataFrom, Region.Describes;
    AllTablesLoaded(a.md, plan, a.store.image, super);
    FirstThree(a.store.image, |super|);
    RegionsLoaded(plan, super, a.store, a.xip, a.compressed, a.byteAligned);
  }

  lemma FirstThree(image: seq<byte>, n: nat)
    requires AllDescribed(image, OffsetsAfter(n))
    ensures n + 120 <= |image|
  {
  }

  lemma Deeper(values: seq<nat>, depth: byte)
    requires FitsDepth(values, depth, 4)
    ensures FitsDepth(values, depth, 8)
  {
  }

  // ------------------------------------------------------------ every page is stored

  lemma PartHeld(store: Store, region: Region, data: seq<byte>, lo: nat, hi: nat)
    requires Holding(store, region, data) && lo <= hi <= |data|
    ensures region.fsoffset + hi <= |store.image| && region.size == |data|
    ensures store.image[region.fsoffset + lo..region.fsoffset + hi] == data[lo..hi]
  {
    SliceSlice(store.image, region.fsoffset, |data|, lo, hi - lo);
  }

  // Node number `a` leads to page p.
  ghost predicate Leads(fs: Axfs, a: nat, p: Page)
    requires AllReady(fs)
    reads fs.xip, fs.compressed, fs.byteAligned
  {
    fs.NodeOk(a) && p.bytes <= fs.NodeBytes(a)
  }

  ghost predicate EntryIs(t: Table, n: nat, value: nat) {
    Covers(t, n) && Stitch(t, n) == value
  }

  // What the tables say about node `a` and about entry n.
  lemma Entries(md: Metadata, l: Layout, a: nat, n: nat)
    requires LayoutLoaded(md, l) && a < |l.nodeIndex| && a < |l.nodeType|
    ensures a < |md.nodeType| && md.nodeType[a] == l.nodeType[a] && EntryIs(md.nodeIndex, a, l.nodeIndex[a])
    ensures n < |l.cnodeOffset| ==> EntryIs(md.cnodeOffset, n, l.cnodeOffset[n])
    ensures n < |l.cnodeIndex| ==> EntryIs(md.cnodeIndex, n, l.cnodeIndex[n])
    ensures n < |l.banodeOffset| ==> EntryIs(md.banodeOffset, n, l.banodeOffset[n])
  {
    hide Covers, Stitch;
  }

  lemma XipLeads(fs: Axfs, l: Layout, a: nat, p: Page)
    requires AllReady(fs) && LayoutLoaded(fs.md, l) && Holding(fs.store, fs.xip, l.xip)
    requires |p.bytes| <= PAGE_SIZE && Finds(l, a, p) && p.place.InXip?
    ensures Leads(fs, a, p)
  {
    hide LayoutLoaded, Covers, Stitch, Holding, Padded, Region.Ready;
    var n := l.nodeIndex[a];
    Entries(fs.md, l, a, n);
    PartHeld(fs.store, fs.xip, l.xip, n * PAGE_SIZE, n * PAGE_SIZE + PAGE_SIZE);
  }

  lemma AlignedLeads(fs: Axfs, l: Layout, a: nat, p: Page)
    requires AllReady(fs) && LayoutLoaded(fs.md, l) && Holding(fs.store, fs.byteAligned, l.aligned)
    requires |p.bytes| <= PAGE_SIZE && Finds(l, a, p) && p.place.InAligned? && Kept(l, a, |p.bytes|)
    ensures Leads(fs, a, p)
  {
    hide LayoutLoaded, Covers, Stitch, Holding, Padded, Region.Ready, ByteAlignedShare;
    var n := l.nodeIndex[a];
    var offset := l.banodeOffset[n];
    Entries(fs.md, l, a, n);
    var share := ByteAlignedShare(|l.aligned| - offset);
    PartHeld(fs.store, fs.byteAligned, l.aligned, offset, offset + share);
    StartOfPart(l.aligned, offset, |p.bytes|, share);
  }

  lemma StartOfPart(s: seq<byte>, at: nat, m: nat, n: nat)
    requires m <= n && at + n <= |s|
    ensures s[at..at + m] <= s[at..at + n]
  {
    SliceSlice(s, at, n, 0, m);
    assert s[at..at + n][0..m] == s[at..at + n][..m];
  }

  lemma CompressedLeads(fs: Axfs, l: Layout, a: nat, p: Page)
    requires AllReady(fs) && LayoutLoaded(fs.md, l)
    requires |p.bytes| <= PAGE_SIZE && Finds(l, a, p) && p.place.InBlock? && fs.BlockOk(p.place.c)
    requires var block := fs.Block(p.place.c);
      p.place.o <= |block| <= fs.cblockSize && p.bytes <= block[p.place.o..]
    ensures Leads(fs, a, p)
  {
    hide LayoutLoaded, Covers, Stitch, Padded, Region.Ready, Axfs.BlockOk, Axfs.Block;
    Entries(fs.md, l, a, l.nodeIndex[a]);
    assert p.bytes <= FirstPage(fs.Block(p.place.c)[p.place.o..]);
  }

  // Where a form begins and ends, by the table of block starts.
  lemma StartsFound(t: Table, bs: seq<Block>, size: nat, c: nat)
    requires BlocksFit(bs, size) && c < |bs| && TableIs(t, FormStarts(bs, size))
    ensures EntryIs(t, c, |Forms(bs[..c], size)|) && EntryIs(t, c + 1, |Forms(bs[..c + 1], size)|)
  {
    hide Covers, Stitch, Forms, BlockFits;
    var starts := FormStarts(bs, size);
    assert Stitch(t, c) == starts[c] && Stitch(t, c + 1) == starts[c + 1];
  }

  // The table of block starts leads to the forms.
  lemma BlockFound(fs: Axfs, bs: seq<Block>, c: nat)
    requires AllReady(fs) && BlocksFit(bs, fs.cblockSize) && c < |bs| < NO_BLOCK
    requires TableIs(fs.md.cblockOffset, FormStarts(bs, fs.cblockSize))
    requires Holding(fs.store, fs.compressed, Forms(bs, fs.cblockSize))
    ensures fs.BlockOk(c) && fs.BlockBytes(c) == Form(bs[c])
    ensures fs.Block(c) == Content(bs[c]) && |Content(bs[c])| <= fs.cblockSize
  {
    hide Covers, Stitch, Holding, Form, Content, Decompressed, Region.Ready, Forms, FormStarts, TableIs;
    var size := fs.cblockSize;
    var from, to := |Forms(bs[..c], size)|, |Forms(bs[..c + 1], size)|;
    StartsFound(fs.md.cblockOffset, bs, size, c);
    FormAt(bs, size, c);
    PartHeld(fs.store, fs.compressed, Forms(bs, size), from, to);
    assert BlockFits(bs[c], size);
    FormDecompresses(bs[c], size);
  }

  lemma NodeLeads(fs: Axfs, plan: Plan, a: nat)
    requires PlanOk(plan) && Loaded(fs, plan) && a < |Pages(plan)|
    ensures Leads(fs, a, Pages(plan)[a])
  {
    hide LaidOut, DepthsOk, Finds, LayoutLoaded, Holding, Leads, TableIs, FormStarts, FirstPages, AllPages, Forms;
    hide BlocksFit, Kept, Content, Axfs.BlockOk, Axfs.Block, AllReady;
    PagesFound(Pages(plan));
    var l, p := LayoutOf(plan), Pages(plan)[a];
    assert Finds(l, a, p) && PageOk(plan, l, a, p);
    match p.place
    case InXip => XipLeads(fs, l, a, p);
    case InAligned => AlignedLeads(fs, l, a, p);
    case InBlock(c, _) =>
      BlockFound(fs, plan.blocks, c);
      CompressedLeads(fs, l, a, p);
  }

  lemma FilePageStored(fs: Axfs, plan: Plan, i: nat, k: nat)
    requires PlanOk(plan) && Loaded(fs, plan) && i < |plan.files| && k < MaxBlock(|plan.files[i]|)
    ensures Covers(fs.md.inodeArrayIndex, i) && fs.PageStored(i, plan.files[i], k)
  {
    hide LaidOut, DepthsOk, PageOk, LayoutLoaded, Holding, AllPages, FormStarts, Forms, BlocksFit, FilePage;
    hide Covers, Stitch, MaxBlock, Axfs.NodeOk, Axfs.NodeBytes, AllReady;
    FirstPageFound(fs, plan, i);
    PageAt(plan.files, plan.places, i, k);
    NodeLeads(fs, plan, FirstPages(plan.files, plan.places)[i] + k);
  }

  lemma FirstPageFound(fs: Axfs, plan: Plan, i: nat)
    requires PlanOk(plan) && Loaded(fs, plan) && i < |plan.files|
    ensures EntryIs(fs.md.inodeArrayIndex, i, |AllPages(plan.files[..i], plan.places[..i])|)
  {
    hide LaidOut, DepthsOk, PageOk, LayoutLoaded, Holding, AllPages, FormStarts, Forms, BlocksFit, Covers, Stitch;
    var t, first := fs.md.inodeArrayIndex, FirstPages(plan.files, plan.places);
    assert Covers(t, i) && Stitch(t, i) == first[i];
  }

  lemma SizeFound(fs: Axfs, plan: Plan, i: nat)
    requires PlanOk(plan) && Loaded(fs, plan) && i < |plan.files|
    ensures EntryIs(fs.md.inodeFileSize, i, |plan.files[i]|)
  {
    hide LaidOut, DepthsOk, PageOk, LayoutLoaded, Holding, AllPages, FormStarts, Forms, BlocksFit, Covers, Stitch;
    hide FirstPages, Placed;
    var t, sizes := fs.md.inodeFileSize, FileSizes(plan.files);
    assert Covers(t, i) && Stitch(t, i) == sizes[i];
  }

  // Every file is stored.
  lemma FileStored(fs: Axfs, plan: Plan, i: nat)
    requires PlanOk(plan) && Loaded(fs, plan) && i < |plan.files|
    ensures fs.Stores(i, plan.files[i])
  {
    hide PlanOk, TablesLoaded, Holding, Covers, Stitch, MaxBlock, Region.Ready, Axfs.PageStored;
    SizeFound(fs, plan, i);
    FirstPageFound(fs, plan, i);
    forall k | 0 <= k < MaxBlock(|plan.files[i]|) ensures fs.PageStored(i, plan.files[i], k) {
      FilePageStored(fs, plan, i, k);
    }
  }

  // ------------------------------------------------------------ the round trip

  // A file system set up from an image that was written for any files, on any media, stores
  // every one of them; from then on ReadFilePage gives back their pages.
  method SetUpWritten(store: Store, ghost plan: Plan, ghost super: seq<byte>, o: Offsets, cblockSize: nat)
    returns (fs: Axfs)
    requires PlanOk(plan) && store.Valid() && store.image == Image(super, Specs(plan))
    requires o == OffsetsAfter(|super|) && cblockSize == plan.cblockSize
    ensures fresh(fs) && fresh(fs.cblock) && fresh(fs.scratch) && fs.Valid() && fs.store == store
    ensures forall i :: 0 <= i < |plan.files| ==> fs.Stores(i, plan.files[i])
  {
    hide PlanOk, Image, Specs, MetadataFrom, AllDescribed, Loaded, Axfs.Stores;
    DescriptorsInPlace(plan, store.image, super);
    fs := FillSuper(store, o, cblockSize);
    AllLoaded(fs, plan, super);
    forall i | 0 <= i < |plan.files| ensures fs.Stores(i, plan.files[i]) {
      FileStored(fs, plan, i);
    }
  }

  // From writing to reading: any files are written, the file system is set up from the image,
  // and any pages of them are read, in any order and any number.
  method ReadWritten(store: Store, ghost plan: Plan, ghost super: seq<byte>, o: Offsets, cblockSize: nat,
                     requests: seq<(nat, nat)>)
    returns (pages: seq<seq<byte>>)
    requires PlanOk(plan) && store.Valid() && store.image == Image(super, Specs(plan))
    requires o == OffsetsAfter(|super|) && cblockSize == plan.cblockSize
    requires forall r :: 0 <= r < |requests| ==> requests[r].0 < |plan.files|
    ensures |pages| == |requests|
    ensures forall r :: 0 <= r < |requests| ==> PageRight(plan.files[requests[r].0], requests[r].1, pages[r])
  {
    hide PlanOk, Image, Specs, Axfs.Stores, PageRight;
    var fs := SetUpWritten(store, plan, super, o, cblockSize);
    pages := [];
    for r := 0 to |requests|
      invariant fs.Valid() && fresh(fs) && fresh(fs.cblock) && fresh(fs.scratch)
      invariant forall i :: 0 <= i < |plan.files| ==> fs.Stores(i, plan.files[i])
      invariant |pages| == r
      invariant forall j :: 0 <= j < r ==> PageRight(plan.files[requests[j].0], requests[j].1, pages[j])
    {
      var page := new byte[PAGE_SIZE];
      var (inode, index) := requests[r];
      fs.ReadFilePage(inode, plan.files[inode], index, page);
      pages := pages + [page[..]];
    }
  }

  // ------------------------------------------------------------ regions compressed as a whole

  // Region i of the image is the compressed form of block b.
  ghost predicate CompressedRegion(rs: seq<RegionSpec>, i: nat, b: Block) {
    && i < |rs| && BlockWritable(b) && |Content(b)| <= rs[i].size
    && rs[i].stored == Form(b) && rs[i].compressedSize == |Form(b)| && rs[i].maxIndex < U64
  }

  // Such a region, rightly compressed, is refused unless nothing comes out of it.
  method SetUpCompressed(store: Store, ghost super: seq<byte>, ghost rs: seq<RegionSpec>, ghost i: nat, ghost b: Block,
                         at: nat, forceVa: bool)
    returns (err: nat, region: Region)
    requires store.Valid() && store.image == Image(super, rs) && at == |super| + 40 * i
    requires CompressedRegion(rs, i, b) && RegionStart(super, rs, i) + rs[i].size < U64
    ensures rs[i].size > 0 ==> err == |Content(b)| && (region.virt.Some? <==> Content(b) == [])
  {
    hide Image, RegionStart, DescriptorBytes, Be64, Content, Form, BlockWritable, Inflate;
    RegionInImage(super, rs, i);
    DescriptorRead(store.image, at, RegionStart(super, rs, i), rs[i]);
    FormLength(b, rs[i].size);
    region := new Region();
    err := region.DoFillDataPtrs(store, at, forceVa);
  }

  lemma FormLength(b: Block, size: nat)
    requires BlockWritable(b) && |Content(b)| <= size
    ensures |Form(b)| > 0 && UncompressedLength(Form(b), size) == |Content(b)|
  {
    hide Inflate, StreamBits, FieldBits, Pack, AllMeaning, AllWritable;
    ZlibRoundTrip(b.preamble, b.chunks, b.trailer, size);
  }

  // ------------------------------------------------------------ a compressed file

  // A file of one page in a block of its own, written without compressing it.
  function OneBlockPlan(file: seq<byte>): Plan {
    Plan([file], [[InBlock(0, 0)]], [Block(Preamble(7, 2), [Raw(file)], [])], 8192,
         Depths(2, 2, 2, 2, 2, 2, 2), seq(11, i => 0))
  }

  lemma OneBlockWritable(file: seq<byte>)
    requires 0 < |file| <= PAGE_SIZE
    ensures var b := Block(Preamble(7, 2), [Raw(file)], []);
      BlockWritable(b) && Content(b) == file
  {
    var cs := [Raw(file)];
    assert cs[1..] == [] && [] + file == file;
    assert AllMeaning(cs, []) == AllMeaning(cs[1..], file);
  }

  // Three bits, up to seven more to the next byte, two lengths, and the bytes.
  lemma OneBlockBits(file: seq<byte>, h: Preamble)
    requires 0 < |file| <= PAGE_SIZE && PreambleOk(h) && AllWritable([Raw(file)], [])
    ensures |ZlibBits(h, [Raw(file)])| <= 16 + 3 + 7 + 32 + 8 * |file|
  {
    hide FieldBits, RawBits, Flags, MethodByte, FlagByte;
    var cs := [Raw(file)];
    assert cs[1..] == [] && [] + file == file;
    var block := Flags(true, 0) + RawBits(file, 19);
    assert StreamBits(cs, 16, []) == block + StreamBits(cs[1..], 16 + |block|, file);
  }

  lemma OneBlockFits(file: seq<byte>)
    requires 0 < |file| <= PAGE_SIZE
    ensures var b := Block(Preamble(7, 2), [Raw(file)], []);
      BlockWritable(b) && Content(b) == file && |Form(b)| <= 8192 && BlockFits(b, 8192)
  {
    hide ZlibBits, Pack, Content, AllWritable;
    OneBlockWritable(file);
    OneBlockBits(file, Preamble(7, 2));
  }

  lemma OneBlockPages(file: seq<byte>)
    requires 0 < |file| <= PAGE_SIZE
    ensures var plan := OneBlockPlan(file);
      && Placed(plan.files, plan.places)
      && Pages(plan) == [Page(file, InBlock(0, 0))]
      && LayoutOf(plan) == Layout([COMPRESSED], [0], [], [], [], [0], [0])
      && FirstPages(plan.files, plan.places) == [0]
  {
    var plan := OneBlockPlan(file);
    var files, places := plan.files, plan.places;
    assert MaxBlock(|file|) == 1;
    assert file[0..] == file;
    assert PagesOf(file, places[0]) == [Page(file, InBlock(0, 0))];
    assert files[..0] == [] && places[..0] == [];
    assert AllPages(files[..0], places[..0]) == [];
    var ps := [Page(file, InBlock(0, 0))];
    assert ps[..0] == [];
    assert LaidOut(ps) == Add(LaidOut([]), ps[0]);
  }

  lemma OneBlockStarts(b: Block, size: nat)
    requires BlockFits(b, size)
    ensures BlocksFit([b], size) && FormStarts([b], size) == [0, |Form(b)|]
  {
    hide Form, AllWritable, Content;
    var bs := [b];
    assert bs[..0] == [] && bs[..1] == bs;
    assert Forms(bs, size) == Forms([], size) + Form(b);
  }

  // So there are plans with compressed pages, for any page.
  lemma OneBlockPlanOk(file: seq<byte>)
    requires 0 < |file| <= PAGE_SIZE
    ensures PlanOk(OneBlockPlan(file))
  {
    hide Form, Content, FormStarts, FirstPages, LaidOut, AllPages, Placed, BlockFits;
    var b := Block(Preamble(7, 2), [Raw(file)], []);
    OneBlockFits(file);
    OneBlockPages(file);
    OneBlockStarts(b, 8192);
    Pow2Values();
    assert file[0..] == file;
  }
}
