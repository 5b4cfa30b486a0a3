/**
  axfs_readpage: one page of a file out of the XIP, byte-aligned or compressed region,
  through a cache of one decompressed block.
 */
module ReadPage {
  import opened Bits
  import opened Canonical
  import opened Media
  import opened ByteTable
  import opened Splicing

  const PAGE_SIZE := 4096

  // current_cnode_index before any block has been decompressed: (u64) -1.
  const NO_BLOCK := U64 - 1

  // Node types; every other one is taken for XIP.
  const XIP: byte := 0
  const COMPRESSED: byte := 1
  const BYTE_ALIGNED: byte := 2

  type Table = seq<Option<seq<byte>>>

  // The metadata tables that a read consults.
  datatype Metadata = Metadata(
    nodeType: seq<byte>,
    nodeIndex: Table,
    cnodeOffset: Table,
    cnodeIndex: Table,
    banodeOffset: Table,
    cblockOffset: Table,
    inodeFileSize: Table,
    inodeArrayIndex: Table)

  function Min(a: nat, b: nat): nat { if a <= b then a else b }

  // How much of a byte-aligned node is copied when `left` bytes of the region follow
  // its start: the C code keeps that number in 32 bits.
  function ByteAlignedShare(left: nat): (share: nat)
    ensures share <= PAGE_SIZE && share <= left
  {
    Min(left % 0x1_0000_0000, PAGE_SIZE)
  }

  // The share is all that a page can take exactly if the truncation leaves it so: a
  // region of 4 GiB or more can lose the rest of a page.
  lemma ShareComplete(left: nat)
    ensures ByteAlignedShare(left) == Min(left, PAGE_SIZE)
       <==> left < 0x1_0000_0000 || left % 0x1_0000_0000 >= PAGE_SIZE
  {
  }

  lemma ShareCanBeLost()
    ensures ByteAlignedShare(0x1_0000_0000) == 0
  {
  }

  class Axfs {
    const store: Store
    const md: Metadata
    const xip: Region
    const compressed: Region
    const byteAligned: Region
    const cblockSize: nat
    const cblock: array<byte>       // cblock_buffer[0]: the decompressed block
    const scratch: array<byte>      // cblock_buffer[1]: its compressed form
    var currentCnodeIndex: nat

    constructor (store: Store, md: Metadata, xip: Region, compressed: Region, byteAligned: Region, cblockSize: nat)
      requires store.Valid() && xip.Ready(store) && compressed.Ready(store) && byteAligned.Ready(store)
      ensures Valid() && fresh(cblock) && fresh(scratch)
      ensures this.store == store && this.md == md && this.cblockSize == cblockSize
      ensures this.xip == xip && this.compressed == compressed && this.byteAligned == byteAligned
    {
      this.store := store;
      this.md := md;
      this.xip := xip;
      this.compressed := compressed;
      this.byteAligned := byteAligned;
      this.cblockSize := cblockSize;
      cblock := new byte[cblockSize];
      scratch := new byte[cblockSize];
      currentCnodeIndex := NO_BLOCK;
    }

    ghost predicate Valid()
      reads this, xip, compressed, byteAligned, cblock
    {
      && store.Valid()
      && xip.Ready(store) && compressed.Ready(store) && byteAligned.Ready(store)
      && cblock.Length == scratch.Length == cblockSize && cblock != scratch
      && (currentCnodeIndex != NO_BLOCK ==> Cached(currentCnodeIndex))
    }

    // ---------------------------------------------------------- compressed blocks

    // Block c has an entry in the offset table and lies in the compressed region, its
    // compressed form fits the scratch buffer, and it decompresses.
    ghost predicate BlockOk(c: nat)
      requires store.Valid() && compressed.Ready(store)
      reads compressed
    {
      && c < NO_BLOCK && Covers(md.cblockOffset, c) && Covers(md.cblockOffset, c + 1)
      && BlockStart(c) <= BlockEnd(c) <= compressed.size
      && BlockEnd(c) - BlockStart(c) <= cblockSize
      && Decompressed(BlockBytes(c), cblockSize).Some?
    }

    function BlockStart(c: nat): nat
      requires Covers(md.cblockOffset, c)
    {
      Stitch(md.cblockOffset, c)
    }

    function BlockEnd(c: nat): nat
      requires Covers(md.cblockOffset, c + 1)
    {
      Stitch(md.cblockOffset, c + 1)
    }

    ghost function BlockBytes(c: nat): seq<byte>
      requires store.Valid() && compressed.Ready(store)
      requires Covers(md.cblockOffset, c) && Covers(md.cblockOffset, c + 1)
      requires BlockStart(c) <= BlockEnd(c) <= compressed.size
      reads compressed
    {
      store.image[compressed.fsoffset + BlockStart(c)..compressed.fsoffset + BlockEnd(c)]
    }

    // What block c decompresses to.
    ghost function Block(c: nat): (d: seq<byte>)
      requires store.Valid() && compressed.Ready(store) && BlockOk(c)
      reads compressed
    {
      Decompressed(BlockBytes(c), cblockSize).value
    }

    // The buffer starts with block c; the rest may be left over from longer blocks.
    ghost predicate Cached(c: nat)
      requires store.Valid() && compressed.Ready(store) && cblock.Length == cblockSize
      reads compressed, cblock
    {
      BlockOk(c) && |Block(c)| <= cblockSize && cblock[..|Block(c)|] == Block(c)
    }

    // ---------------------------------------------------------- nodes

    // The tables have entries for node a, and they lead into the node's region.
    ghost predicate NodeOk(a: nat)
      requires store.Valid() && xip.Ready(store) && compressed.Ready(store) && byteAligned.Ready(store)
      reads xip, compressed, byteAligned
    {
      && a < |md.nodeType| && Covers(md.nodeIndex, a)
      && var n := Stitch(md.nodeIndex, a);
         if md.nodeType[a] == COMPRESSED then
           && Covers(md.cnodeOffset, n) && Covers(md.cnodeIndex, n)
           && BlockOk(Stitch(md.cnodeIndex, n))
           && Stitch(md.cnodeOffset, n) <= |Block(Stitch(md.cnodeIndex, n))| <= cblockSize
         else if md.nodeType[a] == BYTE_ALIGNED then
           Covers(md.banodeOffset, n) && Stitch(md.banodeOffset, n) <= byteAligned.size
         else
           n * PAGE_SIZE + PAGE_SIZE <= xip.size
    }

    // The bytes that node a stands for, up to one page.
    ghost function NodeBytes(a: nat): (r: seq<byte>)
      requires store.Valid() && xip.Ready(store) && compressed.Ready(store) && byteAligned.Ready(store)
      requires NodeOk(a)
      reads xip, compressed, byteAligned
      ensures |r| <= PAGE_SIZE
    {
      var n := Stitch(md.nodeIndex, a);
      if md.nodeType[a] == COMPRESSED then
        var block := Block(Stitch(md.cnodeIndex, n));
        FirstPage(block[Stitch(md.cnodeOffset, n)..])
      else if md.nodeType[a] == BYTE_ALIGNED then
        var offset := Stitch(md.banodeOffset, n);
        var start := byteAligned.fsoffset + offset;
        store.image[start..start + ByteAlignedShare(byteAligned.size - offset)]
      else
        store.image[xip.fsoffset + n * PAGE_SIZE..xip.fsoffset + n * PAGE_SIZE + PAGE_SIZE]
    }

    // ---------------------------------------------------------- reading

    // Make sure that the buffer holds block c.
    method FillCache(c: nat)
      requires Valid() && BlockOk(c)
      modifies `currentCnodeIndex, cblock, scratch
      ensures Valid() && currentCnodeIndex == c
    {
      hide Stitch, Decompressed;
      if c != currentCnodeIndex {
        var offset := BlockStart(c);
        var len := BlockEnd(c) - offset;
        compressed.CopyData(store, scratch, offset, len);
        assert scratch[..len] == BlockBytes(c);
        var _ := UncompressBlock(cblock, scratch[..len]);
        currentCnodeIndex := c;
      }
    }

    // memcpy from the cached block.
    method CopyCached(page: array<byte>, offset: nat, len: nat)
      requires page != cblock && offset + len <= cblock.Length && len <= page.Length
      modifies page
      ensures page[..len] == cblock[offset..offset + len]
    {
      for i := 0 to len
        invariant page[..i] == cblock[offset..offset + i]
      {
        page[i] := cblock[offset + i];
      }
    }

    method ReadCompressed(n: nat, page: array<byte>) returns (len: nat)
      requires Valid() && page.Length == PAGE_SIZE && page != cblock && page != scratch
      requires Covers(md.cnodeOffset, n) && Covers(md.cnodeIndex, n) && BlockOk(Stitch(md.cnodeIndex, n))
      requires Stitch(md.cnodeOffset, n) <= |Block(Stitch(md.cnodeIndex, n))| <= cblockSize
      modifies `currentCnodeIndex, cblock, scratch, page
      ensures Valid() && currentCnodeIndex == Stitch(md.cnodeIndex, n)
      ensures var bytes := FirstPage(Block(Stitch(md.cnodeIndex, n))[Stitch(md.cnodeOffset, n)..]);
        |bytes| <= len <= PAGE_SIZE && page[..|bytes|] == bytes
    {
      hide Stitch, Decompressed;
      var cnodeOffset := Stitch(md.cnodeOffset, n);
      var cnodeIndex := Stitch(md.cnodeIndex, n);
      FillCache(cnodeIndex);
      len := Min(cblockSize - cnodeOffset, PAGE_SIZE);
      CopyCached(page, cnodeOffset, len);
      ghost var block := Block(cnodeIndex);
      ghost var bytes := FirstPage(block[cnodeOffset..]);
      assert bytes == block[cnodeOffset..cnodeOffset + |bytes|];
      CopiedPart(cblock[..], block, page[..], cnodeOffset, len, |bytes|);
    }

    // The first m of n copied bytes lie within what the buffer starts with.
    static lemma CopiedPart(buffer: seq<byte>, block: seq<byte>, page: seq<byte>, offset: nat, n: nat, m: nat)
      requires block <= buffer && offset + n <= |buffer| && n <= |page| && page[..n] == buffer[offset..offset + n]
      requires m <= n && offset + m <= |block|
      ensures page[..m] == block[offset..offset + m]
    {
      SliceSlice(buffer, offset, n, 0, m);
      SliceSlice(buffer, 0, |block|, offset, m);
      assert page[..m] == page[..n][0..m] && buffer[0..|block|] == block;
    }

    // A page from one of the two uncompressed regions.
    method ReadPlain(region: Region, offset: nat, len: nat, page: array<byte>)
      requires store.Valid() && region.Ready(store) && offset + len <= region.size
      requires page.Length == PAGE_SIZE && len <= PAGE_SIZE
      modifies page
      ensures page[..len] == store.image[region.fsoffset + offset..region.fsoffset + offset + len]
    {
      region.CopyData(store, page, offset, len);
    }

    // Fill the page with what node a provides, and zero the rest.
    method ReadNode(a: nat, page: array<byte>) returns (len: nat)
      requires Valid() && page.Length == PAGE_SIZE && page != cblock && page != scratch && NodeOk(a)
      modifies `currentCnodeIndex, cblock, scratch, page
      ensures Valid()
      ensures |NodeBytes(a)| <= len <= PAGE_SIZE && page[..|NodeBytes(a)|] == NodeBytes(a)
      ensures md.nodeType[a] != COMPRESSED ==> len == |NodeBytes(a)|
    {
      hide Stitch, Decompressed, ByteAlignedShare;
      var n := Stitch(md.nodeIndex, a);
      if md.nodeType[a] == COMPRESSED {
        len := ReadCompressed(n, page);
      } else if md.nodeType[a] == BYTE_ALIGNED {
        var offset := Stitch(md.banodeOffset, n);
        len := ByteAlignedShare(byteAligned.size - offset);
        ReadPlain(byteAligned, offset, len, page);
      } else {
        len := PAGE_SIZE;
        ReadPlain(xip, n * PAGE_SIZE, len, page);
      }
    }

    // memset of everything behind the first `len` bytes.
    method ZeroRest(page: array<byte>, len: nat)
      requires len <= page.Length
      modifies page
      ensures page[..len] == old(page[..len])
      ensures forall i :: len <= i < page.Length ==> page[i] == 0
    {
      for i := len to page.Length
        invariant page[..len] == old(page[..len])
        invariant forall j :: len <= j < i ==> page[j] == 0
      {
        page[i] := 0;
      }
    }

    // Page `index` of the file with the given inode number and size.
    method Read(inode: nat, isize: nat, index: nat, page: array<byte>)
      requires Valid() && page.Length == PAGE_SIZE && page != cblock && page != scratch
      requires index < MaxBlock(isize) ==>
        Covers(md.inodeArrayIndex, inode) && NodeOk(Stitch(md.inodeArrayIndex, inode) + index)
      modifies `currentCnodeIndex, cblock, scratch, page
      ensures Valid()
      ensures index < MaxBlock(isize) ==>
        var a := Stitch(md.inodeArrayIndex, inode) + index;
        && NodeBytes(a) <= page[..]
        && (md.nodeType[a] != COMPRESSED ==> forall i :: |NodeBytes(a)| <= i < PAGE_SIZE ==> page[i] == 0)
      ensures index >= MaxBlock(isize) ==> forall i :: 0 <= i < PAGE_SIZE ==> page[i] == 0
    {
      hide Stitch, Decompressed, NodeOk, NodeBytes, BlockOk, Block;
      var len := 0;
      if index < MaxBlock(isize) {
        len := ReadNode(Stitch(md.inodeArrayIndex, inode) + index, page);
      }
      ghost var before := page[..len];
      ZeroRest(page, len);
      assert before <= page[..];
    }

    // ---------------------------------------------------------- files

    // The node behind page k of the file provides that page.
    ghost predicate PageStored(inode: nat, file: seq<byte>, k: nat)
      requires store.Valid() && xip.Ready(store) && compressed.Ready(store) && byteAligned.Ready(store)
      requires Covers(md.inodeArrayIndex, inode) && k < MaxBlock(|file|)
      reads xip, compressed, byteAligned
    {
      var a := Stitch(md.inodeArrayIndex, inode) + k;
      NodeOk(a) && FilePage(file, k) <= NodeBytes(a)
    }

    // i_size, as axfs_create_vfs_inode takes it from the image.
    function FileSize(inode: nat): nat
      requires Covers(md.inodeFileSize, inode)
    {
      Stitch(md.inodeFileSize, inode)
    }

    // The image stores `file` as the contents of this inode: its size, and each of its pages
    // as the start of what its node provides.
    ghost predicate Stores(inode: nat, file: seq<byte>)
      requires store.Valid() && xip.Ready(store) && compressed.Ready(store) && byteAligned.Ready(store)
      reads xip, compressed, byteAligned
    {
      && Covers(md.inodeFileSize, inode) && FileSize(inode) == |file|
      && Covers(md.inodeArrayIndex, inode)
      && forall k :: 0 <= k < MaxBlock(|file|) ==> PageStored(inode, file, k)
    }

    // In every state of the cache, a page read from a stored file holds the file's bytes
    // up to the end of the file, and a page behind the last one is all zeros.
    method ReadFilePage(inode: nat, ghost file: seq<byte>, index: nat, page: array<byte>)
      requires Valid() && page.Length == PAGE_SIZE && page != cblock && page != scratch
      requires Stores(inode, file)
      modifies `currentCnodeIndex, cblock, scratch, page
      ensures Valid() && Stores(inode, file)
      ensures PageRight(file, index, page[..])
    {
      hide Stitch, Decompressed;
      var isize := FileSize(inode);
      assert index < MaxBlock(isize) ==> PageStored(inode, file, index);
      Read(inode, isize, index, page);
      if index < MaxBlock(isize) { PageOfFile(file, index, page[..]); }
    }

    // ---------------------------------------------------------- pages that are lost

    // How much of the byte-aligned region follows the start of node a.
    function Left(a: nat): nat
      requires Covers(md.nodeIndex, a) && Covers(md.banodeOffset, Stitch(md.nodeIndex, a))
      requires Stitch(md.banodeOffset, Stitch(md.nodeIndex, a)) <= byteAligned.size
      reads byteAligned
    {
      byteAligned.size - Stitch(md.banodeOffset, Stitch(md.nodeIndex, a))
    }

    // A byte-aligned node gives the first page of what follows its start, or all of it,
    // exactly if the truncation to 32 bits leaves that much.
    lemma AlignedNodeExact(a: nat)
      requires store.Valid() && xip.Ready(store) && compressed.Ready(store) && byteAligned.Ready(store)
      requires NodeOk(a) && md.nodeType[a] == BYTE_ALIGNED
      ensures var start := byteAligned.fsoffset + byteAligned.size - Left(a);
        NodeBytes(a) == FirstPage(store.image[start..start + Left(a)])
        <==> Left(a) < 0x1_0000_0000 || Left(a) % 0x1_0000_0000 >= PAGE_SIZE
    {
      hide Stitch, ByteAlignedShare, Region.Ready;
      var start := byteAligned.fsoffset + byteAligned.size - Left(a);
      RegionInside();
      ShareComplete(Left(a));
      FirstOfSlice(store.image, start, Left(a));
    }

    lemma RegionInside()
      requires byteAligned.Ready(store)
      ensures byteAligned.fsoffset + byteAligned.size <= |store.image|
    {
    }

    // With a multiple of 4 GiB left, the page that is read is all zeros.
    method ReadLost(inode: nat, isize: nat, index: nat, page: array<byte>)
      requires Valid() && page.Length == PAGE_SIZE && page != cblock && page != scratch && index < MaxBlock(isize)
      requires Covers(md.inodeArrayIndex, inode)
      requires var a := Stitch(md.inodeArrayIndex, inode) + index;
        NodeOk(a) && md.nodeType[a] == BYTE_ALIGNED && Left(a) % 0x1_0000_0000 == 0
      modifies `currentCnodeIndex, cblock, scratch, page
      ensures Valid() && forall i :: 0 <= i < PAGE_SIZE ==> page[i] == 0
    {
      hide Stitch, Decompressed;
      Read(inode, isize, index, page);
    }
  }

  // The first n bytes from `start` on, up to a page.
  lemma FirstOfSlice(s: seq<byte>, start: nat, n: nat)
    requires start + n <= |s|
    ensures FirstPage(s[start..start + n]) == s[start..start + Min(n, PAGE_SIZE)]
  {
  }

  // The page holds the file's bytes up to the end of the file, and zeros behind the last page.
  ghost predicate PageRight(file: seq<byte>, index: nat, page: seq<byte>) {
    && |page| == PAGE_SIZE
    && (forall i :: 0 <= i < PAGE_SIZE && index * PAGE_SIZE + i < |file| ==> page[i] == file[index * PAGE_SIZE + i])
    && (index * PAGE_SIZE >= |file| ==> forall i :: 0 <= i < PAGE_SIZE ==> page[i] == 0)
  }

  lemma PageOfFile(file: seq<byte>, index: nat, page: seq<byte>)
    requires index < MaxBlock(|file|) && |page| == PAGE_SIZE && FilePage(file, index) <= page
    ensures PageRight(file, index, page)
  {
    var f := FilePage(file, index);
    forall i | 0 <= i < PAGE_SIZE && index * PAGE_SIZE + i < |file| ensures page[i] == file[index * PAGE_SIZE + i] {
      assert i < |f| && f[i] == file[index * PAGE_SIZE..][i];
      assert f == page[..|f|];
    }
  }

  // Page k of a file, cut off at the end of the file.
  function FilePage(file: seq<byte>, k: nat): seq<byte>
    requires k < MaxBlock(|file|)
  {
    FirstPage(file[k * PAGE_SIZE..])
  }

  function MaxBlock(isize: nat): nat { (isize + PAGE_SIZE - 1) / PAGE_SIZE }

  function FirstPage(s: seq<byte>): (r: seq<byte>)
    ensures |r| <= PAGE_SIZE && r <= s
  {
    if |s| > PAGE_SIZE then s[..PAGE_SIZE] else s
  }
}
