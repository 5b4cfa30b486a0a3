/**
  Threads that share the cache of a file system: in every interleaving each of them gets
  the bytes of its own node, and so of its file.
 */
module SharedReading {
  import opened Bits
  import opened Canonical
  import opened Media
  import opened ByteTable
  import opened ReadPage
  import opened CacheProtocol
  import opened ImageRoundTrip
  import ImageLayout
  import ImageWriter

  // The disk holds the compressed blocks of the file system.
  ghost predicate DiskOf(fs: Axfs, d: Disk)
    requires AllReady(fs)
    reads fs.xip, fs.compressed, fs.byteAligned
  {
    && d.cblockSize == fs.cblockSize && |d.compressed| <= NO_BLOCK
    && forall c :: 0 <= c < |d.compressed| ==> fs.BlockOk(c) && d.compressed[c] == fs.BlockBytes(c)
  }

  lemma DiskBlock(fs: Axfs, d: Disk, c: nat)
    requires AllReady(fs) && DiskOf(fs, d) && c < |d.compressed|
    ensures fs.BlockOk(c) && d.Block(c) == Some(fs.Block(c)) && d.cblockSize == fs.cblockSize
  {
    hide Decompressed, Stitch, Covers, AllReady;
  }

  lemma DiskValid(fs: Axfs, d: Disk)
    requires AllReady(fs) && DiskOf(fs, d)
    ensures d.Valid()
  {
    hide Decompressed, Stitch, Covers;
    forall c | 0 <= c < |d.compressed| ensures |d.compressed[c]| <= d.cblockSize {
      assert fs.BlockOk(c) && d.compressed[c] == fs.BlockBytes(c);
    }
  }

  lemma CopiedBytes(block: seq<byte>, page: seq<byte>, offset: nat, size: nat)
    requires offset <= |block| <= size && |page| == Min(size - offset, PAGE_SIZE)
    requires forall j :: 0 <= j < |page| && offset + j < |block| ==> page[j] == block[offset + j]
    ensures FirstPage(block[offset..]) <= page
  {
    var bytes := FirstPage(block[offset..]);
    forall j | 0 <= j < |bytes| ensures bytes[j] == page[j] {
      assert bytes[j] == block[offset..][j] == block[offset + j];
    }
  }

  // Block and offset are those of compressed node a.
  ghost predicate AsksFor(fs: Axfs, a: nat, c: nat, o: nat)
    requires AllReady(fs) && fs.NodeOk(a) && fs.md.nodeType[a] == COMPRESSED
    reads fs.xip, fs.compressed, fs.byteAligned
  {
    var n := Stitch(fs.md.nodeIndex, a);
    c == Stitch(fs.md.cnodeIndex, n) && o == Stitch(fs.md.cnodeOffset, n)
  }

  lemma GotNode(fs: Axfs, d: Disk, t: Thread, a: nat, c: nat, o: nat)
    requires AllReady(fs) && DiskOf(fs, d) && fs.NodeOk(a) && fs.md.nodeType[a] == COMPRESSED && AsksFor(fs, a, c, o)
    requires Got(d, t, c, o) && t.pc == Quiet
    ensures fs.NodeBytes(a) <= t.page
  {
    hide Decompressed, Stitch, Covers, Region.Ready, DiskOf, Axfs.BlockOk, Axfs.Block, Disk.Block, FirstPage;
    DiskBlock(fs, d, c);
    CopiedBytes(fs.Block(c), t.page, o, fs.cblockSize);
  }

  // In every interleaving of any number of threads, whoever asked last for page k of a stored
  // file, which is a compressed node, and is done has the file's bytes.
  lemma InterleavingsServeFiles(fs: Axfs, d: Disk, start: State, threads: nat, actions: seq<Action>, i: nat, m: nat,
                                c: nat, o: nat, inode: nat, file: seq<byte>, k: nat)
    requires AllReady(fs) && DiskOf(fs, d) && Started(d, start, threads)
    requires fs.Stores(inode, file) && k < MaxBlock(|file|)
    requires var a := Stitch(fs.md.inodeArrayIndex, inode) + k;
      fs.NodeOk(a) && fs.md.nodeType[a] == COMPRESSED && AsksFor(fs, a, c, o)
    requires LastAsked(actions, i, m, c, o)
    ensures d.Valid() && Inv(d, start)
    ensures var r := Execute(d, start, actions);
      r.Some? ==>
        i < |r.value.threads| && (r.value.threads[i].pc == Quiet ==> FilePage(file, k) <= r.value.threads[i].page)
  {
    hide DiskOf, Region.Ready, Execute, Inv, Got, AsksFor, Stitch, Covers, Axfs.NodeOk, Axfs.NodeBytes, Disk.Valid;
    hide LastAsked;
    DiskValid(fs, d);
    LastRequestServed(d, start, threads, actions, i, m, c, o);
    var r := Execute(d, start, actions);
    assert fs.PageStored(inode, file, k);
    if r.Some? && r.value.threads[i].pc == Quiet {
      GotNode(fs, d, r.value.threads[i], Stitch(fs.md.inodeArrayIndex, inode) + k, c, o);
    }
  }

  // A written image has such a disk: the compressed forms of its blocks.
  lemma WrittenDisk(fs: Axfs, plan: Plan, d: Disk)
    requires ImageRoundTrip.PlanOk(plan) && Loaded(fs, plan) && d.cblockSize == plan.cblockSize
    requires |d.compressed| == |plan.blocks|
    requires forall c :: 0 <= c < |plan.blocks| ==>
      ImageLayout.BlockFits(plan.blocks[c], plan.cblockSize) && d.compressed[c] == ImageLayout.Form(plan.blocks[c])
    ensures DiskOf(fs, d)
  {
    hide Stitch, Covers, Region.Ready, ImageLayout.BlockFits, ImageLayout.Form, ImageLayout.Content, DepthsOk;
    hide ImageRoundTrip.PageOk, LayoutLoaded, ImageWriter.Holding, ImageLayout.Forms, ImageLayout.FormStarts;
    hide ImageLayout.FirstPages, FileSizes, ImageWriter.TableIs, LayoutOf, Axfs.BlockBytes;
    forall c | 0 <= c < |d.compressed| ensures fs.BlockOk(c) && d.compressed[c] == fs.BlockBytes(c) {
      BlockFound(fs, plan.blocks, c);
    }
  }
}
