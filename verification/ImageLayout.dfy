/**
  How the pages of files are laid out in the regions of an image: each page by itself in
  the XIP region, back to back in the byte-aligned region, or within a compressed block.
 */
module ImageLayout {
  import opened Bits
  import opened Canonical
  import opened Deflate
  import opened DeflateRoundTrip
  import opened Packing
  import opened Media
  import opened ReadPage
  import opened Splicing

  // Where a page goes: offset `o` of block c is where it is found if it is compressed.
  datatype Place = InXip | InAligned | InBlock(c: nat, o: nat)

  datatype Page = Page(bytes: seq<byte>, place: Place)

  // A compressed block: the preamble and the chunks that it is written in, and what follows
  // the stream.
  datatype Block = Block(preamble: Preamble, chunks: seq<Chunk>, trailer: seq<byte>)

  // The block can be written.
  ghost predicate BlockWritable(b: Block) {
    PreambleOk(b.preamble) && b.chunks != [] && AllWritable(b.chunks, [])
  }

  // What the regions and tables hold for a list of pages.
  datatype Layout = Layout(
    nodeType: seq<byte>,
    nodeIndex: seq<nat>,
    xip: seq<byte>,
    aligned: seq<byte>,
    banodeOffset: seq<nat>,
    cnodeOffset: seq<nat>,
    cnodeIndex: seq<nat>)

  // A page, filled up with zeros.
  function Padded(bytes: seq<byte>): (r: seq<byte>)
    requires |bytes| <= PAGE_SIZE
    ensures |r| == PAGE_SIZE && bytes <= r
  {
    bytes + seq(PAGE_SIZE - |bytes|, i => 0)
  }

  function Add(l: Layout, p: Page): Layout
    requires |p.bytes| <= PAGE_SIZE
  {
    match p.place
    case InXip =>
      l.(nodeType := l.nodeType + [XIP], nodeIndex := l.nodeIndex + [|l.xip| / PAGE_SIZE],
         xip := l.xip + Padded(p.bytes))
    case InAligned =>
      l.(nodeType := l.nodeType + [BYTE_ALIGNED], nodeIndex := l.nodeIndex + [|l.banodeOffset|],
         banodeOffset := l.banodeOffset + [|l.aligned|], aligned := l.aligned + p.bytes)
    case InBlock(c, o) =>
      l.(nodeType := l.nodeType + [COMPRESSED], nodeIndex := l.nodeIndex + [|l.cnodeOffset|],
         cnodeOffset := l.cnodeOffset + [o], cnodeIndex := l.cnodeIndex + [c])
  }

  ghost predicate Paged(ps: seq<Page>) {
    forall i :: 0 <= i < |ps| ==> |ps[i].bytes| <= PAGE_SIZE
  }

  ghost function LaidOut(ps: seq<Page>): (l: Layout)
    requires Paged(ps)
  {
    if ps == [] then Layout([], [], [], [], [], [], [])
    else Add(LaidOut(ps[..|ps| - 1]), ps[|ps| - 1])
  }

  // ------------------------------------------------------------ pages are found again

  // The tables have one entry for each of n pages, and the XIP region is made of pages.
  ghost predicate Shaped(l: Layout, n: nat) {
    |l.nodeType| == |l.nodeIndex| == n && |l.xip| % PAGE_SIZE == 0 && |l.cnodeOffset| == |l.cnodeIndex|
  }

  // Node a of the layout leads to page p.
  ghost predicate Finds(l: Layout, a: nat, p: Page)
    requires |p.bytes| <= PAGE_SIZE
  {
    && a < |l.nodeType| && a < |l.nodeIndex| && |l.cnodeOffset| == |l.cnodeIndex|
    && var n := l.nodeIndex[a];
      match p.place
      case InXip =>
        && l.nodeType[a] == XIP && n * PAGE_SIZE + PAGE_SIZE <= |l.xip|
        && l.xip[n * PAGE_SIZE..n * PAGE_SIZE + PAGE_SIZE] == Padded(p.bytes)
      case InAligned =>
        && l.nodeType[a] == BYTE_ALIGNED && n < |l.banodeOffset|
        && l.banodeOffset[n] + |p.bytes| <= |l.aligned|
        && l.aligned[l.banodeOffset[n]..l.banodeOffset[n] + |p.bytes|] == p.bytes
      case InBlock(c, o) =>
        && l.nodeType[a] == COMPRESSED && n < |l.cnodeOffset| && l.cnodeOffset[n] == o && l.cnodeIndex[n] == c
  }

  // Later pages change nothing about the earlier ones.
  ghost predicate Extends(l: Layout, l': Layout) {
    && l.nodeType <= l'.nodeType && l.nodeIndex <= l'.nodeIndex && l.xip <= l'.xip && l.aligned <= l'.aligned
    && l.banodeOffset <= l'.banodeOffset && l.cnodeOffset <= l'.cnodeOffset && l.cnodeIndex <= l'.cnodeIndex
    && |l'.cnodeOffset| == |l'.cnodeIndex|
  }

  lemma FindsLater(l: Layout, l': Layout, a: nat, p: Page)
    requires |p.bytes| <= PAGE_SIZE && Finds(l, a, p) && Extends(l, l')
    ensures Finds(l', a, p)
  {
    hide Padded;
    var n := l.nodeIndex[a];
    match p.place
    case InXip => PrefixSlice(l.xip, l'.xip, n * PAGE_SIZE, n * PAGE_SIZE + PAGE_SIZE);
    case InAligned => PrefixSlice(l.aligned, l'.aligned, l.banodeOffset[n], l.banodeOffset[n] + |p.bytes|);
    case InBlock(c, o) =>
  }

  lemma PrefixSlice(s: seq<byte>, s': seq<byte>, lo: nat, hi: nat)
    requires s <= s' && lo <= hi <= |s|
    ensures s'[lo..hi] == s[lo..hi]
  {
    SliceSlice(s', 0, |s|, lo, hi - lo);
    assert s'[0..|s|] == s;
  }

  lemma AddFinds(l: Layout, p: Page, n: nat)
    requires |p.bytes| <= PAGE_SIZE && Shaped(l, n)
    ensures Shaped(Add(l, p), n + 1) && Extends(l, Add(l, p)) && Finds(Add(l, p), n, p)
  {
    hide Padded;
  }

  lemma {:induction false} PagesFound(ps: seq<Page>)
    requires Paged(ps)
    ensures Shaped(LaidOut(ps), |ps|)
    ensures forall a :: 0 <= a < |ps| ==> Finds(LaidOut(ps), a, ps[a])
    decreases |ps|
  {
    hide Finds, Add, Shaped, Extends;
    if ps == [] {
      EmptyShaped();
    } else {
      var front, p := ps[..|ps| - 1], ps[|ps| - 1];
      PagesFound(front);
      AddFinds(LaidOut(front), p, |front|);
      forall a | 0 <= a < |ps| ensures Finds(LaidOut(ps), a, ps[a]) {
        if a < |front| { FindsLater(LaidOut(front), LaidOut(ps), a, ps[a]); }
      }
    }
  }

  lemma EmptyShaped()
    ensures Shaped(Layout([], [], [], [], [], [], []), 0)
  {
  }

  // What stands for a page on the medium: type 0 and the number of a whole page of 4096 bytes
  // in the XIP region, type 1 for a compressed page, type 2 for a byte-aligned one.
  lemma PageOnMedium(ps: seq<Page>, a: nat)
    requires Paged(ps) && a < |ps|
    ensures var l, p := LaidOut(ps), ps[a];
      && |l.nodeType| == |l.nodeIndex| == |ps|
      && l.nodeType[a] == (match p.place case InXip => 0 case InBlock(_, _) => 1 case InAligned => 2)
      && (p.place.InXip? ==>
            && 4096 * l.nodeIndex[a] + 4096 <= |l.xip|
            && p.bytes <= l.xip[4096 * l.nodeIndex[a]..4096 * l.nodeIndex[a] + 4096])
  {
    hide LaidOut, Padded;
    PagesFound(ps);
    assert Finds(LaidOut(ps), a, ps[a]);
  }

  // ------------------------------------------------------------ blocks

  // What a block stands for.
  ghost function Content(b: Block): seq<byte>
    requires BlockWritable(b)
  {
    AllMeaning(b.chunks, [])
  }

  // Its zlib stream.
  ghost function Form(b: Block): seq<byte>
    requires BlockWritable(b)
  {
    Pack(ZlibBits(b.preamble, b.chunks)) + b.trailer
  }

  // The content and its compressed form fit the two buffers.
  ghost predicate BlockFits(b: Block, cblockSize: nat) {
    BlockWritable(b) && |Content(b)| <= cblockSize && |Form(b)| <= cblockSize
  }

  lemma FormDecompresses(b: Block, cblockSize: nat)
    requires BlockFits(b, cblockSize)
    ensures Decompressed(Form(b), cblockSize) == Some(Content(b))
  {
    hide Inflate, ZlibBits, Pack, AllMeaning, AllWritable;
    ZlibRoundTrip(b.preamble, b.chunks, b.trailer, cblockSize);
  }

  ghost predicate BlocksFit(bs: seq<Block>, cblockSize: nat) {
    forall c :: 0 <= c < |bs| ==> BlockFits(bs[c], cblockSize)
  }

  // All forms back to back.
  ghost function Forms(bs: seq<Block>, cblockSize: nat): seq<byte>
    requires BlocksFit(bs, cblockSize)
  {
    if bs == [] then [] else Forms(bs[..|bs| - 1], cblockSize) + Form(bs[|bs| - 1])
  }

  // Where each starts, and where the last one ends.
  ghost function FormStarts(bs: seq<Block>, cblockSize: nat): (r: seq<nat>)
    requires BlocksFit(bs, cblockSize)
    ensures |r| == |bs| + 1
  {
    seq(|bs| + 1, c requires 0 <= c <= |bs| => |Forms(bs[..c], cblockSize)|)
  }

  lemma {:induction false} FormAt(bs: seq<Block>, cblockSize: nat, c: nat)
    requires BlocksFit(bs, cblockSize) && c < |bs|
    ensures var from, to := |Forms(bs[..c], cblockSize)|, |Forms(bs[..c + 1], cblockSize)|;
      from <= to <= |Forms(bs, cblockSize)| && Forms(bs, cblockSize)[from..to] == Form(bs[c])
    decreases |bs|
  {
    hide Form, BlockFits;
    var front := bs[..|bs| - 1];
    assert bs[..c + 1][..c] == bs[..c];
    if c == |front| {
      assert bs[..c + 1] == bs;
    } else {
      FormAt(front, cblockSize, c);
      assert front[..c] == bs[..c] && front[..c + 1] == bs[..c + 1];
    }
  }

  // ------------------------------------------------------------ files

  // The pages of a file, each in the place chosen for it.
  ghost function PagesOf(file: seq<byte>, places: seq<Place>): (r: seq<Page>)
    requires |places| == MaxBlock(|file|)
    ensures |r| == MaxBlock(|file|)
  {
    seq(|places|, k requires 0 <= k < |places| => Page(FilePage(file, k), places[k]))
  }

  // Files, and a place for each of their pages.
  ghost predicate Placed(files: seq<seq<byte>>, places: seq<seq<Place>>) {
    |places| == |files| && forall i :: 0 <= i < |files| ==> |places[i]| == MaxBlock(|files[i]|)
  }

  ghost function AllPages(files: seq<seq<byte>>, places: seq<seq<Place>>): (r: seq<Page>)
    requires Placed(files, places)
    ensures Paged(r)
  {
    if files == [] then []
    else
      var n := |files| - 1;
      AllPages(files[..n], places[..n]) + PagesOf(files[n], places[n])
  }

  // The number of each file's first page.
  ghost function FirstPages(files: seq<seq<byte>>, places: seq<seq<Place>>): (r: seq<nat>)
    requires Placed(files, places)
    ensures |r| == |files|
  {
    seq(|files|, i requires 0 <= i < |files| => |AllPages(files[..i], places[..i])|)
  }

  lemma {:induction false} PageAt(files: seq<seq<byte>>, places: seq<seq<Place>>, i: nat, k: nat)
    requires Placed(files, places) && i < |files| && k < MaxBlock(|files[i]|)
    ensures var a := |AllPages(files[..i], places[..i])| + k;
      a < |AllPages(files, places)| && AllPages(files, places)[a] == Page(FilePage(files[i], k), places[i][k])
    decreases |files|
  {
    hide MaxBlock, FilePage;
    var n := |files| - 1;
    if i < n {
      PageAt(files[..n], places[..n], i, k);
      assert files[..n][..i] == files[..i] && places[..n][..i] == places[..i];
    }
  }
}
