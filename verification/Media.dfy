/**
  Reading an AXFS image whose first part is memory-mapped and whose rest lies on a
  block device: axfs_copy_block_data, axfs_copy_data, axfs_fetch_data and the set-up
  of a region in axfs_do_fill_data_ptrs.

  Offsets are unsigned 64-bit numbers; `unsigned long` is taken to be 64 bits wide.
 */
module Media {
  import opened Bits
  import opened Canonical
  import opened Deflate
  import opened ZlibDecode
  import opened Splicing

  const U64 := 0x1_0000_0000_0000_0000

  // Arithmetic on u64.
  function Add64(a: nat, b: nat): nat { (a + b) % U64 }

  function Sub64(a: nat, b: nat): nat
    requires a < U64 && b < U64
  {
    (a - b + U64) % U64
  }

  // A big-endian 64-bit field of a descriptor.
  function Be64(bytes: seq<byte>, at: nat, n: nat): nat
    requires at + n <= |bytes|
    decreases n
  {
    if n == 0 then 0 else 256 * Be64(bytes, at, n - 1) + bytes[at + n - 1]
  }

  lemma {:induction false} Be64Bound(bytes: seq<byte>, at: nat, n: nat)
    requires at + n <= |bytes|
    ensures Be64(bytes, at, n) < Pow2(8 * n)
    decreases n
  {
    if n > 0 {
      Be64Bound(bytes, at, n - 1);
      var m: nat := 8 * (n - 1);
      assert Pow2(m + 8) == 256 * Pow2(m) by { ShlPow2(m, 8); ShlEight(Pow2(m), 8); }
    }
  }

  // The byte in front weighs most.
  lemma {:induction false} HighestFirst(bytes: seq<byte>, at: nat, n: nat)
    requires 0 < n && at + n <= |bytes|
    ensures Be64(bytes, at, n) == Shl(bytes[at], 8 * (n - 1)) + Be64(bytes, at + 1, n - 1)
    decreases n
  {
    if n > 1 {
      HighestFirst(bytes, at, n - 1);
      var m: nat, b: nat := 8 * (n - 2), 8;
      ShlEight(Shl(bytes[at], m), b);
      ShlShl(bytes[at], m, b);
    }
  }

  // ------------------------------------------------------------ the media

  // A file system image in place: the mapped part in memory, and a block device that
  // holds the rest, or all of it if nothing is mapped.
  datatype Store = Store(
    image: seq<byte>,
    mmapSize: nat,
    physAddr: nat,
    virtAddr: nat,
    device: seq<byte>,
    blockSize: nat) {

    predicate Mapped() { physAddr > 0 || virtAddr > 0 }

    ghost predicate Valid() {
      && 0 < blockSize
      && |image| < U64 && mmapSize < U64
      && (Mapped() ==> mmapSize <= |image| && device == image[mmapSize..])
      && (!Mapped() ==> device == image)
    }

    // The offset on the block device that stands for an offset in the image, as a u64.
    function BlockOffset(fsoffset: nat): nat
      requires fsoffset < U64 && mmapSize < U64
    {
      if !Mapped() then fsoffset else Sub64(fsoffset, mmapSize)
    }

    predicate IsMmapable(offset: nat) { mmapSize >= offset }

    predicate IsOffsetMmapable(offset: nat) { IsMmapable(offset) && Mapped() }

    // One block of the device; behind the end of the device it reads as zeros.
    function ReadBlock(block: nat): (b: seq<byte>)
      requires blockSize > 0
      ensures |b| == blockSize
      ensures forall i :: 0 <= i < blockSize ==> b[i] == ByteAt(device, block * blockSize + i)
    {
      seq<byte>(blockSize, i requires 0 <= i => ByteAt(device, block * blockSize + i))
    }
  }

  // ------------------------------------------------------------ axfs_copy_block_data

  predicate Aligned(x: nat, blockSize: nat)
    requires blockSize > 0
  {
    x % blockSize == 0
  }

  function Position(block: nat, skip: nat, blockSize: nat): nat {
    block * blockSize + skip
  }

  // One block read into dst: `bytes` bytes from position `skip` of the block, which is
  // position `from` of the device.
  method CopyFromBlock(store: Store, dst: array<byte>, at: nat, block: nat, skip: nat, bytes: nat, ghost from: nat)
    requires store.blockSize > 0 && skip + bytes <= store.blockSize && at + bytes <= dst.Length
    requires from == Position(block, skip, store.blockSize) && from + bytes <= |store.device|
    modifies dst
    ensures dst[..] == Spliced(old(dst[..]), at, store.device[from..from + bytes])
  {
    hide Spliced;
    var bh := store.ReadBlock(block);
    NothingSpliced(dst[..], at);
    assert store.device[from..from] == [];
    for i := 0 to bytes
      invariant dst[..] == Spliced(old(dst[..]), at, store.device[from..from + i])
    {
      assert bh[skip + i] == store.device[from + i];
      SplicedNext(old(dst[..]), at, store.device[from..from + i], bh[skip + i]);
      assert store.device[from..from + i] + [bh[skip + i]] == store.device[from..from + i + 1];
      dst[at + i] := bh[skip + i];
    }
  }

  lemma SliceJoin(s: seq<byte>, a: nat, b: nat, c: nat)
    requires a <= b <= c <= |s|
    ensures s[a..b] + s[b..c] == s[a..c]
  {
  }

  // What to read next: the rest of the block on the first round, whole blocks later,
  // and no more than is wanted.
  method NextRead(boffset: nat, copied: nat, len: nat, blockSize: nat) returns (block: nat, skip: nat, bytes: nat)
    requires 0 < blockSize && copied < len
    requires copied > 0 ==> Aligned(boffset + copied, blockSize)
    ensures Position(block, skip, blockSize) == boffset + copied
    ensures 0 < bytes <= len - copied && skip + bytes <= blockSize
    ensures copied + bytes < len ==> Aligned(boffset + copied + bytes, blockSize)
  {
    block := (boffset + copied) / blockSize;
    if copied == 0 {
      skip := boffset % blockSize;
      bytes := blockSize - skip;
      if bytes > len { bytes := len; }
    } else {
      skip := 0;
      bytes := if len - copied < blockSize then len - copied else blockSize;
    }
    BlockBounds(boffset + copied, blockSize, bytes);
  }

  // Copy len bytes of the device from boffset on to dst[at..].
  method CopyBlockData(store: Store, dst: array<byte>, at: nat, boffset: nat, len: nat)
    requires store.blockSize > 0 && at + len <= dst.Length
    requires len > 0 ==> boffset + len <= |store.device|
    modifies dst
    ensures dst[..]
         == if len == 0 then old(dst[..]) else Spliced(old(dst[..]), at, store.device[boffset..boffset + len])
  {
    hide Aligned, Position, Spliced;
    if len == 0 { return; }
    var copied := 0;
    NothingSpliced(dst[..], at);
    assert store.device[boffset..boffset] == [];
    while copied < len
      invariant copied <= len
      // after the first block every read starts at a block boundary
      invariant 0 < copied < len ==> Aligned(boffset + copied, store.blockSize)
      invariant dst[..] == Spliced(old(dst[..]), at, store.device[boffset..boffset + copied])
      decreases len - copied
    {
      var block, skip, bytes := NextRead(boffset, copied, len, store.blockSize);
      CopyFromBlock(store, dst, at + copied, block, skip, bytes, boffset + copied);
      SliceJoin(store.device, boffset, boffset + copied, boffset + copied + bytes);
      SplicedTwice(old(dst[..]), at, store.device[boffset..boffset + copied],
                   store.device[boffset + copied..boffset + copied + bytes]);
      copied := copied + bytes;
    }
  }

  // Where x lies in its block; and n bytes from there that fill the block end at a boundary.
  lemma BlockBounds(x: nat, d: nat, n: nat)
    requires d > 0
    ensures x == x / d * d + x % d && 0 <= x % d < d
    ensures x % d + n == d ==> (x + n) % d == 0
  {
    if x % d + n == d {
      MultipleMod(x / d + 1, d, x + n);
    }
  }

  lemma MultipleMod(k: nat, d: nat, x: nat)
    requires d > 0 && x == k * d
    ensures x % d == 0
  {
    var q, r := x / d, x % d;
    assert x == q * d + r;
    assert (k - q) * d == r;
    NoMultipleBetween(k - q, d);
  }

  lemma NoMultipleBetween(k: int, d: nat)
    requires d > 0
    ensures k * d <= 0 || k * d >= d
  {
    if k >= 1 { assert k * d >= d; }
  }

  // ------------------------------------------------------------ axfs_fetch_data

  // Copy part of the mapped image.
  method FetchMmapableData(store: Store, fsoffset: nat, len: nat) returns (r: array<byte>)
    requires store.Valid() && store.Mapped() && fsoffset + len <= store.mmapSize
    ensures fresh(r) && r[..] == store.image[fsoffset..fsoffset + len]
  {
    r := new byte[len];
    CopyMemory(r, 0, store.image, fsoffset, len);
  }

  method FetchBlockData(store: Store, boffset: nat, len: nat) returns (r: array<byte>)
    requires store.Valid() && boffset + len <= |store.device|
    ensures fresh(r) && r[..] == store.device[boffset..boffset + len]
  {
    r := new byte[len];
    CopyBlockData(store, r, 0, boffset, len);
  }

  // Any part of the image, wherever it lies against the end of the mapping.
  method FetchData(store: Store, fsoffset: nat, len: nat) returns (r: array<byte>)
    requires store.Valid() && fsoffset + len <= |store.image|
    ensures fresh(r) && r[..] == store.image[fsoffset..fsoffset + len]
  {
    hide Add64, Sub64, Spliced;
    NoWrap(fsoffset, len, 0);
    var end := Add64(fsoffset, len);
    EndOf(fsoffset, len);
    if store.IsOffsetMmapable(fsoffset) {
      if store.IsOffsetMmapable(end) {
        r := FetchMmapableData(store, fsoffset, len);
        return;
      }
      var mmapLen := store.mmapSize - fsoffset;
      var mmapBuffer := FetchMmapableData(store, fsoffset, mmapLen);
      var blkBuffer := FetchBlockData(store, 0, end - store.mmapSize);
      r := new byte[len];
      ghost var before := r[..];
      CopyMemory(r, 0, mmapBuffer[..], 0, mmapLen);
      CopyMemory(r, mmapLen, blkBuffer[..], 0, end - store.mmapSize);
      assert mmapBuffer[..][0..mmapLen] == mmapBuffer[..] && blkBuffer[..][0..end - store.mmapSize] == blkBuffer[..];
      SplicedTwice(before, 0, mmapBuffer[..], blkBuffer[..]);
      WholeSpliced(before, mmapBuffer[..] + blkBuffer[..]);
      SuffixSlice(store.image, store.mmapSize, store.mmapSize, end);
      SliceJoin(store.image, fsoffset, store.mmapSize, end);
    } else {
      BlockOffsetOf(store, fsoffset, len);
      r := FetchBlockData(store, store.BlockOffset(fsoffset), len);
    }
  }

  lemma EndOf(a: nat, n: nat)
    requires a + n < U64
    ensures Add64(a, n) == a + n
  {
  }

  // What is not in the mapping is found on the device at its block offset.
  lemma BlockOffsetOf(store: Store, fsoffset: nat, len: nat)
    requires store.Valid() && fsoffset + len <= |store.image| && !store.IsOffsetMmapable(fsoffset)
    ensures store.BlockOffset(fsoffset) + len <= |store.device|
    ensures store.device[store.BlockOffset(fsoffset)..store.BlockOffset(fsoffset) + len]
         == store.image[fsoffset..fsoffset + len]
  {
    if store.Mapped() {
      SuffixSlice(store.image, store.mmapSize, fsoffset, fsoffset + len);
    }
  }

  // ------------------------------------------------------------ decompression

  // The bytes that a compressed block of the image stands for, if there are any.
  ghost function Decompressed(src: seq<byte>, size: nat): Option<seq<byte>> {
    match Inflate(src, true, size)
    case Accepted(out, _) => Some(out)
    case _ => None
  }

  // What axfs_uncompress_block returns: the length of the output, or 0 on an error.
  ghost function UncompressedLength(src: seq<byte>, size: nat): nat {
    match Decompressed(src, size)
    case Some(out) => |out|
    case None => 0
  }

  method UncompressBlock(dst: array<byte>, src: seq<byte>) returns (out: nat)
    modifies dst
    ensures out == UncompressedLength(src, dst.Length)
    ensures Decompressed(src, dst.Length).Some? ==>
      out <= dst.Length && dst[..out] == Decompressed(src, dst.Length).value
  {
    var st, n := DecodeBuffer(dst, src, true);
    out := if st.Done? then n else 0;
  }

  // ------------------------------------------------------------ regions

  lemma {:induction false} Be64Slice(image: seq<byte>, at: nat, k: nat, n: nat)
    requires at + k + n <= |image| && k + n <= 40 && at + 40 <= |image|
    ensures Be64(image[at..at + 40], k, n) == Be64(image, at + k, n)
    decreases n
  {
    if n > 0 { Be64Slice(image, at, k, n - 1); }
  }

  lemma DescriptorAt(image: seq<byte>, at: nat)
    requires at + 40 <= |image|
    ensures var d := image[at..at + 40];
      && Be64(d, 0, 8) == Be64(image, at, 8) && Be64(d, 8, 8) == Be64(image, at + 8, 8)
      && Be64(d, 16, 8) == Be64(image, at + 16, 8) && Be64(d, 24, 8) == Be64(image, at + 24, 8)
      && d[32] == image[at + 32] && d[33] == image[at + 33]
  {
    hide Be64;
    Be64Slice(image, at, 0, 8);
    Be64Slice(image, at, 8, 8);
    Be64Slice(image, at, 16, 8);
    Be64Slice(image, at, 24, 8);
  }

  // A region descriptor in core.  `virt` is the memory that its virtual address gives
  // access to: part of the mapped image, or a copy made when the region was set up.
  class Region {
    var fsoffset: nat
    var size: nat
    var compressedSize: nat
    var maxIndex: nat
    var tableByteDepth: byte
    var incore: byte
    var virt: Option<seq<byte>>

    constructor ()
      ensures virt == None
    {
      fsoffset, size, compressedSize, maxIndex, tableByteDepth, incore := 0, 0, 0, 0, 0, 0;
      virt := None;
    }

    ghost predicate InImage(store: Store)
      reads this
    {
      fsoffset + (if compressedSize > 0 then compressedSize else size) <= |store.image|
    }

    // Set up for reading a region that is not compressed as a whole: the memory at the
    // virtual address is the region's part of the image, as far as the mapping goes,
    // and a region without an address lies on the block device.
    ghost predicate Ready(store: Store)
      reads this
    {
      && compressedSize == 0
      && InImage(store)
      && match virt
         case None => size > 0 && store.Mapped() ==> store.mmapSize < fsoffset
         case Some(w) =>
           && (forall k :: 0 <= k < |w| && k < size ==> w[k] == store.image[fsoffset + k])
           && (|w| >= size || fsoffset + |w| >= store.mmapSize)
    }

    predicate IsCompressed() reads this { compressedSize > 0 }

    predicate IsIncore() reads this { incore > 0 }

    predicate IsXip(store: Store)
      reads this
    {
      !IsCompressed() && !IsIncore() && store.IsOffsetMmapable(fsoffset)
    }

    // How much of a read at `offset` is taken from memory: all that lies in front of the end
    // of the mapping, and no more.
    function FromMemory(store: Store, offset: nat, len: nat): (mmapped: nat)
      requires fsoffset + offset + len < U64
      reads this
      ensures mmapped <= len
      ensures mmapped > 0 ==> virt.Some? && fsoffset + offset + mmapped <= store.mmapSize
      ensures mmapped < len ==> virt.None? || fsoffset + offset + mmapped >= store.mmapSize
    {
      if virt.None? then 0
      else
        var begin, end := Add64(fsoffset, offset), Add64(Add64(fsoffset, offset), len);
        if store.mmapSize > end then len
        else if store.mmapSize > begin then store.mmapSize - begin
        else 0
    }

    // Copy part of the region to dst.
    method CopyData(store: Store, dst: array<byte>, offset: nat, len: nat)
      requires store.Valid() && Ready(store) && offset + len <= size && len <= dst.Length
      modifies dst
      ensures dst[..] == Spliced(old(dst[..]), 0, store.image[fsoffset + offset..fsoffset + offset + len])
    {
      hide Spliced, Add64;
      ghost var before, at := dst[..], fsoffset + offset;
      NothingSpliced(before, 0);
      assert store.image[at..at] == [];
      if len == 0 { return; }
      var mmapped := FromMemory(store, offset, len);
      if mmapped != 0 {
        InMemory(store, offset, len);
        CopyMemory(dst, 0, virt.value, offset, mmapped);
      }
      // the block offset may wrap below zero and back
      var boffset := Add64(Add64(store.BlockOffset(fsoffset), offset), mmapped);
      RestOnDevice(store, offset, len);
      CopyBlockData(store, dst, mmapped, boffset, len - mmapped);
      SliceJoin(store.image, at, at + mmapped, at + len);
      SplicedTwice(before, 0, store.image[at..at + mmapped], store.image[at + mmapped..at + len]);
    }

    ghost predicate Describes(image: seq<byte>, at: nat)
      requires at + 40 <= |image|
      reads this
    {
      && fsoffset == Be64(image, at, 8) && size == Be64(image, at + 8, 8)
      && compressedSize == Be64(image, at + 16, 8) && maxIndex == Be64(image, at + 24, 8)
      && tableByteDepth == image[at + 32] && incore == image[at + 33]
    }

    method ReadDescriptor(store: Store, at: nat)
      requires store.Valid() && at + 40 <= |store.image|
      modifies this
      ensures Describes(store.image, at) && virt == old(virt)
    {
      hide Be64;
      var oregion := FetchData(store, at, 40);
      DescriptorAt(store.image, at);
      fsoffset := Be64(oregion[..], 0, 8);
      size := Be64(oregion[..], 8, 8);
      compressedSize := Be64(oregion[..], 16, 8);
      maxIndex := Be64(oregion[..], 24, 8);
      tableByteDepth := oregion[32];
      incore := oregion[33];
    }

    // The mapped image itself, from the start of the region on.
    method MapXip(store: Store)
      requires store.Valid() && InImage(store) && IsXip(store)
      modifies `virt
      ensures Ready(store) && virt.Some?
      ensures fsoffset + size <= store.mmapSize ==> |virt.value| >= size
    {
      if store.physAddr > 0 {
        var mapped := if store.mmapSize > fsoffset + size then size else store.mmapSize - fsoffset;
        virt := Some(store.image[fsoffset..fsoffset + mapped]);
      } else {
        virt := Some(store.image[fsoffset..store.mmapSize]);
      }
    }

    // A copy of the region, decompressed if it is compressed.
    method CopyIn(store: Store) returns (err: nat)
      requires store.Valid() && InImage(store)
      modifies `virt
      ensures compressedSize == 0 ==> err == 0 && Ready(store) && virt.Some? && |virt.value| == size
      ensures compressedSize > 0 ==>
        && err == UncompressedLength(store.image[fsoffset..fsoffset + compressedSize], size)
        && (virt.Some? <==> err == 0)
    {
      hide Inflate, Spliced;
      var copy := new byte[size];
      err := 0;
      if IsCompressed() {
        var mapped := FetchData(store, fsoffset, compressedSize);
        err := UncompressBlock(copy, mapped[..]);
      } else {
        var mapped := FetchData(store, fsoffset, size);
        ghost var before := copy[..];
        CopyMemory(copy, 0, mapped[..], 0, size);
        assert mapped[..][0..size] == mapped[..];
        WholeSpliced(before, mapped[..]);
      }
      virt := if err == 0 then Some(copy[..]) else None;
    }

    // Fill in the descriptor at `at` of the image and make the region readable.
    // `forceVa` asks for an address that covers the whole region.
    method DoFillDataPtrs(store: Store, at: nat, forceVa: bool) returns (err: nat)
      requires store.Valid() && at + 40 <= |store.image|
      requires Be64(store.image, at, 8) + Be64(store.image, at + 8, 8) < U64
      requires var onMedia := Be64(store.image, at + if Be64(store.image, at + 16, 8) > 0 then 16 else 8, 8);
        Be64(store.image, at, 8) + onMedia <= |store.image|
      modifies this
      ensures Describes(store.image, at)
      // an uncompressed region is always set up for reading
      ensures compressedSize == 0 && size > 0 ==> err == 0 && Ready(store)
      ensures compressedSize == 0 && size > 0 && forceVa ==> virt.Some? && |virt.value| >= size
      ensures size == 0 ==> err == 0 && virt == old(virt)
      ensures compressedSize == 0 && size == 0 && virt.None? ==> Ready(store)
      // for a compressed region the length that the decompressor returns is taken for an error code
      ensures compressedSize > 0 && size > 0 ==>
        && err == UncompressedLength(store.image[fsoffset..fsoffset + compressedSize], size)
        && (virt.Some? <==> err == 0)
    {
      hide Be64, Inflate;
      ReadDescriptor(store, at);
      err := 0;
      if size == 0 { return; }
      EndOf(fsoffset, size);
      var end := Add64(fsoffset, size);
      if IsXip(store) && !(forceVa && store.mmapSize < end) {
        MapXip(store);
      } else if IsIncore() || IsCompressed() || forceVa {
        err := CopyIn(store);
      } else {
        virt := None;
      }
    }

    lemma InMemory(store: Store, offset: nat, len: nat)
      requires store.Valid() && Ready(store) && offset + len <= size && FromMemory(store, offset, len) > 0
      ensures var mmapped := FromMemory(store, offset, len);
        && virt.Some? && offset + mmapped <= |virt.value|
        && virt.value[offset..offset + mmapped] == store.image[fsoffset + offset..fsoffset + offset + mmapped]
    {
    }

    // Whatever is not taken from memory lies on the block device.
    lemma RestOnDevice(store: Store, offset: nat, len: nat)
      requires store.Valid() && Ready(store) && offset + len <= size
      ensures var mmapped := FromMemory(store, offset, len);
        var boffset := Add64(Add64(store.BlockOffset(fsoffset), offset), mmapped);
        mmapped < len ==>
          && boffset + (len - mmapped) <= |store.device|
          && store.device[boffset..boffset + (len - mmapped)]
               == store.image[fsoffset + offset + mmapped..fsoffset + offset + len]
    {
      hide Add64, Sub64;
      var mmapped, pos := FromMemory(store, offset, len), fsoffset + offset;
      if mmapped < len {
        if store.Mapped() {
          assert pos + mmapped >= store.mmapSize;
          WrapBack(fsoffset, store.mmapSize, offset, mmapped);
          SuffixSlice(store.image, store.mmapSize, pos + mmapped, pos + len);
        } else {
          NoWrap(fsoffset, offset, mmapped);
        }
      }
    }
  }

  lemma NoWrap(a: nat, x: nat, y: nat)
    requires a + x + y < U64
    ensures Add64(Add64(a, x), y) == a + x + y
  {
  }

  lemma SuffixSlice(s: seq<byte>, m: nat, a: nat, b: nat)
    requires m <= a <= b <= |s|
    ensures s[m..][a - m..b - m] == s[a..b]
  {
  }

  // Adding offsets undoes the wrap below zero.
  lemma WrapBack(a: nat, m: nat, x: nat, y: nat)
    requires m <= a + x + y < U64 && a < U64 && m < U64
    ensures Add64(Add64(Sub64(a, m), x), y) == a + x + y - m
  {
  }
}
