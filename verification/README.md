# A model of the AXFS reader and its decoders

AXFS is a read-only file system whose data lie partly in memory-mapped flash and partly
on a block device, with some blocks compressed. This project models how its reader gets
from an image to the bytes of a file, and the decoders of the bundled `stb_image.h`, and
proves what they compute.

The main results:

- **Inflating** (`Inflater`, `ZlibDecode`). The imperative zlib decoder - a 32-bit reservoir
  over the input, two-level Huffman tables, an output buffer that may double while it is
  written - agrees with a recursive decoder written after RFC 1951 (`Deflate`) on every
  input, accepted or not. Of whatever an encoder makes of any list of stored, fixed and
  dynamic chunks, with codes announced in any way that section 3.2.7 of RFC 1951 allows
  (`DeflateHeader`, `DeflateRoundTrip`), that decoder makes the bytes that the chunks spell:
  literals in their places, and in a match each byte equal to the one `distance` places
  before it (`Spells`, `CopyBack`). It does not look at what follows a stream
  (`DeflateTrailer`), gives the same result under every bound that the output fits
  (`DeflateLimits`), and meets the examples of RFC 1951 (`KnownStreams`).
- **Reading pages** (`Media`, `ByteTable`, `ReadPage`). A page read from a stored file holds
  the file's bytes wherever they lie - XIP, compressed or byte-aligned region, mapped or on
  the device - and in every state of the one-block cache.
- **Whole images** (`Mount`, `ImageLayout`, `ImageWriter`, `ImageRoundTrip`). Files whose pages
  are written to the three regions in any mixture are stored by the file system that is set
  up from the image, and reading any of their pages gives them back (`ReadWritten`).
- **The shared cache** (`CacheProtocol`, `SharedReading`). In every interleaving of any number
  of reading threads, whoever is done has copied the block that it asked for last, from the
  offset that it asked for (`LastRequestServed`), and so the bytes of its file; runs end and
  the lock does not leave all threads waiting.
- **Directories** (`Directory`). Early-exit lookup is exhaustive search on sorted
  directories, and the profiler's paths, as names and as text, lead back to their inodes.
- **GIF** (`GifLzw`, `GifEncode`, `GifRaster`, `GifPlacement`, `GifColors`). The raster decoder
  draws what an LZW encoder that clears full tables was given, each pixel exactly once and in
  its place, interlaced or not, as red, green, blue and alpha of its entry in the color table
  of the file (`DrawRaster`).
- **JPEG** (`JpegBits`, `JpegHuffman`, `JpegBlock`, `JpegEncode`). Decoding a block with the
  fast AC table gives what decoding code by code gives, from any entropy-coded data, and any
  block that is written along the zigzag with any codes is read back, each coefficient in its
  place (`BlockRoundTrip`).
- **PNG** (`PngFilter`, `PngImage`, `PngRestored`, `Adam7`, `PngInterlace`). Any picture,
  filtered in any way and interlaced or not, is restored, with alpha inserted if asked for;
  and whatever was sent, each byte is restored as RFC 2083 describes the filter of its row
  (`ImageRight`).

Where the code does not do what it is meant to do, the model keeps the code's behaviour, says
exactly when it fails, and shows an input:

- The reserved length symbols 286 and 287 stand for a copy of length 0. If zeros stand for
  such a copy, it is repeated for ever behind the end of the input (`DivergesExactly`,
  `InflateDivergesExactly`, `EndlessStream`); the fixed codes are not affected
  (`FixedNeverDiverges`).
- Distances 30 and 31 copy bytes that were never written (`CopyUndefinedExactly`,
  `UnwrittenStream`); the array of code lengths is left by repeat code 16 in front
  (`FewLengthsInside`, `RepeatStream`) and, with HLIT above 286, by a run of zeros
  (`LengthsExactly`, `OverrunStream`). The streams with such a block are `Undefined`
  (`InflateUndefinedExactly`).
- The missing bits of a stream that is cut off read as zeros (`CutOffExactly`), and it is
  accepted if they make up the end of its last block (`MissingEndAcceptedExactly`,
  `PrefixExactly`, `FixedCutAccepted`, `OneByteStream`).
- `axfs_uncompress_block` returns a length, and `axfs_do_fill_data_ptrs` takes every result
  other than 0 for an error code: a region that is compressed as a whole is set up only if
  nothing comes out of it (`DoFillDataPtrs`, `SetUpCompressed`).
- `axfs_readpage` keeps the length of a byte-aligned read in 32 bits (`AlignedNodeExact`,
  `ReadLost`).
- The JPEG fast table marks words that it does not hold with 255, which is also the index of
  the last of 256 symbols (`WordRightIffClear`, `CleanExactly`, `ClashExists`); assertions are
  taken to be off. DC sizes above 15 are not covered by stb_image's table of biases
  (`UnspecifiedExactly`, `LongDcExists`), and more than 256 codes overrun its tables (`Build`,
  `OverrunExists`).
- A GIF table that is full must be cleared: the next string code is refused, although GIF89a
  lets encoders go on with the full table (`DeferredRaster`, `UnclearedRaster`).

## Modules

`Arithmetic`, `Bits`, `Splicing` and `Packing` hold shifts, bit streams and overwritten
sequences. `Canonical`, `Huffman`, `Lookup`, `Reversal` and `SymbolTables` are the Huffman
tables of the zlib decoder. `DeflateAhead`, `DeflateLengths`, `DeflateDivergence`,
`DeflateUndefined` and `DeflateCutOff` say what becomes of streams that are not well formed,
`GifDeferred` what becomes of rasters whose table is not cleared. Where the C code has an object whose fields it changes, the model
has a class with these fields; its methods are specified by functions on values, and the
lemmas are about these functions.

Loops with several purposes are cut into methods.

## Model

| member | source | states |
|---|---|---|
| Inflater.ZBuf.ParseZlib | axfs/stb_image.h:3790-3817 | for every input, header mode and buffer, the imperative decoder ends as the recursive RFC 1951 decoder `Inflate` says: accepted with exactly those bytes, rejected, outside what C defines, or never |
| Inflater.ZBuf.ParseBlocks | axfs/stb_image.h:3796-3815 | the block loop yields the verdict of `Blocks`; its output is the whole buffer content, also after the buffer has moved |
| Inflater.ZBuf.ParseNextBlock | axfs/stb_image.h:3796-3814 | one round reads the final bit and the kind and agrees with `Block` |
| Inflater.ZBuf.ParseBlock | axfs/stb_image.h:3798-3814 | the body of each kind of block is decoded as RFC 1951 says, kind 3 is rejected |
| Inflater.ZBuf.ParseHuffmanBlock | axfs/stb_image.h:3647-3687 | the symbol loop agrees with `HuffmanBlock` for any two built tables, including the case that it never ends |
| Inflater.ZBuf.ParseSymbol | axfs/stb_image.h:3650-3686 | one literal, end-of-block or match step, in a fixed or a growing buffer |
| Inflater.ZBuf.ParseMatch | axfs/stb_image.h:3664-3685 | length and distance are decoded and the copy is placed, or the match is refused |
| Inflater.ZBuf.CopyMatch | axfs/stb_image.h:3669-3685 | a distance without a code, beyond the output, or without room is refused, in the order in which the code checks |
| Inflater.ZBuf.CopyFromDistance | axfs/stb_image.h:3671-3685 | the copy goes to the end of the output, growing the buffer first if it must |
| Inflater.ZBuf.PlaceCopy | axfs/stb_image.h:3676-3685 | in a buffer with room, the output is extended by the overlapping copy |
| Inflater.CopyBack | axfs/stb_image.h:3676-3685 | every byte that the loop or the `dist == 1` shortcut writes equals the one `distance` places before it in the buffer, also when source and target overlap, and the bytes in front of the copy stay as they were; so the output is the LZ77 extension |
| Inflater.FillRun | axfs/stb_image.h:3677-3680 | the shortcut for distance 1: the same, with every byte equal to the one before it |
| Deflate.ExtendRepeats | axfs/stb_image.h:3676-3685 | each byte that a copy appends is the one `distance` places before it |
| Deflate.RepeatsIsExtend | axfs/stb_image.h:3676-3685 | and there is only one output of that length of which this is true |
| Inflater.ZBuf.PutByte | axfs/stb_image.h:3652-3659 | a literal is appended, after growing a full buffer, or refused |
| Inflater.ZBuf.ReceiveLength | axfs/stb_image.h:3665-3668 | base plus extra bits is the length of the match |
| Inflater.ZBuf.ReceiveDistance | axfs/stb_image.h:3671-3672 | base plus extra bits is the distance |
| Inflater.ZBuf.ReceiveExtra | axfs/stb_image.h:3668-3672 | extra bits are fetched only when there are some |
| Inflater.ZBuf.Zexpand | axfs/stb_image.h:3614-3631 | a full buffer is doubled until the output fits, keeps its contents, and is given up exactly if the doubling limit does not allow it |
| Inflater.ZBuf.Zget8 | axfs/stb_image.h:3557-3561 | the next input byte, and zero behind the end |
| Inflater.ZBuf.FillByte | axfs/stb_image.h:3566-3569 | one byte is loaded above the bits that are already there |
| Inflater.ZBuf.FillBits | axfs/stb_image.h:3563-3570 | the reservoir is refilled past 24 bits without moving the stream position |
| Inflater.ZBuf.Consume | axfs/stb_image.h:3576-3579 | dropping bits moves the stream position by as many |
| Inflater.ZBuf.Receive | axfs/stb_image.h:3572-3580 | the next n bits of the zero-padded stream as a little-endian number (section 3.1.1 of RFC 1951) |
| Inflater.ZBuf.HuffmanDecode | axfs/stb_image.h:3600-3612 | over every reservoir: symbol v and its length exactly if v's canonical code comes next, -1 exactly if no code does |
| Inflater.ZBuf.HuffmanDecodeSlowPath | axfs/stb_image.h:3582-3598 | after a miss in the fast table the comparison with `maxcode` finds the same symbol, and the assertion on its size holds |
| Inflater.ZBuf.FindLength | axfs/stb_image.h:3588-3591 | the first length past nine whose limit lies above the next sixteen bits |
| Inflater.ZBuf.SixteenReversed | axfs/stb_image.h:3587 | the reversed reservoir is the next sixteen bits, first bit highest |
| Inflater.ZBuf.SlotOfNext | axfs/stb_image.h:3595-3597 | the computed index holds the next symbol and its size |
| Inflater.ZBuf.AtLimit | axfs/stb_image.h:3589 | comparing with a preshifted limit tells whether the next code has at most that length |
| Inflater.ZBuf.ParseZlibHeader | axfs/stb_image.h:3764-3775 | the two header bytes are accepted exactly if their check value is right, no dictionary is preset and the method is 8 (section 2.2 of RFC 1950) |
| DeflateRoundTrip.HeaderExactly | axfs/stb_image.h:3764-3775 | a header is accepted exactly if bits 0 to 3 are the number 8, bit 13, which announces a preset dictionary, is 0, and the two bytes are a multiple of 31 |
| DeflateRoundTrip.PreambleAccepted | axfs/stb_image.h:3764-3775 | so a header is accepted for each of the eight window sizes and four levels that RFC 1950 defines |
| Inflater.ZBuf.ComputeHuffmanCodes | axfs/stb_image.h:3689-3733 | a dynamic header gives the tables of section 3.2.7 of RFC 1951, or is refused, or runs out of its array |
| Inflater.ZBuf.ReadCounts | axfs/stb_image.h:3697-3699 | HLIT, HDIST and HCLEN |
| Inflater.ZBuf.ReadDynamicLengths | axfs/stb_image.h:3697-3728 | both codes' lengths in one list, overshooting runs rejected |
| Inflater.ZBuf.ReadZigzag | axfs/stb_image.h:3701-3705 | the code length code's lengths in their transmission order |
| Inflater.ZBuf.ReadCodeLengths | axfs/stb_image.h:3708-3728 | the run-length expansion of section 3.2.7 of RFC 1951 |
| Inflater.ZBuf.ReadRun | axfs/stb_image.h:3709-3727 | one code length or run; the cases in which the C code would leave its array are told apart |
| Inflater.ZBuf.BuildTables | axfs/stb_image.h:3730-3731 | both tables are built, or an over-full code is refused |
| Inflater.ZBuf.AlignToByte | axfs/stb_image.h:3739-3740 | dropping the rest of a byte puts the stream on a byte boundary |
| Inflater.ZBuf.DrainHeader | axfs/stb_image.h:3742-3748 | whatever had been prefetched, only bytes of LEN and NLEN are left, and they come out in order |
| Inflater.ZBuf.DrainByte | axfs/stb_image.h:3744-3746 | one prefetched byte |
| Inflater.ZBuf.ReadStoredHeader | axfs/stb_image.h:3742-3752 | the four bytes of LEN and NLEN, and nothing behind them has been read |
| Inflater.ZBuf.ReadStoredLength | axfs/stb_image.h:3753-3755 | LEN, if NLEN is its complement |
| Inflater.ZBuf.ParseUncompressedBlock | axfs/stb_image.h:3735-3762 | a stored block's data start right behind its header and are copied to the output |
| Inflater.ZBuf.CopyInput | axfs/stb_image.h:3758-3760 | the bytes at `zbuffer` are appended to the output |
| Inflater.GrownExact | axfs/stb_image.h:3621-3623 | the size that doubling reaches within the allocator's limit: a number of doublings of the first size, and one more would exceed the limit |
| ZlibDecode.DecodeBuffer | axfs/stb_image.h:3866-3902 | the fixed-buffer entry points return the length and the bytes that the recursive decoder accepts within the buffer, else -1 |
| ZlibDecode.DecodeMalloc | axfs/stb_image.h:3829-3891 | the growing entry points do the same up to the doubling limit, whatever the initial size |
| DeflateLimits.LimitExact | axfs/stb_image.h:3614-3631 | a stream is accepted within a bound exactly if it is accepted within a larger one with output that fits, with the same result: growing output refines fixed output |
| DeflateLimits.BlocksLimit | axfs/stb_image.h:3796-3815 | the same from any block on |
| DeflateLimits.HuffmanBlockLimit | axfs/stb_image.h:3647-3687 | the same within a block |
| DeflateDivergence.DivergesIffEndless | axfs/stb_image.h:3650-3686 | the verdict Diverges is given to exactly those blocks whose symbol loop goes on for ever |
| DeflateDivergence.DivergesExactly | axfs/stb_image.h:3647-3687 | a block never ends exactly if its loop gets behind the input with output so far at least as long as the distance that zeros stand for, and zeros stand for a reserved length symbol (286 or 287): with any other codes every block ends |
| DeflateDivergence.StandstillExactly | axfs/stb_image.h:3664-3685 | a round over zeros changes nothing exactly if it is such an empty copy |
| DeflateDivergence.FixedNeverDiverges | axfs/stb_image.h:3778-3804 | with the fixed codes, in which both reserved symbols have codes, zeros end the block, so that every such block ends |
| DeflateDivergence.InflateDivergesExactly | axfs/stb_image.h:3790-3817 | a whole stream is never done with exactly if one of its blocks announces such codes and stalls |
| DeflateDivergence.CulpritIsAnnounced | axfs/stb_image.h:3806-3811 | only codes announced in the stream itself can be at fault |
| DeflateDivergence.RoundGrows | axfs/stb_image.h:3650-3686 | a round that goes on puts out something, unless its length symbol is reserved |
| DeflateDivergence.StallsForEver | axfs/stb_image.h:3664-3685 | an empty copy decoded behind the end of the input is decoded again and again |
| DeflateDivergence.EndlessStream | axfs/stb_image.h:3633-3687 | an input that the decoder is never done with, in a buffer of any size: a dynamic header, one literal, and nothing behind it |
| DeflateDivergence.CopyUndefinedExactly | axfs/stb_image.h:3671-3685 | bytes that were never written are copied exactly if a nonempty copy with room has distance symbol 30 or 31 |
| DeflateDivergence.UnwrittenStream | axfs/stb_image.h:3641-3685 | an input in which that happens |
| DeflateUndefined.InflateUndefinedExactly | axfs/stb_image.h:3790-3817 | a whole stream leaves what C defines exactly if one of its blocks gets to a nonempty copy with room from distance symbol 30 or 31, or has a header whose runs leave the array |
| DeflateUndefined.CodedUndefinedExactly | axfs/stb_image.h:3647-3687 | the same for a block with given codes |
| DeflateUndefined.TablesUndefinedExactly | axfs/stb_image.h:3689-3733 | and for a header |
| DeflateDivergence.BlocksBounded | axfs/stb_image.h:3790-3815 | at most two blocks per input byte and one more are read, because a header behind the end is refused |
| DeflateDivergence.StoredBlockInside | axfs/stb_image.h:3735-3760 | a stored block is accepted only if header and data are in the input, and its output is the input bytes in front of its end |
| Deflate.NoBlockPastEnd | axfs/stb_image.h:3753-3755 | behind the end a block header reads as a stored block with LEN and NLEN 0 and is refused |
| DeflateLengths.LengthsExactly | axfs/stb_image.h:3706-3729 | for every HLIT and HDIST: the lengths are accepted exactly if the runs meet their number, refused exactly if the last run passes it or no code follows, and the 455-entry array is left exactly if the first symbol is repeat code 16 or a run of zeros goes on behind its end |
| DeflateLengths.FewLengthsInside | axfs/stb_image.h:3689-3728 | for HLIT up to 286 the array is left exactly if the first symbol is repeat code 16 |
| DeflateLengths.OverrunStream | axfs/stb_image.h:3706-3728 | an input with HLIT 288 that leaves it with a run of 138 zeros from entry 318 on |
| DeflateLengths.RepeatStream | axfs/stb_image.h:3709-3714 | an input that begins its lengths with repeat code 16 |
| DeflateLengths.RunFits | axfs/stb_image.h:3709-3727 | one run, from any number of lengths: which ones leave the array |
| Deflate.FixedComplete | axfs/stb_image.h:3778-3788 | the fixed codes use up all words |
| Deflate.FixedUsable | axfs/stb_image.h:3778-3788 | and can be built |
| DeflateTrailer.TrailerIrrelevant | axfs/stb_image.h:3790-3817 | bytes behind a complete stream, such as the Adler-32 trailer, never change the result |
| DeflateTrailer.PrefixSuffices | axfs/stb_image.h:3790-3817 | and a stream can be cut behind the byte in which it ends |
| DeflateCutOff.CutOffExactly | axfs/stb_image.h:3557-3561 | an input whose last bytes are missing is judged exactly as if they were zeros, except that it is rejected if the data of a stored block are among them |
| DeflateCutOff.MissingEndAcceptedExactly | axfs/stb_image.h:3557-3561 | an input is accepted although its end is missing exactly if its last block is a coded one whose symbol loop gets to an end-of-block code that goes on behind the input |
| DeflateCutOff.BlockPastExactly | axfs/stb_image.h:3647-3663 | the same for a block: if the loop is at the end of the input or behind it, that code is the one of zeros |
| DeflateCutOff.PrefixExactly | axfs/stb_image.h:3790-3817 | which prefixes of an accepted stream are accepted: those that hold all of it, and those with such a last block |
| DeflateCutOff.PrefixBlanked | axfs/stb_image.h:3557-3561 | a prefix is accepted exactly if the stream is with zeros for the rest, and no stored data are in the rest |
| DeflateCutOff.FixedCutAccepted | axfs/stb_image.h:3778-3804 | a last block with the fixed codes can be cut behind any of its symbols, and what it has put out is accepted |
| DeflateCutOff.ZerosIrrelevant | axfs/stb_image.h:3557-3561 | so that an accepted stream, however much of it is missing, is still accepted with zeros behind it |
| DeflateCutOff.OneByteStream | axfs/stb_image.h:3790-3817 | a single byte can be a whole stream |
| DeflateTrailer.BlocksKept | axfs/stb_image.h:3796-3815 | the same from any block on, for any two inputs that agree up to the end of the stream |
| DeflateTrailer.HuffmanBlockKept | axfs/stb_image.h:3647-3687 | the same within a block |
| DeflateTrailer.DynamicKept | axfs/stb_image.h:3689-3733 | the same for a dynamic header |
| DeflateRoundTrip.RoundTrip | axfs/stb_image.h:3790-3817 | any list of stored, fixed and dynamic chunks, with any usable codes of their own, announced in any way, decodes to the bytes that its chunks spell: stored bytes and literals in their places, and in every match each byte equal to the one `distance` places before it |
| DeflateRoundTrip.ZlibRoundTrip | axfs/stb_image.h:3764-3817 | the same inside a zlib stream with any window, any level and any trailer |
| KnownStreams.KnownFixed | axfs/stb_image.h:3790-3817 | five given bytes, a block with the fixed codes, decode to ababa |
| DeflateRoundTrip.ReadRaw | axfs/stb_image.h:3735-3762 | a stored chunk at any bit position |
| DeflateEncode.ReadTokens | axfs/stb_image.h:3647-3687 | any list of literals and matches that the codes cover is read back as the bytes that it spells |
| DeflateEncode.MeaningSpells | axfs/stb_image.h:3651-3685 | what the tokens stand for, byte by byte: a literal is its own byte, a match repeats earlier output |
| DeflateEncode.SpellsUnique | axfs/stb_image.h:3651-3685 | those conditions determine the output |
| DeflateEncode.ReadMatch | axfs/stb_image.h:3664-3685 | a match of any length 3 to 258 and distance up to 32768 |
| DeflateHeader.ReadHeader | axfs/stb_image.h:3689-3733 | two codes that are announced with any code for the code lengths, any HCLEN that covers it and any runs of codes 0 to 18 are read back |
| DeflateHeader.ReadRuns | axfs/stb_image.h:3708-3727 | repeat codes 16, 17 and 18, with any extra bits, give the lengths they stand for |
| DeflateHeader.ReadAllZigzag | axfs/stb_image.h:3701-3705 | the first HCLEN lengths of the code length code in zigzag order, zero for the others |
| DeflateHeader.ZigzagOrder | axfs/stb_image.h:3691 | the transmission order of section 3.2.7 of RFC 1951 in closed form: 16, 17, 18, 0, then outwards from 8 and 7 in turn |
| DeflateHeader.FlatAnnounces | axfs/stb_image.h:3689-3733 | any two usable codes can be announced |
| DeflateEncode.ReadSymbol | axfs/stb_image.h:3600-3612 | a written code is decoded to its symbol |
| DeflateEncode.LengthIndexCovers | axfs/stb_image.h:3633-3639 | every length 3 to 258 has a symbol |
| DeflateEncode.DistIndexCovers | axfs/stb_image.h:3641-3645 | every distance 1 to 32768 has a symbol |
| SymbolTables.LengthTable | axfs/stb_image.h:3633-3639 | stb_image's length tables are the ranges of section 3.2.5 of RFC 1951 |
| SymbolTables.DistTable | axfs/stb_image.h:3641-3645 | and so are its distance tables |
| SymbolTables.RangesAdjacent | axfs/stb_image.h:3633-3645 | the ranges of neighbouring symbols join without gaps |
| Packing.PackHolds | axfs/stb_image.h:3563-3580 | bits packed into bytes from the lowest bit up are read back in order |
| Packing.ReadField | axfs/stb_image.h:3572-3580 | a written field is received as its value |
| Canonical.NextUnique | axfs/stb_image.h:3503-3515 | no two codes of a list are the start of the same word: the codes are prefix-free |
| Canonical.NextIsUnique | axfs/stb_image.h:3503-3515 | so that the next symbol is determined |
| Canonical.EndIsKraftSum | axfs/stb_image.h:3505-3516 | the end of the last length is the Kraft sum over the nonzero lengths |
| Canonical.EndFits | axfs/stb_image.h:3510-3512 | if the codes fit at the last length they fit at every length, so that the per-length checks are the Kraft inequality |
| Canonical.CodeFits | axfs/stb_image.h:3510-3512 | every code fits its length |
| KnownStreams.ExampleCodes | axfs/stb_image.h:3503-3528 | the lengths of the example in section 3.2.2 of RFC 1951 get the codes that are given there |
| KnownStreams.FixedCodes | axfs/stb_image.h:3778-3788 | the length and the code of every literal and length symbol of the fixed code, as the table in section 3.2.6 of RFC 1951 lists them |
| KnownStreams.FixedDistances | axfs/stb_image.h:3778-3788 | fixed distance codes are the numbers in five bits |
| Canonical.FirstBelowHasNext | axfs/stb_image.h:3588-3597 | the first length whose limit lies above the word is that of the next code |
| Canonical.NoNextAbove | axfs/stb_image.h:3591-3592 | above all limits no code comes next |
| Canonical.SlotInjective | axfs/stb_image.h:3519-3523 | no two symbols get the same slot of the sorted arrays |
| Canonical.SlotBound | axfs/stb_image.h:3519-3523 | and all slots are inside them |
| Huffman.ZHuffman.Build | axfs/stb_image.h:3490-3535 | for every list of lengths up to 15: true exactly if its Kraft sum is at most 1, and then all tables say what they should |
| Huffman.ZHuffman.FillLengthTables | axfs/stb_image.h:3503-3516 | first codes, first symbols and limits for each length |
| Huffman.ZHuffman.EnterLength | axfs/stb_image.h:3505-3515 | one length of them |
| Huffman.ZHuffman.FillSymbols | axfs/stb_image.h:3517-3533 | size, value and fast entries for every symbol |
| Huffman.ZHuffman.EnterSymbol | axfs/stb_image.h:3518-3532 | one symbol goes to both tables, and its length's next code is one higher |
| Huffman.ZHuffman.RecordSymbol | axfs/stb_image.h:3520-3523 | its size and value go to its slot |
| Huffman.ZHuffman.EnterFast | axfs/stb_image.h:3524-3531 | a short code goes to the fast table, a long one does not |
| Huffman.ZHuffman.FillFast | axfs/stb_image.h:3524-3530 | every nine-bit word that starts with a short code, and no other, gets that code's entry |
| Lookup.FastHit | axfs/stb_image.h:3604-3609 | a fast entry is the next symbol with its length |
| Lookup.FastMiss | axfs/stb_image.h:3582-3586 | no entry means that the next sixteen bits are at least `maxcode[9]` |
| Lookup.FastMatchUnique | axfs/stb_image.h:3524-3530 | no two symbols are entered for the same nine-bit word |
| Lookup.FastEntryUnique | axfs/stb_image.h:3524-3530 | so that the lengths determine the whole fast table |
| Lookup.MaxcodeSorted | axfs/stb_image.h:3503-3516 | the limits do not fall from one length to the next, up to the sentinel |
| Lookup.LimitIsBelow | axfs/stb_image.h:3588-3590 | what a comparison with a limit means for the code |
| Lookup.SlowHit | axfs/stb_image.h:3595-3597 | the symbol found by the limits is the next one |
| Reversal.BitReverseIsReverse | axfs/stb_image.h:3473-3488 | the mask-and-shift steps reverse any number of bits up to 16 |
| Media.CopyBlockData | kernel/axfs/axfs_inode.c:145-178 | the per-block loop copies exactly the device bytes asked for, wherever they fall against the blocks |
| Media.CopyFromBlock | kernel/axfs/axfs_inode.c:158-175 | one block's share of them |
| Media.NextRead | kernel/axfs/axfs_inode.c:157-173 | after the first block every read starts at a block boundary and makes progress |
| Media.FetchMmapableData | kernel/axfs/axfs_super.c:119-136 | bytes of the mapped image |
| Media.FetchBlockData | kernel/axfs/axfs_super.c:156-162 | bytes of the block device |
| Media.FetchData | kernel/axfs/axfs_super.c:182-210 | the image bytes at that offset, wherever the range falls against the end of the mapping |
| Media.BlockOffsetOf | kernel/axfs/axfs_fs.h:327-330 | what is not mapped lies on the device at the translated offset |
| Media.UncompressBlock | kernel/axfs/axfs_uncompress.c:58-99 | the decompressed block and its length, 0 on an error |
| Media.Region.CopyData | kernel/axfs/axfs_inode.c:202-231 | for any region that is set up, exactly the image bytes at that offset, from memory and device as they fall |
| Media.Region.FromMemory | kernel/axfs/axfs_inode.c:214-221 | what comes from memory is all of the read that lies in front of the end of the mapping, and no more |
| Media.Region.InMemory | kernel/axfs/axfs_inode.c:223-226 | that share is the image's |
| Media.Region.RestOnDevice | kernel/axfs/axfs_inode.c:228-230 | the rest is the device's at a 64-bit offset that may wrap below zero and back |
| Media.WrapBack | kernel/axfs/axfs_inode.c:229 | the wrap-around cancels out |
| Media.Region.ReadDescriptor | kernel/axfs/axfs_super.c:247-257 | the big-endian fields of a region descriptor |
| Media.HighestFirst | kernel/axfs/axfs_super.c:247-257 | in a field of a descriptor the byte in front weighs most |
| Media.Region.MapXip | kernel/axfs/axfs_super.c:263-274 | an XIP region's memory is the mapped image from its start on |
| Media.Region.CopyIn | kernel/axfs/axfs_super.c:275-291 | a copied region is its part of the image; a compressed one has an address exactly if nothing came out of it |
| Media.Region.DoFillDataPtrs | kernel/axfs/axfs_super.c:236-302 | every uncompressed region is left ready for `CopyData`, covered by memory if that is asked for; a compressed region returns the length of its data as an error code |
| ByteTable.FillMetadataPtrs | kernel/axfs/axfs_super.c:322-342 | the pointers are those of the table's byte planes, also if the memory goes on behind the table |
| ByteTable.BytetableStitch | axfs/axfs.cpp:117-134 | the loop over planes gives the same number as the macro |
| ByteTable.StitchedNumber | kernel/axfs/axfs_fs.h:208-222 | the number whose bytes, lowest first, are those of the planes |
| ByteTable.TableRoundTrip | kernel/axfs/axfs_fs.h:208-222 | every entry of a table written as byte planes is read back, for every depth that holds the values, wherever the table lies in memory |
| ByteTable.StitchWritten | kernel/axfs/axfs_fs.h:208-222 | one entry of it |
| ReadPage.Axfs.FillCache | kernel/axfs/axfs_inode.c:813-820 | afterwards the buffer starts with the block asked for, whether or not it was there before |
| ReadPage.Axfs.ReadCompressed | kernel/axfs/axfs_inode.c:809-828 | the page gets the block's bytes from the node's offset on |
| ReadPage.Axfs.ReadNode | kernel/axfs/axfs_inode.c:803-842 | the page starts with what the node of any of the three kinds stands for |
| ReadPage.Axfs.Read | kernel/axfs/axfs_inode.c:803-844 | the rest of the page is zero, and so is all of a page behind the last block |
| ReadPage.Axfs.ReadFilePage | kernel/axfs/axfs_inode.c:778-849 | in every state of the cache, a page of a stored file, with its size taken from the image, holds the file's bytes up to its end, and a page behind it zeros; the state stays valid for the next call |
| ReadPage.ShareComplete | kernel/axfs/axfs_inode.c:830-834 | the 32-bit length of a byte-aligned read is right exactly if what is left of the region is below 4 GiB or leaves at least a page modulo 4 GiB |
| ReadPage.ShareCanBeLost | kernel/axfs/axfs_inode.c:831-833 | with exactly 4 GiB left the length is 0 |
| ReadPage.Axfs.AlignedNodeExact | kernel/axfs/axfs_inode.c:830-834 | a byte-aligned node gives the first page of what follows its start, or all of it, under exactly that condition |
| ReadPage.Axfs.ReadLost | kernel/axfs/axfs_inode.c:830-844 | a page with a multiple of 4 GiB left is read as zeros |
| Mount.FillSuper | kernel/axfs/axfs_super.c:401-497 | from any image whose regions are stored as they are, the regions and tables are those that the descriptors describe, the cache is empty and its buffers are new |
| Mount.SetUp | kernel/axfs/axfs_super.c:236-302 | one region |
| Mount.SetUpTable | kernel/axfs/axfs_super.c:322-342 | the planes of one table begin with the table's data |
| Mount.FillMetadata | kernel/axfs/axfs_super.c:361-379 | all tables that reading files needs, the file sizes among them |
| ImageRoundTrip.SetUpWritten | kernel/axfs/axfs_super.c:401-497 | files whose pages are written to the XIP region, back to back to the byte-aligned region, or into compressed blocks, in any mixture, with table entries of any sufficient depth, are all stored by the file system that is set up from the image, however much of it is mapped |
| ImageRoundTrip.ReadWritten | kernel/axfs/axfs_inode.c:778-849 | from writing to reading: files are written, the file system is set up from the image, and any pages are read in any order and number; each holds the bytes of its file, and zeros behind the last page |
| ImageRoundTrip.FileStored | kernel/axfs/axfs_inode.c:778-844 | each page of a written file is found through the tables |
| ImageRoundTrip.NodeLeads | kernel/axfs/axfs_inode.c:803-842 | the node of each kind leads to the bytes that were placed there |
| ImageRoundTrip.BlockFound | kernel/axfs/axfs_inode.c:809-820 | the table of block offsets leads to the compressed blocks, and they decompress to what was put in |
| ImageRoundTrip.OneBlockPlanOk | kernel/axfs/axfs_inode.c:809-828 | any page can be written into a compressed block |
| ImageRoundTrip.SetUpCompressed | kernel/axfs/axfs_super.c:280-302 | a region of an image that is compressed as a whole, and rightly so, is refused with the length of its contents as the error, unless they are empty |
| ImageLayout.PagesFound | kernel/axfs/axfs_inode.c:803-842 | each page is where the type and index of its node say, whatever pages follow |
| ImageLayout.PageOnMedium | kernel/axfs/axfs_fs.h:73-77 | node types are written as 0 for a page in the XIP region, at 4096 times its node index, 1 for a compressed and 2 for a byte-aligned page |
| ImageWriter.RegionInImage | kernel/axfs/axfs_super.c:247-257 | every region of an image lies where its descriptor says |
| ImageWriter.DescriptorRead | kernel/axfs/axfs_super.c:247-257 | the fields of a written descriptor are read back |
| CacheProtocol.CacheSafety | kernel/axfs/axfs_inode.c:812-829 | in every interleaving of any number of threads, what a thread has copied agrees with the decompression of its own block, a finished request has copied its whole share, and no refill overlaps a refill or a copy |
| CacheProtocol.LastRequestServed | kernel/axfs/axfs_inode.c:809-829 | in every run, a thread that is done has copied from the block and the offset of the last request that it made: its page is as long as a page or the rest of the buffer, and each byte is that of the block, as far as the block goes |
| CacheProtocol.StepKeepsRequest | kernel/axfs/axfs_inode.c:809-829 | no step but a new request of its own changes what a thread asked for |
| CacheProtocol.StepKeeps | kernel/axfs/axfs_inode.c:812-829 | every step of every thread keeps the invariant, also when a block fails to decompress |
| CacheProtocol.InvStarts | kernel/axfs/axfs_super.c:625 | it holds when the index is (u64) -1 |
| CacheProtocol.InflateKeeps | kernel/axfs/axfs_inode.c:818-820 | while the buffer is being refilled it is the new block's so far; the index is set only behind that |
| CacheProtocol.FetchKeeps | kernel/axfs/axfs_inode.c:815-817 | the scratch buffer is the block's compressed form so far |
| CacheProtocol.CopyKeeps | kernel/axfs/axfs_inode.c:823-828 | copying under the read lock takes the thread's own block |
| CacheProtocol.LockKeeps | kernel/axfs/axfs_inode.c:812-822 | taking the lock, comparing and downgrading |
| CacheProtocol.RunsEnd | kernel/axfs/axfs_inode.c:812-829 | without new requests every run is finite |
| CacheProtocol.NoDeadlock | kernel/axfs/axfs_inode.c:812-829 | while a request is open some thread can take a step |
| SharedReading.InterleavingsServeFiles | kernel/axfs/axfs_inode.c:803-829 | in every interleaving of any requests, a thread whose last request is for a compressed page of a stored file, and which is done, has the file's bytes |
| SharedReading.GotNode | kernel/axfs/axfs_inode.c:809-828 | and so for a node: the page starts with what it stands for |
| SharedReading.WrittenDisk | kernel/axfs/axfs_inode.c:813-820 | the compressed blocks of a written image are such a disk |
| Directory.Lookup | kernel/axfs/axfs_inode.c:511-568 | the loop finds what the early-exit scan defines, for signed and for unsigned `char` |
| Directory.ScanExact | kernel/axfs/axfs_inode.c:522-563 | on any directory: the first entry of that name, found exactly if nothing up to it ends the search |
| Directory.ScanSorted | kernel/axfs/axfs_inode.c:522-563 | on a sorted directory stopping early is exhaustive search |
| Directory.NoEarlyExit | kernel/axfs/axfs_inode.c:533-560 | an entry at or in front of the name never ends the search |
| Directory.GivesUpExactly | kernel/axfs/axfs_inode.c:533-560 | an entry ends the search exactly if it has the name's length and comes behind it, or begins with a greater byte, one below 128 where `char` is signed |
| Directory.InitProfileDirStructure | kernel/axfs/axfs_profiling.c:152-185 | each inode's slot holds the last directory that lists it, or 0 |
| Directory.LastParentIsParent | kernel/axfs/axfs_profiling.c:161-182 | of all directories that list an inode it is the one with the greatest number |
| Directory.TableHoldsParent | kernel/axfs/axfs_profiling.c:161-182 | in a tree that is the inode's parent |
| Directory.TreeIsWalkable | kernel/axfs/axfs_profiling.c:213-218 | in a tree the walk up the table ends |
| Directory.CollectNames | kernel/axfs/axfs_profiling.c:211-236 | the two walks collect the names above an inode, from the top |
| Directory.GetDirectoryPath | kernel/axfs/axfs_profiling.c:206-256 | the buffer holds `./` and each of those names with a slash, and a terminator; the size is returned |
| Directory.TwoNames | kernel/axfs/axfs_profiling.c:206-247 | for two directories above an inode: a dot, a slash, and each name with its slash, the upper one first |
| Directory.PathRoundTrip | kernel/axfs/axfs_profiling.c:161-247 | looking up the names of an inode's path and then its own name, from inode 0 on, leads back to the inode |
| Directory.TextRoundTrip | kernel/axfs/axfs_profiling.c:206-256 | the text in the buffer, up to its terminator, followed by the inode's own name, splits at its slashes into a dot and names that lead back to the inode, for names without slashes and zeros |
| GifEncode.LzwRoundTrip | axfs/stb_image.h:5696-5774 | for minimum code sizes 2 to 8, any pixels, encoded as Appendix F of GIF89a says with any early clears and cut into any sub-blocks, decode to themselves, and reading goes on right behind them |
| GifEncode.DecodeEncoded | axfs/stb_image.h:5721-5773 | the same for the bits |
| GifEncode.DecodeRest | axfs/stb_image.h:5732-5768 | from any point of the encoding on |
| GifEncode.CatchUp | axfs/stb_image.h:5748-5756 | receiving the encoder's code, the decoder's table becomes the encoder's, also if the code is the entry being made |
| GifEncode.SameWidth | axfs/stb_image.h:5760-5763 | both sides widen their codes at the same time |
| GifEncode.SubBlocksCarry | axfs/stb_image.h:5722-5731 | sub-blocks of any sizes carry the data, and their end is found |
| GifDeferred.UnclearedRaster | axfs/stb_image.h:5748-5752 | the raster of an encoder that never clears its table, as GIF89a allows, is decoded exactly if it has at most 4095 less the number of pixel values string codes, and is found corrupt otherwise, always for more than 4096 * 4095 pixels |
| GifDeferred.DeferredRaster | axfs/stb_image.h:5696-5774 | for any choice of clears the pixels up to the first code behind a full table are decoded |
| GifDeferred.CompleteExactly | axfs/stb_image.h:5748-5752 | from any table on, the picture is complete exactly if its codes fit |
| GifDeferred.DecodeDeferred | axfs/stb_image.h:5721-5773 | what the decoder makes of the bits |
| GifRaster.ProcessGifRaster | axfs/stb_image.h:5696-5774 | for every input, the raster decoder succeeds exactly if `RasterAt` does, draws its pixels and ends behind the last sub-block |
| GifColors.DrawRaster | axfs/stb_image.h:5662-5774 | with a color table stored as below, each pixel gets the four bytes red, green, blue and 255 of its color, or keeps what was there if it is the transparent one |
| GifColors.ParseColorTable | axfs/stb_image.h:5611-5620 | the colors of the file are stored as blue, green, red and alpha, 0 for the transparent one and 255 for the others; entries behind them stay as they are |
| GifColors.ShadeColored | axfs/stb_image.h:5674-5681 | one pixel |
| GifColors.DrawnColored | axfs/stb_image.h:5670-5693 | a picture |
| GifRaster.DecodeCodes | axfs/stb_image.h:5720-5773 | the bit buffer over sub-blocks, and every code in turn |
| GifRaster.HandleCode | axfs/stb_image.h:5737-5771 | clear, end and string codes |
| GifRaster.Gif.StringCode | axfs/stb_image.h:5747-5766 | the table grows by one entry, unless it is full or nothing precedes, and the code's string is drawn |
| GifRaster.Gif.AddCode | axfs/stb_image.h:5750-5755 | the linked entry stands for the previous string and the first pixel of the new one |
| GifRaster.Gif.InitCodes | axfs/stb_image.h:5710-5714 | one entry per pixel value |
| GifRaster.Gif.ClearTable | axfs/stb_image.h:5740-5745 | after a clear the first entries still stand for the pixel values |
| GifRaster.Gif.OutGifCode | axfs/stb_image.h:5662-5694 | the recursion ends and draws the string of the code |
| GifRaster.Gif.PutPixel | axfs/stb_image.h:5670-5693 | one pixel goes to the current place, which moves on |
| GifRaster.Gif.SkipPasses | axfs/stb_image.h:5688-5692 | passes without rows are skipped |
| GifRaster.ReadByte | axfs/stb_image.h:5722-5731 | one byte of the sub-blocks goes on top of the bit buffer |
| GifRaster.SkipBlocks | axfs/stb_image.h:5746-5748 | the end of the data after the end code |
| GifRaster.PictureRoundTrip | axfs/stb_image.h:5662-5774 | an encoded picture is drawn with each pixel in its place |
| GifPlacement.PixelsPlaced | axfs/stb_image.h:5670-5693 | pixel i ends up in column i % w of the row that comes as number i / w, all other bytes stay, and pixels behind the last are dropped |
| GifPlacement.CursorPosition | axfs/stb_image.h:5682-5693 | where the position stands after k pixels |
| GifPlacement.RowsPermute | axfs/stb_image.h:5839-5855 | each row comes exactly once, in the four passes of Appendix E of GIF89a if interlaced, for every height |
| GifColors.RowsInOrder | axfs/stb_image.h:5839-5855 | the rows of an interlaced image come pass by pass, those divisible by 8, then 4 modulo 8, then 2 modulo 4, then the odd ones, and within a pass from the top |
| GifPlacement.EveryPlaceTaken | axfs/stb_image.h:5839-5855 | every place of the rectangle is some pixel's |
| GifPlacement.CellsApart | axfs/stb_image.h:5672 | different pixels have different bytes |
| GifPlacement.NextPassKeeps | axfs/stb_image.h:5688-5692 | going to the next pass skips no row |
| GifPlacement.StartRows | axfs/stb_image.h:5848-5855 | the start position has all rows before it |
| JpegHuffman.JHuffman.Build | axfs/stb_image.h:1519-1558 | for every table of counts: ready exactly if there are at most 256 codes and they fit, and then all tables say what they should; the two ways to fail are told apart, one of which the C code does not notice |
| JpegHuffman.JHuffman.ListSizes | axfs/stb_image.h:1523-1526 | the lengths in order, ended by a zero, unless there are more than 256 |
| JpegHuffman.JHuffman.AssignCodes | axfs/stb_image.h:1528-1544 | the codes are those of Annex C of ITU-T T.81; the per-length checks are the Kraft inequality |
| JpegHuffman.JHuffman.AssignLength | axfs/stb_image.h:1531-1542 | one length of them |
| JpegHuffman.JHuffman.CodesOfLength | axfs/stb_image.h:1534-1537 | the codes of one length |
| JpegHuffman.JHuffman.FillFast | axfs/stb_image.h:1546-1556 | every nine-bit word that starts with a short code, and no other, gets its symbol |
| JpegHuffman.NextIsPrefix | axfs/stb_image.h:1528-1544 | the symbol of a word is the one whose Annex C code it starts with |
| JpegHuffman.CodeIsSum | axfs/stb_image.h:1528-1543 | each code is what the codes before it have used up |
| JpegHuffman.ExampleCodes | axfs/stb_image.h:1528-1543 | the lengths of table K.3 of ITU-T T.81 get the codes listed there |
| JpegHuffman.ExampleAnnounced | axfs/stb_image.h:1523-1526 | and its counts announce these lengths |
| JpegHuffman.FastHit | axfs/stb_image.h:1617-1627 | a fast entry is the next symbol |
| JpegHuffman.FastMiss | axfs/stb_image.h:1619-1635 | a mark means that the word has no entry |
| JpegHuffman.SlowHit | axfs/stb_image.h:1634-1654 | between the limits of two lengths the computed index is the next symbol |
| JpegHuffman.WordRightIffClear | axfs/stb_image.h:1617-1655 | a word is decoded to the symbol and length of its code exactly if it does not start with a code of at most nine bits for symbol 255; any other word with a code is taken for some symbol of the table |
| JpegHuffman.CleanExactly | axfs/stb_image.h:1546-1556 | all words are decoded right exactly if there are fewer than 256 symbols or the last has a long code |
| JpegHuffman.ClashTakesTen | axfs/stb_image.h:1546-1655 | with 256 codes of at most nine bits, a word of symbol 255 is taken for a code of ten bits |
| JpegHuffman.ClashExists | axfs/stb_image.h:1546-1556 | counts of 255 codes of 8 bits and one of 9 give such a table, and the word 0xFF00 is not decoded right |
| JpegHuffman.OverrunExists | axfs/stb_image.h:1523-1526 | byte counts that announce 257 codes, more than the arrays hold |
| JpegBlock.FastAcExact | axfs/stb_image.h:1562-1585 | whenever the table's entry is not 0 it holds the run, value and total length that Huffman decoding and EXTEND give, for every stream and code |
| JpegBlock.BuildFastAc | axfs/stb_image.h:1562-1585 | every entry is that of its nine bits, 0 where no short code fits |
| JpegBlock.Jpeg.DecodeBlock | axfs/stb_image.h:1717-1767 | for every entropy-coded segment and pair of tables the coefficients, position and DC value that stb_image's reading of the words gives, a bad code, or a DC size above 15, each exactly when it should |
| JpegBlock.BlockAlike | axfs/stb_image.h:1717-1767 | with clean tables these are the coefficients, position and verdict of section F.2.2 of ITU-T T.81 |
| JpegEncode.BlockRoundTrip | axfs/stb_image.h:1717-1767 | any block, written in zigzag order with runs of zeros, sizes, extra bits and any codes that cover it, is read back with each coefficient in its place in the block, times its quantizer; with clean tables also as stb_image reads it |
| JpegEncode.ReadAc | axfs/stb_image.h:1733-1766 | the AC coefficients from any one on |
| JpegEncode.ReadCoefficient | axfs/stb_image.h:1748-1765 | one coefficient behind up to fifteen zeros |
| JpegEncode.ReadZeros | axfs/stb_image.h:1754-1758 | the symbols 0x00, the end of the block, and 0xF0, sixteen zeros |
| JpegEncode.ReadDc | axfs/stb_image.h:1722-1731 | the DC difference |
| JpegEncode.ExtraRead | axfs/stb_image.h:1662-1675 | every value is given back by its size and extra bits |
| JpegEncode.DezigzagIsWalk | axfs/stb_image.h:1701-1714 | the table is the way through the block along its antidiagonals, upwards on even and downwards on odd ones, and behind place 63 it stays there |
| JpegEncode.PlaceVisited | axfs/stb_image.h:1701-1714 | which visits all 64 places |
| JpegEncode.VisitedOnce | axfs/stb_image.h:1701-1714 | and none twice |
| JpegBlock.UnspecifiedExactly | axfs/stb_image.h:1658-1675 | a block leaves the table of biases exactly if the symbol of its DC code is above 15 |
| JpegBlock.LongDcExists | axfs/stb_image.h:1658-1675 | a table with which that happens |
| JpegBlock.Jpeg.DecodeAc | axfs/stb_image.h:1733-1766 | the loop with the fast table agrees with decoding code by code |
| JpegBlock.Jpeg.AcCoefficient | axfs/stb_image.h:1734-1765 | one step of it |
| JpegBlock.Jpeg.FastCoefficient | axfs/stb_image.h:1739-1747 | a fast step is the step that decoding would make |
| JpegBlock.Jpeg.SlowCoefficient | axfs/stb_image.h:1748-1765 | code and extra bits one after the other |
| JpegBlock.Jpeg.DecodeDifference | axfs/stb_image.h:1722-1731 | the DC difference, no code, or a size that the table of biases does not cover |
| JpegBlock.Jpeg.HuffDecode | axfs/stb_image.h:1608-1655 | the symbol and length that the word is taken for, by WordRightIffClear its own; -1 exactly if no code follows, or if this call found the marker and the code goes on behind it |
| JpegBlock.Jpeg.SlowDecode | axfs/stb_image.h:1629-1654 | the same after a miss in the fast table, and -1 exactly if no code follows or it has more bits than are loaded |
| JpegBlock.Jpeg.ExtendReceive | axfs/stb_image.h:1662-1675 | the next n bits as figure F.12 of ITU-T T.81 extends them |
| JpegBlock.Jpeg.GrowBuffer | axfs/stb_image.h:1587-1602 | stuffed zeros are dropped, a marker stops loading, and what follows reads as zero |
| JpegBlock.Jpeg.Skip | axfs/stb_image.h:1624-1625 | dropping bits keeps the reservoir a window of the data |
| JpegBits.WindowSkip | axfs/stb_image.h:1624-1625 | shifting the 32-bit word is moving the window |
| JpegBits.WindowGrow | axfs/stb_image.h:1599-1600 | loading a byte extends it |
| JpegBits.WindowTop | axfs/stb_image.h:1617 | its top bits are the next bits of the data |
| JpegBits.StuffedRead | axfs/stb_image.h:1587-1602 | any data, written with a zero behind every 0xFF and ended by a marker, are read back |
| PngInterlace.CreateImage | axfs/stb_image.h:4158-4198 | succeeds exactly if the data are whole and every filter is known, and then every pixel of the picture that they stand for is in its place, interlaced or not, followed by 255 if alpha is asked for |
| PngRestored.ImageRight | axfs/stb_image.h:3980-4082 | every byte of an image is restored as section 6 of RFC 2083 says for the filter of its row: what was sent, plus nothing, the byte to the left, the one above, their mean, or the nearest of left, above and above left, modulo 256; in front of the first row and column stand zeros |
| PngRestored.ReconRestored | axfs/stb_image.h:3966-3975 | one byte, for each of the five filters |
| PngRestored.RestoredUnique | axfs/stb_image.h:3966-3975 | that condition determines the byte |
| PngRestored.PaethNearest | axfs/stb_image.h:3966-3975 | the predictor of filter 4 is the one of the three neighbours nearest to left + above - above left, in a tie the first in this order, and nothing else is |
| PngInterlace.PassIsImage | axfs/stb_image.h:4164-4195 | each pass that has pixels is an image of its own, behind the ones in front of it |
| PngInterlace.Deinterlace | axfs/stb_image.h:4164-4195 | the seven passes in turn |
| PngInterlace.DecodePass | axfs/stb_image.h:4174-4193 | one pass is reconstructed and spread, or skipped if it has no pixels |
| PngInterlace.SpreadPass | axfs/stb_image.h:4181-4188 | every pixel of the pass, and no other, is written to its place |
| PngInterlace.InterlacedRoundTrip | axfs/stb_image.h:4158-4198 | any picture, split into passes and filtered in any way, is restored |
| PngInterlace.PlainRoundTrip | axfs/stb_image.h:4158-4162 | and so is one that is not interlaced |
| PngInterlace.WholePicture | axfs/stb_image.h:4181-4188 | a picture is determined by its pixels |
| Adam7.OnePass | axfs/stb_image.h:4168-4171 | every pixel belongs to exactly one pass of section 2.6 of RFC 2083 |
| Adam7.PassPixel | axfs/stb_image.h:4172-4185 | pixels of a pass fall into the picture and keep their place in the pass |
| Adam7.PixelOfPass | axfs/stb_image.h:4172-4185 | the computed pass sizes hold every pixel of the pass |
| Adam7.MergedSplit | axfs/stb_image.h:4164-4195 | splitting into passes and merging gives the picture back |
| PngImage.CreateImageRaw | axfs/stb_image.h:3980-4082 | the reconstructed rows with alpha inserted, or a failure exactly if bytes are missing or left over or a filter is unknown |
| PngImage.UnfilterRow | axfs/stb_image.h:4002-4079 | one row is restored below the rows before it |
| PngImage.PutPixel | axfs/stb_image.h:4028-4078 | one pixel from its neighbours in the picture |
| PngImage.PixelRight | axfs/stb_image.h:4028-4078 | that is the reconstruction of section 6 of RFC 2083 |
| PngImage.FirstRowSame | axfs/stb_image.h:3957-3964 | the synthetic filters of the first row restore what the real ones do with zeros above |
| PngFilter.ImageRoundTrip | axfs/stb_image.h:3980-4082 | any image sent with any filters is restored |
| PngFilter.RowRestored | axfs/stb_image.h:4028-4078 | any row with any filter |
| PngFilter.ReconFilt | axfs/stb_image.h:3966-3975 | a byte filtered against any neighbours is restored |

## Left out

- Inflater.ZBuf.ParseZlib: what the output is after leaving defined behaviour (status Unspecified), and an endless loop (status Endless) ends the model's run; `padding` counts zero bytes only in the model.
- ZlibDecode.DecodeMalloc: an initial size of 0, which the C code doubles for ever; the allocator grants at most 0x3FFF0000 bytes, so that sizes stay below 2^31.
- Media.UncompressBlock: the kernel's own zlib is taken to behave as the decoder modelled here, with its messages and its reset after errors left out.
- ReadPage.Axfs.ReadCompressed: the bytes of a page behind the end of a short block, which are left over from earlier blocks.
- CacheProtocol.CacheSafety: lookups in the metadata tables, which the lock does not protect and nothing changes; the semaphore's fairness.
- Mount.FillSuper: regions that are compressed as a whole, which are refused or, if they do not decompress, left with arbitrary contents; modes, owners, names and entry counts.
- ImageRoundTrip.SetUpWritten: the super block itself, whose descriptor offsets are parameters.
- Directory.Lookup: names are given without their terminator, and creating the VFS inode is not modelled.
- GifRaster.ProcessGifRaster: rectangles of width 0, for which the C code writes next to the rectangle; header, disposal of earlier frames and the final conversion; what `GifColors.ParseColorTable` stores is handed to it as the color table.
- JpegHuffman.JHuffman.Build: what the C code does after more than 256 symbols have overrun its arrays (status Overrun); codes of over-full tables are not cut to 16 bits before they are refused.
- JpegBlock.Jpeg.GrowBuffer: behind a marker, where `code_bits` can fall below -7, the C code shifts a zero by more than 31 bits, which C leaves undefined; it is taken to stay zero.
- JpegBlock.Jpeg.DecodeBlock: what becomes of the state after a bad code, and overflow of the running DC value; progressive scans, dequantization tables, IDCT, resampling and color conversion.
- PngInterlace.CreateImage: sizes whose product overflows 32 bits, bit depths below 8, for which the row above is not shifted together with the current one, and chunks, palettes and transparency; the loop for pixels without alpha, which the C code runs over bytes, is the loop over pixels here.
- The lazily built tables of the fixed Huffman codes are built for each fixed block.
- Inputs and outputs of a decoder are separate pieces of memory, and inputs are sequences of bytes rather than callbacks.
- `unsigned long` has 64 bits; allocation succeeds and `sb_bread` delivers its block.
- Mount options, finding the device, `ioremap`, VFS and procfs glue, `axfs_file_read`, `axfs_fault` and `axfs_mmap`: calls into the kernel.
- `readFile` of `axfs/axfs.cpp` as a positioned read: it ignores the start when it chooses the node; `axfs_readpage` is the reference here.
- TGA, PSD, PIC, BMP, PNM and HDR images, SIMD kernels and gamma code.
