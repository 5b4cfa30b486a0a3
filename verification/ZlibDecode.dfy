/**
  The decoder's entry points, over a caller's buffer and over a growing one.
 */
module ZlibDecode {
  import opened Bits
  import opened Deflate
  import opened Inflater

  // Decode into a buffer of fixed size: the length of the output, or -1.
  method DecodeBuffer(obuffer: array<byte>, ibuffer: seq<byte>, parseHeader: bool) returns (st: Status, n: int)
    modifies obuffer
    ensures match Inflate(ibuffer, parseHeader, obuffer.Length)
      case Accepted(out, _) => st == Done && n == |out| <= obuffer.Length && obuffer[..n] == out
      case Rejected => st == Failed && n == -1
      case Undefined => st == Unspecified
      case Diverges => st == Endless
  {
    var a := new ZBuf(ibuffer, obuffer, false, 0);
    st := a.ParseZlib(parseHeader);
    n := if st.Done? then a.zout else -1;
  }

  // Decode into a buffer that starts at initialSize bytes and doubles as needed;
  // the allocator grants at most `memory` bytes.
  method DecodeMalloc(ibuffer: seq<byte>, initialSize: nat, memory: nat, parseHeader: bool)
    returns (st: Status, obuffer: array<byte>, outlen: nat)
    requires 1 <= initialSize <= memory <= MAX_MEMORY
    ensures match Inflate(ibuffer, parseHeader, Grown(initialSize, memory))
      case Accepted(out, _) => st == Done && outlen == |out| <= obuffer.Length && obuffer[..outlen] == out
      case Rejected => st == Failed
      case Undefined => st == Unspecified
      case Diverges => st == Endless
  {
    obuffer := new byte[initialSize];
    var a := new ZBuf(ibuffer, obuffer, true, memory);
    st := a.ParseZlib(parseHeader);
    obuffer := a.buffer;
    outlen := a.zout;
  }
}
