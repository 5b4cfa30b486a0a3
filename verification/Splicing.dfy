/**
  Sequences with some bytes overwritten, and memcpy.
 */
module Splicing {
  import opened Bits

  // `before` with `data` written over it at `at`.
  function Spliced(before: seq<byte>, at: nat, data: seq<byte>): (r: seq<byte>)
    requires at + |data| <= |before|
    ensures |r| == |before|
  {
    before[..at] + data + before[at + |data|..]
  }

  lemma SplicedNext(before: seq<byte>, at: nat, data: seq<byte>, next: byte)
    requires at + |data| < |before|
    ensures Spliced(before, at, data + [next]) == Spliced(before, at, data)[at + |data| := next]
  {
  }

  lemma NothingSpliced(before: seq<byte>, at: nat)
    requires at <= |before|
    ensures Spliced(before, at, []) == before
  {
  }

  lemma SplicedTwice(before: seq<byte>, at: nat, a: seq<byte>, b: seq<byte>)
    requires at + |a + b| <= |before|
    ensures Spliced(Spliced(before, at, a), at + |a|, b) == Spliced(before, at, a + b)
  {
  }

  lemma SplicedByte(before: seq<byte>, at: nat, data: seq<byte>, i: nat)
    requires at + |data| <= |before| && i < |before|
    ensures Spliced(before, at, data)[i] == if at <= i < at + |data| then data[i - at] else before[i]
  {
  }

  // What is outside the overwritten bytes stays as it is.
  lemma SplicedSlice(before: seq<byte>, at: nat, data: seq<byte>, lo: nat, hi: nat)
    requires at + |data| <= |before| && lo <= hi <= |before|
    ensures hi <= at || at + |data| <= lo ==> Spliced(before, at, data)[lo..hi] == before[lo..hi]
    ensures lo == at && hi == at + |data| ==> Spliced(before, at, data)[lo..hi] == data
  {
    var r := Spliced(before, at, data);
    if hi <= at || at + |data| <= lo {
      forall i | lo <= i < hi ensures r[i] == before[i] {
        SplicedByte(before, at, data, i);
      }
      assert r[lo..hi] == before[lo..hi];
    }
    if lo == at && hi == at + |data| {
      forall i | lo <= i < hi ensures r[i] == data[i - lo] {
        SplicedByte(before, at, data, i);
      }
      assert r[lo..hi] == data;
    }
  }

  // A slice of a slice.
  lemma SliceSlice(s: seq<byte>, lo: nat, len: nat, a: nat, n: nat)
    requires lo + len <= |s| && a + n <= len
    ensures s[lo..lo + len][a..a + n] == s[lo + a..lo + a + n]
  {
    var u, v := s[lo..lo + len][a..a + n], s[lo + a..lo + a + n];
    forall k | 0 <= k < n ensures u[k] == v[k] { }
    assert u == v;
  }

  lemma WholeSpliced(before: seq<byte>, data: seq<byte>)
    requires |before| == |data|
    ensures Spliced(before, 0, data) == data
  {
  }

  // memcpy from `src` to dst[at..].
  method CopyMemory(dst: array<byte>, at: nat, src: seq<byte>, offset: nat, len: nat)
    requires offset + len <= |src| && at + len <= dst.Length
    modifies dst
    ensures dst[..] == Spliced(old(dst[..]), at, src[offset..offset + len])
  {
    hide Spliced;
    NothingSpliced(dst[..], at);
    assert src[offset..offset] == [];
    for i := 0 to len
      invariant dst[..] == Spliced(old(dst[..]), at, src[offset..offset + i])
    {
      SplicedNext(old(dst[..]), at, src[offset..offset + i], src[offset + i]);
      assert src[offset..offset + i] + [src[offset + i]] == src[offset..offset + i + 1];
      dst[at + i] := src[offset + i];
    }
  }
}
