/**
  Streams that read the same from some place on.

  Behind the end of the input every place reads the same, and bytes of zeros at the end
  of the input read like no bytes at all.
 */
module DeflateAhead {
  import opened Bits
  import opened Canonical
  import opened Deflate

  function Ahead(input: seq<byte>, p: nat, i: nat): nat { Bit(input, p + i) }

  // What follows p is what follows p' in the other input.
  ghost predicate SameAhead(input: seq<byte>, p: nat, input': seq<byte>, p': nat) {
    forall i: nat :: Ahead(input, p, i) == Ahead(input', p', i)
  }

  // No bit is set from p on.
  ghost predicate Exhausted(input: seq<byte>, p: nat) {
    SameAhead(input, p, [], 0)
  }

  lemma AheadShift(input: seq<byte>, p: nat, input': seq<byte>, p': nat, n: nat)
    requires SameAhead(input, p, input', p')
    ensures SameAhead(input, p + n, input', p' + n)
  {
    var q, q' := p + n, p' + n;
    forall i: nat ensures Ahead(input, q, i) == Ahead(input', q', i) {
      assert Ahead(input, p, n + i) == Ahead(input', p', n + i);
    }
  }

  lemma ExhaustedAtEnd(input: seq<byte>, p: nat)
    requires p >= 8 * |input|
    ensures Exhausted(input, p)
  {
    hide Bit;
    forall i: nat ensures Ahead(input, p, i) == Ahead([], 0, i) {
      BitPastEnd(input, p + i);
      BitPastEnd([], i);
    }
  }

  lemma ExhaustedLater(input: seq<byte>, p: nat, q: nat)
    requires Exhausted(input, p) && p <= q
    ensures Exhausted(input, q) && SameAhead(input, p, input, q)
  {
    hide Ahead;
    AheadShift(input, p, [], 0, q - p);
    ExhaustedAtEnd([], q - p);
  }

  lemma {:induction false} LsbSame(input: seq<byte>, p: nat, input': seq<byte>, p': nat, n: nat)
    requires SameAhead(input, p, input', p')
    ensures Lsb(input, p, n) == Lsb(input', p', n)
    decreases n
  {
    hide Bit, SameAhead;
    if n > 0 {
      AheadShift(input, p, input', p', 1);
      LsbSame(input, p + 1, input', p' + 1, n - 1);
      BitSame(input, p, input', p', 0);
    }
  }

  lemma BitSame(input: seq<byte>, p: nat, input': seq<byte>, p': nat, i: nat)
    requires SameAhead(input, p, input', p')
    ensures Bit(input, p + i) == Bit(input', p' + i)
  {
    assert Ahead(input, p, i) == Ahead(input', p', i);
  }

  lemma {:induction false} MsbSame(input: seq<byte>, p: nat, input': seq<byte>, p': nat, n: nat)
    requires SameAhead(input, p, input', p')
    ensures Msb(input, p, n) == Msb(input', p', n)
    decreases n
  {
    hide Bit, SameAhead;
    if n > 0 {
      MsbSame(input, p, input', p', n - 1);
      BitSame(input, p, input', p', n - 1);
    }
  }

  lemma NextSame(lens: seq<nat>, input: seq<byte>, p: nat, input': seq<byte>, p': nat)
    requires SameAhead(input, p, input', p')
    ensures NextSymbol(lens, input, p) == NextSymbol(lens, input', p')
  {
    hide Bit, Msb, Code, SameAhead;
    forall v: nat ensures IsNext(lens, input, p, v) <==> IsNext(lens, input', p', v) {
      if v < |lens| { MsbSame(input, p, input', p', lens[v]); }
    }
    if v: nat :| IsNext(lens, input, p, v) {
      assert IsNext(lens, input', p', v);
      NextIsUnique(lens, input, p, v);
      NextIsUnique(lens, input', p', v);
    }
  }

  // The same step, from another place.
  ghost predicate SameStep(step: Step, p: nat, step': Step, p': nat) {
    match step
    case Continue(out, q) => step'.Continue? && step'.out == out && step'.pos - p' == q - p
    case EndOfBlock(q) => step'.EndOfBlock? && step'.pos - p' == q - p
    case Stop(v) => step' == step
  }

  lemma CopySame(dist: seq<nat>, input: seq<byte>, p: nat, input': seq<byte>, p': nat, len: nat, out: seq<byte>,
                 limit: nat)
    requires SameAhead(input, p, input', p')
    ensures SameStep(CopyStep(dist, input, p, len, out, limit), p, CopyStep(dist, input', p', len, out, limit), p')
  {
    hide Lsb, NextSymbol, SameAhead, Extend, DistBase, DistExtra;
    NextSame(dist, input, p, input', p');
    match NextSymbol(dist, input, p)
    case None =>
    case Some(d) =>
      AheadShift(input, p, input', p', dist[d]);
      LsbSame(input, p + dist[d], input', p' + dist[d], DistExtra(d));
  }

  lemma StepSame(lit: seq<nat>, dist: seq<nat>, input: seq<byte>, p: nat, input': seq<byte>, p': nat,
                 out: seq<byte>, limit: nat)
    requires SameAhead(input, p, input', p') && |out| <= limit
    ensures SameStep(SymbolStep(lit, dist, input, p, out, limit), p,
                     SymbolStep(lit, dist, input', p', out, limit), p')
  {
    hide Lsb, NextSymbol, SameAhead, CopyStep, LengthBase, LengthExtra;
    NextSame(lit, input, p, input', p');
    match NextSymbol(lit, input, p)
    case None =>
    case Some(v) =>
      if v > 256 {
        var extra := LengthExtra(v - 257);
        AheadShift(input, p, input', p', lit[v]);
        LsbSame(input, p + lit[v], input', p' + lit[v], extra);
        AheadShift(input, p, input', p', lit[v] + extra);
        var len := LengthBase(v - 257) + Lsb(input, p + lit[v], extra);
        CopySame(dist, input, p + lit[v] + extra, input', p' + lit[v] + extra, len, out, limit);
      }
  }
}
