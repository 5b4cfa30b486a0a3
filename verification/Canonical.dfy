/**
  Canonical Huffman codes (section 3.2.2 of RFC 1951).

  A code is given by the list of its code lengths, one per symbol, 0 meaning that
  the symbol has no code.  Codes of one length are consecutive numbers in symbol
  order, and the first code of a length is twice the number just past the last
  code of the previous length.
 */
module Canonical {
  import opened Bits

  datatype Option<+T> = None | Some(value: T)

  // At most 288 symbols, and no code longer than 15 bits.
  ghost predicate CodeLengths(lens: seq<nat>) {
    |lens| <= 288 && forall i :: 0 <= i < |lens| ==> lens[i] <= 15
  }

  // How many of the first n symbols have length s.
  function CountTo(lens: seq<nat>, n: nat, s: nat): nat
    requires n <= |lens|
  {
    if n == 0 then 0 else CountTo(lens, n - 1, s) + if lens[n - 1] == s then 1 else 0
  }

  function Count(lens: seq<nat>, s: nat): nat {
    CountTo(lens, |lens|, s)
  }

  // The number just past the last code of length s.
  function End(lens: seq<nat>, s: nat): nat
    decreases s, lens
  {
    if s == 0 then 0 else 2 * End(lens, s - 1) + Count(lens, s)
  }

  function FirstCode(lens: seq<nat>, s: nat): nat
    requires s > 0
  {
    2 * End(lens, s - 1)
  }

  function Code(lens: seq<nat>, v: nat): nat
    requires v < |lens| && lens[v] > 0
  {
    FirstCode(lens, lens[v]) + CountTo(lens, v, lens[v])
  }

  // Symbol v is what the stream holds at p: its code, most significant bit first.
  ghost predicate IsNext(lens: seq<nat>, input: seq<byte>, p: nat, v: nat) {
    v < |lens| && lens[v] > 0 && Msb(input, p, lens[v]) == Code(lens, v)
  }

  ghost function NextSymbol(lens: seq<nat>, input: seq<byte>, p: nat): (r: Option<nat>)
    ensures r.Some? ==> r.value < |lens| && lens[r.value] > 0
  {
    if exists v: nat :: IsNext(lens, input, p, v) then
      var v: nat :| IsNext(lens, input, p, v);
      Some(v)
    else
      None
  }

  // ------------------------------------------------------------ ranks

  lemma {:induction false} CountMono(lens: seq<nat>, m: nat, n: nat, s: nat)
    requires m <= n <= |lens|
    ensures CountTo(lens, m, s) <= CountTo(lens, n, s)
  {
    if m < n { CountMono(lens, m, n - 1, s); }
  }

  // A symbol's rank among the symbols of its length is below their number, and
  // symbols of one length have different ranks.
  lemma RankBound(lens: seq<nat>, v: nat)
    requires v < |lens|
    ensures CountTo(lens, v, lens[v]) < Count(lens, lens[v])
  {
    CountMono(lens, v + 1, |lens|, lens[v]);
  }

  lemma RankStrict(lens: seq<nat>, v: nat, w: nat)
    requires v < w < |lens| && lens[v] == lens[w]
    ensures CountTo(lens, v, lens[v]) < CountTo(lens, w, lens[w])
  {
    CountMono(lens, v + 1, w, lens[v]);
  }

  lemma {:induction false} FindRank(lens: seq<nat>, n: nat, s: nat, rank: nat) returns (v: nat)
    requires n <= |lens| && rank < CountTo(lens, n, s)
    ensures v < n && lens[v] == s && CountTo(lens, v, s) == rank
    decreases n
  {
    if lens[n - 1] == s && CountTo(lens, n - 1, s) == rank {
      v := n - 1;
    } else {
      v := FindRank(lens, n - 1, s, rank);
    }
  }

  // ------------------------------------------------------------ reading a code

  // The first s bits are below the end of the codes of length s: some code of
  // at most s bits starts here.
  ghost predicate Below(lens: seq<nat>, input: seq<byte>, p: nat, s: nat) {
    Msb(input, p, s) < End(lens, s)
  }

  lemma {:induction false} BelowMono(lens: seq<nat>, input: seq<byte>, p: nat, s: nat, t: nat)
    requires s <= t && Below(lens, input, p, s)
    ensures Below(lens, input, p, t)
    decreases t
  {
    if s < t {
      BelowMono(lens, input, p, s, t - 1);
    }
  }

  // A symbol's code length is the first length that is below.
  lemma NextIsFirstBelow(lens: seq<nat>, input: seq<byte>, p: nat, v: nat)
    requires IsNext(lens, input, p, v)
    ensures Below(lens, input, p, lens[v]) && !Below(lens, input, p, lens[v] - 1)
  {
    RankBound(lens, v);
  }

  lemma FirstBelowHasNext(lens: seq<nat>, input: seq<byte>, p: nat, s: nat) returns (v: nat)
    requires s > 0 && Below(lens, input, p, s) && !Below(lens, input, p, s - 1)
    ensures IsNext(lens, input, p, v) && lens[v] == s
  {
    v := FindRank(lens, |lens|, s, Msb(input, p, s) - FirstCode(lens, s));
  }

  lemma {:induction false} BelowHasNext(lens: seq<nat>, input: seq<byte>, p: nat, t: nat) returns (v: nat)
    requires Below(lens, input, p, t)
    ensures IsNext(lens, input, p, v) && lens[v] <= t
    decreases t
  {
    assert t > 0;
    if Below(lens, input, p, t - 1) {
      v := BelowHasNext(lens, input, p, t - 1);
    } else {
      v := FirstBelowHasNext(lens, input, p, t);
    }
  }

  // At most one symbol starts at any place of any stream: the code is prefix-free.
  lemma NextUnique(lens: seq<nat>, input: seq<byte>, p: nat, v: nat, w: nat)
    requires IsNext(lens, input, p, v) && IsNext(lens, input, p, w)
    ensures v == w
  {
    NextIsFirstBelow(lens, input, p, v);
    NextIsFirstBelow(lens, input, p, w);
    if lens[v] < lens[w] {
      BelowMono(lens, input, p, lens[v], lens[w] - 1);
    } else if lens[w] < lens[v] {
      BelowMono(lens, input, p, lens[w], lens[v] - 1);
    } else if v < w {
      RankStrict(lens, v, w);
    } else if w < v {
      RankStrict(lens, w, v);
    }
  }

  lemma NextIsUnique(lens: seq<nat>, input: seq<byte>, p: nat, v: nat)
    requires IsNext(lens, input, p, v)
    ensures NextSymbol(lens, input, p) == Some(v)
  {
    NextUnique(lens, input, p, v, NextSymbol(lens, input, p).value);
  }

  // No code of at most t bits starts where the first t bits are not below.
  lemma NoNextAbove(lens: seq<nat>, input: seq<byte>, p: nat, t: nat)
    requires !Below(lens, input, p, t)
    ensures forall v: nat :: IsNext(lens, input, p, v) ==> lens[v] > t
  {
    forall v: nat | IsNext(lens, input, p, v) ensures lens[v] > t {
      NextIsFirstBelow(lens, input, p, v);
      if lens[v] <= t { BelowMono(lens, input, p, lens[v], t); }
    }
  }

  // ------------------------------------------------------------ the Kraft sum

  // In units of 2^-15.
  function KraftSum(lens: seq<nat>): nat
    requires forall i :: 0 <= i < |lens| ==> lens[i] <= 15
  {
    if lens == [] then 0
    else
      var x := lens[|lens| - 1];
      KraftSum(lens[..|lens| - 1]) + if x == 0 then 0 else Pow2(15 - x)
  }

  lemma {:induction false} CountToPrefix(lens: seq<nat>, m: nat, n: nat, s: nat)
    requires n <= m <= |lens|
    ensures CountTo(lens[..m], n, s) == CountTo(lens, n, s)
    decreases n
  {
    if n > 0 { CountToPrefix(lens, m, n - 1, s); }
  }

  // Dropping the last symbol takes its code's share away.
  lemma {:induction false} EndDrop(lens: seq<nat>, s: nat)
    requires lens != []
    ensures var x := lens[|lens| - 1];
      End(lens, s) == End(lens[..|lens| - 1], s) + if 0 < x <= s then Pow2(s - x) else 0
    decreases s
  {
    if s > 0 {
      EndDrop(lens, s - 1);
      CountToPrefix(lens, |lens| - 1, |lens| - 1, s);
    }
  }

  lemma {:induction false} EndEmpty(s: nat)
    ensures End([], s) == 0
  {
    if s > 0 { EndEmpty(s - 1); }
  }

  // The end of the longest codes is the Kraft sum.
  lemma {:induction false} EndIsKraftSum(lens: seq<nat>)
    requires forall i :: 0 <= i < |lens| ==> lens[i] <= 15
    ensures End(lens, 15) == KraftSum(lens)
    decreases |lens|
  {
    if lens == [] {
      EndEmpty(15);
    } else {
      EndDrop(lens, 15);
      EndIsKraftSum(lens[..|lens| - 1]);
    }
  }

  lemma {:induction false} EndGrows(lens: seq<nat>, s: nat, n: nat)
    ensures Shl(End(lens, s), n) <= End(lens, s + n)
    decreases n
  {
    if n > 0 { EndGrows(lens, s, n - 1); }
  }

  // If the Kraft sum is at most 1, every code fits its length.
  lemma EndFits(lens: seq<nat>, s: nat)
    requires s <= 15 && End(lens, 15) <= Pow2(15)
    ensures End(lens, s) <= Pow2(s)
  {
    EndGrows(lens, s, 15 - s);
    ShlPow2(s, 15 - s);
    ShlMono(Pow2(s), End(lens, s), 15 - s);
  }

  lemma CodeFits(lens: seq<nat>, v: nat)
    requires CodeLengths(lens) && KraftSum(lens) <= Pow2(15)
    requires v < |lens| && lens[v] > 0
    ensures Code(lens, v) < End(lens, lens[v]) <= Pow2(lens[v])
  {
    RankBound(lens, v);
    EndIsKraftSum(lens);
    EndFits(lens, lens[v]);
  }

  // ------------------------------------------------------------ symbols sorted by code

  // How many of the first n symbols have a code shorter than s bits.
  function ShorterTo(lens: seq<nat>, n: nat, s: nat): nat
    requires n <= |lens|
    decreases s, lens
  {
    if s <= 1 then 0 else ShorterTo(lens, n, s - 1) + CountTo(lens, n, s - 1)
  }

  function FirstSymbol(lens: seq<nat>, s: nat): nat {
    ShorterTo(lens, |lens|, s)
  }

  // The position of symbol v when symbols are sorted by code.
  function Slot(lens: seq<nat>, v: nat): nat
    requires v < |lens|
  {
    FirstSymbol(lens, lens[v]) + CountTo(lens, v, lens[v])
  }

  lemma {:induction false} ShorterStep(lens: seq<nat>, n: nat, s: nat)
    requires n < |lens|
    ensures ShorterTo(lens, n + 1, s) == ShorterTo(lens, n, s) + if 0 < lens[n] < s then 1 else 0
    decreases s
  {
    if s > 1 { ShorterStep(lens, n, s - 1); }
  }

  lemma {:induction false} ShorterBound(lens: seq<nat>, n: nat, s: nat)
    requires n <= |lens|
    ensures ShorterTo(lens, n, s) <= n
  {
    if n == 0 {
      ShorterNone(lens, s);
    } else {
      ShorterBound(lens, n - 1, s);
      ShorterStep(lens, n - 1, s);
    }
  }

  lemma {:induction false} ShorterNone(lens: seq<nat>, s: nat)
    ensures ShorterTo(lens, 0, s) == 0
    decreases s
  {
    if s > 1 { ShorterNone(lens, s - 1); }
  }

  lemma {:induction false} ShorterMono(lens: seq<nat>, s: nat, t: nat)
    requires s <= t
    ensures FirstSymbol(lens, s) <= FirstSymbol(lens, t)
    decreases t
  {
    if s < t { ShorterMono(lens, s, t - 1); }
  }

  lemma SlotBound(lens: seq<nat>, v: nat)
    requires v < |lens| && lens[v] > 0
    ensures Slot(lens, v) < |lens|
  {
    RankBound(lens, v);
    ShorterBound(lens, |lens|, lens[v] + 1);
  }

  lemma SlotInjective(lens: seq<nat>, v: nat, w: nat)
    requires v < |lens| && w < |lens| && v != w && lens[v] > 0 && lens[w] > 0
    ensures Slot(lens, v) != Slot(lens, w)
  {
    if lens[v] == lens[w] {
      if v < w { RankStrict(lens, v, w); } else { RankStrict(lens, w, v); }
    } else if lens[v] < lens[w] {
      RankBound(lens, v);
      ShorterMono(lens, lens[v] + 1, lens[w]);
    } else {
      RankBound(lens, w);
      ShorterMono(lens, lens[w] + 1, lens[v]);
    }
  }
}
