/**
  Announcing the codes of a dynamic block (section 3.2.7 of RFC 1951): any code for the
  code lengths, any number of its own lengths, and any runs of repeated lengths.
 */
module DeflateHeader {
  import opened Bits
  import opened Canonical
  import opened Deflate
  import opened DeflateEncode
  import opened Packing

  // ------------------------------------------------------------ runs of code lengths

  // One length; the previous length n times more; n zeros.
  datatype Run = One(len: nat) | Again(n: nat) | NoCodes(n: nat)

  predicate RunOk(r: Run, acc: seq<nat>) {
    match r
    case One(len) => len <= 15
    case Again(n) => 3 <= n <= 6 && acc != []
    case NoCodes(n) => 3 <= n <= 138
  }

  function RunMeaning(r: Run, acc: seq<nat>): (lens: seq<nat>)
    requires RunOk(r, acc)
    ensures |lens| > |acc|
  {
    match r
    case One(len) => acc + [len]
    case Again(n) => acc + Times(acc[|acc| - 1], n)
    case NoCodes(n) => acc + Times(0, n)
  }

  // The symbol for a run, and how many bits say how long it is.
  function RunSymbol(r: Run): nat {
    match r
    case One(len) => len
    case Again(_) => 16
    case NoCodes(n) => if n <= 10 then 17 else 18
  }

  function RunExtra(r: Run): seq<bit> {
    match r
    case One(_) => []
    case Again(n) => if n >= 3 then FieldBits(n - 3, 2) else []
    case NoCodes(n) => if n < 3 then [] else if n <= 10 then FieldBits(n - 3, 3) else FieldBits(n - 11, 7)
  }

  ghost predicate RunsOk(rs: seq<Run>, acc: seq<nat>)
    decreases |rs|
  {
    rs == [] || (RunOk(rs[0], acc) && RunsOk(rs[1..], RunMeaning(rs[0], acc)))
  }

  ghost function RunsMeaning(rs: seq<Run>, acc: seq<nat>): (lens: seq<nat>)
    requires RunsOk(rs, acc)
    ensures |lens| >= |acc|
    decreases |rs|
  {
    if rs == [] then acc else RunsMeaning(rs[1..], RunMeaning(rs[0], acc))
  }

  // The code length code has a code for every symbol that is needed.
  ghost predicate RunsCodable(clens: seq<nat>, rs: seq<Run>) {
    forall i :: 0 <= i < |rs| ==> RunSymbol(rs[i]) < |clens| && clens[RunSymbol(rs[i])] > 0
  }

  ghost function RunsBits(clens: seq<nat>, rs: seq<Run>): (r: seq<bit>)
    requires RunsCodable(clens, rs)
  {
    if rs == [] then []
    else (SymbolBits(clens, RunSymbol(rs[0])) + RunExtra(rs[0])) + RunsBits(clens, rs[1..])
  }

  ghost predicate Short(lens: seq<nat>) {
    forall i :: 0 <= i < |lens| ==> lens[i] <= 15
  }

  lemma ReadRunLength(input: seq<byte>, q: nat, r: Run, acc: seq<nat>)
    requires RunOk(r, acc) && Short(acc) && |acc| < 320 && |RunMeaning(r, acc)| <= MAX_LENGTHS
    requires Holds(input, q, RunExtra(r))
    ensures LengthRun(input, q, RunSymbol(r), acc) == Lengths(RunMeaning(r, acc), q + |RunExtra(r)|)
    ensures Short(RunMeaning(r, acc))
  {
    hide Lsb, FieldBits, Holds;
    assert Pow2(2) == 4 && Pow2(3) == 8;
    Pow2Values();
    match r
    case One(_) =>
    case Again(n) => ReadField(input, q, n - 3, 2);
    case NoCodes(n) =>
      if n <= 10 { ReadField(input, q, n - 3, 3); } else { ReadField(input, q, n - 11, 7); }
  }

  // Reading goes on behind any runs that leave lengths to be read, and ends behind runs
  // that complete them.
  lemma {:induction false} ReadRuns(clens: seq<nat>, input: seq<byte>, p: nat, rs: seq<Run>, acc: seq<nat>, total: nat)
    requires UsableCode(clens, 19) && RunsCodable(clens, rs) && RunsOk(rs, acc) && Short(acc)
    requires |RunsMeaning(rs, acc)| <= total <= 320 && Holds(input, p, RunsBits(clens, rs))
    ensures Short(RunsMeaning(rs, acc))
    ensures ReadLengths(clens, input, p, total, acc)
         == ReadLengths(clens, input, p + |RunsBits(clens, rs)|, total, RunsMeaning(rs, acc))
    decreases |rs|
  {
    hide Lsb, FieldBits, Holds, SymbolBits, RunExtra, KraftSum, NextSymbol, LengthRun, RunMeaning, RunSymbol, RunOk;
    if rs != [] {
      var r := rs[0];
      var code, extra := SymbolBits(clens, RunSymbol(r)), RunExtra(r);
      assert |RunsMeaning(rs[1..], RunMeaning(r, acc))| >= |RunMeaning(r, acc)|;
      HoldsSplit(input, p, code + extra, RunsBits(clens, rs[1..]));
      HoldsSplit(input, p, code, extra);
      ReadSymbol(clens, input, p, RunSymbol(r));
      ReadRunLength(input, p + |code|, r, acc);
      assert forall i :: 0 <= i < |rs[1..]| ==> rs[1..][i] == rs[i + 1];
      ReadRuns(clens, input, p + |code + extra|, rs[1..], RunMeaning(r, acc), total);
    }
  }

  // ------------------------------------------------------------ the code length code

  ghost predicate CodeLengthCode(clens: seq<nat>, hclen: nat) {
    && UsableCode(clens, 19) && |clens| == 19 && 4 <= hclen <= 19
    && (forall i :: 0 <= i < 19 ==> clens[i] < 8)
    && (forall k: nat :: hclen <= k < 19 ==> clens[ZigzagOf(k)] == 0)
  }

  // Its first n lengths in zigzag order.
  function ZigzagBits(clens: seq<nat>, n: nat): (r: seq<bit>)
    requires |clens| == 19 && n <= 19
    ensures |r| == 3 * n
  {
    if n == 0 then [] else ZigzagBits(clens, n - 1) + FieldBits(clens[ZigzagOf(n - 1)], 3)
  }

  // The order of section 3.2.7 of RFC 1951: the three repeat codes, 0, and then outwards from
  // 8 and 7 in turn.
  lemma ZigzagOrder(j: nat)
    requires j < 8
    ensures ZigzagOf(0) == 16 && ZigzagOf(1) == 17 && ZigzagOf(2) == 18 && ZigzagOf(3) == 0
    ensures ZigzagOf(4 + 2 * j) == 8 + j && (j < 7 ==> ZigzagOf(5 + 2 * j) == 7 - j)
  {
    assert j == 0 || j == 1 || j == 2 || j == 3 || j == 4 || j == 5 || j == 6 || j == 7;
  }

  // Where length i stands in zigzag order.
  function ZigzagPlace(i: nat): (k: nat)
    requires i < 19
    ensures k < 19 && ZigzagOf(k) == i
  {
    [3, 17, 15, 13, 11, 9, 7, 5, 4, 6, 8, 10, 12, 14, 16, 18, 0, 1, 2][i]
  }

  lemma ZigzagInjective(i: nat, k: nat)
    requires i < 19 && k < 19 && ZigzagOf(i) == ZigzagOf(k)
    ensures i == k
  {
  }

  // Lengths that are announced are read, the others are 0.
  lemma {:induction false} ReadZigzagBits(clens: seq<nat>, input: seq<byte>, p: nat, n: nat)
    requires |clens| == 19 && (forall i :: 0 <= i < 19 ==> clens[i] < 8)
    requires n <= 19 && Holds(input, p, ZigzagBits(clens, n))
    ensures forall k: nat :: k < 19 ==>
      ZigzagLengths(input, p, n)[ZigzagOf(k)] == if k < n then clens[ZigzagOf(k)] else 0
    decreases n
  {
    hide Bit, Lsb, FieldBits, ZigzagOf, Holds;
    if n > 0 {
      var z := ZigzagOf(n - 1);
      HoldsSplit(input, p, ZigzagBits(clens, n - 1), FieldBits(clens[z], 3));
      ReadZigzagBits(clens, input, p, n - 1);
      assert Pow2(3) == 8;
      ReadField(input, p + 3 * (n - 1), clens[z], 3);
      forall k: nat | k < 19
        ensures ZigzagLengths(input, p, n)[ZigzagOf(k)] == if k < n then clens[ZigzagOf(k)] else 0
      {
        if ZigzagOf(k) == z { ZigzagInjective(k, n - 1); }
      }
    }
  }

  lemma ReadAllZigzag(clens: seq<nat>, hclen: nat, input: seq<byte>, p: nat)
    requires CodeLengthCode(clens, hclen) && Holds(input, p, ZigzagBits(clens, hclen))
    ensures ZigzagLengths(input, p, hclen) == clens
  {
    hide Holds, ZigzagLengths, ZigzagBits, ZigzagOf, ZigzagPlace, UsableCode;
    ReadZigzagBits(clens, input, p, hclen);
    var z := ZigzagLengths(input, p, hclen);
    forall i | 0 <= i < 19 ensures z[i] == clens[i] {
      assert z[ZigzagOf(ZigzagPlace(i))] == if ZigzagPlace(i) < hclen then clens[i] else 0;
    }
  }

  // ------------------------------------------------------------ headers

  // A way to announce two codes.
  datatype Form = Form(clens: seq<nat>, hclen: nat, runs: seq<Run>)

  ghost predicate Announces(f: Form, lit: seq<nat>, dist: seq<nat>) {
    && UsableCodes(lit, dist) && |lit| >= 257 && |dist| >= 1
    && CodeLengthCode(f.clens, f.hclen) && RunsCodable(f.clens, f.runs)
    && RunsOk(f.runs, []) && RunsMeaning(f.runs, []) == lit + dist
  }

  // The counts and the code length code.
  function CountBits(f: Form, hlit: nat, hdist: nat): (r: seq<bit>)
    requires |f.clens| == 19 && 4 <= f.hclen <= 19 && hlit >= 257 && hdist >= 1
    ensures |r| == 14 + 3 * f.hclen
  {
    FieldBits(hlit - 257, 5) + FieldBits(hdist - 1, 5) + FieldBits(f.hclen - 4, 4) + ZigzagBits(f.clens, f.hclen)
  }

  ghost function HeaderBits(f: Form, hlit: nat, hdist: nat): (r: seq<bit>)
    requires CodeLengthCode(f.clens, f.hclen) && RunsCodable(f.clens, f.runs) && hlit >= 257 && hdist >= 1
  {
    CountBits(f, hlit, hdist) + RunsBits(f.clens, f.runs)
  }

  lemma ReadCounts(f: Form, hlit: nat, hdist: nat, input: seq<byte>, p: nat)
    requires CodeLengthCode(f.clens, f.hclen) && 257 <= hlit <= 288 && 1 <= hdist <= 32
    requires Holds(input, p, CountBits(f, hlit, hdist))
    ensures HLit(input, p) == hlit && HDist(input, p) == hdist && HCLen(input, p) == f.hclen
    ensures ZigzagLengths(input, p + 14, f.hclen) == f.clens
  {
    hide Bit, Lsb, Holds, FieldBits, ZigzagBits, ZigzagLengths, UsableCode;
    var f1, f2, f3 := FieldBits(hlit - 257, 5), FieldBits(hdist - 1, 5), FieldBits(f.hclen - 4, 4);
    HoldsSplit(input, p, f1 + f2 + f3, ZigzagBits(f.clens, f.hclen));
    HoldsSplit(input, p, f1 + f2, f3);
    HoldsSplit(input, p, f1, f2);
    assert Pow2(4) == 16 && Pow2(5) == 32;
    ReadField(input, p, hlit - 257, 5);
    ReadField(input, p + 5, hdist - 1, 5);
    ReadField(input, p + 10, f.hclen - 4, 4);
    ReadAllZigzag(f.clens, f.hclen, input, p + 14);
  }

  // A header whose code length code can be built is followed by the lengths.
  lemma LengthsOf(clens: seq<nat>, input: seq<byte>, p: nat)
    requires UsableCode(clens, 19) && clens == ZigzagLengths(input, p + 14, HCLen(input, p))
    ensures DynamicLengths(input, p)
         == ReadLengths(clens, input, p + 14 + 3 * HCLen(input, p), HLit(input, p) + HDist(input, p), [])
  {
    hide Lsb, ZigzagLengths, KraftSum, ReadLengths, HLit, HDist, HCLen;
  }

  // Behind any runs of an announced form, reading the lengths goes on.
  lemma ReadForm(f: Form, hlit: nat, hdist: nat, input: seq<byte>, p: nat)
    requires CodeLengthCode(f.clens, f.hclen) && RunsCodable(f.clens, f.runs) && RunsOk(f.runs, [])
    requires 257 <= hlit <= 288 && 1 <= hdist <= 32 && |RunsMeaning(f.runs, [])| <= hlit + hdist
    requires Holds(input, p, HeaderBits(f, hlit, hdist))
    ensures HLit(input, p) == hlit && HDist(input, p) == hdist && Short(RunsMeaning(f.runs, []))
    ensures DynamicLengths(input, p)
         == ReadLengths(f.clens, input, p + |HeaderBits(f, hlit, hdist)|, hlit + hdist, RunsMeaning(f.runs, []))
  {
    hide Bit, Lsb, Holds, UsableCode, CountBits, ZigzagLengths, RunsBits, ReadLengths, HLit, HDist, HCLen;
    hide DynamicLengths, RunsOk, RunsMeaning, RunsCodable;
    HoldsSplit(input, p, CountBits(f, hlit, hdist), RunsBits(f.clens, f.runs));
    ReadCounts(f, hlit, hdist, input, p);
    LengthsOf(f.clens, input, p);
    ReadRuns(f.clens, input, p + 14 + 3 * f.hclen, f.runs, [], hlit + hdist);
  }

  // However two codes are announced, they are read.
  lemma ReadHeader(f: Form, lit: seq<nat>, dist: seq<nat>, input: seq<byte>, p: nat)
    requires Announces(f, lit, dist) && Holds(input, p, HeaderBits(f, |lit|, |dist|))
    ensures DynamicTables(input, p) == Tables(lit, dist, p + |HeaderBits(f, |lit|, |dist|)|)
  {
    hide Bit, Lsb, Holds, KraftSum, HLit, HDist, HeaderBits, DynamicLengths;
    ReadForm(f, |lit|, |dist|, input, p);
    assert (lit + dist)[..|lit|] == lit && (lit + dist)[|lit|..] == dist;
  }

  // ------------------------------------------------------------ a form for all codes

  // Four bits for each length, no repeat codes.
  function FlatLengths(): (r: seq<nat>)
    ensures |r| == 19 && forall i :: 0 <= i < 19 ==> r[i] == if i < 16 then 4 else 0
  {
    seq(19, i => if i < 16 then 4 else 0)
  }

  lemma {:induction false} FlatKraft(n: nat)
    requires n <= 19
    ensures KraftSum(FlatLengths()[..n]) == 2048 * if n <= 16 then n else 16
  {
    if n > 0 {
      FlatKraft(n - 1);
      assert FlatLengths()[..n][..n - 1] == FlatLengths()[..n - 1];
      assert Pow2(11) == 2048;
    }
  }

  lemma FlatUsable()
    ensures CodeLengthCode(FlatLengths(), 19)
  {
    FlatKraft(19);
    assert FlatLengths()[..19] == FlatLengths();
    Pow2Values();
  }

  ghost function Singly(lens: seq<nat>): seq<Run> {
    seq(|lens|, i requires 0 <= i < |lens| => One(lens[i]))
  }

  lemma {:induction false} SinglyMeaning(lens: seq<nat>, acc: seq<nat>)
    requires Short(lens)
    ensures RunsOk(Singly(lens), acc) && RunsMeaning(Singly(lens), acc) == acc + lens
    decreases |lens|
  {
    if lens == [] {
      assert acc + lens == acc;
    } else {
      assert Singly(lens)[1..] == Singly(lens[1..]);
      SinglyMeaning(lens[1..], acc + [lens[0]]);
      assert acc + [lens[0]] + lens[1..] == acc + lens;
    }
  }

  // Any two codes can be announced.
  lemma FlatAnnounces(lit: seq<nat>, dist: seq<nat>)
    requires UsableCodes(lit, dist) && |lit| >= 257 && |dist| >= 1
    ensures Announces(Form(FlatLengths(), 19, Singly(lit + dist)), lit, dist)
  {
    hide KraftSum, FlatLengths;
    FlatUsable();
    assert Short(lit + dist);
    SinglyMeaning(lit + dist, []);
    assert [] + (lit + dist) == lit + dist;
  }
}
