/**
  Reading the code lengths of a dynamic block: when they are refused, and when the C code
  leaves its array of 455 entries.
 */
module DeflateLengths {
  import opened Bits
  import opened Canonical
  import opened Deflate
  import opened DeflateEncode
  import opened DeflateHeader
  import opened DeflateRoundTrip
  import opened Packing

  // A run that leaves the array: only a repetition in front, or many zeros close to the end.
  ghost predicate LeavesArray(input: seq<byte>, q: nat, c: nat, acc: seq<nat>) {
    (c == 16 && acc == []) || (c == 18 && |acc| + 11 + Lsb(input, q, 7) > MAX_LENGTHS)
  }

  lemma RunFits(input: seq<byte>, q: nat, c: nat, acc: seq<nat>)
    requires c < 19 && |acc| < 320 && Short(acc)
    ensures LengthRun(input, q, c, acc).NoLengths? <==> LeavesArray(input, q, c, acc)
    ensures LeavesArray(input, q, c, acc) && c == 18 ==> |acc| >= 318
  {
    hide Lsb, Times;
    LsbBound(input, q, 2);
    LsbBound(input, q, 3);
    LsbBound(input, q, 7);
    Pow2Values();
    assert Pow2(2) == 4;
  }

  // ------------------------------------------------------------ the three ways to end

  // The lengths after k of the symbols that are read while there are fewer than `total`.
  ghost function AfterRuns(clens: seq<nat>, input: seq<byte>, p: nat, total: nat, acc: seq<nat>, k: nat): (r: Lengths)
    requires UsableCode(clens, 19) && total <= 320 && Short(acc)
    ensures r.Lengths? ==> Short(r.lens)
    decreases k
  {
    if k == 0 || |acc| >= total then Lengths(acc, p)
    else
      match NextSymbol(clens, input, p)
      case None => NoLengths(Rejected)
      case Some(c) =>
        match LengthRun(input, p + clens[c], c, acc)
        case NoLengths(v) => NoLengths(v)
        case Lengths(acc', q) => AfterRuns(clens, input, q, total, acc', k - 1)
  }

  // The total is met, passed, or not met because no symbol follows; or the array is left.
  datatype Outcome = Met | Passed | Stuck | Left | Going

  ghost function OutcomeAt(clens: seq<nat>, input: seq<byte>, total: nat, state: Lengths): (r: Outcome)
    requires UsableCode(clens, 19) && total <= 320
  {
    match state
    case NoLengths(_) => Going
    case Lengths(acc, q) =>
      if |acc| == total then Met
      else if |acc| > total then Passed
      else
        match NextSymbol(clens, input, q)
        case None => Stuck
        case Some(c) => if LeavesArray(input, q + clens[c], c, acc) then Left else Going
  }

  // What each outcome makes of the lengths.
  ghost predicate Decides(o: Outcome, state: Lengths, r: Lengths) {
    match o
    case Met => r == state
    case Passed => r == NoLengths(Rejected)
    case Stuck => r == NoLengths(Rejected)
    case Left => r == NoLengths(Undefined)
    case Going => true
  }

  lemma {:induction false} OutcomeDecides(clens: seq<nat>, input: seq<byte>, p: nat, total: nat, acc: seq<nat>, k: nat)
    requires UsableCode(clens, 19) && total <= 320 && Short(acc)
    ensures var state := AfterRuns(clens, input, p, total, acc, k);
      Decides(OutcomeAt(clens, input, total, state), state, ReadLengths(clens, input, p, total, acc))
    decreases k
  {
    hide NextSymbol, LengthRun, KraftSum, LeavesArray;
    var next := NextSymbol(clens, input, p);
    if |acc| < total && next.Some? {
      var c := next.value;
      RunFits(input, p + clens[c], c, acc);
      var run := LengthRun(input, p + clens[c], c, acc);
      if k > 0 && run.Lengths? { OutcomeDecides(clens, input, run.pos, total, run.lens, k - 1); }
    }
  }

  lemma {:induction false} OutcomeComes(clens: seq<nat>, input: seq<byte>, p: nat, total: nat, acc: seq<nat>)
      returns (k: nat)
    requires UsableCode(clens, 19) && total <= 320 && Short(acc)
    ensures OutcomeAt(clens, input, total, AfterRuns(clens, input, p, total, acc, k)) != Going
    ensures k > 0 ==> |acc| < total
    decreases total - |acc|
  {
    hide NextSymbol, LengthRun, KraftSum, LeavesArray;
    k := 0;
    var next := NextSymbol(clens, input, p);
    if |acc| < total && next.Some? {
      var c := next.value;
      RunFits(input, p + clens[c], c, acc);
      var run := LengthRun(input, p + clens[c], c, acc);
      if run.Lengths? {
        var k' := OutcomeComes(clens, input, run.pos, total, run.lens);
        k := k' + 1;
      }
    }
  }

  ghost predicate ComesTo(o: Outcome, clens: seq<nat>, input: seq<byte>, p: nat, total: nat)
    requires UsableCode(clens, 19) && total <= 320
  {
    exists k: nat :: OutcomeAt(clens, input, total, AfterRuns(clens, input, p, total, [], k)) == o
  }

  lemma OutcomeHolds(o: Outcome, clens: seq<nat>, input: seq<byte>, p: nat, total: nat)
    requires UsableCode(clens, 19) && total <= 320 && ComesTo(o, clens, input, p, total)
    ensures var r := ReadLengths(clens, input, p, total, []);
      match o
      case Met => r.Lengths?
      case Left => r == NoLengths(Undefined)
      case Going => true
      case _ => r == NoLengths(Rejected)
  {
    hide ReadLengths, AfterRuns, UsableCode, NextSymbol, LeavesArray;
    var k: nat :| OutcomeAt(clens, input, total, AfterRuns(clens, input, p, total, [], k)) == o;
    OutcomeDecides(clens, input, p, total, [], k);
  }

  // The lengths are given exactly if the runs meet the total; they are refused exactly if
  // the last run passes it or no symbol follows; the array is left exactly by such a run.
  lemma LengthsExactly(clens: seq<nat>, input: seq<byte>, p: nat, total: nat)
    requires UsableCode(clens, 19) && total <= 320
    ensures var r := ReadLengths(clens, input, p, total, []);
      && (r.Lengths? <==> ComesTo(Met, clens, input, p, total))
      && (r == NoLengths(Rejected) <==> ComesTo(Passed, clens, input, p, total)
                                        || ComesTo(Stuck, clens, input, p, total))
      && (r == NoLengths(Undefined) <==> ComesTo(Left, clens, input, p, total))
  {
    hide ReadLengths, AfterRuns, OutcomeAt, UsableCode, ComesTo;
    var k := OutcomeComes(clens, input, p, total, []);
    var o := OutcomeAt(clens, input, total, AfterRuns(clens, input, p, total, [], k));
    assert ComesTo(o, clens, input, p, total) by { OutcomeReached(clens, input, p, total, k); }
    forall o: Outcome | ComesTo(o, clens, input, p, total) {
      OutcomeHolds(o, clens, input, p, total);
    }
  }

  lemma OutcomeReached(clens: seq<nat>, input: seq<byte>, p: nat, total: nat, k: nat)
    requires UsableCode(clens, 19) && total <= 320
    ensures ComesTo(OutcomeAt(clens, input, total, AfterRuns(clens, input, p, total, [], k)), clens, input, p, total)
  {
  }

  // ------------------------------------------------------------ HLIT up to 286

  lemma {:induction false} LaterRunsInside(clens: seq<nat>, input: seq<byte>, p: nat, total: nat, acc: seq<nat>)
    requires UsableCode(clens, 19) && total <= 318 && acc != [] && Short(acc)
    ensures ReadLengths(clens, input, p, total, acc) != NoLengths(Undefined)
    decreases total - |acc|
  {
    hide LengthRun, KraftSum;
    var next := NextSymbol(clens, input, p);
    if |acc| < total && next.Some? {
      RunFits(input, p + clens[next.value], next.value, acc);
      var r := LengthRun(input, p + clens[next.value], next.value, acc);
      LaterRunsInside(clens, input, r.pos, total, r.lens);
    }
  }

  // Then only a repetition in front leaves the array.
  lemma FewLengthsInside(clens: seq<nat>, input: seq<byte>, p: nat, total: nat)
    requires UsableCode(clens, 19) && 0 < total <= 318
    ensures ReadLengths(clens, input, p, total, []) == NoLengths(Undefined) <==> NextSymbol(clens, input, p) == Some(16)
  {
    hide LengthRun, KraftSum;
    var next := NextSymbol(clens, input, p);
    if next.Some? {
      RunFits(input, p + clens[next.value], next.value, []);
      var r := LengthRun(input, p + clens[next.value], next.value, []);
      if r.Lengths? { LaterRunsInside(clens, input, r.pos, total, r.lens); }
    }
  }

  // ------------------------------------------------------------ a header that leaves the array

  // Only symbol 18 has a code, and 138 + 138 + 42 zeros are announced of 288 + 32.
  function OverrunForm(): (f: Form)
    ensures |f.clens| == 19 && f.clens[18] == 1 && (forall i :: 0 <= i < 18 ==> f.clens[i] == 0)
    ensures f.hclen == 4 && f.runs == [NoCodes(138), NoCodes(138), NoCodes(42)]
  {
    Form(Times(0, 18) + [1], 4, [NoCodes(138), NoCodes(138), NoCodes(42)])
  }

  lemma OverrunFormOk()
    ensures var f := OverrunForm();
      && CodeLengthCode(f.clens, f.hclen) && RunsCodable(f.clens, f.runs)
      && RunsOk(f.runs, []) && |RunsMeaning(f.runs, [])| == 318
  {
    hide OverrunForm;
    var f := OverrunForm();
    OneCodeUsable(f.clens, 18);
    var rs := f.runs;
    assert rs[1..] == [NoCodes(138), NoCodes(42)];
    assert rs[1..][1..] == [NoCodes(42)];
  }

  // A single symbol with a code of one bit.
  lemma {:induction false} OneCodeKraft(lens: seq<nat>, v: nat, n: nat)
    requires v < |lens| && lens[v] == 1 && (forall i :: 0 <= i < |lens| && i != v ==> lens[i] == 0) && n <= |lens|
    ensures KraftSum(lens[..n]) == if n > v then Pow2(14) else 0
    decreases n
  {
    if n > 0 {
      assert lens[..n][..n - 1] == lens[..n - 1];
      OneCodeKraft(lens, v, n - 1);
    }
  }

  lemma OneCodeUsable(lens: seq<nat>, v: nat)
    requires |lens| == 19 && v < 19 && lens[v] == 1 && forall i :: 0 <= i < 19 && i != v ==> lens[i] == 0
    ensures UsableCode(lens, 19)
  {
    OneCodeKraft(lens, v, 19);
    assert lens[..19] == lens;
    Pow2Mono(14, 15);
  }

  // The last block, that header, and one run more.
  ghost function OverrunBits(): (r: seq<bit>)
  {
    OverrunFormOk();
    var f := OverrunForm();
    Flags(true, 2) + HeaderBits(f, 288, 32) + SymbolBits(f.clens, 18) + FieldBits(127, 7)
  }

  lemma OverrunRun(f: Form, input: seq<byte>, p: nat, acc: seq<nat>)
    requires f == OverrunForm() && |acc| == 318 && Short(acc) && UsableCode(f.clens, 19)
    requires Holds(input, p, SymbolBits(f.clens, 18)) && Holds(input, p + 1, FieldBits(127, 7))
    ensures ReadLengths(f.clens, input, p, 320, acc) == NoLengths(Undefined)
  {
    hide Holds, SymbolBits, FieldBits, OverrunForm, Lsb, KraftSum, NextSymbol, Times;
    ReadSymbol(f.clens, input, p, 18);
    Pow2Values();
    ReadField(input, p + 1, 127, 7);
  }

  // 456 lengths in an array of 455, in an input that the decoder is given nothing against.
  lemma OverrunStream(limit: nat)
    ensures Inflate(Pack(OverrunBits()), false, limit) == Undefined
  {
    hide Bit, Lsb, Holds, Pack, OverrunForm, DynamicLengths, HeaderBits, SymbolBits, CodeLengthCode, RunsCodable;
    hide RunsOk, RunsMeaning, UsableCode, Flags, FieldBits, ReadLengths;
    OverrunFormOk();
    var f, input := OverrunForm(), Pack(OverrunBits());
    var flags, header := Flags(true, 2), HeaderBits(f, 288, 32);
    var symbol, extra := SymbolBits(f.clens, 18), FieldBits(127, 7);
    PackHolds(OverrunBits());
    HoldsSplit(input, 0, flags + header + symbol, extra);
    HoldsSplit(input, 0, flags + header, symbol);
    HoldsSplit(input, 0, flags, header);
    ReadFlags(input, 0, true, 2);
    ReadForm(f, 288, 32, input, 3);
    OverrunUsable();
    OverrunRun(f, input, 3 + |header|, RunsMeaning(f.runs, []));
  }

  lemma OverrunUsable()
    ensures UsableCode(OverrunForm().clens, 19)
  {
    hide OverrunForm;
    OverrunFormOk();
  }

  // ------------------------------------------------------------ a repetition in front

  // Only symbol 16 has a code, and no run is announced.
  function RepeatForm(): (f: Form)
    ensures |f.clens| == 19 && f.clens[16] == 1 && (forall i :: 0 <= i < 19 && i != 16 ==> f.clens[i] == 0)
    ensures f.hclen == 4 && f.runs == []
  {
    Form(Times(0, 16) + [1, 0, 0], 4, [])
  }

  lemma RepeatFormOk()
    ensures var f := RepeatForm();
      UsableCode(f.clens, 19) && CodeLengthCode(f.clens, f.hclen) && RunsCodable(f.clens, f.runs)
  {
    hide RepeatForm;
    OneCodeUsable(RepeatForm().clens, 16);
  }

  // The last block, that header for 257 and 1 lengths, and the repetition.
  ghost function RepeatBits(): (r: seq<bit>) {
    RepeatFormOk();
    var f := RepeatForm();
    Flags(true, 2) + HeaderBits(f, 257, 1) + SymbolBits(f.clens, 16)
  }

  lemma RepeatStream(limit: nat)
    ensures Inflate(Pack(RepeatBits()), false, limit) == Undefined
  {
    hide Bit, Lsb, Holds, Pack, RepeatForm, DynamicLengths, HeaderBits, SymbolBits, CodeLengthCode, RunsCodable;
    hide UsableCode, Flags, ReadLengths, NextSymbol;
    RepeatFormOk();
    var f, input := RepeatForm(), Pack(RepeatBits());
    var flags, header, symbol := Flags(true, 2), HeaderBits(f, 257, 1), SymbolBits(f.clens, 16);
    PackHolds(RepeatBits());
    HoldsSplit(input, 0, flags + header, symbol);
    HoldsSplit(input, 0, flags, header);
    ReadFlags(input, 0, true, 2);
    ReadForm(f, 257, 1, input, 3);
    RepeatRead(f, input, 3 + |header|);
    FewLengthsInside(f.clens, input, 3 + |header|, 258);
  }

  lemma RepeatRead(f: Form, input: seq<byte>, p: nat)
    requires f == RepeatForm() && UsableCode(f.clens, 19) && Holds(input, p, SymbolBits(f.clens, 16))
    ensures NextSymbol(f.clens, input, p) == Some(16)
  {
    hide Holds, SymbolBits, RepeatForm, KraftSum, NextSymbol;
    ReadSymbol(f.clens, input, p, 16);
  }
}
