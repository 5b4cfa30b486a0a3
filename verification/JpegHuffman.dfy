/**
  JPEG Huffman tables (Annex C and section F.2.2.3 of ITU-T T.81) as stb_image builds
  them: symbols in the order of their code lengths, up to 256 of them and 16 bits.

  Seen as a range of 16-bit words, symbol i owns those from CodeSum(sizes, i, 16) up to
  the next symbol's.
 */
module JpegHuffman {
  import opened Bits
  import opened Canonical
  import opened Deflate

  // Code lengths in order.
  ghost predicate CodeSizes(sizes: seq<nat>) {
    && |sizes| <= 256
    && (forall i :: 0 <= i < |sizes| ==> 1 <= sizes[i] <= 16)
    && (forall i, j :: 0 <= i < j < |sizes| ==> sizes[i] <= sizes[j])
  }

  // The lengths that a table of counts per length announces.
  function SizeList(count: seq<nat>, n: nat): seq<nat>
    requires n <= |count|
  {
    if n == 0 then [] else SizeList(count, n - 1) + Times(n, count[n - 1])
  }

  // What the first i codes take up of the 2^j words of j bits.
  function CodeSum(sizes: seq<nat>, i: nat, j: nat): nat
    requires i <= |sizes|
  {
    if i == 0 then 0 else CodeSum(sizes, i - 1, j) + if sizes[i - 1] <= j then Pow2(j - sizes[i - 1]) else 0
  }

  // The codes of Annex C: one more than the code before, with zeros behind it.
  function CodeOf(sizes: seq<nat>, i: nat): nat
    requires i < |sizes|
  {
    if i == 0 then 0 else Shl(CodeOf(sizes, i - 1) + 1, if sizes[i] >= sizes[i - 1] then sizes[i] - sizes[i - 1] else 0)
  }

  // How many codes have at most j bits.
  function UpTo(sizes: seq<nat>, j: nat): (n: nat)
    ensures n <= |sizes|
    decreases |sizes|
  {
    if sizes == [] then 0
    else if sizes[|sizes| - 1] <= j then |sizes|
    else UpTo(sizes[..|sizes| - 1], j)
  }

  // The first symbol from i on whose words lie above t.
  function NextFrom(sizes: seq<nat>, t: nat, i: nat): (r: Option<nat>)
    requires i <= |sizes|
    ensures r.Some? ==> i <= r.value < |sizes|
    decreases |sizes| - i
  {
    if i == |sizes| then None
    else if t < CodeSum(sizes, i + 1, 16) then Some(i)
    else NextFrom(sizes, t, i + 1)
  }

  // The symbol whose code the 16-bit word t starts with.
  function Next(sizes: seq<nat>, t: nat): (r: Option<nat>)
    ensures r.Some? ==> r.value < |sizes|
  {
    NextFrom(sizes, t, 0)
  }

  // That symbol and the length of its code.
  function Word(sizes: seq<nat>, t: nat): Option<(int, nat)> {
    match Next(sizes, t)
    case None => None
    case Some(v) => Some((v, sizes[v]))
  }

  // ------------------------------------------------------------ an example

  // The counts of table K.3 of ITU-T T.81 (differences of the luminance), which announce the
  // lengths 2, 3, 3, 3, 3, 3, 4, 5, 6, 7, 8, 9.
  function ExampleCounts(): seq<nat> { [0, 1, 5, 1, 1, 1, 1, 1, 1, 0, 0, 0, 0, 0, 0, 0] }

  function ExampleSizes(): seq<nat> { [2, 3, 3, 3, 3, 3, 4, 5, 6, 7, 8, 9] }

  lemma ExampleAnnounced()
    ensures SizeList(ExampleCounts(), 16) == ExampleSizes()
  {
    hide SizeList;
    ShortSizes();
    NextSizes(5, [5], [2, 3, 3, 3, 3, 3, 4, 5]);
    NextSizes(6, [6], [2, 3, 3, 3, 3, 3, 4, 5, 6]);
    NextSizes(7, [7], [2, 3, 3, 3, 3, 3, 4, 5, 6, 7]);
    NextSizes(8, [8], [2, 3, 3, 3, 3, 3, 4, 5, 6, 7, 8]);
    NextSizes(9, [9], [2, 3, 3, 3, 3, 3, 4, 5, 6, 7, 8, 9]);
    NoSizesAbove(16);
  }

  lemma ShortSizes()
    ensures SizeList(ExampleCounts(), 4) == [2, 3, 3, 3, 3, 3, 4]
  {
    hide SizeList;
    NoSizes();
    NextSizes(1, [], []);
    NextSizes(2, [2], [2]);
    NextSizes(3, [3, 3, 3, 3, 3], [2, 3, 3, 3, 3, 3]);
    NextSizes(4, [4], [2, 3, 3, 3, 3, 3, 4]);
  }

  lemma NoSizes()
    ensures SizeList(ExampleCounts(), 0) == []
  {
  }

  function ExampleCount(n: nat): nat
    requires 0 < n <= 16
  {
    ExampleCounts()[n - 1]
  }

  // Lengths n, after those of up to n - 1 bits.
  lemma NextSizes(n: nat, more: seq<nat>, all: seq<nat>)
    requires 0 < n <= 16 && ExampleCount(n) == |more| && forall i :: 0 <= i < |more| ==> more[i] == n
    requires all == SizeList(ExampleCounts(), n - 1) + more
    ensures SizeList(ExampleCounts(), n) == all
  {
    hide ExampleCounts;
    assert Times(n, |more|) == more;
  }

  lemma {:induction false} NoSizesAbove(n: nat)
    requires 9 <= n <= 16
    ensures SizeList(ExampleCounts(), n) == SizeList(ExampleCounts(), 9)
    decreases n
  {
    if n > 9 {
      NoSizesAbove(n - 1);
      NextSizes(n, [], SizeList(ExampleCounts(), n - 1));
    }
  }

  // The codes 00, 010 to 110, 1110, 11110, and so on up to 111111110.
  lemma ExampleCodes()
    ensures var sizes := ExampleSizes();
      && CodeOf(sizes, 0) == 0 && CodeOf(sizes, 1) == 2 && CodeOf(sizes, 2) == 3 && CodeOf(sizes, 3) == 4
      && CodeOf(sizes, 4) == 5 && CodeOf(sizes, 5) == 6 && CodeOf(sizes, 6) == 14 && CodeOf(sizes, 7) == 30
      && CodeOf(sizes, 8) == 62 && CodeOf(sizes, 9) == 126 && CodeOf(sizes, 10) == 254 && CodeOf(sizes, 11) == 510
  {
    hide CodeOf;
    FirstCode();
    NextCode(1);
    NextCode(2);
    NextCode(3);
    NextCode(4);
    NextCode(5);
    NextCode(6);
    NextCode(7);
    NextCode(8);
    NextCode(9);
    NextCode(10);
    NextCode(11);
  }

  lemma FirstCode()
    ensures CodeOf(ExampleSizes(), 0) == 0
  {
  }

  lemma NextCode(i: nat)
    requires 0 < i < 12
    ensures var sizes := ExampleSizes(); var c := CodeOf(sizes, i - 1) + 1;
      CodeOf(sizes, i) == if sizes[i] > sizes[i - 1] then 2 * c else c
  {
    var sizes := ExampleSizes();
    var c := CodeOf(sizes, i - 1) + 1;
    assert sizes[i] - sizes[i - 1] == 0 || sizes[i] - sizes[i - 1] == 1;
    assert Shl(c, 0) == c && Shl(c, 1) == 2 * c;
  }

  // ------------------------------------------------------------ sums

  lemma {:induction false} SumMono(sizes: seq<nat>, i: nat, i': nat, j: nat)
    requires i <= i' <= |sizes|
    ensures CodeSum(sizes, i, j) <= CodeSum(sizes, i', j)
    decreases i'
  {
    if i < i' { SumMono(sizes, i, i' - 1, j); }
  }

  // Short codes take up the same share at every scale.
  lemma {:induction false} SumScale(sizes: seq<nat>, i: nat, j: nat, k: nat)
    requires i <= |sizes| && forall t :: 0 <= t < i ==> sizes[t] <= j
    ensures CodeSum(sizes, i, j + k) == Shl(CodeSum(sizes, i, j), k)
    decreases i
  {
    if i > 0 {
      SumScale(sizes, i - 1, j, k);
      ShlAdd(CodeSum(sizes, i - 1, j), Pow2(j - sizes[i - 1]), k);
      ShlPow2(j - sizes[i - 1], k);
    } else {
      ShlZero(k);
    }
  }

  lemma {:induction false} UpToExact(sizes: seq<nat>, j: nat, i: nat)
    requires CodeSizes(sizes) && i < |sizes|
    ensures i < UpTo(sizes, j) <==> sizes[i] <= j
    decreases |sizes|
  {
    var n := |sizes| - 1;
    if sizes[n] > j && i < n { UpToExact(sizes[..n], j, i); }
  }

  lemma UpToSplits(sizes: seq<nat>, j: nat)
    requires CodeSizes(sizes)
    ensures forall i :: 0 <= i < UpTo(sizes, j) ==> sizes[i] <= j
    ensures forall i :: UpTo(sizes, j) <= i < |sizes| ==> sizes[i] > j
  {
    forall i | 0 <= i < |sizes| ensures i < UpTo(sizes, j) <==> sizes[i] <= j {
      UpToExact(sizes, j, i);
    }
  }

  lemma UpToMono(sizes: seq<nat>, j: nat)
    requires CodeSizes(sizes)
    ensures UpTo(sizes, j) <= UpTo(sizes, j + 1)
  {
    var i := UpTo(sizes, j + 1);
    if i < |sizes| {
      UpToExact(sizes, j, i);
      UpToExact(sizes, j + 1, i);
    }
  }

  // Codes of the same length are consecutive.
  lemma {:induction false} SumOfEqual(sizes: seq<nat>, i: nat, k: nat)
    requires CodeSizes(sizes) && k > 0 && UpTo(sizes, k - 1) <= i <= UpTo(sizes, k)
    ensures CodeSum(sizes, i, k) == CodeSum(sizes, UpTo(sizes, k - 1), k) + i - UpTo(sizes, k - 1)
    decreases i
  {
    if i > UpTo(sizes, k - 1) {
      SumOfEqual(sizes, i - 1, k);
      UpToExact(sizes, k, i - 1);
      UpToExact(sizes, k - 1, i - 1);
      assert sizes[i - 1] == k && Pow2(0) == 1;
    }
  }

  // ------------------------------------------------------------ the next symbol

  lemma {:induction false} NextFromFinds(sizes: seq<nat>, t: nat, i: nat, v: nat)
    requires i <= v < |sizes| && CodeSum(sizes, v, 16) <= t < CodeSum(sizes, v + 1, 16)
    ensures NextFrom(sizes, t, i) == Some(v)
    decreases v - i
  {
    if i < v {
      SumMono(sizes, i + 1, v, 16);
      NextFromFinds(sizes, t, i + 1, v);
    }
  }

  lemma {:induction false} NextFromBounds(sizes: seq<nat>, t: nat, i: nat)
    requires i <= |sizes| && CodeSum(sizes, i, 16) <= t
    ensures match NextFrom(sizes, t, i)
      case None => CodeSum(sizes, |sizes|, 16) <= t
      case Some(v) => v < |sizes| && CodeSum(sizes, v, 16) <= t < CodeSum(sizes, v + 1, 16)
    decreases |sizes| - i
  {
    if i < |sizes| && t >= CodeSum(sizes, i + 1, 16) { NextFromBounds(sizes, t, i + 1); }
  }

  lemma NextExact(sizes: seq<nat>, t: nat, v: nat)
    ensures Next(sizes, t) == Some(v) <==>
      v < |sizes| && CodeSum(sizes, v, 16) <= t < CodeSum(sizes, v + 1, 16)
  {
    NextFromBounds(sizes, t, 0);
    if v < |sizes| && CodeSum(sizes, v, 16) <= t < CodeSum(sizes, v + 1, 16) { NextFromFinds(sizes, t, 0, v); }
  }

  lemma {:induction false} CodeIsSum(sizes: seq<nat>, i: nat)
    requires CodeSizes(sizes) && i < |sizes|
    ensures CodeOf(sizes, i) == CodeSum(sizes, i, sizes[i])
    decreases i
  {
    if i > 0 {
      CodeIsSum(sizes, i - 1);
      var s := sizes[i - 1];
      assert CodeSum(sizes, i, s) == CodeSum(sizes, i - 1, s) + 1 by { assert Pow2(0) == 1; }
      SumScale(sizes, i, s, sizes[i] - s);
    }
  }

  // The next symbol is the one whose Annex C code the word starts with; in particular no
  // word starts with two codes.
  lemma NextIsPrefix(sizes: seq<nat>, t: nat, v: nat)
    requires CodeSizes(sizes) && v < |sizes|
    ensures Next(sizes, t) == Some(v) <==> Shr(t, 16 - sizes[v]) == CodeOf(sizes, v)
  {
    var s, c := sizes[v], CodeOf(sizes, v);
    CodeIsSum(sizes, v);
    SumScale(sizes, v, s, 16 - s);
    assert CodeSum(sizes, v + 1, s) == c + 1 by { assert Pow2(0) == 1; }
    SumScale(sizes, v + 1, s, 16 - s);
    ShrBelow(t, c, 16 - s);
    ShrBelow(t, c + 1, 16 - s);
    NextExact(sizes, t, v);
  }

  // ------------------------------------------------------------ the tables

  const FAST_BITS := 9

  // Not accelerated.
  const NO_FAST: nat := 255

  // The fast table holds the symbol of every 9-bit word that starts with a short code.
  ghost predicate FastEntry(sizes: seq<nat>, n: nat, c: nat, f: byte)
    requires n <= |sizes|
  {
    if c < CodeSum(sizes, n, 9) then f < n && CodeSum(sizes, f, 9) <= c < CodeSum(sizes, f + 1, 9)
    else f == NO_FAST
  }

  ghost predicate FastTable(sizes: seq<nat>, n: nat, fast: seq<byte>) {
    n <= |sizes| && |fast| == 512 && forall c :: 0 <= c < 512 ==> FastEntry(sizes, n, c, fast[c])
  }

  // The symbol at the index that stb_image computes from the first length from k on whose
  // codes end above t, and that length.
  function LongWord(sizes: seq<nat>, t: nat, k: nat): Option<(int, nat)>
    requires k > 0
    decreases 17 - k
  {
    if k > 16 then None
    else if t < CodeSum(sizes, UpTo(sizes, k), 16) then
      Some((Shr(t, 16 - k) + UpTo(sizes, k - 1) - CodeSum(sizes, UpTo(sizes, k - 1), k), k))
    else LongWord(sizes, t, k + 1)
  }

  // The fast table has the word.
  predicate IsFast(sizes: seq<nat>, t: nat) {
    var next := Next(sizes, t);
    next.Some? && next.value != NO_FAST && sizes[next.value] <= FAST_BITS
  }

  // What stb_image takes the word t for: symbol 255 cannot be told from the mark for words
  // that are not accelerated.
  function FoundWord(sizes: seq<nat>, t: nat): Option<(int, nat)> {
    if IsFast(sizes, t) then Word(sizes, t) else LongWord(sizes, t, FAST_BITS + 1)
  }

  // The word does not start with a short code of symbol 255.
  predicate Clear(sizes: seq<nat>, t: nat) {
    Next(sizes, t) == Some(NO_FAST) ==> sizes[NO_FAST] > FAST_BITS
  }

  // Length j: the number of shorter codes less the first code, and where the codes of up
  // to j bits end among the 16-bit words.
  ghost predicate LengthEntry(sizes: seq<nat>, j: nat, maxcode: seq<nat>, delta: seq<int>)
    requires 0 < j <= 16 && |maxcode| == 18 && |delta| == 17
  {
    && maxcode[j] == CodeSum(sizes, UpTo(sizes, j), 16)
    && delta[j] == UpTo(sizes, j - 1) - CodeSum(sizes, UpTo(sizes, j - 1), j)
  }

  ghost predicate EntriesBelow(sizes: seq<nat>, n: nat, maxcode: seq<nat>, delta: seq<int>) {
    && n <= 17 && |maxcode| == 18 && |delta| == 17
    && forall j :: 0 < j < n ==> LengthEntry(sizes, j, maxcode, delta)
  }

  ghost predicate CodesUpTo(sizes: seq<nat>, n: nat, code: seq<nat>) {
    n <= |sizes| && n <= |code| && forall i :: 0 <= i < n ==> code[i] == CodeOf(sizes, i)
  }

  datatype BuildStatus = Ready | BadLengths | Overrun

  class JHuffman {
    const values: seq<byte>
    const size: array<nat>
    const code: array<nat>
    const fast: array<byte>
    const maxcode: array<nat>
    const delta: array<int>

    constructor (values: seq<byte>)
      requires |values| == 256
      ensures Shape() && this.values == values
      ensures fresh(Repr())
    {
      this.values := values;
      size := new nat[257](_ => 0);
      code := new nat[256];
      fast := new byte[512];
      maxcode := new nat[18];
      delta := new int[17];
    }

    ghost predicate Shape() {
      && |values| == 256 && size.Length == 257 && code.Length == 256 && fast.Length == 512
      && maxcode.Length == 18 && delta.Length == 17
      && size != code && size != maxcode && code != maxcode
    }

    ghost function Repr(): set<object> {
      {size as object, code, fast, maxcode, delta}
    }

    // The tables are those of the code with these lengths.
    ghost predicate Built(sizes: seq<nat>)
      reads size, fast, maxcode, delta
    {
      && Shape() && CodeSizes(sizes) && CodeSum(sizes, |sizes|, 16) <= 0x1_0000
      && size[..|sizes|] == sizes
      && EntriesBelow(sizes, 17, maxcode[..], delta[..])
      && maxcode[17] == 0xFFFF_FFFF
      && FastTable(sizes, UpTo(sizes, FAST_BITS), fast[..])
    }

    // The list of lengths, ended by a zero; false where the C code, which does not look at
    // how many there are, goes on behind the end of its arrays.
    method ListSizes(count: seq<nat>) returns (ok: bool)
      requires Shape() && |count| == 16
      modifies size
      ensures ok <==> |SizeList(count, 16)| <= 256
      ensures ok ==> size[..|SizeList(count, 16)|] == SizeList(count, 16) && size[|SizeList(count, 16)|] == 0
      ensures ok ==> CodeSizes(SizeList(count, 16))
    {
      var k := 0;
      for i := 0 to 16
        invariant k == |SizeList(count, i)| <= 256 && size[..k] == SizeList(count, i)
      {
        ListBounds(count, 16, i + 1);
        var c := count[i];
        for j := 0 to c
          invariant k == |SizeList(count, i)| + j <= 256 && size[..k] == SizeList(count, i) + Times(i + 1, j)
        {
          if k == 256 { return false; }
          size[k] := i + 1;
          k := k + 1;
        }
      }
      size[k] := 0;
      ListSorted(count, 16);
      ok := true;
    }

    // The list that the other tables are made from.
    ghost predicate Listed(sizes: seq<nat>)
      reads size
    {
      Shape() && CodeSizes(sizes) && size[..|sizes|] == sizes && size[|sizes|] == 0
    }

    // Number the codes of j bits, starting with code c for symbol k.
    method CodesOfLength(ghost sizes: seq<nat>, j: nat, k: nat, c: nat) returns (k': nat, c': nat)
      requires Listed(sizes) && 0 < j <= 16 && k == UpTo(sizes, j - 1) && c == CodeSum(sizes, k, j)
      requires CodesUpTo(sizes, k, code[..])
      modifies code
      ensures k' == UpTo(sizes, j) && c' == CodeSum(sizes, k', j)
      ensures size[k] != j ==> k' == k
      ensures CodesUpTo(sizes, k', code[..])
    {
      hide CodeOf;
      UpToSplits(sizes, j - 1);
      UpToSplits(sizes, j);
      UpToMono(sizes, j - 1);
      k', c' := k, c;
      while size[k'] == j
        invariant k <= k' <= UpTo(sizes, j) && c' == CodeSum(sizes, k', j)
        invariant size[k] != j ==> k' == k
        invariant CodesUpTo(sizes, k', code[..])
        decreases |sizes| - k'
      {
        assert k' < |sizes| && sizes[k'] == j;
        CodeIsSum(sizes, k');
        code[k'] := c';
        assert Pow2(0) == 1;
        k', c' := k' + 1, c' + 1;
      }
    }

    // The codes of j bits and the entries for them; false if they do not fit.
    method AssignLength(ghost sizes: seq<nat>, j: nat, k: nat, c: nat) returns (ok: bool, k': nat, c': nat)
      requires Listed(sizes) && 0 < j <= 16 && k == UpTo(sizes, j - 1) && c == CodeSum(sizes, k, j)
      requires CodesUpTo(sizes, k, code[..]) && EntriesBelow(sizes, j, maxcode[..], delta[..])
      modifies code, maxcode, delta
      ensures !ok ==> CodeSum(sizes, |sizes|, 16) > 0x1_0000
      ensures ok ==> k' == UpTo(sizes, j) && c' == CodeSum(sizes, k', j + 1)
      ensures ok ==> c <= Pow2(j) ==> c' <= Pow2(j + 1)
      ensures ok ==> CodesUpTo(sizes, k', code[..]) && EntriesBelow(sizes, j + 1, maxcode[..], delta[..])
    {
      assert |sizes| <= 256;
      hide CodesUpTo, EntriesBelow, CodeSum, UpTo, Shl, Pow2, CodeSizes;
      ghost var maxcodes, deltas := maxcode[..], delta[..];
      delta[j] := k - c;
      var some := size[k] == j;
      k', c' := CodesOfLength(sizes, j, k, c);
      LengthScales(sizes, j);
      if some && c' - 1 >= Pow2(j) { return false, k', c'; }
      maxcode[j] := Shl(c', 16 - j);
      AddEntry(sizes, j, maxcodes, deltas, maxcode[j], delta[j]);
      assert maxcode[..] == maxcodes[j := maxcode[j]] && delta[..] == deltas[j := delta[j]];
      ok, c' := true, 2 * c';
    }

    // The codes, and for each length where its codes begin and end; false if they do not
    // fit.
    method AssignCodes(ghost sizes: seq<nat>) returns (ok: bool, n: nat)
      requires Listed(sizes)
      modifies code, maxcode, delta
      ensures ok <==> CodeSum(sizes, |sizes|, 16) <= 0x1_0000
      ensures ok ==> n == |sizes| && CodesUpTo(sizes, n, code[..])
      ensures ok ==> maxcode[17] == 0xFFFF_FFFF && EntriesBelow(sizes, 17, maxcode[..], delta[..])
    {
      UpToEnds(sizes);
      assert CodeSum(sizes, 0, 1) == 0 <= Pow2(1);
      assert CodesUpTo(sizes, 0, code[..]) && EntriesBelow(sizes, 1, maxcode[..], delta[..]);
      hide CodesUpTo, EntriesBelow, CodeSum, UpTo, Shl, Pow2, CodeSizes;
      var k, c := 0, 0;
      for j := 1 to 17
        invariant k == UpTo(sizes, j - 1) && c == CodeSum(sizes, k, j) <= Pow2(j)
        invariant CodesUpTo(sizes, k, code[..]) && EntriesBelow(sizes, j, maxcode[..], delta[..])
      {
        ok, k, c := AssignLength(sizes, j, k, c);
        if !ok { return false, k; }
      }
      AllFit(sizes);
      EntriesKept(sizes, maxcode[..], delta[..], 0xFFFF_FFFF);
      maxcode[17] := 0xFFFF_FFFF;
      ok, n := true, k;
    }

    method FillOne(c: nat, m: nat, i: byte)
      requires Shape() && c + m <= 512
      modifies fast
      ensures fast[..] == Replaced(old(fast[..]), c, m, i)
    {
      for j := 0 to m
        invariant fast[..] == Replaced(old(fast[..]), c, j, i)
      {
        fast[c + j] := i;
      }
    }

    // For every short code, the words that start with it.
    method FillFast(ghost sizes: seq<nat>, n: nat)
      requires Listed(sizes) && n == |sizes| && CodeSum(sizes, n, 16) <= 0x1_0000
      requires CodesUpTo(sizes, n, code[..])
      modifies fast
      ensures FastTable(sizes, UpTo(sizes, FAST_BITS), fast[..])
    {
      for i := 0 to 512
        invariant forall c :: 0 <= c < i ==> fast[c] == NO_FAST
      {
        fast[i] := NO_FAST;
      }
      ghost var short := UpTo(sizes, FAST_BITS);
      hide CodeOf, CodeSum, UpTo, Shl, Pow2, FastTable, CodesUpTo, Replaced;
      NothingFast(sizes, fast[..]);
      for i := 0 to n
        invariant FastTable(sizes, if i < short then i else short, fast[..])
      {
        var s := size[i];
        UpToExact(sizes, FAST_BITS, i);
        if s <= FAST_BITS {
          FastRange(sizes, i, code[..]);
          FastExtended(sizes, i, fast[..]);
          FillOne(Shl(code[i], FAST_BITS - s), Pow2(FAST_BITS - s), i);
        }
      }
    }

    // The tables for so many codes of each length.
    method Build(count: seq<nat>) returns (st: BuildStatus)
      requires Shape() && |count| == 16
      modifies Repr()
      ensures var sizes := SizeList(count, 16);
        match st
        case Overrun => |sizes| > 256
        case BadLengths => |sizes| <= 256 && CodeSum(sizes, |sizes|, 16) > 0x1_0000
        case Ready => Built(sizes)
    {
      ghost var sizes := SizeList(count, 16);
      var ok := ListSizes(count);
      if !ok { return Overrun; }
      var n;
      ok, n := AssignCodes(sizes);
      if !ok { return BadLengths; }
      hide CodeSum, UpTo, SizeList, FastTable, EntriesBelow;
      FillFast(sizes, n);
      st := Ready;
    }
  }

  // ------------------------------------------------------------ lemmas for the tables

  lemma {:induction false} ListBounds(count: seq<nat>, n: nat, i: nat)
    requires i <= n <= |count|
    ensures |SizeList(count, i)| <= |SizeList(count, n)|
    decreases n
  {
    if i < n { ListBounds(count, n - 1, i); }
  }

  ghost predicate Ordered(l: seq<nat>, n: nat) {
    && (forall i :: 0 <= i < |l| ==> 1 <= l[i] <= n)
    && (forall i, j :: 0 <= i < j < |l| ==> l[i] <= l[j])
  }

  lemma OrderedAppend(l: seq<nat>, same: seq<nat>, n: nat)
    requires n > 0 && Ordered(l, n - 1) && forall i :: 0 <= i < |same| ==> same[i] == n
    ensures Ordered(l + same, n)
  {
  }

  lemma {:induction false} ListSorted(count: seq<nat>, n: nat)
    requires n <= |count|
    ensures Ordered(SizeList(count, n), n)
  {
    hide Ordered;
    if n == 0 {
      OrderedNone();
    } else {
      ListSorted(count, n - 1);
      OrderedAppend(SizeList(count, n - 1), Times(n, count[n - 1]), n);
    }
  }

  lemma OrderedNone()
    ensures Ordered([], 0)
  {
  }

  lemma UpToEnds(sizes: seq<nat>)
    requires CodeSizes(sizes)
    ensures UpTo(sizes, 0) == 0 && UpTo(sizes, 16) == |sizes|
  {
    if sizes != [] {
      UpToExact(sizes, 0, 0);
      UpToExact(sizes, 16, |sizes| - 1);
    }
  }

  // The codes of up to j bits at the next scale and at the last one, where too many of
  // them stay too many.
  lemma LengthScales(sizes: seq<nat>, j: nat)
    requires CodeSizes(sizes) && 0 < j <= 16
    ensures var n := UpTo(sizes, j);
      && CodeSum(sizes, n, j + 1) == 2 * CodeSum(sizes, n, j)
      && CodeSum(sizes, n, 16) == Shl(CodeSum(sizes, n, j), 16 - j)
      && (CodeSum(sizes, n, j) > Pow2(j) ==> CodeSum(sizes, |sizes|, 16) > 0x1_0000)
      && Pow2(j + 1) == 2 * Pow2(j)
  {
    var n := UpTo(sizes, j);
    UpToSplits(sizes, j);
    SumScale(sizes, n, j, 1);
    assert Shl(CodeSum(sizes, n, j), 1) == 2 * Shl(CodeSum(sizes, n, j), 0);
    SumScale(sizes, n, j, 16 - j);
    SumMono(sizes, n, |sizes|, 16);
    ShlMono(Pow2(j), CodeSum(sizes, n, j), 16 - j);
    ShlPow2(j, 16 - j);
    Pow2Values();
  }

  lemma AddEntry(sizes: seq<nat>, j: nat, maxcode: seq<nat>, delta: seq<int>, m: nat, d: int)
    requires 0 < j <= 16 && EntriesBelow(sizes, j, maxcode, delta)
    requires m == CodeSum(sizes, UpTo(sizes, j), 16) && d == UpTo(sizes, j - 1) - CodeSum(sizes, UpTo(sizes, j - 1), j)
    ensures EntriesBelow(sizes, j + 1, maxcode[j := m], delta[j := d])
  {
    var maxcode', delta' := maxcode[j := m], delta[j := d];
    forall i | 0 < i < j + 1 ensures LengthEntry(sizes, i, maxcode', delta') {
      assert i < j ==> LengthEntry(sizes, i, maxcode, delta);
    }
  }

  lemma EntriesKept(sizes: seq<nat>, maxcode: seq<nat>, delta: seq<int>, m: nat)
    requires EntriesBelow(sizes, 17, maxcode, delta)
    ensures EntriesBelow(sizes, 17, maxcode[17 := m], delta)
  {
    var maxcode' := maxcode[17 := m];
    forall i | 0 < i < 17 ensures LengthEntry(sizes, i, maxcode', delta) {
      assert LengthEntry(sizes, i, maxcode, delta);
    }
  }

  lemma AllFit(sizes: seq<nat>)
    requires CodeSizes(sizes) && CodeSum(sizes, |sizes|, 17) <= Pow2(17)
    ensures CodeSum(sizes, |sizes|, 16) <= 0x1_0000
  {
    SumScale(sizes, |sizes|, 16, 1);
    assert Shl(CodeSum(sizes, |sizes|, 16), 1) == 2 * Shl(CodeSum(sizes, |sizes|, 16), 0);
    Pow2Values();
  }

  // ------------------------------------------------------------ the fast table

  function Replaced(fast: seq<byte>, c: nat, m: nat, i: byte): (r: seq<byte>)
    requires c + m <= |fast|
    ensures |r| == |fast| && forall k :: 0 <= k < |fast| ==> r[k] == if c <= k < c + m then i else fast[k]
  {
    seq(|fast|, k requires 0 <= k < |fast| => if c <= k < c + m then i else fast[k])
  }

  lemma NothingFast(sizes: seq<nat>, fast: seq<byte>)
    requires |fast| == 512 && forall c :: 0 <= c < 512 ==> fast[c] == NO_FAST
    ensures FastTable(sizes, 0, fast)
  {
  }

  // The 9-bit words of a short code.
  lemma FastRange(sizes: seq<nat>, i: nat, code: seq<nat>)
    requires CodeSizes(sizes) && i < |sizes| && sizes[i] <= FAST_BITS && CodeSum(sizes, |sizes|, 16) <= 0x1_0000
    requires CodesUpTo(sizes, |sizes|, code)
    ensures var c, m := Shl(code[i], FAST_BITS - sizes[i]), Pow2(FAST_BITS - sizes[i]);
      c == CodeSum(sizes, i, 9) && c + m == CodeSum(sizes, i + 1, 9) <= 512
  {
    CodeIsSum(sizes, i);
    SumScale(sizes, i, sizes[i], FAST_BITS - sizes[i]);
    SumScale(sizes, i + 1, 9, 7);
    SumMono(sizes, i + 1, |sizes|, 16);
    assert CodeSum(sizes, i + 1, 9) <= 512 by {
      hide CodeSum;
      ShlMono(512, CodeSum(sizes, i + 1, 9), 7);
      assert Shl(512, 7) == 0x1_0000;
    }
  }

  lemma FastExtended(sizes: seq<nat>, i: byte, fast: seq<byte>)
    requires i < |sizes| && sizes[i] <= 9 && CodeSum(sizes, i + 1, 9) <= 512 && FastTable(sizes, i, fast)
    ensures CodeSum(sizes, i + 1, 9) == CodeSum(sizes, i, 9) + Pow2(9 - sizes[i])
    ensures FastTable(sizes, i + 1, Replaced(fast, CodeSum(sizes, i, 9), Pow2(9 - sizes[i]), i))
  {
    hide Pow2;
    var fast' := Replaced(fast, CodeSum(sizes, i, 9), Pow2(9 - sizes[i]), i);
    forall c | 0 <= c < 512 ensures FastEntry(sizes, i + 1, c, fast'[c]) {
      assert FastEntry(sizes, i, c, fast[c]);
    }
  }

  // ------------------------------------------------------------ decoding with the tables

  // A word in the fast table starts with the code of the symbol that is entered there.
  lemma FastHit(sizes: seq<nat>, fast: seq<byte>, t: nat)
    requires CodeSizes(sizes) && t < 0x1_0000 && FastTable(sizes, UpTo(sizes, FAST_BITS), fast)
    requires Shr(t, 7) < 512 && fast[Shr(t, 7)] != NO_FAST
    ensures var v := fast[Shr(t, 7)];
      Next(sizes, t) == Some(v) && v < |sizes| && sizes[v] <= FAST_BITS
  {
    hide CodeSum;
    var c := Shr(t, 7);
    var v := fast[c];
    assert FastEntry(sizes, UpTo(sizes, FAST_BITS), c, v);
    UpToSplits(sizes, FAST_BITS);
    SumScale(sizes, v, 9, 7);
    SumScale(sizes, v + 1, 9, 7);
    ShrBelow(t, CodeSum(sizes, v, 9), 7);
    ShrBelow(t, CodeSum(sizes, v + 1, 9), 7);
    NextExact(sizes, t, v);
  }

  // A marked word is not in the table.
  lemma FastMiss(sizes: seq<nat>, fast: seq<byte>, t: nat)
    requires CodeSizes(sizes) && FastTable(sizes, UpTo(sizes, FAST_BITS), fast)
    requires Shr(t, 7) < 512 && fast[Shr(t, 7)] == NO_FAST
    ensures !IsFast(sizes, t)
  {
    hide CodeSum;
    var n, c := UpTo(sizes, FAST_BITS), Shr(t, 7);
    assert FastEntry(sizes, n, c, NO_FAST);
    if IsFast(sizes, t) {
      var v := Next(sizes, t).value;
      UpToExact(sizes, FAST_BITS, v);
      UpToSplits(sizes, FAST_BITS);
      NextExact(sizes, t, v);
      ShortRange(sizes, t, v);
      SumMono(sizes, v + 1, n, 9);
      ShortRange(sizes, t, NO_FAST);
      NextExact(sizes, t, NO_FAST);
    }
  }

  // A short code's share at nine bits.
  lemma ShortRange(sizes: seq<nat>, t: nat, v: nat)
    requires CodeSizes(sizes) && v < UpTo(sizes, FAST_BITS)
    ensures CodeSum(sizes, v, 9) <= Shr(t, 7) < CodeSum(sizes, v + 1, 9)
       <==> CodeSum(sizes, v, 16) <= t < CodeSum(sizes, v + 1, 16)
  {
    hide CodeSum;
    UpToSplits(sizes, FAST_BITS);
    SumScale(sizes, v, 9, 7);
    SumScale(sizes, v + 1, 9, 7);
    ShrBelow(t, CodeSum(sizes, v, 9), 7);
    ShrBelow(t, CodeSum(sizes, v + 1, 9), 7);
  }

  // 256 codes of at most 9 bits: each has at least 8, and a marked word of symbol 255 is
  // taken for a code of ten bits.
  lemma ClashTakesTen(sizes: seq<nat>, t: nat)
    requires CodeSizes(sizes) && CodeSum(sizes, |sizes|, 16) <= 0x1_0000
    requires Next(sizes, t) == Some(255) && |sizes| == 256 && sizes[255] <= FAST_BITS
    ensures UpTo(sizes, 9) == 256
    ensures t < CodeSum(sizes, UpTo(sizes, 10), 16)
    ensures var i := Shr(t, 6) + UpTo(sizes, 9) - CodeSum(sizes, UpTo(sizes, 9), 10); 252 <= i < 256
  {
    hide CodeSum;
    UpToExact(sizes, 9, 255);
    UpToExact(sizes, 10, 255);
    NextExact(sizes, t, 255);
    SumScale(sizes, 255, 10, 6);
    SumScale(sizes, 256, 10, 6);
    ShrBelow(t, CodeSum(sizes, 255, 10), 6);
    ShrBelow(t, CodeSum(sizes, 256, 10), 6);
    EightBitsAtLeast(sizes);
    LastShare(sizes);
  }

  lemma LastShare(sizes: seq<nat>)
    requires |sizes| == 256 && sizes[255] in {8, 9}
    ensures CodeSum(sizes, 256, 10) <= CodeSum(sizes, 255, 10) + 4
  {
    assert Pow2(2) == 4 && Pow2(1) == 2;
  }

  lemma EightBitsAtLeast(sizes: seq<nat>)
    requires CodeSizes(sizes) && CodeSum(sizes, |sizes|, 16) <= 0x1_0000 && |sizes| == 256
    ensures sizes[255] >= 8
  {
    if sizes[255] < 8 { ManyShort(sizes, 256); }
  }

  lemma {:induction false} ManyShort(sizes: seq<nat>, i: nat)
    requires i <= |sizes| && forall t :: 0 <= t < i ==> sizes[t] <= 7
    ensures CodeSum(sizes, i, 16) >= i * 512
  {
    if i > 0 {
      ManyShort(sizes, i - 1);
      Pow2Mono(9, 16 - sizes[i - 1]);
      assert Pow2(9) == 512;
    }
  }

  // Between the ends of two lengths lie the codes of the second one.
  lemma SlowHit(sizes: seq<nat>, t: nat, k: nat)
    requires CodeSizes(sizes) && 0 < k <= 16
    requires CodeSum(sizes, UpTo(sizes, k - 1), 16) <= t < CodeSum(sizes, UpTo(sizes, k), 16)
    ensures var i := Shr(t, 16 - k) + UpTo(sizes, k - 1) - CodeSum(sizes, UpTo(sizes, k - 1), k);
      0 <= i < |sizes| && sizes[i] == k && Next(sizes, t) == Some(i)
  {
    hide CodeSum, Shr;
    var a, b, c := UpTo(sizes, k - 1), UpTo(sizes, k), Shr(t, 16 - k);
    UpToSplits(sizes, k - 1);
    UpToSplits(sizes, k);
    UpToMono(sizes, k - 1);
    SumScale(sizes, a, k, 16 - k);
    SumScale(sizes, b, k, 16 - k);
    ShrBelow(t, CodeSum(sizes, a, k), 16 - k);
    ShrBelow(t, CodeSum(sizes, b, k), 16 - k);
    SumOfEqual(sizes, b, k);
    var i := c + a - CodeSum(sizes, a, k);
    assert a <= i < b;
    SumOfEqual(sizes, i, k);
    SumOfEqual(sizes, i + 1, k);
    SumScale(sizes, i, k, 16 - k);
    SumScale(sizes, i + 1, k, 16 - k);
    ShrBelow(t, c, 16 - k);
    ShrBelow(t, c + 1, 16 - k);
    NextExact(sizes, t, i);
  }

  lemma NoneAbove(sizes: seq<nat>, t: nat)
    ensures Next(sizes, t) == None <==> t >= CodeSum(sizes, |sizes|, 16)
  {
    NextFromBounds(sizes, t, 0);
    var r := Next(sizes, t);
    if r.Some? { SumMono(sizes, r.value + 1, |sizes|, 16); }
  }

  // ------------------------------------------------------------ which words are decoded right

  // Above the codes of fewer than k bits the limits find the right symbol.
  lemma {:induction false} LongWordRight(sizes: seq<nat>, t: nat, k: nat)
    requires CodeSizes(sizes) && 0 < k <= 17 && t >= CodeSum(sizes, UpTo(sizes, k - 1), 16)
    ensures LongWord(sizes, t, k) == Word(sizes, t)
    decreases 17 - k
  {
    hide CodeSum, UpTo, Next;
    if k == 17 {
      UpToEnds(sizes);
      NoneAbove(sizes, t);
    } else if t < CodeSum(sizes, UpTo(sizes, k), 16) {
      SlowHit(sizes, t, k);
    } else {
      LongWordRight(sizes, t, k + 1);
    }
  }

  // Below them stands a code of fewer bits.
  lemma ShortWord(sizes: seq<nat>, t: nat)
    requires CodeSizes(sizes) && t < CodeSum(sizes, UpTo(sizes, FAST_BITS), 16)
    ensures Next(sizes, t).Some? && sizes[Next(sizes, t).value] <= FAST_BITS
  {
    hide CodeSum;
    var n := UpTo(sizes, FAST_BITS);
    SumMono(sizes, n, |sizes|, 16);
    NoneAbove(sizes, t);
    var v := Next(sizes, t).value;
    NextExact(sizes, t, v);
    if v >= n { SumMono(sizes, n, v, 16); }
    UpToSplits(sizes, FAST_BITS);
  }

  // A word is decoded as it should be exactly if it does not start with a short code of
  // symbol 255; and always to some symbol of the table.
  lemma WordRightIffClear(sizes: seq<nat>, t: nat)
    requires CodeSizes(sizes) && CodeSum(sizes, |sizes|, 16) <= 0x1_0000
    ensures FoundWord(sizes, t) == Word(sizes, t) <==> Clear(sizes, t)
    ensures var found := FoundWord(sizes, t);
      found.Some? ==> 0 <= found.value.0 < |sizes| && 0 < found.value.1 <= 16
    ensures FoundWord(sizes, t).None? <==> Next(sizes, t).None?
  {
    hide CodeSum, UpTo, Next;
    if !IsFast(sizes, t) {
      if t < CodeSum(sizes, UpTo(sizes, FAST_BITS), 16) {
        ShortWord(sizes, t);
        ClashTakesTen(sizes, t);
        ClashFound(sizes, t);
      } else {
        LongWordRight(sizes, t, FAST_BITS + 1);
        ClearAbove(sizes, t);
      }
    }
  }

  lemma ClearAbove(sizes: seq<nat>, t: nat)
    requires CodeSizes(sizes) && t >= CodeSum(sizes, UpTo(sizes, FAST_BITS), 16)
    ensures Clear(sizes, t)
  {
    hide CodeSum, UpTo;
    var next := Next(sizes, t);
    if next.Some? && sizes[next.value] <= FAST_BITS {
      UpToExact(sizes, FAST_BITS, next.value);
      NextExact(sizes, t, next.value);
      SumMono(sizes, next.value + 1, UpTo(sizes, FAST_BITS), 16);
    }
  }

  lemma ClashFound(sizes: seq<nat>, t: nat)
    requires CodeSizes(sizes) && UpTo(sizes, 9) == 256 && t < CodeSum(sizes, UpTo(sizes, 10), 16)
    ensures LongWord(sizes, t, 10) == Some((Shr(t, 6) + 256 - CodeSum(sizes, 256, 10), 10))
  {
    hide CodeSum, UpTo;
  }

  // Tables all of whose words are decoded right: those that have fewer than 256 symbols or
  // a long code for the last one.
  predicate Clean(sizes: seq<nat>) {
    |sizes| == 256 ==> sizes[NO_FAST] > FAST_BITS
  }

  lemma CleanExactly(sizes: seq<nat>)
    requires CodeSizes(sizes) && CodeSum(sizes, |sizes|, 16) <= 0x1_0000
    ensures Clean(sizes) <==> forall t: nat :: t < 0x1_0000 ==> Clear(sizes, t)
  {
    hide CodeSum, Next;
    if !Clean(sizes) {
      var t := CodeSum(sizes, NO_FAST, 16);
      LastStep(sizes);
      NextExact(sizes, t, NO_FAST);
      assert !Clear(sizes, t);
    }
  }

  lemma LastStep(sizes: seq<nat>)
    requires |sizes| == 256 && sizes[255] <= 16
    ensures CodeSum(sizes, 255, 16) < CodeSum(sizes, 256, 16)
  {
  }

  // Such a table is announced by 255 codes of 8 bits and one of 9, and then the word 0xFF00
  // is not decoded right.
  function ClashCount(): (count: seq<nat>)
    ensures |count| == 16 && forall i :: 0 <= i < 16 ==> count[i] < 256
  {
    seq(16, i => if i == 7 then 255 else if i == 8 then 1 else 0)
  }

  lemma ClashExists()
    ensures var sizes := SizeList(ClashCount(), 16);
      && CodeSizes(sizes) && CodeSum(sizes, |sizes|, 16) <= 0x1_0000
      && FoundWord(sizes, 0xFF00) != Word(sizes, 0xFF00)
  {
    hide Times, CodeSum, SizeList, FoundWord, Word;
    ClashSizes();
    var sizes := SizeList(ClashCount(), 16);
    SameLength(sizes, 255);
    LastOfNine(sizes);
    WordRightIffClear(sizes, 0xFF00);
    NextExact(sizes, 0xFF00, 255);
  }

  lemma LastOfNine(sizes: seq<nat>)
    requires |sizes| == 256 && sizes[255] == 9
    ensures CodeSum(sizes, 256, 16) == CodeSum(sizes, 255, 16) + 128
  {
    Pow2Values();
  }

  lemma {:induction false} NoneListed(count: seq<nat>, m: nat, n: nat)
    requires m <= n <= |count| && forall i :: m <= i < n ==> count[i] == 0
    ensures SizeList(count, n) == SizeList(count, m)
    decreases n
  {
    if m < n { NoneListed(count, m, n - 1); }
  }

  lemma ClashSizes()
    ensures var sizes := SizeList(ClashCount(), 16);
      |sizes| == 256 && sizes[255] == 9 && forall i :: 0 <= i < 255 ==> sizes[i] == 8
  {
    hide Times;
    var count := ClashCount();
    NoneListed(count, 0, 7);
    NoneListed(count, 9, 16);
    assert SizeList(count, 8) == SizeList(count, 7) + Times(8, 255);
    assert SizeList(count, 9) == SizeList(count, 8) + Times(9, 1);
  }

  lemma {:induction false} SameLength(sizes: seq<nat>, i: nat)
    requires i <= |sizes| && forall t :: 0 <= t < i ==> sizes[t] == 8
    ensures CodeSum(sizes, i, 16) == 256 * i
  {
    if i > 0 {
      SameLength(sizes, i - 1);
      Pow2Values();
    }
  }

  // Counts that announce 257 symbols: 255 codes of 8 bits and two of 9.
  function OverrunCount(): (count: seq<nat>)
    ensures |count| == 16 && forall i :: 0 <= i < 16 ==> count[i] < 256
  {
    seq(16, i => if i == 7 then 255 else if i == 8 then 2 else 0)
  }

  lemma OverrunExists()
    ensures |SizeList(OverrunCount(), 16)| == 257
  {
    hide Times;
    var count := OverrunCount();
    NoneListed(count, 0, 7);
    NoneListed(count, 9, 16);
    assert SizeList(count, 8) == SizeList(count, 7) + Times(8, 255);
    assert SizeList(count, 9) == SizeList(count, 8) + Times(9, 2);
  }

  // Counts that announce a single code of one bit.
  function OneCodeCount(): (count: seq<nat>)
    ensures |count| == 16 && forall i :: 0 <= i < 16 ==> count[i] < 256
  {
    seq(16, i => if i == 0 then 1 else 0)
  }

  lemma OneCodeSizes()
    ensures SizeList(OneCodeCount(), 16) == [1]
  {
    var count := OneCodeCount();
    NoneListed(count, 1, 16);
    assert SizeList(count, 1) == SizeList(count, 0) + Times(1, 1);
  }
}
