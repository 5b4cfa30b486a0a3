/**
  The two-level Huffman table of stb_image's zlib decoder: a 512-entry table
  indexed by the next nine bits as they lie in the stream, and, for longer codes,
  per-length limits compared against the next sixteen bits in code order.
 */
module Huffman {
  import opened Bits
  import opened Reversal
  import opened Canonical

  const FAST_BITS := 9
  const FAST_SIZE := 512

  // ------------------------------------------------------------ what the tables say

  // Symbol v has a code of at most nine bits, and the nine stream bits of `key`
  // start with it.
  ghost predicate FastMatch(lens: seq<nat>, v: nat, key: nat)
    requires v < |lens|
  {
    0 < lens[v] <= FAST_BITS && Low(key, lens[v]) == Reverse(Code(lens, v), lens[v])
  }

  function Packed(length: nat, v: nat): nat { length * 512 + v }

  // A fast entry, when the first n symbols have been entered: the packed length
  // and number of a matching symbol, or 0 if there is none.
  ghost predicate FastEntry(lens: seq<nat>, n: nat, key: nat, entry: nat)
    requires n <= |lens|
  {
    if entry == 0 then forall v :: 0 <= v < n ==> !FastMatch(lens, v, key)
    else exists v :: 0 <= v < n && FastMatch(lens, v, key) && entry == Packed(lens[v], v)
  }

  ghost predicate FastTable(lens: seq<nat>, n: nat, fast: seq<u16>)
    requires n <= |lens|
  {
    |fast| == FAST_SIZE && forall key :: 0 <= key < FAST_SIZE ==> FastEntry(lens, n, key, fast[key])
  }

  // Symbol v is recorded at its place in the list of symbols sorted by code.
  ghost predicate SymbolEntry(lens: seq<nat>, v: nat, sizes: seq<byte>, values: seq<u16>)
    requires v < |lens| && |sizes| == |values| == 288
  {
    lens[v] > 0 ==>
      Slot(lens, v) < 288 && sizes[Slot(lens, v)] == lens[v] && values[Slot(lens, v)] == v
  }

  ghost predicate SymbolTable(lens: seq<nat>, n: nat, sizes: seq<byte>, values: seq<u16>)
    requires n <= |lens|
  {
    |sizes| == |values| == 288 && forall v :: 0 <= v < n ==> SymbolEntry(lens, v, sizes, values)
  }

  // The end of the codes of length s, shifted up to sixteen bits.
  function Limit(lens: seq<nat>, s: nat): nat
    requires s <= 16
  {
    Shl(End(lens, s), 16 - s)
  }

  ghost predicate LengthEntry(lens: seq<nat>, s: nat, firstcode: seq<u16>, firstsymbol: seq<u16>, maxcode: seq<nat>)
    requires 1 <= s < 16 && |firstcode| == |firstsymbol| == 16 && |maxcode| == 17
  {
    firstcode[s] == FirstCode(lens, s) && firstsymbol[s] == FirstSymbol(lens, s) && maxcode[s] == Limit(lens, s)
  }

  ghost predicate LengthTables(lens: seq<nat>, n: nat, firstcode: seq<u16>, firstsymbol: seq<u16>, maxcode: seq<nat>)
    requires n <= 16
  {
    && |firstcode| == |firstsymbol| == 16 && |maxcode| == 17
    && forall s :: 1 <= s < n ==> LengthEntry(lens, s, firstcode, firstsymbol, maxcode)
  }

  ghost predicate NextCodes(lens: seq<nat>, i: nat, nextCode: seq<nat>)
    requires i <= |lens|
  {
    |nextCode| == 16 && forall s :: 1 <= s < 16 ==> nextCode[s] == FirstCode(lens, s) + CountTo(lens, i, s)
  }

  // ------------------------------------------------------------ entering a symbol

  lemma SymbolEntered(lens: seq<nat>, i: nat, sizes: seq<byte>, values: seq<u16>)
    requires i < |lens| && lens[i] > 0
    requires SymbolTable(lens, i, sizes, values)
    requires Slot(lens, i) < 288 && lens[i] < 256 && i < 0x1_0000
    ensures SymbolTable(lens, i + 1, sizes[Slot(lens, i) := lens[i]], values[Slot(lens, i) := i])
  {
    var sizes', values' := sizes[Slot(lens, i) := lens[i]], values[Slot(lens, i) := i];
    forall v | 0 <= v <= i ensures SymbolEntry(lens, v, sizes', values') {
      if v < i {
        assert SymbolEntry(lens, v, sizes, values);
        if lens[v] > 0 { SlotInjective(lens, v, i); }
      }
    }
  }

  lemma NotFast(lens: seq<nat>, i: nat, fast: seq<u16>)
    requires i < |lens| && FastTable(lens, i, fast)
    requires lens[i] == 0 || lens[i] > FAST_BITS
    ensures FastTable(lens, i + 1, fast)
  {
    forall key | 0 <= key < FAST_SIZE ensures FastEntry(lens, i + 1, key, fast[key]) {
      assert FastEntry(lens, i, key, fast[key]);
    }
  }

  // All slots whose low bits are symbol i's reversed code now hold symbol i.
  ghost predicate Spread(lens: seq<nat>, i: nat, before: seq<u16>, after: seq<u16>, bound: nat)
    requires i < |lens| && 0 < lens[i] <= FAST_BITS
  {
    && |before| == |after| == FAST_SIZE
    && forall key :: 0 <= key < FAST_SIZE ==>
         after[key] == if key < bound && FastMatch(lens, i, key) then Packed(lens[i], i) else before[key]
  }

  lemma FastEntered(lens: seq<nat>, i: nat, before: seq<u16>, after: seq<u16>, bound: nat)
    requires i < |lens| && 0 < lens[i] <= FAST_BITS && bound >= FAST_SIZE
    requires FastTable(lens, i, before) && Spread(lens, i, before, after, bound)
    ensures FastTable(lens, i + 1, after)
  {
    forall key | 0 <= key < FAST_SIZE ensures FastEntry(lens, i + 1, key, after[key]) {
      assert FastEntry(lens, i, key, before[key]);
    }
  }

  lemma SpreadStep(lens: seq<nat>, i: nat, before: seq<u16>, after: seq<u16>, j: nat)
    requires CodeLengths(lens) && i < |lens| && 0 < lens[i] <= FAST_BITS
    requires j < FAST_SIZE && FastMatch(lens, i, j) && Packed(lens[i], i) < 0x1_0000
    requires Spread(lens, i, before, after, j)
    ensures FastMatch(lens, i, j + Pow2(lens[i]))
    ensures Spread(lens, i, before, after[j := Packed(lens[i], i)], j + Pow2(lens[i]))
  {
    LowStep(j, lens[i]);
    forall key | j < key < j + Pow2(lens[i]) ensures !FastMatch(lens, i, key) {
      LowDiffers(j, key - j, lens[i]);
    }
  }

  // ------------------------------------------------------------ the table object

  class ZHuffman {
    const fast: array<u16>
    const firstcode: array<u16>
    const maxcode: array<nat>
    const firstsymbol: array<u16>
    const size: array<byte>
    const value: array<u16>

    ghost predicate Shape() {
      && fast.Length == FAST_SIZE && firstcode.Length == 16 && maxcode.Length == 17
      && firstsymbol.Length == 16 && size.Length == 288 && value.Length == 288
      && fast as object != firstcode as object && fast as object != maxcode as object
      && fast as object != firstsymbol as object && fast as object != size as object
      && fast as object != value as object
      && firstcode as object != maxcode as object && firstcode as object != firstsymbol as object
      && firstcode as object != size as object && firstcode as object != value as object
      && maxcode as object != firstsymbol as object && maxcode as object != size as object
      && maxcode as object != value as object
      && firstsymbol as object != size as object && firstsymbol as object != value as object
      && size as object != value as object
    }

    ghost function Repr(): set<object> {
      {fast as object, firstcode as object, maxcode as object, firstsymbol as object, size as object, value as object}
    }

    // The tables are those of the code with these lengths.
    ghost predicate Built(lens: seq<nat>)
      reads Repr()
    {
      && Shape()
      && CodeLengths(lens)
      && KraftSum(lens) <= Pow2(15)
      && FastTable(lens, |lens|, fast[..])
      && SymbolTable(lens, |lens|, size[..], value[..])
      && LengthTables(lens, 16, firstcode[..], firstsymbol[..], maxcode[..])
      && maxcode[16] == 0x1_0000
    }

    constructor ()
      ensures Shape() && fresh(Repr())
    {
      fast := new u16[FAST_SIZE];
      firstcode := new u16[16];
      maxcode := new nat[17];
      firstsymbol := new u16[16];
      size := new byte[288];
      value := new u16[288];
    }

    // Accepts exactly the length lists whose Kraft sum is at most 1.
    method Build(sizelist: seq<nat>) returns (ok: bool)
      requires Shape() && CodeLengths(sizelist)
      modifies Repr()
      ensures ok <==> KraftSum(sizelist) <= Pow2(15)
      ensures ok ==> Built(sizelist)
    {
      for j := 0 to FAST_SIZE
        invariant forall key :: 0 <= key < j ==> fast[key] == 0
      {
        fast[j] := 0;
      }
      assert FastTable(sizelist, 0, fast[..]);
      var sizes := CountSizes(sizelist);
      ok := SizesPossible(sizelist, sizes);
      if ok {
        var nextCode := new nat[16];
        ok := FillLengthTables(sizelist, sizes, nextCode);
        if ok {
          FillSymbols(sizelist, nextCode);
        }
      }
    }

    // How many symbols there are of each nonzero length.
    static method CountSizes(sizelist: seq<nat>) returns (sizes: array<nat>)
      requires CodeLengths(sizelist)
      ensures fresh(sizes) && sizes.Length == 17
      ensures forall s :: 1 <= s < 17 ==> sizes[s] == Count(sizelist, s)
    {
      sizes := new nat[17](_ => 0);
      for i := 0 to |sizelist|
        invariant forall s :: 0 <= s < 17 ==> sizes[s] == CountTo(sizelist, i, s)
      {
        sizes[sizelist[i]] := sizes[sizelist[i]] + 1;
      }
      sizes[0] := 0;
    }

    // No more codes of length s than there are numbers of s bits.
    static method SizesPossible(sizelist: seq<nat>, sizes: array<nat>) returns (ok: bool)
      requires CodeLengths(sizelist) && sizes.Length == 17
      requires forall s :: 1 <= s < 17 ==> sizes[s] == Count(sizelist, s)
      ensures KraftSum(sizelist) <= Pow2(15) ==> ok
    {
      EndIsKraftSum(sizelist);
      for i := 1 to 16 {
        if sizes[i] > Pow2(i) {
          if KraftSum(sizelist) <= Pow2(15) { EndFits(sizelist, i); }
          return false;
        }
      }
      return true;
    }

    method FillLengthTables(sizelist: seq<nat>, sizes: array<nat>, nextCode: array<nat>) returns (ok: bool)
      requires Shape() && CodeLengths(sizelist)
      requires sizes.Length == 17 && nextCode.Length == 16 && sizes != nextCode
      requires sizes !in Repr() && nextCode !in Repr()
      requires forall s :: 1 <= s < 17 ==> sizes[s] == Count(sizelist, s)
      modifies firstcode, firstsymbol, maxcode, nextCode
      ensures ok <==> KraftSum(sizelist) <= Pow2(15)
      ensures ok ==> LengthTables(sizelist, 16, firstcode[..], firstsymbol[..], maxcode[..]) && maxcode[16] == 0x1_0000
      ensures ok ==> NextCodes(sizelist, 0, nextCode[..])
    {
      EndIsKraftSum(sizelist);
      var code, k := 0, 0;
      for i := 1 to 16
        invariant code == FirstCode(sizelist, i) <= Pow2(i)
        invariant k == FirstSymbol(sizelist, i)
        invariant LengthTables(sizelist, i, firstcode[..], firstsymbol[..], maxcode[..])
        invariant forall s :: 1 <= s < i ==> nextCode[s] == FirstCode(sizelist, s)
      {
        nextCode[i] := code;
        ok, code := EnterLength(sizelist, i, sizes[i], code, k);
        if !ok { return; }
        code := code * 2;
        k := k + sizes[i];
      }
      SentinelEntered(sizelist, firstcode[..], firstsymbol[..], maxcode[..]);
      maxcode[16] := 0x1_0000;
      assert Pow2(16) == 2 * Pow2(15);
      return true;
    }

    // The entries for length i, with `n` codes from `first` on and `k` shorter ones.
    method EnterLength(sizelist: seq<nat>, i: nat, n: nat, first: nat, k: nat) returns (ok: bool, code: nat)
      requires Shape() && CodeLengths(sizelist) && 1 <= i < 16 && n == Count(sizelist, i)
      requires first == FirstCode(sizelist, i) <= Pow2(i) && k == FirstSymbol(sizelist, i)
      requires LengthTables(sizelist, i, firstcode[..], firstsymbol[..], maxcode[..])
      modifies firstcode, firstsymbol, maxcode
      ensures code == End(sizelist, i)
      ensures ok ==> code <= Pow2(i) && LengthTables(sizelist, i + 1, firstcode[..], firstsymbol[..], maxcode[..])
      ensures !ok ==> KraftSum(sizelist) > Pow2(15)
    {
      ghost var firstcode0, firstsymbol0, maxcode0 := firstcode[..], firstsymbol[..], maxcode[..];
      InRange(sizelist, i);
      firstcode[i] := first;
      firstsymbol[i] := k;
      code := first + n;
      if n != 0 {
        if code - 1 >= Pow2(i) {
          EndIsKraftSum(sizelist);
          if KraftSum(sizelist) <= Pow2(15) { EndFits(sizelist, i); }
          return false, code;
        }
      }
      maxcode[i] := Shl(code, 16 - i);
      LengthEntered(sizelist, i, firstcode0, firstsymbol0, maxcode0, firstcode[..], firstsymbol[..], maxcode[..]);
      ok := true;
    }

    static lemma LengthEntered(lens: seq<nat>, i: nat, firstcode0: seq<u16>, firstsymbol0: seq<u16>, maxcode0: seq<nat>,
                               firstcode: seq<u16>, firstsymbol: seq<u16>, maxcode: seq<nat>)
      requires 1 <= i < 16 && LengthTables(lens, i, firstcode0, firstsymbol0, maxcode0)
      requires FirstCode(lens, i) < 0x1_0000 && FirstSymbol(lens, i) < 0x1_0000
      requires firstcode == firstcode0[i := FirstCode(lens, i)]
      requires firstsymbol == firstsymbol0[i := FirstSymbol(lens, i)]
      requires maxcode == maxcode0[i := Limit(lens, i)]
      ensures LengthTables(lens, i + 1, firstcode, firstsymbol, maxcode)
    {
      forall s | 1 <= s < i + 1 ensures LengthEntry(lens, s, firstcode, firstsymbol, maxcode) {
        if s < i { assert LengthEntry(lens, s, firstcode0, firstsymbol0, maxcode0); }
      }
    }

    static lemma SentinelEntered(lens: seq<nat>, firstcode: seq<u16>, firstsymbol: seq<u16>, maxcode: seq<nat>)
      requires LengthTables(lens, 16, firstcode, firstsymbol, maxcode)
      ensures LengthTables(lens, 16, firstcode, firstsymbol, maxcode[16 := 0x1_0000])
    {
      var maxcode' := maxcode[16 := 0x1_0000];
      forall s | 1 <= s < 16 ensures LengthEntry(lens, s, firstcode, firstsymbol, maxcode') {
        assert LengthEntry(lens, s, firstcode, firstsymbol, maxcode);
      }
    }

    static lemma InRange(lens: seq<nat>, s: nat)
      requires CodeLengths(lens) && 1 <= s < 16
      ensures Pow2(s) <= 0x8000 && FirstSymbol(lens, s) <= 288
    {
      Pow2Mono(s, 15);
      Pow2Values();
      ShorterBound(lens, |lens|, s);
    }

    // Enter every symbol in both tables.
    method FillSymbols(sizelist: seq<nat>, nextCode: array<nat>)
      requires Shape() && CodeLengths(sizelist) && KraftSum(sizelist) <= Pow2(15)
      requires nextCode !in Repr()
      requires LengthTables(sizelist, 16, firstcode[..], firstsymbol[..], maxcode[..])
      requires NextCodes(sizelist, 0, nextCode[..]) && FastTable(sizelist, 0, fast[..])
      modifies fast, size, value, nextCode
      ensures FastTable(sizelist, |sizelist|, fast[..])
      ensures SymbolTable(sizelist, |sizelist|, size[..], value[..])
    {
      for i := 0 to |sizelist|
        invariant NextCodes(sizelist, i, nextCode[..])
        invariant FastTable(sizelist, i, fast[..])
        invariant SymbolTable(sizelist, i, size[..], value[..])
      {
        if sizelist[i] != 0 {
          EnterSymbol(sizelist, i, nextCode);
        } else {
          NotFast(sizelist, i, fast[..]);
        }
      }
    }

    // Enter symbol i, whose code is numbered by nextCode.
    method EnterSymbol(sizelist: seq<nat>, i: nat, nextCode: array<nat>)
      requires Shape() && CodeLengths(sizelist) && KraftSum(sizelist) <= Pow2(15)
      requires nextCode !in Repr()
      requires LengthTables(sizelist, 16, firstcode[..], firstsymbol[..], maxcode[..])
      requires i < |sizelist| && sizelist[i] > 0
      requires NextCodes(sizelist, i, nextCode[..])
      requires FastTable(sizelist, i, fast[..]) && SymbolTable(sizelist, i, size[..], value[..])
      modifies fast, size, value, nextCode
      ensures NextCodes(sizelist, i + 1, nextCode[..])
      ensures FastTable(sizelist, i + 1, fast[..]) && SymbolTable(sizelist, i + 1, size[..], value[..])
    {
      var s := sizelist[i];
      assert LengthEntry(sizelist, s, firstcode[..], firstsymbol[..], maxcode[..]);
      hide KraftSum, Pow2, FastTable, SymbolTable, LengthTables, FirstCode, FirstSymbol;
      RecordSymbol(sizelist, i, nextCode[s] - firstcode[s] + firstsymbol[s]);
      EnterFast(sizelist, i, nextCode[s]);
      nextCode[s] := nextCode[s] + 1;
    }

    // The symbol goes to its place in the sorted list.
    method RecordSymbol(sizelist: seq<nat>, i: nat, c: nat)
      requires Shape() && CodeLengths(sizelist) && i < |sizelist| && sizelist[i] > 0 && c == Slot(sizelist, i)
      requires SymbolTable(sizelist, i, size[..], value[..])
      modifies size, value
      ensures SymbolTable(sizelist, i + 1, size[..], value[..])
    {
      hide Slot, SymbolTable;
      SlotBound(sizelist, i);
      SymbolEntered(sizelist, i, size[..], value[..]);
      size[c] := sizelist[i];
      value[c] := i;
    }

    // A short code goes to the fast table.
    method EnterFast(sizelist: seq<nat>, i: nat, code: nat)
      requires Shape() && CodeLengths(sizelist) && KraftSum(sizelist) <= Pow2(15)
      requires i < |sizelist| && sizelist[i] > 0 && code == Code(sizelist, i) && FastTable(sizelist, i, fast[..])
      modifies fast
      ensures FastTable(sizelist, i + 1, fast[..])
    {
      var s := sizelist[i];
      hide KraftSum, Pow2, FastTable, Code, Reverse, BitReverse;
      if s <= FAST_BITS {
        CodeFits(sizelist, i);
        BitReverseIsReverse(code, s);
        FillFast(sizelist, i, BitReverse(code, s));
      } else {
        NotFast(sizelist, i, fast[..]);
      }
    }

    // Write one symbol to every fast slot whose low bits are its reversed code.
    method FillFast(lens: seq<nat>, i: nat, reversed: nat)
      requires Shape() && CodeLengths(lens) && i < |lens| && 0 < lens[i] <= FAST_BITS
      requires reversed == Reverse(Code(lens, i), lens[i])
      requires FastTable(lens, i, fast[..])
      modifies fast
      ensures FastTable(lens, i + 1, fast[..])
    {
      var s := lens[i];
      ghost var before := fast[..];
      var j := reversed;
      ReverseBound(Code(lens, i), s);
      LowSame(j, s);
      NoneBelow(lens, i, j, before);
      while j < FAST_SIZE
        invariant FastMatch(lens, i, j) && Spread(lens, i, before, fast[..], j)
        decreases FAST_SIZE - j
      {
        SpreadStep(lens, i, before, fast[..], j);
        fast[j] := Packed(s, i);
        j := j + Pow2(s);
      }
      FastEntered(lens, i, before, fast[..], j);
    }

    static lemma NoneBelow(lens: seq<nat>, i: nat, j: nat, before: seq<u16>)
      requires i < |lens| && 0 < lens[i] <= FAST_BITS && |before| == FAST_SIZE
      requires j == Reverse(Code(lens, i), lens[i]) && j < Pow2(lens[i])
      ensures Spread(lens, i, before, before, j)
    {
      forall key | 0 <= key < j ensures !FastMatch(lens, i, key) {
        LowSame(key, lens[i]);
      }
    }
  }
}
