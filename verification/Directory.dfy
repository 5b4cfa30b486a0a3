/**
  Directory lookup and the profiler's paths: axfs_lookup, init_profile_dir_structure
  and get_directory_path.

  A directory's entries are consecutive inodes, in the order of their names.
 */
module Directory {
  import opened Bits
  import opened Canonical

  // A name: the bytes in front of the terminating zero.
  type Name = seq<byte>

  // `char` is signed on some machines and unsigned on others.
  function CharValue(b: byte, signed: bool): int {
    if signed && b >= 128 then b - 256 else b
  }

  // The first byte of a name, or its terminator.
  function First(s: Name): byte {
    if s == [] then 0 else s[0]
  }

  // memcmp of names of one length: negative, zero or positive.
  function Compare(a: Name, b: Name): int
    requires |a| == |b|
    decreases |a|
  {
    if a == [] then 0
    else if a[0] != b[0] then a[0] as int - b[0] as int
    else Compare(a[1..], b[1..])
  }

  lemma {:induction false} CompareEqual(a: Name, b: Name)
    requires |a| == |b|
    ensures Compare(a, b) == 0 <==> a == b
    decreases |a|
  {
    if a != [] {
      CompareEqual(a[1..], b[1..]);
      assert a == [a[0]] + a[1..] && b == [b[0]] + b[1..];
    }
  }

  // ------------------------------------------------------------ axfs_lookup

  // Having seen `entry`, the search for `name` is given up.
  predicate GivesUp(name: Name, entry: Name, signed: bool) {
    || First(name) as int < CharValue(First(entry), signed)
    || (|name| == |entry| && Compare(name, entry) < 0)
  }

  // The scan from entry i on.
  function Scan(entries: seq<Name>, name: Name, signed: bool, i: nat): Option<nat>
    requires i <= |entries|
    decreases |entries| - i
  {
    if i == |entries| || GivesUp(name, entries[i], signed) then None
    else if entries[i] == name then Some(i)
    else Scan(entries, name, signed, i + 1)
  }

  // The position of `name` in a directory, found by a scan that stops early.
  method Lookup(entries: seq<Name>, name: Name, signed: bool) returns (r: Option<nat>)
    ensures r == Scan(entries, name, signed, 0)
  {
    var dirIndex := 0;
    while dirIndex < |entries|
      invariant dirIndex <= |entries|
      invariant Scan(entries, name, signed, dirIndex) == Scan(entries, name, signed, 0)
    {
      var entry := entries[dirIndex];
      if First(name) as int < CharValue(First(entry), signed) { return None; }
      dirIndex := dirIndex + 1;
      if |name| == |entry| {
        var err := Compare(name, entry);
        CompareEqual(name, entry);
        if err == 0 { return Some(dirIndex - 1); }
        if err < 0 { return None; }
      }
    }
    return None;
  }

  // In any directory, the scan finds entry i exactly if it is the first one of that name
  // and no entry up to it ends the search.
  lemma {:induction false} ScanExact(entries: seq<Name>, name: Name, signed: bool, from: nat, i: nat)
    requires from <= i && from <= |entries|
    ensures (Scan(entries, name, signed, from) == Some(i)) <==>
            (i < |entries| && entries[i] == name
             && (forall j :: from <= j < i ==> entries[j] != name)
             && (forall j :: from <= j <= i ==> !GivesUp(name, entries[j], signed)))
    decreases i - from
  {
    ScanBounds(entries, name, signed, from);
    hide GivesUp;
    if i < |entries| {
      if GivesUp(name, entries[from], signed) || entries[from] == name {
        assert Scan(entries, name, signed, from) == Some(i) ==> from == i;
      } else if from < i {
        ScanExact(entries, name, signed, from + 1, i);
        assert Scan(entries, name, signed, from) == Scan(entries, name, signed, from + 1);
      } else {
        assert Scan(entries, name, signed, from) == Scan(entries, name, signed, from + 1);
        ScanBounds(entries, name, signed, from + 1);
      }
    }
  }

  lemma {:induction false} ScanBounds(entries: seq<Name>, name: Name, signed: bool, from: nat)
    requires from <= |entries|
    ensures var r := Scan(entries, name, signed, from); r.Some? ==> from <= r.value < |entries|
    decreases |entries| - from
  {
    if from < |entries| { ScanBounds(entries, name, signed, from + 1); }
  }

  // Names compare by their bytes, a proper prefix first.
  predicate Less(a: Name, b: Name)
    decreases |a|
  {
    b != [] && (a == [] || a[0] < b[0] || (a[0] == b[0] && Less(a[1..], b[1..])))
  }

  ghost predicate Sorted(entries: seq<Name>) {
    forall i, j :: 0 <= i < j < |entries| ==> Less(entries[i], entries[j])
  }

  lemma {:induction false} LessNotEqual(a: Name, b: Name)
    requires Less(a, b)
    ensures a != b
    decreases |a|
  {
    if a != [] && a[0] == b[0] { LessNotEqual(a[1..], b[1..]); }
  }

  lemma {:induction false} LessCompare(a: Name, b: Name)
    requires Less(a, b) && |a| == |b|
    ensures Compare(a, b) < 0 < Compare(b, a)
    decreases |a|
  {
    if a[0] == b[0] { LessCompare(a[1..], b[1..]); }
  }

  lemma {:induction false} CompareBelow(a: Name, b: Name)
    requires |a| == |b|
    ensures Compare(a, b) < 0 <==> Less(a, b)
    decreases |a|
  {
    if a != [] && a[0] == b[0] { CompareBelow(a[1..], b[1..]); }
  }

  // An entry ends the search exactly if it has the same length and comes behind the name, or
  // begins with a greater byte; where `char` is signed only bytes below 128 count as greater.
  lemma GivesUpExactly(name: Name, entry: Name, signed: bool)
    ensures GivesUp(name, entry, signed) <==>
      || (|name| == |entry| && Less(name, entry))
      || (entry != [] && (name == [] || name[0] < entry[0]) && 0 < entry[0] && (signed ==> entry[0] < 128))
  {
    if |name| == |entry| { CompareBelow(name, entry); }
  }

  // An entry at or in front of the one that is looked for never ends the search.
  lemma NoEarlyExit(name: Name, entry: Name, signed: bool)
    requires entry == name || Less(entry, name)
    ensures !GivesUp(name, entry, signed)
  {
    if entry == name {
      CompareEqual(name, entry);
    } else {
      assert First(entry) <= First(name);
      if |name| == |entry| { LessCompare(entry, name); }
    }
  }

  // In a sorted directory stopping early misses nothing, and finds nothing else.
  lemma ScanSorted(entries: seq<Name>, name: Name, signed: bool, i: nat)
    requires Sorted(entries)
    ensures Scan(entries, name, signed, 0) == Some(i) <==> i < |entries| && entries[i] == name
  {
    ScanExact(entries, name, signed, 0, i);
    if i < |entries| && entries[i] == name {
      forall j | 0 <= j <= i ensures !GivesUp(name, entries[j], signed) {
        NoEarlyExit(name, entries[j], signed);
      }
      forall j | 0 <= j < i ensures entries[j] != name {
        LessNotEqual(entries[j], entries[i]);
      }
    }
  }

  // ------------------------------------------------------------ the directory tree

  datatype Tree = Tree(isDir: seq<bool>, arrayIndex: seq<nat>, numEntries: seq<nat>, names: seq<Name>) {

    // Directory entries lie within the table.
    predicate Valid() {
      && |isDir| == |arrayIndex| == |numEntries| == |names|
      && forall p :: 0 <= p < |names| && isDir[p] ==> arrayIndex[p] + numEntries[p] <= |names|
    }

    // Inode c is an entry of directory p.
    predicate Child(p: nat, c: nat)
      requires Valid()
    {
      p < |names| && isDir[p] && arrayIndex[p] <= c < arrayIndex[p] + numEntries[p]
    }

    function Entries(p: nat): (r: seq<Name>)
      requires Valid() && p < |names| && isDir[p]
    {
      names[arrayIndex[p]..arrayIndex[p] + numEntries[p]]
    }

    // The directory among the first n inodes that was noted last for inode c; 0 if none.
    function LastParent(n: nat, c: nat): nat
      requires Valid() && n <= |names|
    {
      if n == 0 then 0 else if Child(n - 1, c) then n - 1 else LastParent(n - 1, c)
    }

    // For each inode the directory that InitProfileDirStructure notes last.
    function ParentTable(): (r: seq<nat>)
      requires Valid()
    {
      seq(|names|, c requires 0 <= c < |names| => LastParent(|names|, c))
    }

    ghost predicate HasParent(c: nat)
      requires Valid()
    {
      exists p: nat :: Child(p, c)
    }

    // A tree rooted at inode 0: every other inode is an entry of exactly one directory,
    // one level above it, and entries are sorted by name.
    ghost predicate IsTree(depth: seq<nat>) {
      && Valid() && |names| > 0 && |depth| == |names|
      && (forall p: nat :: !Child(p, 0))
      && (forall p: nat, c: nat :: Child(p, c) ==> depth[c] == depth[p] + 1)
      && (forall c: nat :: 0 < c < |names| ==> HasParent(c))
      && (forall p: nat, q: nat, c: nat :: Child(p, c) && Child(q, c) ==> p == q)
      && (forall p: nat :: p < |names| && isDir[p] ==> Sorted(Entries(p)))
    }

    // What axfs_lookup finds when it is called for one name after the other, from
    // directory `from` on.
    function Resolve(from: nat, path: seq<Name>, signed: bool): Option<nat>
      requires Valid() && from < |names|
      decreases |path|
    {
      if path == [] then Some(from)
      else if !isDir[from] then None
      else
        var r := Scan(Entries(from), path[0], signed, 0);
        if r.None? then None
        else
          ScanBounds(Entries(from), path[0], signed, 0);
          Resolve(arrayIndex[from] + r.value, path[1..], signed)
    }
  }

  // ------------------------------------------------------------ parents

  lemma {:induction false} LastParentIsParent(t: Tree, n: nat, c: nat)
    requires t.Valid() && n <= |t.names|
    ensures t.LastParent(n, c) == 0 || t.Child(t.LastParent(n, c), c)
    ensures forall p: nat :: p < n && t.Child(p, c) ==> t.Child(t.LastParent(n, c), c) && p <= t.LastParent(n, c)
  {
    if n > 0 { LastParentIsParent(t, n - 1, c); }
  }

  // In a tree the table holds the parent of every inode but the root.
  lemma TableHoldsParent(t: Tree, depth: seq<nat>, c: nat)
    requires t.IsTree(depth) && c < |t.names|
    ensures c == 0 ==> t.ParentTable()[c] == 0
    ensures c != 0 ==> t.Child(t.ParentTable()[c], c)
  {
    LastParentIsParent(t, |t.names|, c);
    if c != 0 {
      assert t.HasParent(c);
      var p: nat :| t.Child(p, c);
    }
  }

  // Every step up the parent table leads to a smaller depth.
  ghost predicate Walkable(parent: seq<nat>, names: seq<Name>, depth: seq<nat>) {
    && |parent| == |names| == |depth|
    && forall c :: 0 <= c < |parent| && parent[c] != 0 ==> parent[c] < |parent| && depth[parent[c]] < depth[c]
  }

  lemma TreeIsWalkable(t: Tree, depth: seq<nat>)
    requires t.IsTree(depth)
    ensures Walkable(t.ParentTable(), t.names, depth)
  {
    var parent := t.ParentTable();
    forall c | 0 <= c < |parent| && parent[c] != 0 ensures parent[c] < |parent| && depth[parent[c]] < depth[c] {
      TableHoldsParent(t, depth, c);
    }
  }

  // Note every directory as the parent of its entries.
  method InitProfileDirStructure(t: Tree, dirStructure: array<nat>)
    requires t.Valid() && dirStructure.Length == |t.names|
    requires forall c :: 0 <= c < dirStructure.Length ==> dirStructure[c] == 0
    modifies dirStructure
    ensures dirStructure[..] == t.ParentTable()
  {
    for i := 0 to |t.names|
      invariant forall c :: 0 <= c < dirStructure.Length ==> dirStructure[c] == t.LastParent(i, c)
    {
      if t.isDir[i] {
        var childIndex := t.arrayIndex[i];
        for j := 0 to t.numEntries[i]
          invariant forall c :: 0 <= c < dirStructure.Length ==>
            dirStructure[c] == if childIndex <= c < childIndex + j then i else t.LastParent(i, c)
        {
          dirStructure[childIndex + j] := i;
        }
      }
    }
  }

  // ------------------------------------------------------------ get_directory_path

  // The names of the directories above inode i, from the top, without the root.
  ghost function PathNames(parent: seq<nat>, names: seq<Name>, depth: seq<nat>, i: nat): (r: seq<Name>)
    requires Walkable(parent, names, depth) && i < |parent|
    decreases depth[i]
  {
    if parent[i] == 0 then [] else PathNames(parent, names, depth, parent[i]) + [names[parent[i]]]
  }

  const SLASH: byte := 47
  const DOT: byte := 46

  // The names, each followed by a slash.
  function Joined(path: seq<Name>): seq<byte> {
    if path == [] then [] else Joined(path[..|path| - 1]) + (path[|path| - 1] + [SLASH])
  }

  ghost function PathText(parent: seq<nat>, names: seq<Name>, depth: seq<nat>, i: nat): seq<byte>
    requires Walkable(parent, names, depth) && i < |parent|
  {
    [DOT, SLASH] + Joined(PathNames(parent, names, depth, i))
  }

  // For instance ./a/b/ for what lies in the directory b of the directory a.
  lemma TwoNames(parent: seq<nat>, names: seq<Name>, depth: seq<nat>, a: nat, b: nat, i: nat)
    requires Walkable(parent, names, depth) && i < |parent| && a != 0 && b != 0
    requires parent[i] == b && parent[b] == a && parent[a] == 0
    ensures PathText(parent, names, depth, i) == [46, 47] + names[a] + [47] + names[b] + [47]
  {
    hide Joined;
    var path := PathNames(parent, names, depth, i);
    assert PathNames(parent, names, depth, a) == [];
    assert PathNames(parent, names, depth, b) == [] + [names[a]];
    assert path == [names[a]] + [names[b]];
    JoinedTwo(names[a], names[b]);
  }

  lemma JoinedTwo(a: Name, b: Name)
    ensures Joined([a] + [b]) == a + [47] + b + [47]
  {
    assert ([a] + [b])[..1] == [a] && [a][..0] == [];
    assert Joined([a]) == Joined([]) + (a + [SLASH]);
  }

  // sprintf of a plain string: the text and its terminator, from position `at` on.
  method Print(buffer: array<byte>, at: nat, text: seq<byte>)
    requires at + |text| < buffer.Length
    modifies buffer
    ensures buffer[..at + |text|] == old(buffer[..at]) + text
    ensures buffer[at + |text|] == 0
  {
    for i := 0 to |text|
      invariant buffer[..at + i] == old(buffer[..at]) + text[..i]
    {
      buffer[at + i] := text[i];
    }
    buffer[at + |text|] := 0;
  }

  // The names above an inode, collected by walking the parent table twice.
  method CollectNames(dirStructure: array<nat>, names: seq<Name>, ghost depth: seq<nat>, inode: nat)
    returns (pathArray: array<Name>)
    requires Walkable(dirStructure[..], names, depth) && inode < dirStructure.Length
    ensures fresh(pathArray) && pathArray[..] == PathNames(dirStructure[..], names, depth, inode)
  {
    ghost var parent := dirStructure[..];
    ghost var path := PathNames(parent, names, depth, inode);
    var index: nat, pathDepth: nat := inode, 0;
    while dirStructure[index] != 0
      invariant index < |parent|
      invariant |path| == pathDepth + |PathNames(parent, names, depth, index)|
      decreases depth[index]
    {
      pathDepth := pathDepth + 1;
      index := dirStructure[index];
    }
    pathArray := new Name[pathDepth](_ => []);
    index := dirStructure[inode];
    for i := pathDepth downto 0
      invariant i > 0 ==> index < |parent| && path[..i] == PathNames(parent, names, depth, index) + [names[index]]
      invariant pathArray[i..] == path[i..]
    {
      pathArray[i] := names[index];
      assert path[i] == path[..i + 1][i] == names[index];
      assert path[..i] == path[..i + 1][..i] == PathNames(parent, names, depth, index);
      index := dirStructure[index];
    }
  }

  // The path text of an inode's directory, written to `buffer` with its terminator.
  method GetDirectoryPath(dirStructure: array<nat>, names: seq<Name>, ghost depth: seq<nat>,
                          buffer: array<byte>, inode: nat)
    returns (pathSize: nat)
    requires Walkable(dirStructure[..], names, depth) && inode < dirStructure.Length
    requires |PathText(dirStructure[..], names, depth, inode)| < buffer.Length
    modifies buffer
    ensures pathSize < buffer.Length && buffer[pathSize] == 0
    ensures buffer[..pathSize] == PathText(old(dirStructure[..]), names, depth, inode)
  {
    var pathArray := CollectNames(dirStructure, names, depth, inode);
    ghost var path := pathArray[..];
    Print(buffer, 0, [DOT, SLASH]);
    pathSize := 2;
    for i := 0 to pathArray.Length
      invariant pathArray[..] == path
      invariant pathSize == 2 + |Joined(path[..i])|
      invariant pathSize < buffer.Length && buffer[pathSize] == 0
      invariant buffer[..pathSize] == [DOT, SLASH] + Joined(path[..i])
    {
      ghost var before := path[..i];
      var text := pathArray[i] + [SLASH];
      assert Joined(path[..i + 1]) == Joined(before) + text by {
        assert path[..i + 1][..i] == before;
      }
      JoinedMonotone(path, i + 1);
      hide Joined;
      Print(buffer, pathSize, text);
      pathSize := pathSize + |text|;
      JoinThree([DOT, SLASH], Joined(before), text);
    }
    assert path[..|path|] == path;
  }

  lemma JoinThree(a: seq<byte>, b: seq<byte>, c: seq<byte>)
    ensures (a + b) + c == a + (b + c)
  {
  }

  lemma {:induction false} JoinedMonotone(path: seq<Name>, i: nat)
    requires i <= |path|
    ensures |Joined(path[..i])| <= |Joined(path)|
  {
    if i == |path| {
      assert path[..i] == path;
    } else {
      assert path[..|path| - 1][..i] == path[..i];
      JoinedMonotone(path[..|path| - 1], i);
    }
  }

  // ------------------------------------------------------------ path round trip

  lemma {:induction false} ResolveAppend(t: Tree, from: nat, path: seq<Name>, name: Name, signed: bool)
    requires t.Valid() && from < |t.names|
    ensures var d := t.Resolve(from, path, signed);
      && (d.Some? ==> d.value < |t.names|)
      && t.Resolve(from, path + [name], signed)
         == if d.None? then None else t.Resolve(d.value, [name], signed)
    decreases |path|
  {
    hide Scan;
    if path == [] {
      assert path + [name] == [name];
    } else if t.isDir[from] {
      assert (path + [name])[1..] == path[1..] + [name];
      var r := Scan(t.Entries(from), path[0], signed, 0);
      ScanBounds(t.Entries(from), path[0], signed, 0);
      if r.Some? { ResolveAppend(t, t.arrayIndex[from] + r.value, path[1..], name, signed); }
    }
  }

  // A directory leads to each of its entries by name.
  lemma EntryFound(t: Tree, depth: seq<nat>, p: nat, c: nat, signed: bool)
    requires t.IsTree(depth) && t.Child(p, c)
    ensures t.Resolve(p, [t.names[c]], signed) == Some(c)
  {
    ScanSorted(t.Entries(p), t.names[c], signed, c - t.arrayIndex[p]);
    var path := [t.names[c]];
    assert |path[1..]| == 0;
  }

  // In a tree, looking up the names of an inode's path and then its own name, from the
  // root on, leads back to the inode.
  lemma {:induction false} PathRoundTrip(t: Tree, depth: seq<nat>, i: nat, signed: bool)
    requires t.IsTree(depth) && 0 < i < |t.names|
    ensures Walkable(t.ParentTable(), t.names, depth)
    ensures t.Resolve(0, PathNames(t.ParentTable(), t.names, depth, i) + [t.names[i]], signed) == Some(i)
    decreases depth[i]
  {
    TreeIsWalkable(t, depth);
    TableHoldsParent(t, depth, i);
    var parent := t.ParentTable();
    var p := parent[i];
    EntryFound(t, depth, p, i, signed);
    if p == 0 {
      assert PathNames(parent, t.names, depth, i) + [t.names[i]] == [t.names[i]];
    } else {
      PathRoundTrip(t, depth, p, signed);
      ResolveAppend(t, 0, PathNames(parent, t.names, depth, i), t.names[i], signed);
    }
  }

  // ------------------------------------------------------------ the path as text

  // A name that a path can contain.
  ghost predicate Plain(name: Name) {
    forall k :: 0 <= k < |name| ==> name[k] != SLASH && name[k] != 0
  }

  ghost predicate AllPlain(names: seq<Name>) {
    forall i :: 0 <= i < |names| ==> Plain(names[i])
  }

  // The pieces of a text between its slashes.
  function Pieces(text: seq<byte>): (r: seq<Name>)
    ensures r != []
  {
    if text == [] then [[]]
    else
      var ps, b := Pieces(text[..|text| - 1]), text[|text| - 1];
      if b == SLASH then ps + [[]] else ps[..|ps| - 1] + [ps[|ps| - 1] + [b]]
  }

  // What a C program takes the bytes of a buffer for: the text in front of the first zero.
  function CString(buffer: seq<byte>): (r: seq<byte>) {
    if buffer == [] || buffer[0] == 0 then [] else [buffer[0]] + CString(buffer[1..])
  }

  lemma {:induction false} CStringOf(text: seq<byte>, rest: seq<byte>)
    requires (forall k :: 0 <= k < |text| ==> text[k] != 0) && rest != [] && rest[0] == 0
    ensures CString(text + rest) == text
    decreases |text|
  {
    if text == [] {
      assert text + rest == rest;
    } else {
      assert (text + rest)[1..] == text[1..] + rest;
      CStringOf(text[1..], rest);
    }
  }

  // The text goes on with part of a name: the last piece gets longer.
  ghost predicate LastGrows(ps: seq<Name>, ps': seq<Name>, more: seq<byte>)
    requires ps != []
  {
    ps' == ps[..|ps| - 1] + [ps[|ps| - 1] + more]
  }

  lemma PiecesOfByte(text: seq<byte>, b: byte)
    ensures b == SLASH ==> Pieces(text + [b]) == Pieces(text) + [[]]
    ensures b != SLASH ==> LastGrows(Pieces(text), Pieces(text + [b]), [b])
  {
    assert (text + [b])[..|text + [b]| - 1] == text;
  }

  lemma GrowsTwice(ps: seq<Name>, ps': seq<Name>, ps'': seq<Name>, m: seq<byte>, m': seq<byte>)
    requires ps != [] && LastGrows(ps, ps', m) && LastGrows(ps', ps'', m')
    ensures LastGrows(ps, ps'', m + m')
  {
    assert ps[|ps| - 1] + (m + m') == (ps[|ps| - 1] + m) + m';
  }

  lemma {:induction false} PiecesOfName(text: seq<byte>, name: Name)
    requires Plain(name)
    ensures LastGrows(Pieces(text), Pieces(text + name), name)
    decreases |name|
  {
    hide Pieces;
    if name == [] {
      assert text + name == text && Pieces(text)[|Pieces(text)| - 1] + name == Pieces(text)[|Pieces(text)| - 1];
    } else {
      hide LastGrows;
      var front, b := name[..|name| - 1], name[|name| - 1];
      PiecesOfName(text, front);
      PiecesOfByte(text + front, b);
      GrowsTwice(Pieces(text), Pieces(text + front), Pieces(text + front + [b]), front, [b]);
      assert text + front + [b] == text + name && front + [b] == name;
    }
  }

  lemma EmptyGrows(h: seq<Name>, ps: seq<Name>, name: Name)
    requires LastGrows(h + [[]], ps, name)
    ensures ps == h + [name]
  {
    assert (h + [[]])[..|h|] == h && [] + name == name;
  }

  lemma {:induction false} PiecesOfJoined(text: seq<byte>, path: seq<Name>)
    requires AllPlain(path) && Pieces(text)[|Pieces(text)| - 1] == []
    ensures Pieces(text + Joined(path)) == Pieces(text)[..|Pieces(text)| - 1] + path + [[]]
    decreases |path|
  {
    hide Pieces, Plain, LastGrows;
    var head := Pieces(text)[..|Pieces(text)| - 1];
    if path == [] {
      assert text + Joined(path) == text && Pieces(text) == head + [[]] && head + path == head;
    } else {
      var front, name := path[..|path| - 1], path[|path| - 1];
      PiecesOfJoined(text, front);
      var before := text + Joined(front);
      PiecesOfName(before, name);
      PiecesOfByte(before + name, SLASH);
      EmptyGrows(head + front, Pieces(before + name), name);
      assert text + Joined(path) == before + name + [SLASH];
      assert head + front + [name] == head + path;
    }
  }

  lemma {:induction false} PathNamesPlain(parent: seq<nat>, names: seq<Name>, depth: seq<nat>, i: nat)
    requires Walkable(parent, names, depth) && i < |parent| && AllPlain(names)
    ensures AllPlain(PathNames(parent, names, depth, i))
    decreases depth[i]
  {
    hide Plain;
    if parent[i] != 0 { PathNamesPlain(parent, names, depth, parent[i]); }
  }

  lemma DotSlash()
    ensures Pieces([DOT, SLASH]) == [[DOT], []]
  {
    PiecesOfByte([], DOT);
    PiecesOfByte([DOT], SLASH);
    assert [] + [DOT] == [DOT] && [DOT] + [SLASH] == [DOT, SLASH];
  }

  lemma {:induction false} NoZeroJoined(path: seq<Name>)
    requires AllPlain(path)
    ensures forall k :: 0 <= k < |Joined(path)| ==> Joined(path)[k] != 0
    decreases |path|
  {
    if path != [] { NoZeroJoined(path[..|path| - 1]); }
  }

  // A buffer that holds the path text, its terminator and anything behind it is the path
  // text as a string; and if the inode's own name is put behind that, splitting at the
  // slashes and looking up the pieces behind the dot leads back to the inode.
  lemma TextRoundTrip(t: Tree, depth: seq<nat>, i: nat, rest: seq<byte>, signed: bool)
    requires t.IsTree(depth) && 0 < i < |t.names| && AllPlain(t.names)
    requires rest != [] && rest[0] == 0
    ensures Walkable(t.ParentTable(), t.names, depth)
    ensures var text := PathText(t.ParentTable(), t.names, depth, i);
      && CString(text + rest) == text
      && Pieces(text + t.names[i])[0] == [DOT]
      && t.Resolve(0, Pieces(text + t.names[i])[1..], signed) == Some(i)
  {
    hide Pieces, Joined, CString, PathNames;
    TreeIsWalkable(t, depth);
    var parent := t.ParentTable();
    var path := PathNames(parent, t.names, depth, i);
    var text := PathText(parent, t.names, depth, i);
    PathNamesPlain(parent, t.names, depth, i);
    NoZeroJoined(path);
    CStringOf(text, rest);
    DotSlash();
    PiecesOfJoined([DOT, SLASH], path);
    PiecesOfName(text, t.names[i]);
    assert [] + t.names[i] == t.names[i];
    assert Pieces(text + t.names[i]) == [[DOT]] + (path + [t.names[i]]);
    PathRoundTrip(t, depth, i, signed);
  }
}
