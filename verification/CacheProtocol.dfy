/**
  Any number of threads in axfs_readpage, sharing the one-block cache under its
  read/write semaphore.

  A step is one thread's next memory access or lock operation, so that the runs below
  are all the interleavings.  The semaphore is taken for writing, and turned into a read
  lock when the buffer is known to hold the thread's block.
 */
module CacheProtocol {
  import opened Bits
  import opened Canonical
  import opened Media
  import opened ReadPage

  // The compressed forms of all blocks, and the size of the two buffers.
  datatype Disk = Disk(compressed: seq<seq<byte>>, cblockSize: nat) {
    ghost predicate Valid() {
      && |compressed| <= NO_BLOCK
      && forall c :: 0 <= c < |compressed| ==> |compressed[c]| <= cblockSize
    }

    // What block c decompresses to, if it does.
    ghost function Block(c: nat): (r: Option<seq<byte>>)
      ensures r.Some? ==> |r.value| <= cblockSize
    {
      if c < |compressed| then Decompressed(compressed[c], cblockSize) else None
    }
  }

  // Where a thread is: `k` bytes of the current copy loop are done.
  datatype Pc =
    | Quiet
    | WantWrite
    | Comparing
    | Fetching(k: nat)
    | Inflating(k: nat)
    | Downgrading
    | Copying

  // A thread and its request: block `cnode` from `offset` on; `page` is what it has copied.
  datatype Thread = Thread(pc: Pc, cnode: nat, offset: nat, page: seq<byte>)

  datatype State = State(
    threads: seq<Thread>,
    writer: Option<nat>,
    readers: set<nat>,
    current: nat,
    buffer: seq<byte>,
    scratch: seq<byte>)

  // A new request of thread i, or its next step; `noise` is what a failing
  // decompression leaves in the buffer.
  datatype Action = Request(i: nat, cnode: nat, offset: nat) | Run(i: nat, noise: seq<byte>)

  function Share(d: Disk, offset: nat): nat
    requires offset <= d.cblockSize
  {
    Min(d.cblockSize - offset, PAGE_SIZE)
  }

  // ------------------------------------------------------------ steps

  predicate Started(d: Disk, s: State, threads: nat) {
    && |s.threads| == threads
    && (forall i :: 0 <= i < threads ==> s.threads[i].pc == Quiet && s.threads[i].page == [])
    && s.writer == None && s.readers == {} && s.current == NO_BLOCK
    && |s.buffer| == |s.scratch| == d.cblockSize
  }

  predicate Shaped(d: Disk, s: State) {
    && |s.buffer| == |s.scratch| == d.cblockSize
    && forall i :: 0 <= i < |s.threads| ==> s.threads[i].offset <= d.cblockSize || s.threads[i].pc == Quiet
  }

  predicate Enabled(d: Disk, s: State, a: Action) {
    && a.i < |s.threads|
    && match a
       case Request(i, cnode, offset) =>
         s.threads[i].pc == Quiet && cnode < |d.compressed| && offset <= d.cblockSize
       case Run(i, noise) =>
         && s.threads[i].pc != Quiet && |noise| == d.cblockSize
         && (s.threads[i].pc == WantWrite ==> s.writer == None && s.readers == {})
  }

  ghost function Apply(d: Disk, s: State, a: Action): State
    requires d.Valid() && Shaped(d, s) && Enabled(d, s, a)
  {
    match a
    case Request(i, cnode, offset) => s.(threads := s.threads[i := Thread(WantWrite, cnode, offset, [])])
    case Run(i, noise) => Advance(d, s, i, noise)
  }

  ghost function Advance(d: Disk, s: State, i: nat, noise: seq<byte>): State
    requires d.Valid() && Shaped(d, s) && Enabled(d, s, Run(i, noise))
  {
    var t := s.threads[i];
    match t.pc
    case Quiet => s
    case WantWrite => s.(writer := Some(i), threads := s.threads[i := t.(pc := Comparing)])
    case Comparing =>
      s.(threads := s.threads[i := t.(pc := if t.cnode != s.current then Fetching(0) else Downgrading)])
    case Fetching(k) => FetchStep(d, s, i, k)
    case Inflating(k) => InflateStep(d, s, i, k, noise)
    case Downgrading =>
      s.(writer := None, readers := s.readers + {i}, threads := s.threads[i := t.(pc := Copying)])
    case Copying =>
      if |t.page| < Share(d, t.offset) && t.offset + |t.page| < |s.buffer| then
        s.(threads := s.threads[i := t.(page := t.page + [s.buffer[t.offset + |t.page|]])])
      else
        s.(readers := s.readers - {i}, threads := s.threads[i := t.(pc := Quiet)])
  }

  // The compressed block is fetched byte by byte into the scratch buffer.
  ghost function FetchStep(d: Disk, s: State, i: nat, k: nat): State
    requires d.Valid() && Shaped(d, s) && i < |s.threads|
  {
    var t := s.threads[i];
    if t.cnode < |d.compressed| && k < |d.compressed[t.cnode]| then
      s.(scratch := s.scratch[k := d.compressed[t.cnode][k]], threads := s.threads[i := t.(pc := Fetching(k + 1))])
    else
      s.(threads := s.threads[i := t.(pc := Inflating(0))])
  }

  // What the scratch buffer decompresses to is written byte by byte; after the last one
  // the buffer is given its new index.
  ghost function InflateStep(d: Disk, s: State, i: nat, k: nat, noise: seq<byte>): State
    requires d.Valid() && Shaped(d, s) && i < |s.threads|
  {
    var t := s.threads[i];
    var len := if t.cnode < |d.compressed| then |d.compressed[t.cnode]| else 0;
    match Decompressed(s.scratch[..len], d.cblockSize)
    case None => s.(buffer := noise, current := t.cnode, threads := s.threads[i := t.(pc := Downgrading)])
    case Some(out) =>
      if k < |out| then
        s.(buffer := s.buffer[k := out[k]], threads := s.threads[i := t.(pc := Inflating(k + 1))])
      else
        s.(current := t.cnode, threads := s.threads[i := t.(pc := Downgrading)])
  }

  // ------------------------------------------------------------ the invariant

  predicate Writing(pc: Pc) {
    pc.Comparing? || pc.Fetching? || pc.Inflating? || pc.Downgrading?
  }

  predicate Refilling(pc: Pc) {
    pc.Fetching? || pc.Inflating?
  }

  // The buffer starts with block c, if there is such a block.
  ghost predicate Holds(d: Disk, buffer: seq<byte>, c: nat) {
    d.Block(c).Some? ==> d.Block(c).value <= buffer
  }

  // What thread i has copied agrees with its own block.
  ghost predicate PageOk(d: Disk, t: Thread) {
    d.Block(t.cnode).Some? ==>
      forall j :: 0 <= j < |t.page| && t.offset + j < |d.Block(t.cnode).value| ==>
        t.page[j] == d.Block(t.cnode).value[t.offset + j]
  }

  ghost predicate ThreadOk(d: Disk, s: State, i: nat)
    requires i < |s.threads| && |s.buffer| == |s.scratch| == d.cblockSize
  {
    var t := s.threads[i];
    && PageOk(d, t)
    && (t.pc != Quiet ==> t.cnode < |d.compressed| && t.offset <= d.cblockSize)
    && (Writing(t.pc) <==> s.writer == Some(i))
    && (t.pc == Copying <==> i in s.readers)
    && (t.pc == Copying ==> |t.page| <= Share(d, t.offset))
    && (t.pc == Copying || t.pc == Downgrading ==> s.current == t.cnode)
    && (t.pc != Copying && t.pc != Quiet ==> t.page == [])
    && (t.pc == Quiet ==> t.page == [] || (t.offset <= d.cblockSize && |t.page| == Share(d, t.offset)))
    && (t.pc.Fetching? ==>
         (t.pc.k <= |d.compressed[t.cnode]| <= d.cblockSize
          && s.scratch[..t.pc.k] == d.compressed[t.cnode][..t.pc.k]))
    && (t.pc.Inflating? ==> InflatingOk(d, s, t))
  }

  ghost predicate InflatingOk(d: Disk, s: State, t: Thread)
    requires t.pc.Inflating? && t.cnode < |d.compressed| && |s.buffer| == |s.scratch| == d.cblockSize
  {
    && d.compressed[t.cnode] <= s.scratch
    && (d.Block(t.cnode).None? ==> t.pc.k == 0)
    && (d.Block(t.cnode).Some? ==>
         t.pc.k <= |d.Block(t.cnode).value| && s.buffer[..t.pc.k] == d.Block(t.cnode).value[..t.pc.k])
  }

  // The writer, if any, is one of the threads and keeps all readers out; readers are
  // threads; and unless a refill is under way the buffer holds the current block.
  ghost predicate Inv(d: Disk, s: State) {
    && d.Valid() && Shaped(d, s)
    && (s.writer.Some? ==> s.writer.value < |s.threads| && s.readers == {})
    && (forall i :: i in s.readers ==> i < |s.threads|)
    && (forall i :: 0 <= i < |s.threads| ==> ThreadOk(d, s, i))
    && ((s.writer.Some? ==> !Refilling(s.threads[s.writer.value].pc)) ==> Holds(d, s.buffer, s.current))
  }

  lemma InvStarts(d: Disk, s: State, threads: nat)
    requires d.Valid() && Started(d, s, threads)
    ensures Inv(d, s)
  {
  }

  // A step of one thread leaves what the others have done in order.
  lemma OthersKept(d: Disk, s: State, s': State, i: nat, j: nat)
    requires Inv(d, s) && i < |s.threads| == |s'.threads| && j < |s.threads| && j != i
    requires |s'.buffer| == |s'.scratch| == d.cblockSize
    requires s'.threads[j] == s.threads[j]
    requires s.writer == s'.writer || (s.writer in {None, Some(i)} && s'.writer in {None, Some(i)})
    requires j in s.readers <==> j in s'.readers
    requires s.writer == Some(i) || (s'.current == s.current && s'.buffer == s.buffer && s'.scratch == s.scratch)
    ensures ThreadOk(d, s', j)
  {
    hide Disk.Block, PageOk;
    assert ThreadOk(d, s, j);
  }

  lemma PageKept(d: Disk, t: Thread, t': Thread)
    requires PageOk(d, t) && t' == t.(pc := t'.pc)
    ensures PageOk(d, t')
  {
  }

  lemma FetchKeeps(d: Disk, s: State, i: nat, k: nat)
    requires Inv(d, s) && i < |s.threads| && s.threads[i].pc == Fetching(k)
    ensures Inv(d, FetchStep(d, s, i, k))
  {
    hide Disk.Block, PageOk, Holds;
    var s' := FetchStep(d, s, i, k);
    assert ThreadOk(d, s, i);
    var t := s.threads[i];
    var c := d.compressed[t.cnode];
    if k < |c| {
      assert s'.scratch[..k + 1] == s.scratch[..k] + [c[k]] == c[..k + 1];
    } else {
      assert c[..k] == c;
      assert s.scratch[..k] <= s.scratch;
    }
    PageKept(d, s.threads[i], s'.threads[i]);
    assert ThreadOk(d, s', i);
    forall j | 0 <= j < |s.threads| && j != i ensures ThreadOk(d, s', j) { OthersKept(d, s, s', i, j); }
  }

  lemma InflateKeeps(d: Disk, s: State, i: nat, k: nat, noise: seq<byte>)
    requires Inv(d, s) && i < |s.threads| && s.threads[i].pc == Inflating(k) && |noise| == d.cblockSize
    ensures Inv(d, InflateStep(d, s, i, k, noise))
  {
    hide Decompressed;
    var s' := InflateStep(d, s, i, k, noise);
    assert ThreadOk(d, s, i);
    var t := s.threads[i];
    assert s.scratch[..|d.compressed[t.cnode]|] == d.compressed[t.cnode];
    var block := d.Block(t.cnode);
    if block.Some? {
      var out := block.value;
      if k < |out| {
        assert s'.buffer[..k + 1] == s.buffer[..k] + [out[k]] == out[..k + 1];
      } else {
        assert out[..k] == out;
        assert s.buffer[..k] <= s.buffer;
      }
    }
    hide Disk.Block, PageOk;
    assert ThreadOk(d, s', i);
    forall j | 0 <= j < |s.threads| && j != i ensures ThreadOk(d, s', j) { OthersKept(d, s, s', i, j); }
  }

  lemma CopyKeeps(d: Disk, s: State, i: nat, noise: seq<byte>)
    requires Inv(d, s) && Enabled(d, s, Run(i, noise)) && s.threads[i].pc == Copying
    ensures Inv(d, Advance(d, s, i, noise))
  {
    hide Decompressed;
    var s' := Advance(d, s, i, noise);
    assert ThreadOk(d, s, i);
    assert s.writer == None;
    var t := s.threads[i];
    assert Holds(d, s.buffer, t.cnode);
    if d.Block(t.cnode).Some? {
      var block := d.Block(t.cnode).value;
      assert block == s.buffer[..|block|];
      assert PageOk(d, s'.threads[i]);
    }
    hide Disk.Block, PageOk, Holds;
    assert ThreadOk(d, s', i);
    forall j | 0 <= j < |s.threads| && j != i ensures ThreadOk(d, s', j) { OthersKept(d, s, s', i, j); }
  }

  // Taking the lock, comparing the index and downgrading.
  lemma LockKeeps(d: Disk, s: State, i: nat, noise: seq<byte>)
    requires Inv(d, s) && Enabled(d, s, Run(i, noise))
    requires s.threads[i].pc in {WantWrite, Comparing, Downgrading}
    ensures Inv(d, Advance(d, s, i, noise))
  {
    hide Disk.Block, PageOk, Holds;
    var s' := Advance(d, s, i, noise);
    assert ThreadOk(d, s, i);
    PageKept(d, s.threads[i], s'.threads[i]);
    assert ThreadOk(d, s', i);
    forall j | 0 <= j < |s.threads| && j != i ensures ThreadOk(d, s', j) { OthersKept(d, s, s', i, j); }
  }

  lemma RequestKeeps(d: Disk, s: State, i: nat, cnode: nat, offset: nat)
    requires Inv(d, s) && Enabled(d, s, Request(i, cnode, offset))
    ensures Inv(d, Apply(d, s, Request(i, cnode, offset)))
  {
    hide Disk.Block, Holds;
    var s' := Apply(d, s, Request(i, cnode, offset));
    assert ThreadOk(d, s, i);
    assert ThreadOk(d, s', i);
    forall j | 0 <= j < |s.threads| && j != i ensures ThreadOk(d, s', j) { OthersKept(d, s, s', i, j); }
  }

  lemma StepKeeps(d: Disk, s: State, a: Action)
    requires Inv(d, s) && Enabled(d, s, a)
    ensures Inv(d, Apply(d, s, a))
  {
    match a
    case Request(i, cnode, offset) => RequestKeeps(d, s, i, cnode, offset);
    case Run(i, noise) =>
      match s.threads[i].pc
      case Fetching(k) => FetchKeeps(d, s, i, k);
      case Inflating(k) => InflateKeeps(d, s, i, k, noise);
      case Copying => CopyKeeps(d, s, i, noise);
      case _ => LockKeeps(d, s, i, noise);
  }

  // ------------------------------------------------------------ runs

  // The state after the actions, or None if one of them is not possible when it is due.
  ghost function Execute(d: Disk, s: State, actions: seq<Action>): (r: Option<State>)
    requires Inv(d, s)
    ensures r.Some? ==> Inv(d, r.value)
    decreases |actions|
  {
    if actions == [] then Some(s)
    else if !Enabled(d, s, actions[0]) then None
    else
      StepKeeps(d, s, actions[0]);
      Execute(d, Apply(d, s, actions[0]), actions[1..])
  }

  // A thread that writes has the buffers to itself.
  predicate Exclusive(s: State) {
    forall i, j :: 0 <= i < |s.threads| && 0 <= j < |s.threads| ==> Compatible(s, i, j)
  }

  predicate Compatible(s: State, i: nat, j: nat)
    requires i < |s.threads| && j < |s.threads|
  {
    Writing(s.threads[i].pc) && (Writing(s.threads[j].pc) || s.threads[j].pc == Copying) ==> i == j
  }

  // What a thread has copied is from its own block, and all of its share when it is done.
  ghost predicate Served(d: Disk, t: Thread) {
    && PageOk(d, t)
    && (t.pc == Quiet && t.page != [] ==> t.offset <= d.cblockSize && |t.page| == Share(d, t.offset))
  }

  lemma InvIsSafe(d: Disk, s: State)
    requires Inv(d, s)
    ensures Exclusive(s)
    ensures forall i :: 0 <= i < |s.threads| ==> Served(d, s.threads[i])
  {
    hide Disk.Block, PageOk, Holds, InflatingOk;
    forall i | 0 <= i < |s.threads| ensures Served(d, s.threads[i]) {
      assert ThreadOk(d, s, i);
    }
    forall i, j | 0 <= i < |s.threads| && 0 <= j < |s.threads| ensures Compatible(s, i, j) {
      assert ThreadOk(d, s, i) && ThreadOk(d, s, j);
    }
  }

  // In every interleaving, whatever a thread has copied agrees with the decompression of
  // the block that it asked for, a request that is over has copied its whole share, and
  // nobody refills the buffer while another thread refills it or copies from it.
  lemma CacheSafety(d: Disk, start: State, threads: nat, actions: seq<Action>)
    requires d.Valid() && Started(d, start, threads)
    ensures Inv(d, start)
    ensures var r := Execute(d, start, actions);
      r.Some? ==> Exclusive(r.value) && forall i :: 0 <= i < |r.value.threads| ==> Served(d, r.value.threads[i])
  {
    InvStarts(d, start, threads);
    hide Inv;
    var r := Execute(d, start, actions);
    if r.Some? { InvIsSafe(d, r.value); }
  }

  // ------------------------------------------------------------ what was asked for

  // Action number k is the last request of thread i, and asks for block c from o on.
  ghost predicate LastAsked(actions: seq<Action>, i: nat, k: nat, c: nat, o: nat) {
    && k < |actions| && actions[k] == Request(i, c, o)
    && forall m :: k < m < |actions| ==> !(actions[m].Request? && actions[m].i == i)
  }

  // Thread i is at that request, and has copied its whole share if it is done.
  ghost predicate AtRequest(d: Disk, s: State, i: nat, c: nat, o: nat) {
    && i < |s.threads| && s.threads[i].cnode == c < |d.compressed| && s.threads[i].offset == o <= d.cblockSize
    && (s.threads[i].pc == Quiet ==> |s.threads[i].page| == Share(d, o))
  }

  lemma RequestBegins(d: Disk, s: State, i: nat, c: nat, o: nat)
    requires Inv(d, s) && Enabled(d, s, Request(i, c, o))
    ensures AtRequest(d, Apply(d, s, Request(i, c, o)), i, c, o)
  {
    hide Disk.Block;
  }

  lemma StepKeepsRequest(d: Disk, s: State, a: Action, i: nat, c: nat, o: nat)
    requires Inv(d, s) && Enabled(d, s, a) && AtRequest(d, s, i, c, o) && !(a.Request? && a.i == i)
    ensures AtRequest(d, Apply(d, s, a), i, c, o)
  {
    hide Decompressed, PageOk, Holds, InflatingOk;
    assert ThreadOk(d, s, i);
    if a.Run? && a.i != i { assert Apply(d, s, a).threads[i] == s.threads[i]; }
  }

  lemma InvShaped(d: Disk, s: State)
    requires Inv(d, s)
    ensures d.Valid() && Shaped(d, s)
  {
  }

  lemma {:induction false} RunKeepsRequest(d: Disk, s: State, actions: seq<Action>, i: nat, c: nat, o: nat)
    requires Inv(d, s) && Execute(d, s, actions).Some? && AtRequest(d, s, i, c, o)
    requires forall m :: 0 <= m < |actions| ==> !(actions[m].Request? && actions[m].i == i)
    ensures AtRequest(d, Execute(d, s, actions).value, i, c, o)
    decreases |actions|
  {
    hide AtRequest, Inv, Apply, Enabled, Shaped;
    if actions != [] {
      InvShaped(d, s);
      StepKeeps(d, s, actions[0]);
      StepKeepsRequest(d, s, actions[0], i, c, o);
      RunKeepsRequest(d, Apply(d, s, actions[0]), actions[1..], i, c, o);
    }
  }

  lemma {:induction false} LastRequestHolds(d: Disk, s: State, actions: seq<Action>, i: nat, k: nat, c: nat, o: nat)
    requires Inv(d, s) && Execute(d, s, actions).Some? && LastAsked(actions, i, k, c, o)
    ensures AtRequest(d, Execute(d, s, actions).value, i, c, o)
    decreases |actions|
  {
    hide AtRequest, Inv, Apply, Enabled, Shaped;
    InvShaped(d, s);
    StepKeeps(d, s, actions[0]);
    var s', rest := Apply(d, s, actions[0]), actions[1..];
    if k == 0 {
      RequestBegins(d, s, i, c, o);
      assert forall m :: 0 <= m < |rest| ==> rest[m] == actions[m + 1];
      RunKeepsRequest(d, s', rest, i, c, o);
    } else {
      assert forall m :: 0 <= m < |rest| ==> rest[m] == actions[m + 1];
      LastRequestHolds(d, s', rest, i, k - 1, c, o);
    }
  }

  // The thread has its share of block c from o on, if it is done.
  ghost predicate Got(d: Disk, t: Thread, c: nat, o: nat) {
    c < |d.compressed| && o <= d.cblockSize
    && (t.pc == Quiet ==>
         && |t.page| == Min(d.cblockSize - o, PAGE_SIZE)
         && (d.Block(c).Some? ==>
              forall j :: 0 <= j < |t.page| && o + j < |d.Block(c).value| ==> t.page[j] == d.Block(c).value[o + j]))
  }

  lemma ServedGot(d: Disk, s: State, i: nat, c: nat, o: nat)
    requires AtRequest(d, s, i, c, o) && Served(d, s.threads[i])
    ensures Got(d, s.threads[i], c, o)
  {
    hide Disk.Block;
  }

  // In every interleaving, a thread that is done has got its share of the block that it asked
  // for last, from the offset that it asked for.
  lemma LastRequestServed(d: Disk, start: State, threads: nat, actions: seq<Action>, i: nat, k: nat, c: nat, o: nat)
    requires d.Valid() && Started(d, start, threads) && LastAsked(actions, i, k, c, o)
    ensures Inv(d, start)
    ensures var r := Execute(d, start, actions);
      r.Some? ==> i < |r.value.threads| && Got(d, r.value.threads[i], c, o)
  {
    hide Inv, Execute, LastAsked, Served, Got;
    CacheSafety(d, start, threads, actions);
    var r := Execute(d, start, actions);
    if r.Some? {
      LastRequestHolds(d, start, actions, i, k, c, o);
      ServedGot(d, r.value, i, c, o);
    }
  }

  // ------------------------------------------------------------ progress

  // A bound on the steps left in a thread's request.
  function StepsLeft(d: Disk, t: Thread): nat {
    var copies := if t.offset <= d.cblockSize then Share(d, t.offset) else 0;
    match t.pc
    case Quiet => 0
    case WantWrite => 2 * d.cblockSize + copies + 6
    case Comparing => 2 * d.cblockSize + copies + 5
    case Fetching(k) => if k <= d.cblockSize then d.cblockSize - k + d.cblockSize + copies + 4 else 0
    case Inflating(k) => if k <= d.cblockSize then d.cblockSize - k + copies + 3 else 0
    case Downgrading => copies + 2
    case Copying => if |t.page| <= copies then copies - |t.page| + 1 else 0
  }

  function Total(d: Disk, threads: seq<Thread>): nat {
    if threads == [] then 0 else StepsLeft(d, threads[0]) + Total(d, threads[1..])
  }

  lemma {:induction false} TotalUpdate(d: Disk, threads: seq<Thread>, i: nat, t: Thread)
    requires i < |threads|
    ensures Total(d, threads[i := t]) + StepsLeft(d, threads[i]) == Total(d, threads) + StepsLeft(d, t)
  {
    hide StepsLeft;
    if i == 0 {
      assert threads[i := t][1..] == threads[1..];
    } else {
      assert threads[i := t][1..] == threads[1..][i - 1 := t];
      TotalUpdate(d, threads[1..], i - 1, t);
    }
  }

  lemma RunProgresses(d: Disk, s: State, i: nat, noise: seq<byte>)
    requires Inv(d, s) && Enabled(d, s, Run(i, noise))
    ensures Total(d, Advance(d, s, i, noise).threads) < Total(d, s.threads)
  {
    hide Decompressed, PageOk, Holds;
    var s' := Advance(d, s, i, noise);
    assert ThreadOk(d, s, i);
    var t := s'.threads[i];
    assert s'.threads == s.threads[i := t];
    if s.threads[i].pc.Inflating? {
      var c := d.compressed[s.threads[i].cnode];
      assert s.scratch[..|c|] == c;
    }
    TotalUpdate(d, s.threads, i, t);
  }

  // Without new requests a run is no longer than the steps left at its start: no request
  // is refilled or copied for ever.
  lemma {:induction false} RunsEnd(d: Disk, s: State, actions: seq<Action>)
    requires Inv(d, s) && (forall k :: 0 <= k < |actions| ==> actions[k].Run?)
    requires Execute(d, s, actions).Some?
    ensures |actions| <= Total(d, s.threads)
    decreases |actions|
  {
    if actions != [] {
      StepKeeps(d, s, actions[0]);
      RunProgresses(d, s, actions[0].i, actions[0].noise);
      RunsEnd(d, Apply(d, s, actions[0]), actions[1..]);
    }
  }

  // As long as a request is open some thread can take a step, so that the lock never
  // leaves all of them waiting.
  lemma NoDeadlock(d: Disk, s: State, i: nat, noise: seq<byte>) returns (j: nat)
    requires Inv(d, s) && i < |s.threads| && s.threads[i].pc != Quiet && |noise| == d.cblockSize
    ensures Enabled(d, s, Run(j, noise))
  {
    assert ThreadOk(d, s, i);
    if s.writer.Some? {
      j := s.writer.value;
      assert ThreadOk(d, s, j);
    } else if s.readers != {} {
      j :| j in s.readers;
      assert ThreadOk(d, s, j);
    } else {
      j := i;
    }
  }
}
