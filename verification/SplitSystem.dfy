/** The split virtqueue and an honest device running against each other: what every step keeps, what
    every run shows. */
module SplitSystem {
  import opened Queues
  import opened Rings
  import opened DescriptorPool
  import opened SplitSpec
  import opened SplitQueue
  import opened EventIndex

  /** The table holds buffer b: its chain, or the one descriptor that names its indirect table. */
  ghost predicate Described(desc: seq<Desc>, b: Buf) {
    && Shaped(b) && (forall i :: 0 <= i < |b.slots| ==> b.slots[i] < |desc|)
    && if b.table.Some?
       then (var d := desc[b.slots[0]];
             d == Desc(b.table.value, |b.sg| * DESC_SIZE, Flags(false, false, true), d.next))
       else forall i {:trigger b.slots[i]} :: 0 <= i < |b.slots| ==>
         desc[b.slots[i]] == Part(b, i, i + 1 < |b.slots|, desc[b.slots[i]].next)
  }

  /** The driver's records of buffer b. */
  ghost predicate Recorded(desc: seq<Desc>, opaques: seq<Option<Token>>, b: Buf) {
    Described(desc, b) && b.slots[0] < |opaques| && opaques[b.slots[0]] == Some(b.token)
  }

  /** Every queued buffer is recorded, and opaque is non-NULL only at the head of one. */
  ghost predicate Records(desc: seq<Desc>, opaques: seq<Option<Token>>, owner: seq<Option<Buf>>, pool: seq<Buf>) {
    && |owner| == |opaques| == |desc|
    && (forall i :: 0 <= i < |pool| ==> Recorded(desc, opaques, pool[i]))
    && (forall s :: 0 <= s < |opaques| && opaques[s].Some? ==>
          owner[s].Some? && owner[s].value.slots != [] && owner[s].value.slots[0] == s)
  }

  // ----- adding to and removing from the pool

  lemma WithChainHolds(desc: seq<Desc>, b: Buf)
    requires Shaped(b) && Distinct(b.slots) && forall i :: 0 <= i < |b.slots| ==> b.slots[i] < |desc|
    ensures Described(WithChain(desc, b), b)
    ensures forall s :: 0 <= s < |desc| && s !in b.slots ==> WithChain(desc, b)[s] == desc[s]
    ensures Nexts(WithChain(desc, b)) == Nexts(desc)
  {
    if b.table.None? { FilledAt(desc, b, |b.slots|); }
  }

  lemma OtherChainsStay(desc: seq<Desc>, desc': seq<Desc>, b: Buf)
    requires Described(desc, b) && |desc'| == |desc|
    requires forall i :: 0 <= i < |b.slots| ==> desc'[b.slots[i]] == desc[b.slots[i]]
    ensures Described(desc', b)
  {
  }

  lemma AddRecord(desc: seq<Desc>, opaques: seq<Option<Token>>, owner: seq<Option<Buf>>, pool: seq<Buf>, b: Buf)
    requires Records(desc, opaques, owner, pool) && Shaped(b) && Distinct(b.slots)
    requires forall i :: 0 <= i < |b.slots| ==> b.slots[i] < |desc| && owner[b.slots[i]] == None
    requires forall i :: 0 <= i < |pool| ==> Holds(Nexts(desc), owner, pool[i])
    ensures Records(WithChain(desc, b), opaques[b.slots[0] := Some(b.token)], Mark(owner, b.slots, Some(b)), pool + [b])
  {
    var desc', opaques' := WithChain(desc, b), opaques[b.slots[0] := Some(b.token)];
    WithChainHolds(desc, b);
    forall i | 0 <= i < |pool| ensures Recorded(desc', opaques', pool[i]) {
      assert Recorded(desc, opaques, pool[i]) && Holds(Nexts(desc), owner, pool[i]);
      OtherChainsStay(desc, desc', pool[i]);
    }
    assert Recorded(desc', opaques', b);
  }

  /** The table after chain c went back to the free list headed by first. */
  function Freed(desc: seq<Desc>, last: nat, first: nat): seq<Desc>
    requires last < |desc|
  {
    desc[last := desc[last].(flags := Flags(true, false, false), next := first)]
  }

  lemma RemoveRecord(desc: seq<Desc>, opaques: seq<Option<Token>>, owner: seq<Option<Buf>>, pool: seq<Buf>, j: nat,
                     first: nat)
    requires Records(desc, opaques, owner, pool) && j < |pool| && Distinct(pool)
    requires forall i :: 0 <= i < |pool| ==> Holds(Nexts(desc), owner, pool[i])
    ensures var b := pool[j];
      && b.slots != [] && b.slots[0] < |desc| && b.slots[|b.slots| - 1] < |desc|
      && Records(Freed(desc, b.slots[|b.slots| - 1], first), opaques[b.slots[0] := None],
                 Mark(owner, b.slots, None), Without(pool, j))
  {
    var b, pool' := pool[j], Without(pool, j);
    assert Recorded(desc, opaques, b) && Holds(Nexts(desc), owner, b);
    var desc', opaques' := Freed(desc, b.slots[|b.slots| - 1], first), opaques[b.slots[0] := None];
    forall i | 0 <= i < |pool'| ensures Recorded(desc', opaques', pool'[i]) {
      var c := pool[if i < j then i else i + 1];
      assert c == pool'[i] && c != b && Recorded(desc, opaques, c) && Holds(Nexts(desc), owner, c);
      assert forall k :: 0 <= k < |c.slots| ==> c.slots[k] != b.slots[|b.slots| - 1] && c.slots[k] != b.slots[0];
      OtherChainsStay(desc, desc', c);
    }
    assert forall s :: s in b.slots ==> owner[s] == Some(b);
  }

  lemma {:induction false} CostAtLeast(pool: seq<Buf>)
    requires forall i :: 0 <= i < |pool| ==> pool[i].slots != []
    ensures Cost(pool) >= |pool|
  {
    if pool != [] { CostAtLeast(pool[1..]); }
  }

  lemma {:induction false} HopsAreFree(desc: seq<Desc>, free: seq<nat>, k: nat)
    requires Linked(Nexts(desc), free) && k < |free| && forall s :: 0 <= s < |desc| ==> desc[s].next < |desc|
    ensures Hop(desc, free[0], k) == free[k]
  {
    if k > 0 {
      HopsAreFree(desc, free, k - 1);
      assert Nexts(desc)[free[k - 1]] == free[k];
    }
  }

  // ----- the system

  /** What the proof knows beside the fields: the free list, the owner of each descriptor, the buffers
      in flight in the order of addition; and, while ring positions describe the queue - until
      detach_unused_buf, with a device that stores only what it should - those buffers in ring order:
      returned but unread (lens holds their lengths), then held by the device up to fetched, then not
      fetched; with every entry ever put in either ring.  read counts the buffers read, kickedAt those
      the device was notified of. */
  datatype Ghosts = Ghosts(
    free: seq<nat>, owner: seq<Option<Buf>>, pool: seq<Buf>, positioned: bool,
    queue: seq<Buf>, lens: seq<nat>, fetched: nat, availLog: seq<nat>, usedLog: seq<UsedElem>,
    read: nat, kickedAt: nat)

  /** seen is the avail index up to which the device has fetched; tables are the pages of memory that hold
      indirect tables, by address. */
  datatype System = System(v: Split, seen: nat, g: Ghosts, tables: map<nat, seq<Desc>>)

  /** k buffers lie between the 16-bit read and avail indices. */
  ghost predicate Counts(v: Split, k: int) {
    v.masterIdx == Mod16(v.lastUsed + k)
  }

  ghost predicate Lists(s: System) {
    && Partition(Nexts(s.v.desc), s.g.free, s.g.owner, s.g.pool)
    && Records(s.v.desc, s.v.opaques, s.g.owner, s.g.pool)
    && |s.g.free| == s.v.numUnused && (s.g.free != [] ==> s.v.firstUnused == s.g.free[0])
  }

  ghost predicate PoolOk(s: System) {
    InRange(s.v) && Lists(s) && Counts(s.v, |s.g.pool|)
  }

  /** Both rings hold their newest entries, and the 16-bit indices the counts. */
  ghost predicate Positions(s: System) {
    var v, g, n := s.v, s.g, |s.v.desc|;
    && n > 0 && |v.availRing| == |v.usedRing| == n && |g.lens| <= g.fetched <= |g.queue| <= n
    && Mirrors(v.availRing, g.availLog) && Mirrors(v.usedRing, g.usedLog)
    && |g.availLog| == n + g.read + |g.queue| && |g.usedLog| == n + g.read + |g.lens|
    && v.masterIdx == Mod16(g.read + |g.queue|) && v.lastUsed == Mod16(g.read)
    && v.usedIdx == Mod16(g.read + |g.lens|) && s.seen == Mod16(g.read + g.fetched)
    && v.numAdded == g.read + |g.queue| - g.kickedAt
  }

  /** The entries between the indices name the buffers in ring order. */
  ghost predicate Named(s: System) {
    var g, n := s.g, |s.v.desc|;
    && |g.lens| <= g.fetched <= |g.queue|
    && |g.availLog| == n + g.read + |g.queue| && |g.usedLog| == n + g.read + |g.lens|
    && (forall j {:trigger g.queue[j]} :: 0 <= j < |g.queue| ==> g.queue[j].slots != [])
    && (forall j {:trigger g.queue[j]} :: 0 <= j < |g.lens| ==>
          g.usedLog[n + g.read + j] == UsedElem(g.queue[j].slots[0], g.lens[j]))
    && (forall j {:trigger g.queue[j]} :: g.fetched <= j < |g.queue| ==>
          g.availLog[n + g.read + j] == g.queue[j].slots[0])
  }

  ghost predicate InStep(s: System) {
    Positions(s) && Named(s) && multiset(s.g.queue) == multiset(s.g.pool)
  }

  /** The table of every buffer in flight that has one holds its scatter list. */
  ghost predicate TablesOk(tables: map<nat, seq<Desc>>, pool: seq<Buf>) {
    forall i :: 0 <= i < |pool| && pool[i].table.Some? ==>
      pool[i].table.value in tables && TableHolds(tables[pool[i].table.value], pool[i].sg, pool[i].out)
  }

  ghost predicate SystemInv(s: System) {
    PoolOk(s) && TablesOk(s.tables, s.g.pool) && (s.g.positioned ==> InStep(s))
  }

  ghost function Abs(s: System): Queue {
    Abstract(s.v.numUnused, s.g.pool)
  }

  // ----- add_buf

  ghost predicate CanAdd(s: System, b: Buf) {
    && InRange(s.v) && Shaped(b) && |b.slots| <= s.v.numUnused == |s.g.free|
    && b.slots == Hops(s.v.desc, s.v.firstUnused, |b.slots|)
  }

  ghost function AfterAdd(s: System, b: Buf): System
    requires CanAdd(s, b)
  {
    var g := s.g;
    System(AddSpec(s.v, b), s.seen,
           g.(free := g.free[|b.slots|..], owner := Mark(g.owner, b.slots, Some(b)), pool := g.pool + [b],
              queue := g.queue + [b], availLog := g.availLog + [b.slots[0]]),
           s.tables)
  }

  lemma FrontOfFree(s: System, b: Buf)
    requires PoolOk(s) && CanAdd(s, b)
    ensures b.slots == s.g.free[..|b.slots|]
    ensures |b.slots| < |s.g.free| ==> Hop(s.v.desc, s.v.firstUnused, |b.slots|) == s.g.free[|b.slots|]
  {
    forall i | 0 <= i < |b.slots| ensures b.slots[i] == s.g.free[i] {
      HopsAreFree(s.v.desc, s.g.free, i);
    }
    if |b.slots| < |s.g.free| { HopsAreFree(s.v.desc, s.g.free, |b.slots|); }
  }

  /** The front of the free list, which add_buf takes, holds no descriptor twice. */
  lemma FreeHopsDiffer(s: System, k: nat)
    requires PoolOk(s) && k <= s.v.numUnused
    ensures Distinct(Hops(s.v.desc, s.v.firstUnused, k))
  {
    forall i | 0 <= i < k ensures Hops(s.v.desc, s.v.firstUnused, k)[i] == s.g.free[i] {
      HopsAreFree(s.v.desc, s.g.free, i);
    }
  }

  lemma AddKeepsRange(v: Split, b: Buf)
    requires InRange(v) && Shaped(b) && |b.slots| <= v.numUnused
    requires forall i :: 0 <= i < |b.slots| ==> b.slots[i] < |v.desc|
    ensures InRange(AddSpec(v, b))
  {
  }

  lemma NextCount(idx: nat, count: nat)
    requires idx == Mod16(count)
    ensures Mod16(idx + 1) == Mod16(count + 1) && (count > 0 ==> Mod16(idx - 1) == Mod16(count - 1))
  {
    SameResidue(idx + 1, count + 1, -(count / 0x1_0000));
    SameResidue(idx - 1, count - 1, -(count / 0x1_0000));
  }

  lemma AddKeepsPool(s: System, b: Buf)
    requires PoolOk(s) && CanAdd(s, b)
    ensures PoolOk(AfterAdd(s, b))
    ensures Abs(AfterAdd(s, b)) == Add(Abs(s), Entry(b.token, |b.slots|))
  {
    FrontOfFree(s, b);
    AddKeepsRange(s.v, b);
    AddKeepsLists(s, b);
    AbstractAdd(s.v.numUnused, s.g.pool, b);
    AddKeepsCount(s, b);
  }

  lemma AddKeepsCount(s: System, b: Buf)
    requires CanAdd(s, b) && Counts(s.v, |s.g.pool|)
    ensures Counts(AfterAdd(s, b).v, |AfterAdd(s, b).g.pool|)
  {
    NextCount(s.v.masterIdx, s.v.lastUsed + |s.g.pool|);
  }

  lemma AddKeepsLists(s: System, b: Buf)
    requires PoolOk(s) && CanAdd(s, b) && b.slots == s.g.free[..|b.slots|]
    ensures var desc', owner', pool' := WithChain(s.v.desc, b), Mark(s.g.owner, b.slots, Some(b)), s.g.pool + [b];
      && Partition(Nexts(desc'), s.g.free[|b.slots|..], owner', pool')
      && Records(desc', s.v.opaques[b.slots[0] := Some(b.token)], owner', pool')
  {
    assert forall i :: 0 <= i < |b.slots| ==> b.slots[i] == s.g.free[i];
    WithChainHolds(s.v.desc, b);
    Take(Nexts(s.v.desc), s.g.free, s.g.owner, s.g.pool, b);
    AddRecord(s.v.desc, s.v.opaques, s.g.owner, s.g.pool, b);
  }

  lemma FitsRing(s: System)
    requires PoolOk(s)
    ensures |s.g.pool| + s.v.numUnused <= |s.v.desc|
  {
    forall i | 0 <= i < |s.g.pool| ensures s.g.pool[i].slots != [] {
      assert Holds(Nexts(s.v.desc), s.g.owner, s.g.pool[i]);
    }
    CostAtLeast(s.g.pool);
  }

  /** A write of the newest entry at the slot of a 16-bit index keeps the ring a mirror of its log. */
  lemma MirrorsNext<T>(ring: seq<T>, log: seq<T>, idx: nat, count: nat, x: T)
    requires 0 < |ring| && Slot(U16, |ring|) == 0 && Mirrors(ring, log)
    requires |log| == |ring| + count && idx == Mod16(count)
    ensures Mirrors(ring[Slot(idx, |ring|) := x], log + [x])
  {
    var n := |ring|;
    IndexSlot(count, n);
    assert Slot(|log|, n) == Slot(count, n);
    MirrorsAppend(ring, log, [x]);
    OverwriteOne(ring, Slot(idx, n), x);
  }

  lemma AddKeepsPositions(s: System, b: Buf)
    requires CanAdd(s, b) && Positions(s) && |s.g.queue| < |s.v.desc|
    ensures Positions(AfterAdd(s, b))
  {
    var count := s.g.read + |s.g.queue|;
    MirrorsNext(s.v.availRing, s.g.availLog, s.v.masterIdx, count, b.slots[0]);
    NextCount(s.v.masterIdx, count);
  }

  lemma AddKeepsStep(s: System, b: Buf)
    requires CanAdd(s, b) && InStep(s) && |s.g.pool| < |s.v.desc|
    ensures InStep(AfterAdd(s, b))
  {
    assert |s.g.queue| == |multiset(s.g.queue)| == |multiset(s.g.pool)| == |s.g.pool|;
    AddKeepsPositions(s, b);
    AddKeepsNames(s, b);
  }

  lemma AddKeepsNames(s: System, b: Buf)
    requires CanAdd(s, b) && Named(s)
    ensures Named(AfterAdd(s, b))
  {
  }

  /** The page of an indirect buffer is written while no buffer in flight uses it. */
  function WithPage(tables: map<nat, seq<Desc>>, b: Buf, page: seq<Desc>): map<nat, seq<Desc>> {
    if b.table.Some? then tables[b.table.value := page] else tables
  }

  /** The client lends a page of its own to one buffer at a time. */
  ghost predicate PageUnused(pool: seq<Buf>, table: Option<nat>) {
    table.Some? ==> forall i :: 0 <= i < |pool| ==> pool[i].table != table
  }

  lemma AddKeepsTables(tables: map<nat, seq<Desc>>, pool: seq<Buf>, b: Buf, page: seq<Desc>)
    requires TablesOk(tables, pool) && PageUnused(pool, b.table) && (b.table.Some? ==> TableHolds(page, b.sg, b.out))
    ensures TablesOk(WithPage(tables, b, page), pool + [b])
  {
  }

  lemma FewerBuffersKeepTables(tables: map<nat, seq<Desc>>, pool: seq<Buf>, j: nat)
    requires TablesOk(tables, pool) && j < |pool|
    ensures TablesOk(tables, Without(pool, j))
  {
    var rest := Without(pool, j);
    forall i | 0 <= i < |rest| && rest[i].table.Some?
      ensures rest[i].table.value in tables && TableHolds(tables[rest[i].table.value], rest[i].sg, rest[i].out)
    {
      assert rest[i] == pool[if i < j then i else i + 1];
    }
  }

  // ----- get_buf and detach_unused_buf

  lemma HeldChain(desc: seq<Desc>, opaques: seq<Option<Token>>, owner: seq<Option<Buf>>, b: Buf)
    requires Recorded(desc, opaques, b) && Holds(Nexts(desc), owner, b)
    ensures IsChain(desc, b.slots)
  {
    assert forall i :: 0 <= i < |b.slots| ==> Nexts(desc)[b.slots[i]] == desc[b.slots[i]].next;
  }

  /** The chain of a buffer in flight is one, so that put_unused_desc_chain ends at its last descriptor
      after as many steps as it has descriptors. */
  lemma ChainOf(s: System, b: Buf)
    requires PoolOk(s) && b in s.g.pool
    ensures IsChain(s.v.desc, b.slots) && s.v.opaques[b.slots[0]] == Some(b.token) && b.slots[0] < |s.v.desc|
    ensures s.v.numUnused + |b.slots| <= |s.v.desc|
  {
    var j := IndexOf(s.g.pool, b);
    assert Recorded(s.v.desc, s.v.opaques, s.g.pool[j]) && Holds(Nexts(s.v.desc), s.g.owner, s.g.pool[j]);
    HeldChain(s.v.desc, s.v.opaques, s.g.owner, b);
    CostWithout(s.g.pool, j);
  }

  ghost function Removed(g: Ghosts, b: Buf): Ghosts
    requires b in g.pool
  {
    g.(free := b.slots + g.free, owner := Mark(g.owner, b.slots, None), pool := Without(g.pool, IndexOf(g.pool, b)))
  }

  /** The table, the tokens and the lists of s' are those of s after b went back to the free list. */
  ghost predicate GaveBack(s: System, b: Buf, s': System) {
    && b in s.g.pool && IsChain(s.v.desc, b.slots) && b.slots[0] < |s.v.opaques| && |s.v.opaques| == |s.v.desc|
    && s'.v.desc == PutSpec(s.v, b.slots).desc && s'.v.opaques == PutSpec(s.v, b.slots).opaques
    && s'.v.numUnused == s.v.numUnused + |b.slots| && s'.v.firstUnused == b.slots[0]
    && s'.g.free == b.slots + s.g.free && s'.g.owner == Mark(s.g.owner, b.slots, None)
    && s'.g.pool == Without(s.g.pool, IndexOf(s.g.pool, b))
  }

  lemma RemoveKeepsPartition(s: System, b: Buf, s': System)
    requires Lists(s) && GaveBack(s, b, s')
    ensures Partition(Nexts(s'.v.desc), s'.g.free, s'.g.owner, s'.g.pool)
  {
    var j := IndexOf(s.g.pool, b);
    assert Holds(Nexts(s.v.desc), s.g.owner, s.g.pool[j]);
    Put(Nexts(s.v.desc), s.g.free, s.g.owner, s.g.pool, j, Nexts(s'.v.desc));
  }

  lemma RemoveKeepsRecords(s: System, b: Buf, s': System)
    requires Lists(s) && GaveBack(s, b, s')
    ensures Records(s'.v.desc, s'.v.opaques, s'.g.owner, s'.g.pool)
  {
    hide Records, Holds, FreeList, Linked;
    RemoveRecord(s.v.desc, s.v.opaques, s.g.owner, s.g.pool, IndexOf(s.g.pool, b), s.v.firstUnused);
  }

  lemma RemoveKeepsLists(s: System, b: Buf, s': System)
    requires Lists(s) && GaveBack(s, b, s')
    ensures Lists(s')
  {
    RemoveKeepsPartition(s, b, s');
    RemoveKeepsRecords(s, b, s');
  }

  lemma RemoveIsAbstract(s: System, b: Buf)
    requires PoolOk(s) && b in s.g.pool
    ensures s.v.opaques[b.slots[0]] == Some(b.token) && s.v.numUnused + |b.slots| <= |s.v.desc|
    ensures Entry(b.token, |b.slots|) in Abs(s).inFlight
    ensures Abstract(s.v.numUnused + |b.slots|, Removed(s.g, b).pool) == Remove(Abs(s), Entry(b.token, |b.slots|))
  {
    ChainOf(s, b);
    AbstractRemove(s.v.numUnused, s.g.pool, IndexOf(s.g.pool, b));
  }

  /** The shared indices and rings of s' are in range, given those of s. */
  ghost predicate SameRings(v: Split, v': Split) {
    && v'.availRing == v.availRing && v'.usedRing == v.usedRing && v'.usedIdx == v.usedIdx
    && v'.availIdx == v'.masterIdx < U16 && v'.lastUsed < U16
  }

  lemma PutKeepsRange(s: System, b: Buf, s': System)
    requires InRange(s.v) && GaveBack(s, b, s') && SameRings(s.v, s'.v) && s'.v.numUnused <= |s.v.desc|
    ensures InRange(s'.v)
  {
  }

  /** The read index stepped on, or the avail index stepped back. */
  ghost predicate OneFewer(v: Split, v': Split) {
    || (v'.masterIdx == v.masterIdx && v'.lastUsed == Mod16(v.lastUsed + 1))
    || (v'.masterIdx == Mod16(v.masterIdx - 1) && v'.lastUsed == v.lastUsed)
  }

  lemma RemoveKeepsCount(v: Split, k: int, v': Split)
    requires k > 0 && Counts(v, k) && OneFewer(v, v')
    ensures Counts(v', k - 1)
  {
    if v'.masterIdx == v.masterIdx && v'.lastUsed == Mod16(v.lastUsed + 1) {
      SameResidue(v'.lastUsed + (k - 1), v.lastUsed + k, -((v.lastUsed + 1) / 0x1_0000));
    } else {
      NextCount(v.masterIdx, v.lastUsed + k);
    }
  }

  /** Whatever else changes, giving a buffer back keeps the pool: the difference of the indices stays the
      number of buffers in flight whether the read index stepped on or the avail index stepped back. */
  lemma RemoveKeepsPool(s: System, b: Buf, s': System)
    requires PoolOk(s) && GaveBack(s, b, s') && SameRings(s.v, s'.v) && OneFewer(s.v, s'.v)
    ensures PoolOk(s')
  {
    ChainOf(s, b);
    RemoveKeepsLists(s, b, s');
    PutKeepsRange(s, b, s');
    RemoveKeepsCount(s.v, |s.g.pool|, s'.v);
  }

  /** A non-NULL opaque marks the head of a buffer in flight. */
  lemma HeadIsOwned(s: System, id: nat)
    requires PoolOk(s) && id < |s.v.opaques| && s.v.opaques[id].Some?
    ensures s.g.owner[id].Some? && s.g.owner[id].value in s.g.pool
    ensures s.g.owner[id].value.slots != [] && s.g.owner[id].value.slots[0] == id
  {
  }

  ghost function AfterDetach(s: System, b: Buf): System
    requires b in s.g.pool && b.slots != [] && b.slots[0] < |s.v.opaques| && b.slots[|b.slots| - 1] < |s.v.desc|
  {
    System(DetachSpec(s.v, b.slots), s.seen, Removed(s.g, b).(positioned := false), s.tables)
  }

  lemma DetachKeepsInv(s: System, b: Buf)
    requires SystemInv(s) && b in s.g.pool && IsChain(s.v.desc, b.slots) && b.slots[0] < |s.v.opaques|
    ensures SystemInv(AfterDetach(s, b))
    ensures Abs(AfterDetach(s, b)) == Remove(Abs(s), Entry(b.token, |b.slots|))
    ensures Entry(b.token, |b.slots|) in Abs(s).inFlight
  {
    RemoveKeepsPool(s, b, AfterDetach(s, b));
    RemoveIsAbstract(s, b);
    FewerBuffersKeepTables(s.tables, s.g.pool, IndexOf(s.g.pool, b));
  }

  ghost predicate CanGet(s: System) {
    && InRange(s.v) && s.g.lens != [] && s.g.fetched > 0 && s.g.queue != [] && s.g.queue[0] in s.g.pool
    && IsChain(s.v.desc, s.g.queue[0].slots) && s.g.queue[0].slots[0] < |s.v.opaques|
  }

  ghost function AfterGet(s: System): System
    requires CanGet(s)
  {
    var g := Removed(s.g, s.g.queue[0]);
    System(GetSpec(s.v, s.g.queue[0].slots), s.seen,
           g.(queue := g.queue[1..], lens := g.lens[1..], fetched := g.fetched - 1, read := g.read + 1),
           s.tables)
  }

  /** get_buf answers exactly: nothing while the device has returned nothing unread, else the head, the
      length and the token of the buffer it returned first. */
  lemma GetIsExact(s: System)
    requires SystemInv(s) && s.g.positioned
    ensures s.g.lens == [] ==> NextUsed(s.v).None?
    ensures s.g.lens != [] ==>
      && CanGet(s)
      && NextUsed(s.v) == Some(UsedElem(s.g.queue[0].slots[0], s.g.lens[0]))
      && Mod16(s.g.queue[0].slots[0]) == s.g.queue[0].slots[0]
      && s.v.opaques[s.g.queue[0].slots[0]] == Some(s.g.queue[0].token)
  {
    UsedIndexTest(s);
    if s.g.lens != [] {
      var b := s.g.queue[0];
      assert b in multiset(s.g.queue);
      assert b in s.g.pool;
      ChainOf(s, b);
      Residue(b.slots[0], 0, b.slots[0]);
    }
  }

  /** Counts less than 2^16 apart have the same 16-bit index only if they are equal. */
  lemma SameIndex(a: nat, k: nat)
    requires k <= 0x8000
    ensures Mod16(a) == Mod16(a + k) <==> k == 0
  {
  }

  lemma UsedIndexTest(s: System)
    requires InRange(s.v) && Positions(s) && Named(s)
    ensures s.v.lastUsed == s.v.usedIdx <==> s.g.lens == []
    ensures s.g.lens != [] ==> NextUsed(s.v) == Some(UsedElem(s.g.queue[0].slots[0], s.g.lens[0]))
  {
    var n, g := |s.v.desc|, s.g;
    SameIndex(g.read, |g.lens|);
    if g.lens != [] {
      IndexSlot(g.read, n);
      assert Slot(g.read + n, n) == Slot(g.read, n);
      assert g.usedLog[n + g.read + 0] == UsedElem(g.queue[0].slots[0], g.lens[0]);
    }
  }

  lemma GetKeepsPositions(s: System)
    requires CanGet(s) && Positions(s)
    ensures Positions(AfterGet(s))
  {
    NextCount(s.v.lastUsed, s.g.read);
  }

  lemma GetKeepsNames(s: System)
    requires CanGet(s) && Named(s)
    ensures Named(AfterGet(s))
  {
    var g, g' := s.g, AfterGet(s).g;
    assert forall j :: 0 <= j < |g'.queue| ==> g'.queue[j] == g.queue[j + 1];
  }

  lemma GetKeepsStep(s: System)
    requires CanGet(s) && InStep(s)
    ensures InStep(AfterGet(s))
  {
    GetKeepsPositions(s);
    GetKeepsNames(s);
    RemoveFromBoth(s.g.queue, s.g.pool, IndexOf(s.g.pool, s.g.queue[0]));
  }

  lemma GetGivesBack(s: System)
    requires CanGet(s) && |s.v.opaques| == |s.v.desc|
    ensures var s' := AfterGet(s); GaveBack(s, s.g.queue[0], s') && SameRings(s.v, s'.v) && OneFewer(s.v, s'.v)
  {
  }

  lemma GetKeepsInv(s: System)
    requires SystemInv(s) && s.g.positioned && CanGet(s)
    ensures SystemInv(AfterGet(s))
    ensures var b := s.g.queue[0];
      && Abs(AfterGet(s)) == Remove(Abs(s), Entry(b.token, |b.slots|))
      && Entry(b.token, |b.slots|) in Abs(s).inFlight
  {
    GetGivesBack(s);
    RemoveKeepsPool(s, s.g.queue[0], AfterGet(s));
    RemoveIsAbstract(s, s.g.queue[0]);
    GetKeepsStep(s);
    FewerBuffersKeepTables(s.tables, s.g.pool, IndexOf(s.g.pool, s.g.queue[0]));
  }

  // ----- the device

  /** The device reads a chain from descriptor i on as long as NEXT is set. */
  function Walk(desc: seq<Desc>, i: nat, fuel: nat): seq<Desc>
    requires i < |desc| && forall s :: 0 <= s < |desc| ==> desc[s].next < |desc|
    decreases fuel
  {
    if fuel == 0 || !desc[i].flags.next then [desc[i]] else [desc[i]] + Walk(desc, desc[i].next, fuel - 1)
  }

  lemma {:induction false} WalkReads(desc: seq<Desc>, c: seq<nat>, fuel: nat)
    requires IsChain(desc, c) && fuel >= |c| && forall s :: 0 <= s < |desc| ==> desc[s].next < |desc|
    ensures Walk(desc, c[0], fuel) == seq(|c|, i requires 0 <= i < |c| => desc[c[i]])
    decreases fuel
  {
    if |c| > 1 {
      assert desc[c[0]].next == c[0 + 1];
      assert IsChain(desc, c[1..]) by {
        forall i {:trigger desc[c[1..][i]].next} | 0 <= i < |c[1..]| - 1
          ensures desc[c[1..][i]].flags.next && desc[c[1..][i]].next == c[1..][i + 1]
        {
          assert desc[c[i + 1]].next == c[i + 2];
        }
      }
      WalkReads(desc, c[1..], fuel - 1);
    }
  }

  /** The scatter list and the writable flags that the descriptors of a chain stand for. */
  ghost predicate Describes(ds: seq<Desc>, b: Buf) {
    if b.table.Some?
    then |ds| == 1 && ds[0].flags.indirect && ds[0].addr == b.table.value && ds[0].len == |b.sg| * DESC_SIZE
    else |ds| == |b.sg| && forall i :: 0 <= i < |ds| ==>
      && ds[i].addr == b.sg[i].addr && ds[i].len == b.sg[i].len && !ds[i].flags.indirect
      && (ds[i].flags.write <==> i >= b.out)
  }

  lemma WalkDescribes(s: System, b: Buf)
    requires PoolOk(s) && b in s.g.pool
    ensures b.slots != [] && b.slots[0] < |s.v.desc|
    ensures Describes(Walk(s.v.desc, b.slots[0], |s.v.desc|), b)
  {
    ChainOf(s, b);
    WalkReads(s.v.desc, b.slots, |s.v.desc|);
    assert Recorded(s.v.desc, s.v.opaques, s.g.pool[IndexOf(s.g.pool, b)]);
  }

  function Elements(ds: seq<Desc>): seq<Element> {
    seq(|ds|, i requires 0 <= i < |ds| => Element(ds[i].addr, ds[i].len, ds[i].flags.write))
  }

  /** The device reads an indirect table from entry i on as long as NEXT is set, at most to its end. */
  function WalkTable(table: seq<Desc>, i: nat, fuel: nat): seq<Desc>
    requires i < |table|
    decreases fuel
  {
    if fuel == 0 || !table[i].flags.next || table[i].next >= |table| then [table[i]]
    else [table[i]] + WalkTable(table, table[i].next, fuel - 1)
  }

  lemma {:induction false} TableReads(table: seq<Desc>, sg: seq<Sg>, out: nat, i: nat, fuel: nat)
    requires TableHolds(table, sg, out) && i < |sg| && fuel >= |sg| - i
    ensures WalkTable(table, i, fuel) == table[i..|sg|]
    decreases fuel
  {
    if i + 1 < |sg| { TableReads(table, sg, out, i + 1, fuel - 1); }
  }

  /** The scatter list that the device takes from the descriptors of a buffer: their own, or - if the one
      descriptor names an indirect table - what it reads of the table, in which there are as many entries as
      its length says. */
  function ReadList(tables: map<nat, seq<Desc>>, ds: seq<Desc>): seq<Element> {
    if |ds| == 1 && ds[0].flags.indirect && ds[0].addr in tables
       && 0 < ds[0].len / DESC_SIZE <= |tables[ds[0].addr]|
    then Elements(WalkTable(tables[ds[0].addr][..ds[0].len / DESC_SIZE], 0, ds[0].len / DESC_SIZE))
    else Elements(ds)
  }

  lemma DescribedListIsRead(tables: map<nat, seq<Desc>>, ds: seq<Desc>, b: Buf)
    requires Describes(ds, b) && b.sg != []
    requires b.table.Some? ==> b.table.value in tables && TableHolds(tables[b.table.value], b.sg, b.out)
    ensures ReadList(tables, ds) == ListOf(b)
  {
    if b.table.Some? {
      var table := tables[b.table.value][..|b.sg|];
      TableReads(table, b.sg, b.out, 0, |b.sg|);
      assert table[0..|b.sg|] == table;
    }
  }

  /** Round trip: the device sees the avail index ahead of its own exactly when a buffer is available; the
      entry it then reads names that buffer, and what it reads from there - through the indirect table if
      there is one - is exactly the scatter list the client added. */
  lemma FetchReadsTheBuffer(s: System)
    requires SystemInv(s) && s.g.positioned
    ensures s.seen != s.v.availIdx <==> s.g.fetched < |s.g.queue|
    ensures s.g.fetched < |s.g.queue| ==>
      var b, head := s.g.queue[s.g.fetched], s.v.availRing[Slot(s.seen, |s.v.desc|)];
      && b in s.g.pool && b.slots != [] && head == b.slots[0] < |s.v.desc|
      && Describes(Walk(s.v.desc, head, |s.v.desc|), b)
      && ReadList(s.tables, Walk(s.v.desc, head, |s.v.desc|)) == ListOf(b)
  {
    AvailIndexTest(s);
    if s.g.fetched < |s.g.queue| {
      var b := s.g.queue[s.g.fetched];
      assert b in multiset(s.g.queue);
      assert b in s.g.pool;
      WalkDescribes(s, b);
      var i := IndexOf(s.g.pool, b);
      assert Recorded(s.v.desc, s.v.opaques, s.g.pool[i]);
      DescribedListIsRead(s.tables, Walk(s.v.desc, b.slots[0], |s.v.desc|), s.g.pool[i]);
    }
  }

  lemma AvailIndexTest(s: System)
    requires InRange(s.v) && Positions(s) && Named(s)
    ensures s.seen != s.v.availIdx <==> s.g.fetched < |s.g.queue|
    ensures s.g.fetched < |s.g.queue| ==>
      s.v.availRing[Slot(s.seen, |s.v.desc|)] == s.g.queue[s.g.fetched].slots[0]
  {
    var n, g := |s.v.desc|, s.g;
    var f := g.read + g.fetched;
    SameIndex(f, |g.queue| - g.fetched);
    if g.fetched < |g.queue| {
      IndexSlot(f, n);
      assert Slot(f + n, n) == Slot(f, n);
      assert g.availLog[n + g.read + g.fetched] == g.queue[g.fetched].slots[0];
    }
  }

  ghost predicate CanFetch(s: System) {
    InStep(s) && s.g.fetched < |s.g.queue|
  }

  ghost function AfterFetch(s: System): System {
    s.(seen := Mod16(s.seen + 1), g := s.g.(fetched := s.g.fetched + 1))
  }

  lemma FetchKeepsStep(s: System)
    requires CanFetch(s)
    ensures InStep(AfterFetch(s))
  {
    NextCount(s.seen, s.g.read + s.g.fetched);
  }

  ghost predicate CanComplete(s: System, i: nat) {
    InStep(s) && |s.g.lens| <= i < s.g.fetched
  }

  /** The device returns any buffer it holds, in any order: it writes the next used entry, then the index. */
  ghost function AfterComplete(s: System, i: nat, len: nat): System
    requires CanComplete(s, i)
  {
    var g, b := s.g, s.g.queue[i];
    var elem := UsedElem(b.slots[0], len);
    s.(v := s.v.(usedRing := s.v.usedRing[Slot(s.v.usedIdx, |s.v.desc|) := elem], usedIdx := Mod16(s.v.usedIdx + 1)),
       g := g.(queue := Move(g.queue, i, |g.lens|), lens := g.lens + [len], usedLog := g.usedLog + [elem]))
  }

  lemma CompleteKeepsPositions(s: System, i: nat, len: nat)
    requires CanComplete(s, i) && InRange(s.v)
    ensures Positions(AfterComplete(s, i, len))
  {
    hide Mirrors;
    var count := s.g.read + |s.g.lens|;
    MirrorsNext(s.v.usedRing, s.g.usedLog, s.v.usedIdx, count, UsedElem(s.g.queue[i].slots[0], len));
    NextCount(s.v.usedIdx, count);
  }

  lemma CompleteKeepsNames(s: System, i: nat, len: nat)
    requires CanComplete(s, i)
    ensures Named(AfterComplete(s, i, len))
  {
    hide Positions, Slot;
    var g, g' := s.g, AfterComplete(s, i, len).g;
    forall j | 0 <= j < |g'.queue| ensures g'.queue[j].slots != [] {
      assert g'.queue[j] == g.queue[if j < |g.lens| || j > i then j else if j == |g.lens| then i else j - 1];
    }
  }

  lemma CompleteKeepsStep(s: System, i: nat, len: nat)
    requires CanComplete(s, i) && InRange(s.v)
    ensures InStep(AfterComplete(s, i, len))
  {
    CompleteKeepsPositions(s, i, len);
    CompleteKeepsNames(s, i, len);
    MovePermutes(s.g.queue, i, |s.g.lens|);
  }

  // ----- runs

  /** What the client, the driver's interrupt code and the device can do, in any order.  page is what the
      driver writes at the table's address, if it uses the table. */
  datatype Event =
    | Submission(sg: seq<Sg>, out: nat, token: Token, table: Option<nat>, page: seq<Desc>)
    | GetBuf
    | DetachUnused
    | KickPrepare
    | EnableCb
    | DisableCb
    | DeviceFetch
    | DeviceComplete(i: nat, len: nat)
    | DeviceAsks(event: nat, noNotify: bool)
    | DeviceStores(usedRing: seq<UsedElem>, usedIdx: nat)

  /** What get_buf reads next names a buffer in flight: get_buf does not check it. */
  ghost predicate UsedNames(v: Split)
    requires InRange(v)
  {
    NextUsed(v).Some? ==> var id := Mod16(NextUsed(v).value.id); id < |v.opaques| && v.opaques[id].Some?
  }

  /** The driver's callers and an honest device do nothing else.  Any other device may store what it likes
      in the used ring; get_buf is safe to call as long as what it reads there names a buffer in flight. */
  ghost predicate Allowed(s: System, e: Event) {
    match e
    case Submission(sg, out, _, table, page) =>
      sg != [] && out <= |sg| && PageUnused(s.g.pool, table) && (table.Some? ==> TableHolds(page, sg, out))
    case GetBuf => s.g.positioned || (InRange(s.v) && UsedNames(s.v))
    case DeviceStores(usedRing, usedIdx) => |usedRing| == |s.v.desc| && usedIdx < U16
    case DeviceFetch => s.g.positioned && s.seen != s.v.availIdx
    case DeviceComplete(i, _) => s.g.positioned && CanComplete(s, i)
    case _ => true
  }

  /** The lowest descriptor with a token, or the number of descriptors. */
  function LowestHead(opaques: seq<Option<Token>>): (i: nat)
    ensures i <= |opaques| && (i < |opaques| ==> opaques[i].Some?)
    ensures forall j :: 0 <= j < i ==> opaques[j].None?
  {
    if opaques == [] || opaques[0].Some? then 0 else 1 + LowestHead(opaques[1..])
  }

  /** The buffer that detach_unused_buf finds, if any. */
  ghost function LowestBuf(s: System): (b: Option<Buf>)
    requires PoolOk(s)
    ensures b.Some? ==> b.value in s.g.pool && b.value.slots != [] && b.value.slots[0] == LowestHead(s.v.opaques)
    ensures b.None? <==> forall i :: 0 <= i < |s.v.opaques| ==> s.v.opaques[i].None?
  {
    if LowestHead(s.v.opaques) < |s.v.opaques| then s.g.owner[LowestHead(s.v.opaques)] else None
  }

  /** The steps that only concern notifications. */
  ghost function AfterNotice(s: System, e: Event): System {
    if e.KickPrepare? then
      s.(v := KickSpec(s.v).0, g := s.g.(kickedAt := s.g.read + |s.g.queue|))
    else if e.EnableCb? then s.(v := EnableSpec(s.v))
    else if e.DisableCb? then s.(v := DisableSpec(s.v))
    else if e.DeviceAsks? then s.(v := s.v.(availEvent := e.event, usedNoNotify := e.noNotify))
    else s
  }

  /** The buffer that get_buf takes: the one whose head is named in the used ring. */
  ghost function NamedBuf(s: System): (b: Buf)
    requires PoolOk(s) && NextUsed(s.v).Some? && UsedNames(s.v)
    ensures b in s.g.pool && IsChain(s.v.desc, b.slots) && b.slots[0] == Mod16(NextUsed(s.v).value.id) < |s.v.opaques|
  {
    var id := Mod16(NextUsed(s.v).value.id);
    HeadIsOwned(s, id);
    ChainOf(s, s.g.owner[id].value);
    s.g.owner[id].value
  }

  /** get_buf when positions do not describe the rings. */
  ghost function AfterAnyGet(s: System): System
    requires PoolOk(s) && NextUsed(s.v).Some? && UsedNames(s.v)
  {
    System(GetSpec(s.v, NamedBuf(s).slots), s.seen, Removed(s.g, NamedBuf(s)), s.tables)
  }

  /** One call of get_buf, and what it returned. */
  ghost function GetStep(s: System): System
    requires PoolOk(s)
  {
    if NextUsed(s.v).None? || !UsedNames(s.v) then s
    else if s.g.positioned && CanGet(s) then AfterGet(s) else AfterAnyGet(s)
  }

  ghost function GetOps(s: System): seq<Op>
    requires PoolOk(s)
  {
    if NextUsed(s.v).None? || !UsedNames(s.v) then []
    else [Return(Entry(NamedBuf(s).token, |NamedBuf(s).slots|))]
  }

  /** Whatever the used ring holds besides, get_buf gives back the buffer that is named, with its own token. */
  lemma AnyGetKeepsInv(s: System)
    requires PoolOk(s) && TablesOk(s.tables, s.g.pool) && NextUsed(s.v).Some? && UsedNames(s.v)
    ensures var b, s' := NamedBuf(s), AfterAnyGet(s);
      && PoolOk(s') && TablesOk(s'.tables, s'.g.pool) && s.v.opaques[b.slots[0]] == Some(b.token)
      && Abs(s') == Remove(Abs(s), Entry(b.token, |b.slots|)) && Entry(b.token, |b.slots|) in Abs(s).inFlight
  {
    hide Records, Partition, IsChain;
    var b := NamedBuf(s);
    RemoveKeepsPool(s, b, AfterAnyGet(s));
    RemoveIsAbstract(s, b);
    FewerBuffersKeepTables(s.tables, s.g.pool, IndexOf(s.g.pool, b));
  }

  /** The used ring is not part of the pool. */
  ghost function AfterStores(s: System, usedRing: seq<UsedElem>, usedIdx: nat): System {
    s.(v := s.v.(usedRing := usedRing, usedIdx := usedIdx), g := s.g.(positioned := false))
  }

  /** One call of detach_unused_buf, and what it returned. */
  ghost function DetachStep(s: System): System
    requires PoolOk(s)
  {
    var b := LowestBuf(s);
    if b.Some? && IsChain(s.v.desc, b.value.slots) && b.value.slots[0] < |s.v.opaques|
    then AfterDetach(s, b.value) else s
  }

  ghost function DetachOps(s: System): seq<Op>
    requires PoolOk(s)
  {
    var b := LowestBuf(s);
    if b.Some? then [Return(Entry(b.value.token, |b.value.slots|))] else []
  }

  ghost function Next(s: System, e: Event): System
    requires SystemInv(s) && Allowed(s, e)
  {
    match e
    case Submission(sg, out, token, table, page) =>
      var b := BufOf(s.v, sg, out, token, table);
      if |b.slots| <= s.v.numUnused then AfterAdd(s, b).(tables := WithPage(s.tables, b, page)) else s
    case GetBuf => GetStep(s)
    case DetachUnused => DetachStep(s)
    case DeviceFetch => AfterFetch(s)
    case DeviceComplete(i, len) => AfterComplete(s, i, len)
    case DeviceStores(usedRing, usedIdx) => AfterStores(s, usedRing, usedIdx)
    case _ => AfterNotice(s, e)
  }

  /** The client operation an event amounts to, if any. */
  ghost function OpsOf(s: System, e: Event): seq<Op>
    requires SystemInv(s) && Allowed(s, e)
  {
    match e
    case Submission(sg, out, token, table, _) => [Submit(token, |sg|, table.Some?)]
    case GetBuf => GetOps(s)
    case DetachUnused => DetachOps(s)
    case _ => []
  }

  lemma PagesAreApart(s: System, tables: map<nat, seq<Desc>>)
    ensures PoolOk(s.(tables := tables)) == PoolOk(s) && InStep(s.(tables := tables)) == InStep(s)
    ensures Abs(s.(tables := tables)) == Abs(s)
  {
  }

  lemma SubmissionKeepsInv(s: System, e: Event)
    requires SystemInv(s) && e.Submission? && Allowed(s, e)
    ensures SystemInv(Next(s, e))
    ensures Abs(Next(s, e)) == Step(Abs(s), Submit(e.token, |e.sg|, e.table.Some?))
  {
    hide Records, Partition, Mirrors, Named;
    var b := BufOf(s.v, e.sg, e.out, e.token, e.table);
    if |b.slots| <= s.v.numUnused {
      AddKeepsPool(s, b);
      AddKeepsTables(s.tables, s.g.pool, b, e.page);
      FitsRing(s);
      if s.g.positioned { AddKeepsStep(s, b); }
      PagesAreApart(AfterAdd(s, b), WithPage(s.tables, b, e.page));
    }
  }

  /** The step from s to s' is that of the abstract queue: of the one operation in ops, or none. */
  ghost predicate Amounts(s: System, ops: seq<Op>, s': System) {
    && |ops| <= 1
    && if ops == [] then Abs(s') == Abs(s) else Enabled(Abs(s), ops[0]) && Abs(s') == Step(Abs(s), ops[0])
  }

  lemma GetStepKeepsInv(s: System)
    requires SystemInv(s) && Allowed(s, GetBuf)
    ensures SystemInv(GetStep(s)) && Amounts(s, GetOps(s), GetStep(s))
  {
    hide Lists, Mirrors, Named, IsChain, GetSpec;
    if !s.g.positioned {
      if NextUsed(s.v).Some? { AnyGetKeepsInv(s); }
    } else {
      GetIsExact(s);
      if s.g.lens != [] {
        GetKeepsInv(s);
        PositionedGet(s);
      }
    }
  }

  /** With an honest device the buffer named is the one returned first. */
  lemma PositionedGet(s: System)
    requires SystemInv(s) && s.g.positioned && s.g.lens != []
    ensures NextUsed(s.v).Some? && UsedNames(s.v) && CanGet(s) && NamedBuf(s) == s.g.queue[0]
  {
    GetIsExact(s);
    var b := s.g.queue[0];
    assert Holds(Nexts(s.v.desc), s.g.owner, s.g.pool[IndexOf(s.g.pool, b)]);
    assert s.g.owner[b.slots[0]] == Some(b);
  }

  lemma DetachStepKeepsInv(s: System)
    requires SystemInv(s)
    ensures SystemInv(DetachStep(s)) && Amounts(s, DetachOps(s), DetachStep(s))
  {
    var b := LowestBuf(s);
    if b.Some? {
      ChainOf(s, b.value);
      DetachKeepsInv(s, b.value);
    }
  }

  lemma FetchKeepsInv(s: System)
    requires SystemInv(s) && s.g.positioned && s.seen != s.v.availIdx
    ensures SystemInv(AfterFetch(s)) && Abs(AfterFetch(s)) == Abs(s)
  {
    AvailIndexTest(s);
    FetchKeepsStep(s);
  }

  /** Only fields that the ring positions and the pool do not depend on differ. */
  ghost predicate NoticeOnly(s: System, s': System) {
    && s'.seen == s.seen && s'.g == s.g.(kickedAt := s'.g.kickedAt) && s'.tables == s.tables
    && s'.v == s.v.(numAdded := s'.v.numAdded, noInterrupt := s'.v.noInterrupt,
         availNoInterrupt := s'.v.availNoInterrupt, usedEvent := s'.v.usedEvent,
         availEvent := s'.v.availEvent, usedNoNotify := s'.v.usedNoNotify)
    && (s.g.positioned ==> s'.v.numAdded == s.g.read + |s.g.queue| - s'.g.kickedAt)
  }

  lemma SamePool(s: System, s': System)
    requires PoolOk(s) && NoticeOnly(s, s')
    ensures PoolOk(s') && Abs(s') == Abs(s)
  {
  }

  lemma SamePositions(s: System, s': System)
    requires InStep(s) && s.g.positioned && NoticeOnly(s, s')
    ensures InStep(s')
  {
  }

  lemma OtherFieldsAreFree(s: System, s': System)
    requires SystemInv(s) && NoticeOnly(s, s')
    ensures SystemInv(s') && Abs(s') == Abs(s)
  {
    SamePool(s, s');
    if s.g.positioned { SamePositions(s, s'); }
  }

  lemma NoticeIsNoticeOnly(s: System, e: Event)
    requires s.g.positioned ==> Positions(s)
    ensures NoticeOnly(s, AfterNotice(s, e))
  {
  }

  lemma NoticeKeepsInv(s: System, e: Event)
    requires SystemInv(s)
    ensures SystemInv(AfterNotice(s, e)) && Abs(AfterNotice(s, e)) == Abs(s)
  {
    NoticeIsNoticeOnly(s, e);
    OtherFieldsAreFree(s, AfterNotice(s, e));
  }

  /** The device's used entries are not part of the pool. */
  lemma UsedRingIsApart(s: System, s': System)
    requires PoolOk(s) && s'.v == s.v.(usedRing := s'.v.usedRing, usedIdx := s'.v.usedIdx)
    requires |s'.v.usedRing| == |s.v.usedRing| && s'.v.usedIdx < U16
    requires s'.g.free == s.g.free && s'.g.owner == s.g.owner && s'.g.pool == s.g.pool
    ensures PoolOk(s') && Abs(s') == Abs(s)
  {
  }

  lemma CompleteKeepsInv(s: System, i: nat, len: nat)
    requires SystemInv(s) && s.g.positioned && CanComplete(s, i)
    ensures SystemInv(AfterComplete(s, i, len)) && Abs(AfterComplete(s, i, len)) == Abs(s)
  {
    CompleteKeepsStep(s, i, len);
    UsedRingIsApart(s, AfterComplete(s, i, len));
  }

  /** Every step keeps the invariant and is the step of the abstract queue that it amounts to. */
  lemma StepKeepsInv(s: System, e: Event)
    requires SystemInv(s) && Allowed(s, e)
    ensures SystemInv(Next(s, e))
    ensures Possible(Abs(s), OpsOf(s, e)) && Abs(Next(s, e)) == Run(Abs(s), OpsOf(s, e))
  {
    if e.Submission? { SubmissionKeepsInv(s, e); }
    else if e.GetBuf? { GetStepKeepsInv(s); }
    else if e.DetachUnused? { DetachStepKeepsInv(s); }
    else if e.DeviceFetch? { FetchKeepsInv(s); }
    else if e.DeviceComplete? { CompleteKeepsInv(s, e.i, e.len); }
    else if e.DeviceStores? { UsedRingIsApart(s, Next(s, e)); }
    else { NoticeKeepsInv(s, e); }
    if OpsOf(s, e) != [] { RunOne(Abs(s), OpsOf(s, e)[0]); }
  }

  /** Every event of the run is allowed where it happens. */
  ghost predicate Runs(s: System, es: seq<Event>)
    requires SystemInv(s)
    decreases |es|
  {
    es == [] || (Allowed(s, es[0]) && (StepKeepsInv(s, es[0]); Runs(Next(s, es[0]), es[1..])))
  }

  ghost function Final(s: System, es: seq<Event>): System
    requires SystemInv(s) && Runs(s, es)
    decreases |es|
  {
    if es == [] then s
    else
      StepKeepsInv(s, es[0]);
      Final(Next(s, es[0]), es[1..])
  }

  ghost function History(s: System, es: seq<Event>): seq<Op>
    requires SystemInv(s) && Runs(s, es)
    decreases |es|
  {
    if es == [] then []
    else
      StepKeepsInv(s, es[0]);
      OpsOf(s, es[0]) + History(Next(s, es[0]), es[1..])
  }

  /** Over every run of client, driver and device the invariant holds, and the driver is the same
      abstract queue as the packed one. */
  lemma {:induction false} RunRefinesQueue(s: System, es: seq<Event>)
    requires SystemInv(s) && Runs(s, es)
    ensures SystemInv(Final(s, es))
    ensures Possible(Abs(s), History(s, es)) && Abs(Final(s, es)) == Run(Abs(s), History(s, es))
    decreases |es|
  {
    if es != [] {
      var s', ops := Next(s, es[0]), OpsOf(s, es[0]);
      StepKeepsInv(s, es[0]);
      RunRefinesQueue(s', es[1..]);
      RunConcat(Abs(s), ops, History(s', es[1..]));
    }
  }

  // ----- the start

  ghost function Initial(n: nat, eventSuppression: bool): System
    requires 0 < n <= 0x8000
  {
    var v := InitSpec(n, eventSuppression);
    System(v, 0, Ghosts(seq(n, i requires 0 <= i < n => i), seq(n, _ => None), [], true,
                        [], [], 0, v.availRing, v.usedRing, 0, 0),
           map[])
  }

  lemma StartIsInv(n: nat, eventSuppression: bool)
    requires 0 < n <= 0x8000 && Slot(U16, n) == 0
    ensures SystemInv(Initial(n, eventSuppression)) && Initial(n, eventSuppression).g.positioned
    ensures Abs(Initial(n, eventSuppression)) == Queue(n, multiset{})
  {
    var s := Initial(n, eventSuppression);
    forall p | 0 <= p < n ensures Slot(p, n) == p {}
    Residue(0, 0, 0);
    assert Entries([]) == [];
    forall i | 0 <= i < n ensures s.g.free[i] == i && i in s.g.free { assert s.g.free[i] == i; }
  }

  ghost function Start(n: nat, eventSuppression: bool): (s: System)
    requires 0 < n <= 0x8000 && Slot(U16, n) == 0
    ensures SystemInv(s) && s.g.positioned && s == Initial(n, eventSuppression)
  {
    StartIsInv(n, eventSuppression);
    Initial(n, eventSuppression)
  }

  lemma NothingLostOrDuplicated(n: nat, eventSuppression: bool, es: seq<Event>, entry: Entry)
    requires 0 < n <= 0x8000 && Slot(U16, n) == 0 && Runs(Start(n, eventSuppression), es)
    ensures var s := Start(n, eventSuppression);
      var ops := History(s, es);
      && multiset(Returned(ops))[entry] <= multiset(Accepted(Queue(n, multiset{}), ops))[entry]
      && Abs(Final(s, es)).inFlight[entry]
         == multiset(Accepted(Queue(n, multiset{}), ops))[entry] - multiset(Returned(ops))[entry]
  {
    StartIsInv(n, eventSuppression);
    RunRefinesQueue(Start(n, eventSuppression), es);
    ReturnedAtMostOnce(n, History(Start(n, eventSuppression), es), entry);
  }

  /** (u16)(avail idx - last_used) is the number of buffers in flight, in every reachable state: across
      detach_unused_buf and the 16-bit wrap too. */
  lemma IndexDifferenceCountsHeads(s: System)
    requires SystemInv(s)
    ensures Mod16(s.v.masterIdx - s.v.lastUsed) == |s.g.pool| <= |s.v.desc| - s.v.numUnused
  {
    FitsRing(s);
    var k := |s.g.pool|;
    SameResidue(s.v.masterIdx - s.v.lastUsed, k, -((s.v.lastUsed + k) / 0x1_0000));
    Residue(k, 0, k);
  }

  /** detach_unused_buf finds nothing only when every descriptor is free. */
  lemma NothingLeftMeansAllFree(s: System)
    requires PoolOk(s) && LowestBuf(s).None?
    ensures s.v.numUnused == |s.v.desc| && s.g.pool == []
  {
    assert |s.g.pool| > 0 ==> Recorded(s.v.desc, s.v.opaques, s.g.pool[0]);
  }

  /** kick_prepare decides as the device asks: with event suppression it kicks exactly when a buffer added since the
      last kick has the index that the device asked for, modulo 2^16 - however many were added; without, exactly
      if the device has not declined notifications. */
  lemma KickIsExact(s: System)
    requires SystemInv(s) && s.g.positioned && s.v.availEvent < U16
    ensures KickSpec(s.v).1
       <==> if s.v.eventSuppression
            then exists k :: s.g.kickedAt <= k < s.g.read + |s.g.queue| && Mod16(k) == s.v.availEvent
            else !s.v.usedNoNotify
  {
    if s.v.eventSuppression {
      SplitKickIsExact(s.v.availEvent, s.g.read + |s.g.queue|, s.v.numAdded);
    }
  }

  /** What a device may read of the buffers in flight: their descriptors, and the avail entries of those
      it has not fetched. */
  ghost predicate SeesTheSame(s: System, m: Shared) {
    && m.idx == s.v.availIdx && |m.desc| == |s.v.desc| == |s.g.owner|
    && (forall x :: 0 <= x < |m.desc| && s.g.owner[x].Some? ==> m.desc[x] == s.v.desc[x])
    && UnreadEntriesKept(s, m.ring)
  }

  ghost predicate UnreadEntriesKept(s: System, ring: seq<nat>) {
    var n := |s.v.desc|;
    && 0 < n == |ring| == |s.v.availRing|
    && forall p {:trigger s.g.availLog[p]} :: n + s.g.read <= p < |s.g.availLog| ==>
         ring[Slot(p, n)] == s.v.availRing[Slot(p, n)]
  }

  lemma FreeSlotsAreUnowned(s: System, b: Buf)
    requires PoolOk(s) && CanAdd(s, b)
    ensures forall x :: x in b.slots ==> x < |s.g.owner| && s.g.owner[x] == None
  {
    FrontOfFree(s, b);
    assert forall i :: 0 <= i < |b.slots| ==> b.slots[i] == s.g.free[i];
  }

  lemma NewEntryIsUnread(s: System, ring: seq<nat>)
    requires InRange(s.v) && Positions(s) && |s.g.queue| < |s.v.desc| == |ring|
    requires forall x :: 0 <= x < |ring| && x != Slot(s.v.masterIdx, |ring|) ==> ring[x] == s.v.availRing[x]
    ensures UnreadEntriesKept(s, ring)
  {
    var n, a := |s.v.desc|, |s.g.availLog|;
    IndexSlot(s.g.read + |s.g.queue|, n);
    assert Slot(a, n) == Slot(s.g.read + |s.g.queue|, n) == Slot(s.v.masterIdx, n);
    forall p | n + s.g.read <= p < a ensures ring[Slot(p, n)] == s.v.availRing[Slot(p, n)] {
      SlotsDiffer(p, a, n);
    }
  }

  lemma QueueFits(s: System)
    requires SystemInv(s) && s.g.positioned && s.v.numUnused > 0
    ensures |s.g.queue| < |s.v.desc|
  {
    FitsRing(s);
    assert |s.g.queue| == |multiset(s.g.queue)| == |multiset(s.g.pool)| == |s.g.pool|;
  }

  /** Atomic publication: at every store of add_buf before its last, a device that looks sees the avail
      index, every chain in flight and every unfetched avail entry as they were. */
  lemma NothingVisibleBeforeTheLastStore(s: System, b: Buf, m: Shared)
    requires SystemInv(s) && s.g.positioned && CanAdd(s, b)
    requires Unpublished(m, Shared(s.v.desc, s.v.availRing, s.v.availIdx), b.slots, Slot(s.v.masterIdx, |s.v.desc|))
    ensures SeesTheSame(s, m)
  {
    FreeSlotsAreUnowned(s, b);
    QueueFits(s);
    NewEntryIsUnread(s, m.ring);
  }
}
