/** The packed virtqueue and an honest device running against each other: what every step keeps, what
    every run shows. */
module PackedSystem {
  import opened Queues
  import opened Rings
  import opened DescriptorPool
  import opened PackedProtocol
  import opened PackedSpec
  import opened EventIndex

  /** The driver's records of buffer b. */
  ghost predicate Recorded(st: seq<State>, b: Buf) {
    && b.slots != [] && b.slots[0] < |st|
    && st[b.slots[0]].data == Some(b.token)
    && st[b.slots[0]].num == |b.slots|
    && st[b.slots[0]].last == b.slots[|b.slots| - 1]
  }

  lemma WrittenIsParts(b: Buf, p: nat, n: nat)
    requires Shaped(b) && 0 < n && |b.slots| <= n
    ensures Written(b, Slot(p, n), Lap(p, n), n) == Parts(b, p, n)
  {
    forall i | 0 <= i < |b.slots| ensures Written(b, Slot(p, n), Lap(p, n), n)[i] == Parts(b, p, n)[i] {
      Advance(p, i, n);
    }
  }

  /** Every queued buffer is recorded, and data is non-NULL only at the head of one. */
  ghost predicate Records(st: seq<State>, owner: seq<Option<Buf>>, pool: seq<Buf>) {
    && |owner| == |st|
    && (forall i :: 0 <= i < |pool| ==> Recorded(st, pool[i]))
    && (forall s :: 0 <= s < |st| && st[s].data.Some? ==>
          owner[s].Some? && owner[s].value.slots != [] && owner[s].value.slots[0] == s)
    && (forall s :: 0 <= s < |st| ==> st[s].next < |st|)
  }

  ghost predicate PoolInv(st: seq<State>, free: seq<nat>, owner: seq<Option<Buf>>, pool: seq<Buf>) {
    Partition(Nexts(st), free, owner, pool) && Records(st, owner, pool)
  }

  lemma AddRecord(st: seq<State>, owner: seq<Option<Buf>>, pool: seq<Buf>, b: Buf)
    requires Records(st, owner, pool) && b.slots != []
    requires forall i :: 0 <= i < |b.slots| ==> b.slots[i] < |st| && owner[b.slots[i]] == None
    requires forall i :: 0 <= i < |pool| && pool[i].slots != [] && pool[i].slots[0] < |st| ==>
      owner[pool[i].slots[0]].Some?
    ensures Records(WithRecord(st, b), Mark(owner, b.slots, Some(b)), pool + [b])
  {
    var st' := WithRecord(st, b);
    forall i | 0 <= i < |pool| ensures Recorded(st', pool[i]) {
      assert Recorded(st, pool[i]);
    }
    assert Recorded(st', b);
  }

  lemma AddToPool(st: seq<State>, free: seq<nat>, owner: seq<Option<Buf>>, pool: seq<Buf>, b: Buf)
    requires PoolInv(st, free, owner, pool)
    requires 1 <= |b.slots| <= |free| && b.slots == free[..|b.slots|]
    ensures b.slots[0] < |st|
    ensures PoolInv(WithRecord(st, b), free[|b.slots|..], Mark(owner, b.slots, Some(b)), pool + [b])
  {
    assert forall i :: 0 <= i < |b.slots| ==> b.slots[i] == free[i];
    assert Nexts(WithRecord(st, b)) == Nexts(st);
    Take(Nexts(st), free, owner, pool, b);
    forall i | 0 <= i < |pool| ensures owner[pool[i].slots[0]].Some? {
      assert Holds(Nexts(st), owner, pool[i]);
    }
    AddRecord(st, owner, pool, b);
  }

  lemma RemoveFromPool(st: seq<State>, free: seq<nat>, owner: seq<Option<Buf>>, pool: seq<Buf>, j: nat, freeHead: nat)
    requires PoolInv(st, free, owner, pool) && j < |pool|
    requires freeHead < |st| && (free != [] ==> freeHead == free[0])
    ensures Recorded(st, pool[j]) && st[pool[j].slots[0]].last < |st|
    ensures PoolInv(Detached(st, pool[j].slots[0], freeHead), pool[j].slots + free,
                    Mark(owner, pool[j].slots, None), Without(pool, j))
  {
    var b := pool[j];
    assert Recorded(st, b) && Holds(Nexts(st), owner, b);
    var st' := Detached(st, b.slots[0], freeHead);
    Put(Nexts(st), free, owner, pool, j, Nexts(st'));
    RemoveRecord(st, owner, pool, j, st', Nexts(st));
  }

  lemma RemoveRecord(st: seq<State>, owner: seq<Option<Buf>>, pool: seq<Buf>, j: nat, st': seq<State>, next: seq<nat>)
    requires Records(st, owner, pool) && j < |pool| && |next| == |st| && |st'| == |st|
    requires Chains(next, owner, pool)
    requires forall s :: 0 <= s < |st| ==> st'[s].num == st[s].num && st'[s].last == st[s].last && st'[s].next < |st|
    requires forall s :: 0 <= s < |st| && s != pool[j].slots[0] ==> st'[s].data == st[s].data
    requires pool[j].slots != [] && pool[j].slots[0] < |st| && st'[pool[j].slots[0]].data == None
    ensures Records(st', Mark(owner, pool[j].slots, None), Without(pool, j))
  {
    var b, pool', owner' := pool[j], Without(pool, j), Mark(owner, pool[j].slots, None);
    forall i | 0 <= i < |pool'| ensures Recorded(st', pool'[i]) {
      var c := pool[if i < j then i else i + 1];
      assert c == pool'[i] && Recorded(st, c) && Holds(next, owner, c) && Holds(next, owner, b);
    }
    assert Holds(next, owner, b);
    forall s | 0 <= s < |st'| && st'[s].data.Some?
      ensures owner'[s].Some? && owner'[s].value.slots != [] && owner'[s].value.slots[0] == s
    {
      assert s !in b.slots;
    }
  }

  lemma {:induction false} HopsAreFree(st: seq<State>, free: seq<nat>, k: nat)
    requires Linked(Nexts(st), free) && k < |free| && forall s :: 0 <= s < |st| ==> st[s].next < |st|
    ensures Hop(st, free[0], k) == free[k]
  {
    if k > 0 {
      HopsAreFree(st, free, k - 1);
      assert Nexts(st)[free[k - 1]] == free[k];
    }
  }

  /** The device's indices: what it fetches next and where it writes the next used element. */
  datatype Device = Device(fetchIdx: nat, fetchWrap: bool, usedIdx: nat, usedWrap: bool)

  /** What the proof knows beside the fields: the free list, the owner of each descriptor, the buffers
      in flight in the order of addition, and the ring in positions. */
  datatype Ghosts = Ghosts(
    free: seq<nat>, owner: seq<Option<Buf>>, pool: seq<Buf>, ring: Ring,
    positioned: bool,    // whether ring positions describe the queue: neither after detach_unused_buf nor
                         // with a device that stores what it likes
    kickedAt: nat,       // the position up to which the device has been notified
    fullChains: nat)     // how many direct chains of all descriptors of the ring were added

  /** Whether avail_wrap_counter carries the parity of the write position: every direct chain of the whole
      ring turns it. */
  ghost predicate InStepCounter(g: Ghosts) {
    g.fullChains % 2 == 0
  }

  /** tables: the pages of memory that hold indirect tables, by address. */
  datatype System = System(v: Packed, dev: Device, g: Ghosts, tables: map<nat, seq<Desc>>)

  ghost predicate PoolOk(s: System) {
    && InRange(s.v) && PoolInv(s.v.state, s.g.free, s.g.owner, s.g.pool)
    && |s.g.free| == s.v.numFree && (s.g.free != [] ==> s.v.freeHead == s.g.free[0])
  }

  /** The registers of driver and device encode the positions of the ring. */
  ghost predicate Encoded(s: System) {
    var v, r, n := s.v, s.g.ring, |s.v.desc|;
    && n > 0 && |r.mem| == n && Spans(r) && |r.lens| <= r.fetched <= |r.queue|
    && v.nextAvailIdx == Slot(|r.log|, n) && v.availFlag == Lap(|r.log|, n)
    && v.availWrapCounter == (Lap(|r.log|, n) == InStepCounter(s.g))
    && v.lastUsedIdx == Slot(r.starts[0], n) && v.usedWrapCounter == Lap(r.starts[0], n)
    && |r.log| - r.starts[0] + v.numFree == n && v.numAdded == |r.log| - s.g.kickedAt
    && s.dev.fetchIdx == Slot(r.starts[r.fetched], n) && s.dev.fetchWrap == Lap(r.starts[r.fetched], n)
    && s.dev.usedIdx == Slot(r.starts[|r.lens|], n) && s.dev.usedWrap == Lap(r.starts[|r.lens|], n)
  }

  ghost predicate InStep(s: System) {
    && Inv(s.g.ring) && s.g.ring.mem == s.v.desc && Encoded(s)
    && multiset(s.g.ring.queue) == multiset(s.g.pool)
  }

  /** The table of every buffer in flight that has one holds its scatter list. */
  ghost predicate TablesOk(tables: map<nat, seq<Desc>>, pool: seq<Buf>) {
    forall i :: 0 <= i < |pool| && pool[i].table.Some? ==>
      pool[i].table.value in tables && TableHolds(tables[pool[i].table.value], pool[i].sg, pool[i].out)
  }

  ghost predicate SystemInv(s: System) {
    PoolOk(s) && TablesOk(s.tables, s.g.pool) && (s.g.positioned ==> InStep(s))
  }

  ghost function Abs(s: System): Queue {
    Abstract(s.v.numFree, s.g.pool)
  }

  // ----- add_buf

  ghost predicate CanAdd(s: System, b: Buf) {
    && PoolOk(s) && Shaped(b) && |b.slots| <= s.v.numFree
    && b.slots == Hops(s.v.state, s.v.freeHead, |b.slots|)
  }

  ghost function AfterAdd(s: System, b: Buf): System
    requires CanAdd(s, b) && (s.g.positioned ==> |s.g.ring.mem| == |s.v.desc|)
  {
    var g := s.g;
    System(AddSpec(s.v, b), s.dev,
           g.(free := g.free[|b.slots|..], owner := Mark(g.owner, b.slots, Some(b)), pool := g.pool + [b],
              ring := if g.positioned then Added(g.ring, b) else g.ring,
              fullChains := g.fullChains + if b.table.None? && |b.sg| == |s.v.desc| then 1 else 0),
           s.tables)
  }

  lemma FrontOfFree(s: System, b: Buf)
    requires CanAdd(s, b)
    ensures b.slots == s.g.free[..|b.slots|]
    ensures |b.slots| < |s.g.free| ==> Hop(s.v.state, s.v.freeHead, |b.slots|) == s.g.free[|b.slots|]
  {
    forall i | 0 <= i < |b.slots| ensures b.slots[i] == s.g.free[i] {
      HopsAreFree(s.v.state, s.g.free, i);
    }
    if |b.slots| < |s.g.free| { HopsAreFree(s.v.state, s.g.free, |b.slots|); }
  }

  lemma AddKeepsRange(v: Packed, b: Buf)
    requires InRange(v) && Shaped(b) && |b.slots| <= v.numFree
    requires b.slots == Hops(v.state, v.freeHead, |b.slots|)
    ensures InRange(AddSpec(v, b))
  {
  }

  lemma AddKeepsPool(s: System, b: Buf)
    requires CanAdd(s, b) && (s.g.positioned ==> |s.g.ring.mem| == |s.v.desc|)
    ensures PoolOk(AfterAdd(s, b))
    ensures Abs(AfterAdd(s, b)) == Add(Abs(s), Entry(b.token, |b.slots|))
  {
    FrontOfFree(s, b);
    AddToPool(s.v.state, s.g.free, s.g.owner, s.g.pool, b);
    AbstractAdd(s.v.numFree, s.g.pool, b);
    AddKeepsRange(s.v, b);
  }

  lemma AddKeepsStep(s: System, b: Buf)
    requires CanAdd(s, b) && s.g.positioned && InStep(s)
    ensures InStep(AfterAdd(s, b))
  {
    hide PoolInv, LapBits, Readable, UsedReadable, Mirrors;
    var r := s.g.ring;
    Advance(|r.log|, |b.slots|, |r.mem|);
    WrittenIsParts(b, |r.log|, |r.mem|);
    AddKeepsInv(r, b);
  }

  /** The page of an indirect buffer is written while no buffer in flight uses it. */
  function WithPage(tables: map<nat, seq<Desc>>, b: Buf, page: seq<Desc>): map<nat, seq<Desc>> {
    if b.table.Some? then tables[b.table.value := page] else tables
  }

  /** The client lends a page of its own to one buffer at a time. */
  ghost predicate PageUnused(pool: seq<Buf>, table: Option<nat>) {
    table.Some? ==> forall i :: 0 <= i < |pool| ==> pool[i].table != table
  }

  lemma AddKeepsTables(tables: map<nat, seq<Desc>>, pool: seq<Buf>, b: Buf, page: seq<Desc>)
    requires TablesOk(tables, pool) && PageUnused(pool, b.table) && (b.table.Some? ==> TableHolds(page, b.sg, b.out))
    ensures TablesOk(WithPage(tables, b, page), pool + [b])
  {
  }

  lemma FewerBuffersKeepTables(tables: map<nat, seq<Desc>>, pool: seq<Buf>, j: nat)
    requires TablesOk(tables, pool) && j < |pool|
    ensures TablesOk(tables, Without(pool, j))
  {
    var rest := Without(pool, j);
    forall i | 0 <= i < |rest| && rest[i].table.Some?
      ensures rest[i].table.value in tables && TableHolds(tables[rest[i].table.value], rest[i].sg, rest[i].out)
    {
      assert rest[i] == pool[if i < j then i else i + 1];
    }
  }

  // ----- get_buf and detach_unused_buf

  ghost function Removed(g: Ghosts, b: Buf): Ghosts
    requires b in g.pool
  {
    g.(free := b.slots + g.free, owner := Mark(g.owner, b.slots, None), pool := Without(g.pool, IndexOf(g.pool, b)))
  }

  /** s' is s after buffer b went back to the free list. */
  ghost predicate GaveBack(s: System, b: Buf, s': System)
    requires b in s.g.pool
  {
    && InRange(s.v) && b.slots != [] && b.slots[0] < |s.v.desc|
    && s'.v.state == Detached(s.v.state, b.slots[0], s.v.freeHead) && s'.v.freeHead == b.slots[0]
    && s'.v.numFree == s.v.numFree + s.v.state[b.slots[0]].num
    && |s'.v.desc| == |s.v.desc| && s'.v.nextAvailIdx == s.v.nextAvailIdx && s'.v.lastUsedIdx < |s.v.desc|
    && s'.v.availFlag == s.v.availFlag && s'.v.usedFlag == s.v.usedFlag
    && s'.g.free == b.slots + s.g.free && s'.g.owner == Mark(s.g.owner, b.slots, None)
    && s'.g.pool == Without(s.g.pool, IndexOf(s.g.pool, b))
  }

  lemma DetachedStaysInRange(s: System, b: Buf, s': System)
    requires b in s.g.pool && GaveBack(s, b, s') && s'.v.numFree <= |s.v.desc|
    ensures InRange(s'.v)
  {
  }

  /** Detaching a buffer keeps the pool and gives that buffer back once. */
  lemma DetachKeepsPool(s: System, b: Buf, s': System)
    requires PoolOk(s) && b in s.g.pool && GaveBack(s, b, s')
    ensures PoolOk(s')
    ensures s.v.state[b.slots[0]].data == Some(b.token) && s.v.state[b.slots[0]].num == |b.slots|
    ensures Abs(s') == Remove(Abs(s), Entry(b.token, |b.slots|)) && Entry(b.token, |b.slots|) in Abs(s).inFlight
  {
    var j := IndexOf(s.g.pool, b);
    RemoveFromPool(s.v.state, s.g.free, s.g.owner, s.g.pool, j, s.v.freeHead);
    AbstractRemove(s.v.numFree, s.g.pool, j);
    DetachedStaysInRange(s, b, s');
  }

  /** A non-NULL token marks the head of a buffer in flight. */
  lemma HeadIsOwned(s: System, id: nat)
    requires PoolOk(s) && id < |s.v.desc| && s.v.state[id].data.Some?
    ensures s.g.owner[id].Some? && s.g.owner[id].value in s.g.pool
    ensures s.g.owner[id].value.slots != [] && s.g.owner[id].value.slots[0] == id
  {
  }

  /** detach_unused_buf finds nothing only when every descriptor is free: the driver's BUG_ON on
      num_free cannot fire. */
  lemma NothingLeftMeansAllFree(s: System)
    requires PoolOk(s) && forall i :: 0 <= i < |s.v.state| ==> s.v.state[i].data.None?
    ensures s.v.numFree == |s.v.desc| && s.g.pool == []
  {
    assert |s.g.pool| > 0 ==> Recorded(s.v.state, s.g.pool[0]);
  }

  ghost function AfterDetach(s: System, id: nat): System
    requires PoolOk(s) && id < |s.v.desc| && s.v.state[id].data.Some?
  {
    System(DetachSpec(s.v, id), s.dev, Removed(s.g, s.g.owner[id].value).(positioned := false), s.tables)
  }

  lemma DetachKeepsInv(s: System, id: nat)
    requires SystemInv(s) && id < |s.v.desc| && s.v.state[id].data.Some?
    ensures SystemInv(AfterDetach(s, id))
    ensures var b := s.g.owner[id].value;
      && Abs(AfterDetach(s, id)) == Remove(Abs(s), Entry(b.token, |b.slots|)) && s.v.state[id].data == Some(b.token)
      && Entry(b.token, |b.slots|) in Abs(s).inFlight
  {
    HeadIsOwned(s, id);
    DetachKeepsPool(s, s.g.owner[id].value, AfterDetach(s, id));
    FewerBuffersKeepTables(s.tables, s.g.pool, IndexOf(s.g.pool, s.g.owner[id].value));
  }

  /** get_buf answers exactly: nothing while the device has returned nothing unread, else the token and
      length of the buffer it returned first.  The bad-ring stops are never reached. */
  lemma GetIsExact(s: System)
    requires SystemInv(s) && s.g.positioned
    ensures s.g.ring.lens == [] ==> GetResult(s.v) == Nothing
    ensures s.g.ring.lens != [] ==>
      && s.g.ring.queue[0] in s.g.pool
      && GetResult(s.v) == Buffer(s.g.ring.queue[0].token, s.g.ring.lens[0])
      && s.v.desc[s.v.lastUsedIdx].id == s.g.ring.queue[0].slots[0]
  {
    UsedTestIsExact(s.g.ring);
    if s.g.ring.lens != [] {
      var b := s.g.ring.queue[0];
      assert b in multiset(s.g.ring.queue);
      assert b in s.g.pool;
      var j := IndexOf(s.g.pool, b);
      assert Recorded(s.v.state, s.g.pool[j]);
    }
  }

  ghost predicate CanGet(s: System) {
    && InRange(s.v) && Layout(s.g.ring) && s.g.ring.lens != [] && s.g.ring.queue[0] in s.g.pool
    && s.v.desc[s.v.lastUsedIdx].id < |s.v.desc|
  }

  ghost function AfterGet(s: System): System
    requires CanGet(s)
  {
    System(GetSpec(s.v), s.dev, Removed(s.g, s.g.ring.queue[0]).(ring := Taken(s.g.ring)), s.tables)
  }

  lemma GetKeepsInv(s: System)
    requires SystemInv(s) && s.g.positioned && s.g.ring.lens != []
    ensures CanGet(s) && SystemInv(AfterGet(s)) && GetResult(s.v).Buffer?
    ensures var b := s.g.ring.queue[0];
      && Abs(AfterGet(s)) == Remove(Abs(s), Entry(b.token, |b.slots|))
      && Entry(b.token, |b.slots|) in Abs(s).inFlight
  {
    GetIsExact(s);
    GetKeepsPool(s);
    GetKeepsStep(s);
    FewerBuffersKeepTables(s.tables, s.g.pool, IndexOf(s.g.pool, s.g.ring.queue[0]));
  }

  lemma GetKeepsPool(s: System)
    requires PoolOk(s) && CanGet(s) && s.v.desc[s.v.lastUsedIdx].id == s.g.ring.queue[0].slots[0]
    ensures PoolOk(AfterGet(s)) && s.v.state[s.g.ring.queue[0].slots[0]].num == |s.g.ring.queue[0].slots|
    ensures var b := s.g.ring.queue[0];
      && Abs(AfterGet(s)) == Remove(Abs(s), Entry(b.token, |b.slots|))
      && Entry(b.token, |b.slots|) in Abs(s).inFlight
  {
    DetachKeepsPool(s, s.g.ring.queue[0], AfterGet(s));
  }

  lemma GetKeepsStep(s: System)
    requires CanGet(s) && InStep(s)
    requires s.v.desc[s.v.lastUsedIdx].id == s.g.ring.queue[0].slots[0]
    requires s.v.state[s.g.ring.queue[0].slots[0]].num == |s.g.ring.queue[0].slots|
    ensures InStep(AfterGet(s))
  {
    TakeKeepsInv(s.g.ring);
    GetKeepsEncoding(s);
    RemoveFromBoth(s.g.ring.queue, s.g.pool, IndexOf(s.g.pool, s.g.ring.queue[0]));
  }

  lemma GetKeepsEncoding(s: System)
    requires CanGet(s) && Encoded(s)
    requires s.v.desc[s.v.lastUsedIdx].id == s.g.ring.queue[0].slots[0]
    requires s.v.state[s.g.ring.queue[0].slots[0]].num == |s.g.ring.queue[0].slots|
    ensures Encoded(AfterGet(s))
  {
    hide PoolInv, LapBits, Readable, UsedReadable, Mirrors;
    NextRead(s.g.ring);
  }

  lemma NextRead(r: Ring)
    requires Layout(r) && r.lens != []
    ensures var r', n, k := Taken(r), |r.mem|, |r.queue[0].slots|;
      && Spans(r') && |r'.lens| <= r'.fetched <= |r'.queue| && k <= n
      && r'.starts[0] == r.starts[0] + k && r'.log == r.log && r'.mem == r.mem
      && r'.starts[r'.fetched] == r.starts[r.fetched] && r'.starts[|r'.lens|] == r.starts[|r.lens|]
      && Slot(r'.starts[0], n) == Forward(Slot(r.starts[0], n), k, n)
      && Lap(r'.starts[0], n) == (Lap(r.starts[0], n) != (Slot(r.starts[0], n) + k >= n))
  {
    assert Shaped(r.queue[0]);
    Advance(r.starts[0], |r.queue[0].slots|, |r.mem|);
  }

  // ----- the device

  /** The device reads descriptors from slot i on as long as NEXT is set, around the ring. */
  function Walk(mem: seq<Desc>, i: nat, fuel: nat): seq<Desc>
    requires i < |mem|
    decreases fuel
  {
    if fuel == 0 || !mem[i].flags.next then [mem[i]]
    else [mem[i]] + Walk(mem, Forward(i, 1, |mem|), fuel - 1)
  }

  lemma {:induction false} WalkReads(mem: seq<Desc>, log: seq<Desc>, p: nat, ds: seq<Desc>, fuel: nat)
    requires Mirrors(mem, log) && ds != [] && |log| - |mem| <= p && p + |ds| <= |log| && log[p..p + |ds|] == ds
    requires forall i :: 0 <= i < |ds| ==> (ds[i].flags.next <==> i + 1 < |ds|)
    requires fuel >= |ds|
    ensures Walk(mem, Slot(p, |mem|), fuel) == ds
    decreases fuel
  {
    assert log[p] == log[p..p + |ds|][0] == ds[0];
    if |ds| > 1 {
      Advance(p, 1, |mem|);
      assert log[p + 1..p + |ds|] == ds[1..];
      WalkReads(mem, log, p + 1, ds[1..], fuel - 1);
    }
  }

  /** The scatter list and the writable flags that a chain of ring descriptors or the entries of an
      indirect table stand for. */
  ghost predicate Describes(ds: seq<Desc>, b: Buf) {
    if b.table.Some?
    then |ds| == 1 && ds[0].flags.indirect && ds[0].addr == b.table.value && ds[0].len == |b.sg| * DESC_SIZE
    else |ds| == |b.sg| && forall i :: 0 <= i < |ds| ==>
      && ds[i].addr == b.sg[i].addr && ds[i].len == b.sg[i].len && !ds[i].flags.indirect
      && (ds[i].flags.write <==> i >= b.out) && (ds[i].flags.next <==> i + 1 < |ds|)
  }

  lemma PartsDescribe(b: Buf, p: nat, n: nat)
    requires Shaped(b) && n > 0
    ensures var ds := Parts(b, p, n);
      && Describes(ds, b) && ds[0].id == b.slots[0]
      && forall i :: 0 <= i < |ds| ==> (ds[i].flags.next <==> i + 1 < |ds|)
  {
    var ds := Parts(b, p, n);
    assert forall i :: 0 <= i < |ds| ==> ds[i] == Part(b, i, Lap(p + i, n));
  }

  /** The device sees a buffer available exactly when one is, and walking the ring from there - across its
      end if need be - yields the descriptors of that buffer, under the id that get_buf will look up. */
  lemma FetchWalksTheChain(s: System)
    requires InStep(s)
    ensures IsAvailable(s.v.desc[s.dev.fetchIdx], s.dev.fetchWrap) <==> s.g.ring.fetched < |s.g.ring.queue|
    ensures s.g.ring.fetched < |s.g.ring.queue| ==>
      var b, ds := s.g.ring.queue[s.g.ring.fetched], Walk(s.v.desc, s.dev.fetchIdx, |s.v.desc|);
      Describes(ds, b) && |ds| == |b.slots| && ds[0].id == b.slots[0]
  {
    var r := s.g.ring;
    AvailableTestIsExact(r);
    if r.fetched < |r.queue| {
      var b, p := r.queue[r.fetched], r.starts[r.fetched];
      var ds := Parts(b, p, |r.mem|);
      PartsDescribe(b, p, |r.mem|);
      WalkReads(r.mem, r.log, p, ds, |r.mem|);
    }
  }

  function Elements(ds: seq<Desc>): seq<Element> {
    seq(|ds|, i requires 0 <= i < |ds| => Element(ds[i].addr, ds[i].len, ds[i].flags.write))
  }

  /** The scatter list that the device takes from the descriptors of a buffer: their own, or - if the one
      descriptor names an indirect table - as many entries of the table as its length says. */
  function ReadList(tables: map<nat, seq<Desc>>, ds: seq<Desc>): seq<Element> {
    if |ds| == 1 && ds[0].flags.indirect && ds[0].addr in tables && ds[0].len / DESC_SIZE <= |tables[ds[0].addr]|
    then Elements(tables[ds[0].addr][..ds[0].len / DESC_SIZE])
    else Elements(ds)
  }

  lemma DescribedListIsRead(tables: map<nat, seq<Desc>>, ds: seq<Desc>, b: Buf)
    requires Describes(ds, b)
    requires b.table.Some? ==> b.table.value in tables && TableHolds(tables[b.table.value], b.sg, b.out)
    ensures ReadList(tables, ds) == ListOf(b)
  {
  }

  /** Round trip: what the device reads of the buffer that it finds available, through the indirect table if
      there is one, is exactly the scatter list the client added. */
  lemma FetchReadsTheBuffer(s: System)
    requires SystemInv(s) && s.g.positioned
    ensures IsAvailable(s.v.desc[s.dev.fetchIdx], s.dev.fetchWrap) <==> s.g.ring.fetched < |s.g.ring.queue|
    ensures s.g.ring.fetched < |s.g.ring.queue| ==>
      var b, ds := s.g.ring.queue[s.g.ring.fetched], Walk(s.v.desc, s.dev.fetchIdx, |s.v.desc|);
      && b in s.g.pool && Describes(ds, b) && |ds| == |b.slots| && ds[0].id == b.slots[0]
      && ReadList(s.tables, ds) == ListOf(b)
  {
    FetchWalksTheChain(s);
    if s.g.ring.fetched < |s.g.ring.queue| {
      var b := s.g.ring.queue[s.g.ring.fetched];
      assert b in multiset(s.g.ring.queue);
      assert b in s.g.pool;
      var i := IndexOf(s.g.pool, b);
      DescribedListIsRead(s.tables, Walk(s.v.desc, s.dev.fetchIdx, |s.v.desc|), s.g.pool[i]);
    }
  }

  ghost predicate CanFetch(s: System) {
    InStep(s) && IsAvailable(s.v.desc[s.dev.fetchIdx], s.dev.fetchWrap)
  }

  /** The device takes the next available buffer: it moves over the descriptors it walked. */
  ghost function AfterFetch(s: System): System
    requires CanFetch(s)
  {
    var n, k := |s.v.desc|, |Walk(s.v.desc, s.dev.fetchIdx, |s.v.desc|)|;
    var i := if k <= n then Forward(s.dev.fetchIdx, k, n) else 0;
    s.(dev := s.dev.(fetchIdx := i, fetchWrap := s.dev.fetchWrap != (s.dev.fetchIdx + k >= n)),
       g := s.g.(ring := s.g.ring.(fetched := s.g.ring.fetched + 1)))
  }

  lemma FetchKeepsStep(s: System)
    requires CanFetch(s)
    ensures InStep(AfterFetch(s))
  {
    hide PoolInv, LapBits, Readable, UsedReadable, Mirrors;
    FetchWalksTheChain(s);
    var r := s.g.ring;
    FetchKeepsInv(r);
    assert Shaped(r.queue[r.fetched]);
    Advance(r.starts[r.fetched], |r.queue[r.fetched].slots|, |r.mem|);
  }

  ghost predicate CanComplete(s: System, i: nat) {
    InStep(s) && |s.g.ring.lens| <= i < s.g.ring.fetched
  }

  /** The device returns any buffer it holds, in any order: it writes a used descriptor with the id and
      the length at its used index and moves over as many descriptors as the buffer took. */
  ghost function AfterComplete(s: System, i: nat, len: nat, write: bool): System
    requires CanComplete(s, i)
  {
    var n, b, u := |s.v.desc|, s.g.ring.queue[i], s.dev.usedIdx;
    var d := Desc(s.v.desc[u].addr, len, b.slots[0], Flags(false, write, false, s.dev.usedWrap, s.dev.usedWrap));
    s.(v := s.v.(desc := s.v.desc[u := d]),
       dev := s.dev.(usedIdx := Forward(u, |b.slots|, n), usedWrap := s.dev.usedWrap != (u + |b.slots| >= n)),
       g := s.g.(ring := Completed(s.g.ring, i, len, write)))
  }

  lemma CompleteKeepsEncoding(s: System, i: nat, len: nat, write: bool)
    requires CanComplete(s, i)
    ensures Encoded(AfterComplete(s, i, len, write))
  {
    hide PoolInv, LapBits, Readable, UsedReadable, Mirrors;
    var r := s.g.ring;
    CompleteSpans(r, i, len, write);
    assert Shaped(r.queue[i]);
    Advance(r.starts[|r.lens|], |r.queue[i].slots|, |r.mem|);
  }

  lemma CompleteKeepsStep(s: System, i: nat, len: nat, write: bool)
    requires CanComplete(s, i)
    ensures InStep(AfterComplete(s, i, len, write))
  {
    var r := s.g.ring;
    CompleteKeepsInv(r, i, len, write);
    CompleteKeepsEncoding(s, i, len, write);
    MovePermutes(r.queue, i, |r.lens|);
    assert r.log[r.starts[|r.lens|]] == r.mem[s.dev.usedIdx];
  }

  // ----- runs

  /** What the client, the driver's interrupt code and the device can do, in any order.  page is what the
      driver writes at the table's address, if it uses the table. */
  datatype Event =
    | Submission(sg: seq<Sg>, out: nat, token: Token, table: Option<nat>, page: seq<Desc>)
    | GetBuf
    | DetachUnused
    | KickPrepare
    | EnableCb
    | DisableCb
    | DeviceFetch
    | DeviceComplete(i: nat, len: nat, write: bool)
    | DeviceAsks(offWrap: nat, flags: nat)
    | DeviceStores(mem: seq<Desc>)

  /** The driver's callers and an honest device do nothing else; any other device may store what it likes
      in the ring at any time. */
  ghost predicate Allowed(s: System, e: Event) {
    match e
    case Submission(sg, out, _, table, page) =>
      sg != [] && out <= |sg| && PageUnused(s.g.pool, table) && (table.Some? ==> TableHolds(page, sg, out))
    case DeviceStores(mem) => |mem| == |s.v.desc|
    case DeviceFetch => s.g.positioned && CanFetch(s)
    case DeviceComplete(i, _, _) => s.g.positioned && CanComplete(s, i)
    case _ => true
  }

  /** The lowest descriptor with a token, or the number of descriptors. */
  function LowestHead(st: seq<State>): (i: nat)
    ensures i <= |st| && (i < |st| ==> st[i].data.Some?)
    ensures forall j :: 0 <= j < i ==> st[j].data.None?
  {
    if st == [] || st[0].data.Some? then 0 else 1 + LowestHead(st[1..])
  }

  /** The steps that only concern notifications. */
  ghost function AfterNotice(s: System, e: Event): System
    requires InRange(s.v)
  {
    if e.KickPrepare? then
      s.(v := KickSpec(s.v).0, g := s.g.(kickedAt := if s.g.positioned then |s.g.ring.log| else s.g.kickedAt))
    else if e.EnableCb? then s.(v := EnableSpec(s.v))
    else if e.DisableCb? then s.(v := DisableSpec(s.v))
    else if e.DeviceAsks? then s.(v := s.v.(deviceOffWrap := e.offWrap, deviceFlags := e.flags))
    else s
  }

  /** The buffer that get_buf takes: the one whose head has the id in the ring. */
  ghost function NamedBuf(s: System): (b: Buf)
    requires PoolOk(s) && GetResult(s.v).Buffer?
    ensures b in s.g.pool && b.slots != [] && b.slots[0] == s.v.desc[s.v.lastUsedIdx].id
  {
    HeadIsOwned(s, s.v.desc[s.v.lastUsedIdx].id);
    s.g.owner[s.v.desc[s.v.lastUsedIdx].id].value
  }

  /** get_buf when positions do not describe the ring. */
  ghost function AfterAnyGet(s: System): System
    requires PoolOk(s) && GetResult(s.v).Buffer?
  {
    System(GetSpec(s.v), s.dev, Removed(s.g, NamedBuf(s)), s.tables)
  }

  /** One call of get_buf, and what it returned; where it stops the machine nothing follows. */
  ghost function GetStep(s: System): System
    requires PoolOk(s)
  {
    if !GetResult(s.v).Buffer? then s else if s.g.positioned && CanGet(s) then AfterGet(s) else AfterAnyGet(s)
  }

  ghost function GetOps(s: System): seq<Op>
    requires PoolOk(s)
  {
    if GetResult(s.v).Buffer? then [Return(Entry(NamedBuf(s).token, |NamedBuf(s).slots|))] else []
  }

  /** Whatever the ring holds, get_buf gives back one buffer in flight, with its own token, or none: the
      pool is kept against any device and after any detach_unused_buf, up to the bad-ring stops. */
  lemma AnyGetKeepsInv(s: System)
    requires PoolOk(s) && TablesOk(s.tables, s.g.pool) && GetResult(s.v).Buffer?
    ensures var b, s' := NamedBuf(s), AfterAnyGet(s);
      && PoolOk(s') && TablesOk(s'.tables, s'.g.pool) && GetResult(s.v).token == b.token
      && Abs(s') == Remove(Abs(s), Entry(b.token, |b.slots|)) && Entry(b.token, |b.slots|) in Abs(s).inFlight
  {
    var b := NamedBuf(s);
    DetachKeepsPool(s, b, AfterAnyGet(s));
    FewerBuffersKeepTables(s.tables, s.g.pool, IndexOf(s.g.pool, b));
  }

  /** The ring is not part of the pool. */
  ghost function AfterStores(s: System, mem: seq<Desc>): System {
    s.(v := s.v.(desc := mem), g := s.g.(positioned := false))
  }

  lemma StoresKeepInv(s: System, mem: seq<Desc>)
    requires SystemInv(s) && |mem| == |s.v.desc|
    ensures SystemInv(AfterStores(s, mem)) && Abs(AfterStores(s, mem)) == Abs(s)
  {
  }

  /** One call of detach_unused_buf, and what it returned. */
  ghost function DetachStep(s: System): System
    requires PoolOk(s)
  {
    var id := LowestHead(s.v.state);
    if id < |s.v.state| then AfterDetach(s, id) else s
  }

  ghost function DetachOps(s: System): seq<Op>
    requires PoolOk(s)
  {
    var id := LowestHead(s.v.state);
    if id < |s.v.state| && s.g.owner[id].Some?
    then [Return(Entry(s.g.owner[id].value.token, |s.g.owner[id].value.slots|))] else []
  }

  ghost function Next(s: System, e: Event): System
    requires SystemInv(s) && Allowed(s, e)
  {
    match e
    case Submission(sg, out, token, table, page) =>
      var b := BufOf(s.v, sg, out, token, table);
      if CostOf(|sg|, table.Some?, s.v.numFree) <= s.v.numFree
      then AfterAdd(s, b).(tables := WithPage(s.tables, b, page)) else s
    case GetBuf => GetStep(s)
    case DetachUnused => DetachStep(s)
    case DeviceFetch => AfterFetch(s)
    case DeviceComplete(i, len, write) => AfterComplete(s, i, len, write)
    case DeviceStores(mem) => AfterStores(s, mem)
    case _ => AfterNotice(s, e)
  }

  /** The client operation an event amounts to, if any. */
  ghost function OpsOf(s: System, e: Event): seq<Op>
    requires SystemInv(s) && Allowed(s, e)
  {
    match e
    case Submission(sg, out, token, table, _) => [Submit(token, |sg|, table.Some?)]
    case GetBuf => GetOps(s)
    case DetachUnused => DetachOps(s)
    case _ => []
  }

  lemma PagesAreApart(s: System, tables: map<nat, seq<Desc>>)
    ensures PoolOk(s.(tables := tables)) == PoolOk(s) && InStep(s.(tables := tables)) == InStep(s)
    ensures Abs(s.(tables := tables)) == Abs(s)
  {
  }

  lemma SubmissionKeepsInv(s: System, e: Event)
    requires SystemInv(s) && e.Submission? && Allowed(s, e)
    ensures SystemInv(Next(s, e))
    ensures Abs(Next(s, e)) == Step(Abs(s), Submit(e.token, |e.sg|, e.table.Some?))
  {
    var b := BufOf(s.v, e.sg, e.out, e.token, e.table);
    if CostOf(|e.sg|, e.table.Some?, s.v.numFree) <= s.v.numFree {
      assert CanAdd(s, b);
      AddKeepsPool(s, b);
      AddKeepsTables(s.tables, s.g.pool, b, e.page);
      if s.g.positioned { AddKeepsStep(s, b); }
      PagesAreApart(AfterAdd(s, b), WithPage(s.tables, b, e.page));
    }
  }

  /** The step from s to s' is that of the abstract queue: of the one operation in ops, or none. */
  ghost predicate Amounts(s: System, ops: seq<Op>, s': System) {
    && |ops| <= 1
    && if ops == [] then Abs(s') == Abs(s) else Enabled(Abs(s), ops[0]) && Abs(s') == Step(Abs(s), ops[0])
  }

  lemma GetStepKeepsInv(s: System)
    requires SystemInv(s)
    ensures SystemInv(GetStep(s)) && Amounts(s, GetOps(s), GetStep(s))
  {
    if !s.g.positioned {
      if GetResult(s.v).Buffer? { AnyGetKeepsInv(s); }
    } else if s.g.ring.lens == [] {
      GetIsExact(s);
    } else {
      GetKeepsInv(s);
      PositionedGet(s);
    }
  }

  /** With an honest device the buffer taken is the one returned first. */
  lemma PositionedGet(s: System)
    requires SystemInv(s) && s.g.positioned && s.g.ring.lens != []
    ensures GetResult(s.v).Buffer? && CanGet(s) && NamedBuf(s) == s.g.ring.queue[0]
  {
    GetIsExact(s);
    GetKeepsInv(s);
    var b := s.g.ring.queue[0];
    assert Holds(Nexts(s.v.state), s.g.owner, s.g.pool[IndexOf(s.g.pool, b)]);
    assert s.g.owner[b.slots[0]] == Some(b);
  }

  lemma DetachStepKeepsInv(s: System)
    requires SystemInv(s)
    ensures SystemInv(DetachStep(s)) && Amounts(s, DetachOps(s), DetachStep(s))
  {
    var id := LowestHead(s.v.state);
    if id < |s.v.state| {
      HeadIsOwned(s, id);
      DetachKeepsInv(s, id);
    }
  }

  /** The pool and what clients see depend only on the records and the free list. */
  lemma SamePool(s: System, s': System)
    requires PoolOk(s) && s'.tables == s.tables && s'.g == s.g.(ring := s'.g.ring, kickedAt := s'.g.kickedAt)
    requires s'.v.state == s.v.state && |s'.v.desc| == |s.v.desc|
    requires s'.v.freeHead == s.v.freeHead && s'.v.numFree == s.v.numFree
    requires s'.v.nextAvailIdx == s.v.nextAvailIdx && s'.v.lastUsedIdx == s.v.lastUsedIdx
    requires s'.v.availFlag == s.v.availFlag && s'.v.usedFlag == s.v.usedFlag
    ensures PoolOk(s') && Abs(s') == Abs(s)
  {
  }

  lemma SameStep(s: System, s': System)
    requires InStep(s) && s'.dev == s.dev && s'.g == s.g.(kickedAt := s'.g.kickedAt)
    requires s'.v.desc == s.v.desc && s'.v.numFree == s.v.numFree
    requires s'.v.nextAvailIdx == s.v.nextAvailIdx && s'.v.lastUsedIdx == s.v.lastUsedIdx
    requires s'.v.availFlag == s.v.availFlag && s'.v.usedWrapCounter == s.v.usedWrapCounter
    requires s'.v.availWrapCounter == s.v.availWrapCounter
    requires s'.v.numAdded == |s.g.ring.log| - s'.g.kickedAt
    ensures InStep(s')
  {
  }

  lemma DeviceStepKeepsInv(s: System, e: Event)
    requires SystemInv(s) && Allowed(s, e) && (e.DeviceFetch? || e.DeviceComplete?)
    ensures SystemInv(Next(s, e)) && Abs(Next(s, e)) == Abs(s)
  {
    SamePool(s, Next(s, e));
    if e.DeviceFetch? { FetchKeepsStep(s); } else { CompleteKeepsStep(s, e.i, e.len, e.write); }
  }

  /** Only fields that the ring positions and the pool do not depend on differ. */
  ghost predicate NoticeOnly(s: System, s': System) {
    && s'.dev == s.dev && s'.g == s.g.(kickedAt := s'.g.kickedAt) && s'.tables == s.tables
    && s'.v == s.v.(numAdded := s'.v.numAdded, eventFlagsShadow := s'.v.eventFlagsShadow,
         driverOffWrap := s'.v.driverOffWrap, driverFlags := s'.v.driverFlags,
         deviceOffWrap := s'.v.deviceOffWrap, deviceFlags := s'.v.deviceFlags)
    && (s.g.positioned ==> s'.v.numAdded == |s.g.ring.log| - s'.g.kickedAt)
  }

  lemma OtherFieldsAreFree(s: System, s': System)
    requires SystemInv(s) && NoticeOnly(s, s')
    ensures SystemInv(s') && Abs(s') == Abs(s)
  {
    SamePool(s, s');
    if s.g.positioned { SameStep(s, s'); }
  }

  lemma NoticeIsNoticeOnly(s: System, e: Event)
    requires InRange(s.v) && (s.g.positioned ==> Encoded(s))
    ensures NoticeOnly(s, AfterNotice(s, e))
  {
  }

  lemma NoticeKeepsInv(s: System, e: Event)
    requires SystemInv(s)
    ensures SystemInv(AfterNotice(s, e)) && Abs(AfterNotice(s, e)) == Abs(s)
  {
    NoticeIsNoticeOnly(s, e);
    OtherFieldsAreFree(s, AfterNotice(s, e));
  }

  /** Every step keeps the invariant and is the step of the abstract queue that it amounts to. */
  lemma StepKeepsInv(s: System, e: Event)
    requires SystemInv(s) && Allowed(s, e)
    ensures SystemInv(Next(s, e))
    ensures Possible(Abs(s), OpsOf(s, e)) && Abs(Next(s, e)) == Run(Abs(s), OpsOf(s, e))
  {
    hide PoolOk, TablesOk, InStep, Abstract;
    if e.Submission? { SubmissionKeepsInv(s, e); }
    else if e.GetBuf? { GetStepKeepsInv(s); }
    else if e.DetachUnused? { DetachStepKeepsInv(s); }
    else if e.DeviceFetch? || e.DeviceComplete? { DeviceStepKeepsInv(s, e); }
    else if e.DeviceStores? { StoresKeepInv(s, e.mem); }
    else { NoticeKeepsInv(s, e); }
    if OpsOf(s, e) != [] { RunOne(Abs(s), OpsOf(s, e)[0]); }
  }

  /** Every event of the run is allowed where it happens. */
  ghost predicate Runs(s: System, es: seq<Event>)
    requires SystemInv(s)
    decreases |es|
  {
    es == [] || (Allowed(s, es[0]) && (StepKeepsInv(s, es[0]); Runs(Next(s, es[0]), es[1..])))
  }

  ghost function Final(s: System, es: seq<Event>): System
    requires SystemInv(s) && Runs(s, es)
    decreases |es|
  {
    if es == [] then s
    else
      StepKeepsInv(s, es[0]);
      Final(Next(s, es[0]), es[1..])
  }

  ghost function History(s: System, es: seq<Event>): seq<Op>
    requires SystemInv(s) && Runs(s, es)
    decreases |es|
  {
    if es == [] then []
    else
      StepKeepsInv(s, es[0]);
      OpsOf(s, es[0]) + History(Next(s, es[0]), es[1..])
  }

  /** Over every run of client, driver and device the invariant holds, and the driver is the abstract
      queue: its history is a possible one and leads to what clients see. */
  lemma {:induction false} RunRefinesQueue(s: System, es: seq<Event>)
    requires SystemInv(s) && Runs(s, es)
    ensures SystemInv(Final(s, es))
    ensures Possible(Abs(s), History(s, es)) && Abs(Final(s, es)) == Run(Abs(s), History(s, es))
    decreases |es|
  {
    if es != [] {
      var s', ops := Next(s, es[0]), OpsOf(s, es[0]);
      StepKeepsInv(s, es[0]);
      RunRefinesQueue(s', es[1..]);
      RunConcat(Abs(s), ops, History(s', es[1..]));
    }
  }

  // ----- the start

  ghost function Initial(n: nat, eventSuppression: bool): System
    requires 0 < n <= 0x8000
  {
    var v := InitSpec(n, eventSuppression);
    System(v, Device(0, true, 0, true),
           Ghosts(seq(n, i requires 0 <= i < n => i), seq(n, _ => None), [],
                  Ring(v.desc, v.desc, [], [], 0, [n]), true, n, 0),
           map[])
  }

  lemma StartIsInv(n: nat, eventSuppression: bool)
    requires 0 < n <= 0x8000
    ensures SystemInv(Initial(n, eventSuppression)) && Initial(n, eventSuppression).g.positioned
    ensures Abs(Initial(n, eventSuppression)) == Queue(n, multiset{})
  {
    var s := Initial(n, eventSuppression);
    var r := s.g.ring;
    forall p | 0 <= p < n ensures Slot(p, n) == p && !Lap(p, n) {}
    assert Slot(n, n) == Slot(0, n) == 0 && Lap(n, n);
    assert Entries([]) == [];
    forall i | 0 <= i < n ensures s.g.free[i] == i {}
    assert FreeList(Nexts(s.v.state), s.g.free, s.g.owner) by {
      forall i | 0 <= i < n ensures i in s.g.free { assert s.g.free[i] == i; }
    }
  }

  ghost function Start(n: nat, eventSuppression: bool): (s: System)
    requires 0 < n <= 0x8000
    ensures SystemInv(s) && s.g.positioned && s == Initial(n, eventSuppression)
  {
    StartIsInv(n, eventSuppression);
    Initial(n, eventSuppression)
  }

  /** So nothing a client hands over is lost, duplicated or made up, over every run from the start: a
      token comes back at most as often as it was accepted, and what did not come back is in flight. */
  lemma NothingLostOrDuplicated(n: nat, eventSuppression: bool, es: seq<Event>, entry: Entry)
    requires 0 < n <= 0x8000 && Runs(Start(n, eventSuppression), es)
    ensures var s := Start(n, eventSuppression);
      var ops := History(s, es);
      && multiset(Returned(ops))[entry] <= multiset(Accepted(Queue(n, multiset{}), ops))[entry]
      && Abs(Final(s, es)).inFlight[entry]
         == multiset(Accepted(Queue(n, multiset{}), ops))[entry] - multiset(Returned(ops))[entry]
  {
    StartIsInv(n, eventSuppression);
    RunRefinesQueue(Start(n, eventSuppression), es);
    ReturnedAtMostOnce(n, History(Start(n, eventSuppression), es), entry);
  }

  /** The registers in the terms of section 2.7 of VIRTIO 1.1: with A descriptors ever added and U ever
      read (both counted from n), the write index is A mod n, the read index U mod n, the flags and the
      used wrap counter the parities of their laps, and A - U, never above n, is what is not free. */
  lemma RegistersEncodePositions(s: System)
    requires SystemInv(s) && s.g.positioned
    ensures var n, a, u := |s.v.desc|, |s.g.ring.log|, s.g.ring.starts[0];
      && s.v.nextAvailIdx == a % n && (s.v.availFlag <==> (a / n) % 2 == 1) && s.v.usedFlag == !s.v.availFlag
      && s.v.lastUsedIdx == u % n && (s.v.usedWrapCounter <==> (u / n) % 2 == 1)
      && a - u == n - s.v.numFree && 0 <= a - u <= n
  {
    SlotIsMod(|s.g.ring.log|, |s.v.desc|);
    SlotIsMod(s.g.ring.starts[0], |s.v.desc|);
  }

  /** The kick decision in the reachable states: with something added since the last kick, it is right for
      every event word exactly when an even number of direct chains took the whole ring. */
  lemma KicksRightIffEvenlyManyFullChains(s: System)
    requires SystemInv(s) && s.g.positioned && s.v.numAdded <= 0x8000
    ensures KicksRight(|s.g.ring.log|, s.v.numAdded, |s.v.desc|, s.v.availWrapCounter)
       <==> s.v.numAdded == 0 || s.g.fullChains % 2 == 0
  {
    KickRightIffInStep(|s.v.desc|, |s.g.ring.log|, s.v.numAdded, s.v.availWrapCounter);
  }

  /** kick_prepare decides as the device asks: it never kicks a device that declined notifications, and always one
      that wants them all; and in those states it kicks one that asked to be told of one descriptor exactly when
      that descriptor was added since the last kick. */
  lemma KickIsExact(s: System)
    requires SystemInv(s) && s.g.positioned
    requires s.v.deviceFlags == DESC ==>
      s.g.fullChains % 2 == 0 && WordSlot(s.v.deviceOffWrap) < |s.v.desc| && s.v.numAdded <= 0x8000
    ensures KickSpec(s.v).1
       <==> if s.v.deviceFlags == DESC
            then s.g.kickedAt <= EventPosition(|s.g.ring.log|, |s.v.desc|, s.v.deviceOffWrap) < |s.g.ring.log|
            else s.v.deviceFlags != DISABLE
  {
    if s.v.deviceFlags == DESC {
      PackedKickIsExact(|s.v.desc|, |s.g.ring.log|, s.v.numAdded, s.v.deviceOffWrap);
    }
  }
}
