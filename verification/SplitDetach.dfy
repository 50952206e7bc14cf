/** What detach_unused_buf and an element that names no buffer do to the split ring: exactly when get_buf keeps
    the pool, and exactly when a device still sees what is left. */
module SplitDetach {
  import opened Queues
  import opened Rings
  import opened DescriptorPool
  import opened SplitSpec
  import opened SplitSystem
  import opened EventIndex

  // ----- get_buf with a used element that names no buffer

  lemma {:induction false} SameChain(desc: seq<Desc>, c: seq<nat>, d: seq<nat>)
    requires IsChain(desc, c) && IsChain(desc, d) && c[0] == d[0]
    ensures c == d
  {
    var x, y := desc[c[0]].next, desc[d[0]].next;
    if |c| > 1 && |d| > 1 {
      assert x == c[0 + 1] && y == d[0 + 1];
      RestIsChain(desc, c);
      RestIsChain(desc, d);
      SameChain(desc, c[1..], d[1..]);
      assert c == [c[0]] + c[1..] && d == [d[0]] + d[1..];
    }
  }

  lemma RestIsChain(desc: seq<Desc>, c: seq<nat>)
    requires IsChain(desc, c) && |c| > 1
    ensures IsChain(desc, c[1..])
  {
    var d := c[1..];
    assert forall i :: 0 <= i < |d| ==> d[i] == c[i + 1];
    forall i | 0 <= i < |d| - 1 ensures desc[d[i]].flags.next && desc[d[i]].next == d[i + 1] {
      assert desc[c[i + 1]].next == c[i + 2];
    }
  }

  function Heads(opaques: seq<Option<Token>>): set<nat> {
    set i: nat | i < |opaques| && opaques[i].Some?
  }

  function Members(c: seq<nat>): set<nat> {
    set x | x in c
  }

  lemma {:induction false} DistinctCount(c: seq<nat>)
    requires Distinct(c)
    ensures |Members(c)| == |c|
  {
    if c == [] {
      assert Members(c) == {};
    } else {
      DistinctCount(c[1..]);
      AllOf(c);
    }
  }

  lemma AllOf(c: seq<nat>)
    requires Distinct(c) && c != []
    ensures Members(c) == Members(c[1..]) + {c[0]} && c[0] !in Members(c[1..])
  {
    assert forall x :: x in c <==> x == c[0] || x in c[1..] by { assert c == [c[0]] + c[1..]; }
  }

  /** There are as many buffers in flight as non-NULL opaques. */
  lemma HeadsCountBuffers(s: System)
    requires PoolOk(s)
    ensures |Heads(s.v.opaques)| == |s.g.pool|
  {
    forall j | 0 <= j < |s.g.pool| ensures s.g.pool[j].slots != [] && s.g.pool[j].slots[0] in Heads(s.v.opaques) {
      assert Recorded(s.v.desc, s.v.opaques, s.g.pool[j]);
    }
    var c := seq(|s.g.pool|, j requires 0 <= j < |s.g.pool| => s.g.pool[j].slots[0]);
    forall i, j | 0 <= i < j < |c| ensures c[i] != c[j] {
      assert Holds(Nexts(s.v.desc), s.g.owner, s.g.pool[i]) && Holds(Nexts(s.v.desc), s.g.owner, s.g.pool[j]);
      assert s.g.owner[c[i]] == Some(s.g.pool[i]) && s.g.owner[c[j]] == Some(s.g.pool[j]);
    }
    forall x | x in Heads(s.v.opaques) ensures x in c {
      HeadIsOwned(s, x);
      assert x == c[IndexOf(s.g.pool, s.g.owner[x].value)];
    }
    DistinctCount(c);
    assert Heads(s.v.opaques) == Members(c);
  }

  lemma IndicesCountTokens(s: System)
    requires PoolOk(s)
    ensures s.v.masterIdx == Mod16(s.v.lastUsed + |Heads(s.v.opaques)|)
  {
    HeadsCountBuffers(s);
  }

  /** get_buf of an element without a token takes back a chain of which no buffer is known; the indices then
      count a buffer less than there are tokens. */
  lemma NullTokenBreaks(s: System, c: seq<nat>, s': System)
    requires PoolOk(s) && c != [] && c[0] < |s.v.opaques| && c[|c| - 1] < |s.v.desc| && s.v.opaques[c[0]].None?
    requires s'.v == GetSpec(s.v, c)
    ensures !PoolOk(s')
  {
    hide Lists, Heads, Mod16, InRange;
    if PoolOk(s') {
      IndicesCountTokens(s);
      IndicesCountTokens(s');
      hide PoolOk, Heads, Mod16;
      assert s'.v.opaques == s.v.opaques;
      OneTooFew(s.v.lastUsed, |Heads(s.v.opaques)|);
    }
  }

  lemma OneTooFew(lastUsed: nat, k: nat)
    ensures Mod16(lastUsed + k) != Mod16(Mod16(lastUsed + 1) + k)
  {
    SameResidue(lastUsed + 1 + k, Mod16(lastUsed + 1) + k, (lastUsed + 1) / 0x1_0000);
    SameIndex(lastUsed + k, 1);
  }

  /** Exactly when get_buf keeps the pool, whatever is to be known about it: when the element that it reads
      names a buffer in flight.  c is the chain that put_unused_desc_chain follows from there. */
  lemma GetKeepsPoolIff(s: System, c: seq<nat>)
    requires PoolOk(s) && TablesOk(s.tables, s.g.pool) && NextUsed(s.v).Some?
    requires IsChain(s.v.desc, c) && c[0] == Mod16(NextUsed(s.v).value.id) < |s.v.opaques|
    ensures (exists g: Ghosts :: PoolOk(System(GetSpec(s.v, c), s.seen, g, s.tables)))
       <==> s.v.opaques[c[0]].Some?
  {
    if s.v.opaques[c[0]].Some? {
      AnyGetKeepsInv(s);
      SameChain(s.v.desc, c, NamedBuf(s).slots);
      assert PoolOk(System(GetSpec(s.v, c), s.seen, AfterAnyGet(s).g, s.tables));
    } else {
      forall g: Ghosts ensures !PoolOk(System(GetSpec(s.v, c), s.seen, g, s.tables)) {
        NullTokenBreaks(s, c, System(GetSpec(s.v, c), s.seen, g, s.tables));
      }
    }
  }

  /** The input: a new queue and a device that reports descriptor 0 as used.  get_buf frees all n free
      descriptors again. */
  lemma FreedAgain(n: nat, eventSuppression: bool)
    requires 0 < n <= 0x8000 && Slot(U16, n) == 0
    ensures var s := Start(n, eventSuppression);
      var v := AfterStores(s, seq(n, _ => UsedElem(0, 0)), 1).v;
      && InRange(v) && NextUsed(v) == Some(UsedElem(0, 0)) && IsChain(v.desc, s.g.free) && s.g.free[0] == 0
      && GetSpec(v, s.g.free).numUnused == 2 * n
  {
    var s := Start(n, eventSuppression);
    forall i | 0 <= i < n ensures s.g.free[i] == i {}
  }

  // ----- detach_unused_buf while the device is at work

  /** The entries from the device's index on name the buffers of `left`. */
  ghost predicate EntriesName(ring: seq<nat>, seen: nat, left: seq<Buf>)
    requires ring != []
  {
    forall i {:trigger left[i]} :: 0 <= i < |left| ==>
      left[i].slots != [] && ring[Slot(Mod16(seen + i), |ring|)] == left[i].slots[0]
  }

  /** What the device sees available is `left`. */
  ghost predicate SeesExactly(s: System, left: seq<Buf>)
    requires InRange(s.v)
  {
    Mod16(s.v.availIdx - s.seen) == |left| && EntriesName(s.v.availRing, s.seen, left)
  }

  /** The buffers of q but b. */
  function Rest(q: seq<Buf>, b: Buf): seq<Buf> {
    if b in q then Without(q, IndexOf(q, b)) else q
  }

  ghost predicate DistinctHeads(q: seq<Buf>) {
    && (forall i :: 0 <= i < |q| ==> q[i].slots != [])
    && forall i, j :: 0 <= i < j < |q| ==> q[i].slots[0] != q[j].slots[0]
  }

  lemma SameEntries(ring: seq<nat>, seen: nat, q: seq<Buf>)
    requires ring != [] && EntriesName(ring, seen, q) && q != []
    ensures EntriesName(ring, seen, q[..|q| - 1])
  {
    hide Slot, Mod16;
    var left := q[..|q| - 1];
    forall i {:trigger left[i]} | 0 <= i < |left|
      ensures left[i].slots != [] && ring[Slot(Mod16(seen + i), |ring|)] == left[i].slots[0]
    {
      assert left[i] == q[i];
    }
  }

  lemma OtherEntry(ring: seq<nat>, seen: nat, q: seq<Buf>, j: nat)
    requires ring != [] && EntriesName(ring, seen, q) && DistinctHeads(q) && j + 1 < |q|
    ensures !EntriesName(ring, seen, Without(q, j)) && q[j] != q[|q| - 1]
  {
    hide Slot, Mod16;
    assert ring[Slot(Mod16(seen + j), |ring|)] == q[j].slots[0];
    assert Without(q, j)[j] == q[j + 1];
  }

  /** q is named by the entries; with one entry fewer in sight, the rest without b is if b was the last. */
  lemma NamedIff(ring: seq<nat>, seen: nat, ahead: nat, q: seq<Buf>, b: Buf)
    requires ring != [] && EntriesName(ring, seen, q) && DistinctHeads(q) && |q| <= 0x8000
    requires ahead == if q == [] then 0xFFFF else |q| - 1
    ensures ahead == |Rest(q, b)| && EntriesName(ring, seen, Rest(q, b)) <==> q != [] && b == q[|q| - 1]
  {
    hide EntriesName;
    if b in q {
      var j := IndexOf(q, b);
      if j + 1 < |q| {
        OtherEntry(ring, seen, q, j);
      } else {
        SameEntries(ring, seen, q);
        assert Without(q, j) == q[..|q| - 1];
      }
    }
  }

  lemma EntryOf(s: System, i: nat)
    requires InRange(s.v) && Positions(s) && Named(s) && s.g.fetched + i < |s.g.queue|
    ensures s.g.queue[s.g.fetched + i].slots != []
    ensures s.v.availRing[Slot(Mod16(s.seen + i), |s.v.desc|)] == s.g.queue[s.g.fetched + i].slots[0]
  {
    var n, f := |s.v.desc|, s.g.read + s.g.fetched + i;
    SameResidue(s.seen + i, f, -((s.g.read + s.g.fetched) / 0x1_0000));
    IndexSlot(f, n);
    assert Slot(f + n, n) == Slot(f, n);
    assert s.g.availLog[n + s.g.read + (s.g.fetched + i)] == s.g.queue[s.g.fetched + i].slots[0];
  }

  lemma AheadAfterDetach(s: System, b: Buf)
    requires SystemInv(s) && s.g.positioned && b in s.g.pool && IsChain(s.v.desc, b.slots) && b.slots[0] < |s.v.opaques|
    ensures var s' := AfterDetach(s, b); var k := |s.g.queue| - s.g.fetched;
      && InRange(s'.v) && s'.v.availRing == s.v.availRing && |s'.v.desc| == |s.v.desc| && s'.seen == s.seen
      && Mod16(s'.v.availIdx - s'.seen) == if k == 0 then 0xFFFF else k - 1
  {
    hide Records, Partition, Named, Mirrors, TablesOk;
    DetachKeepsInv(s, b);
    OneBack(s.g.read + s.g.fetched, |s.g.queue| - s.g.fetched);
  }

  lemma OneBack(count: nat, k: nat)
    requires k <= 0x8000
    ensures Mod16(Mod16(Mod16(count + k) - 1) - Mod16(count)) == if k == 0 then 0xFFFF else k - 1
  {
    SameResidue(Mod16(count + k) - 1, count + k - 1, -((count + k) / 0x1_0000));
    var q := count / 0x1_0000 - (count + k - 1) / 0x1_0000;
    SameResidue(Mod16(count + k - 1) - Mod16(count), k - 1, q);
    Residue(k - 1, if k == 0 then -1 else 0, if k == 0 then 0xFFFF else k - 1);
  }

  /** Buffers at different places of the queue have different heads. */
  lemma HeadsDiffer(s: System, i: nat, j: nat)
    requires SystemInv(s) && s.g.positioned && i < j < |s.g.queue|
    ensures s.g.queue[i] != s.g.queue[j] && s.g.queue[i].slots != [] && s.g.queue[j].slots != []
    ensures s.g.queue[i].slots[0] != s.g.queue[j].slots[0]
  {
    var q, pool := s.g.queue, s.g.pool;
    assert q[i] in multiset(q) && q[j] in multiset(q);
    assert Holds(Nexts(s.v.desc), s.g.owner, pool[IndexOf(pool, q[i])]);
    assert Holds(Nexts(s.v.desc), s.g.owner, pool[IndexOf(pool, q[j])]);
    OncePerQueue(q, pool, i, j);
    assert s.g.owner[q[i].slots[0]] == Some(q[i]) && s.g.owner[q[j].slots[0]] == Some(q[j]);
  }

  lemma OncePerQueue(q: seq<Buf>, pool: seq<Buf>, i: nat, j: nat)
    requires multiset(q) == multiset(pool) && Distinct(pool) && i < j < |q|
    ensures q[i] != q[j]
  {
    if q[i] == q[j] { AtLeastTwice(q, i, j); }
    AtMostOnce(pool, q[i]);
  }

  lemma AtLeastTwice(q: seq<Buf>, i: nat, j: nat)
    requires i < j < |q| && q[i] == q[j]
    ensures multiset(q)[q[i]] >= 2
  {
    assert q == q[..j] + [q[j]] + q[j + 1..] && q[i] in q[..j];
  }

  lemma {:induction false} AtMostOnce(pool: seq<Buf>, b: Buf)
    requires Distinct(pool)
    ensures multiset(pool)[b] <= 1
  {
    if pool != [] {
      AtMostOnce(pool[1..], b);
      assert pool == [pool[0]] + pool[1..] && pool[0] !in pool[1..];
    }
  }

  /** With the buffers in flight the entries that the device has not read name those it has not fetched. */
  lemma UnfetchedAreNamed(s: System)
    requires SystemInv(s) && s.g.positioned
    ensures s.g.fetched <= |s.g.queue| && s.v.availRing != [] && |s.g.queue| <= 0x8000
    ensures EntriesName(s.v.availRing, s.seen, s.g.queue[s.g.fetched..]) && DistinctHeads(s.g.queue[s.g.fetched..])
  {
    hide Lists, TablesOk, Slot, Mod16;
    var left := s.g.queue[s.g.fetched..];
    forall i: nat {:trigger left[i]} | i < |left|
      ensures left[i].slots != [] && s.v.availRing[Slot(Mod16(s.seen + i), |s.v.desc|)] == left[i].slots[0]
    {
      EntryOf(s, i);
    }
    forall i: nat, j: nat | i < j < |left| ensures left[i].slots[0] != left[j].slots[0] {
      HeadsDiffer(s, s.g.fetched + i, s.g.fetched + j);
    }
  }

  /** The system after b was detached. */
  ghost function WithoutBuf(s: System, b: Buf): (x: System)
    requires SystemInv(s) && s.g.positioned && b in s.g.pool
    ensures InRange(x.v) && x.v.availRing == s.v.availRing && |x.v.desc| == |s.v.desc| && x.seen == s.seen
    ensures var k := |s.g.queue| - s.g.fetched;
      k >= 0 && Mod16(x.v.availIdx - x.seen) == if k == 0 then 0xFFFF else k - 1
  {
    ChainOf(s, b);
    AheadAfterDetach(s, b);
    AfterDetach(s, b)
  }

  /** The avail index knows only of the newest buffer: after detach_unused_buf the device sees exactly the
      unfetched buffers that are still in flight if and only if the buffer detached - the lowest head - was
      the newest one and the device had not fetched it. */
  lemma DetachLeavesTheOthersIff(s: System, b: Buf)
    requires SystemInv(s) && s.g.positioned && b in s.g.pool
    ensures s.g.fetched <= |s.g.queue|
    ensures SeesExactly(WithoutBuf(s, b), Rest(s.g.queue[s.g.fetched..], b))
       <==> s.g.fetched < |s.g.queue| && b == s.g.queue[|s.g.queue| - 1]
  {
    hide SystemInv, InRange, PoolOk, WithoutBuf, Rest, EntriesName, Mod16;
    UnfetchedAreNamed(s);
    var x := WithoutBuf(s, b);
    NamedIff(s.v.availRing, s.seen, Mod16(x.v.availIdx - x.seen), s.g.queue[s.g.fetched..], b);
  }
}
