/** The free list and the in-flight chains of either layout, as a partition of the n descriptors.
    Both layouts thread the free list and every chain through a `next` field; `next` here is that
    field of all descriptors. */
module DescriptorPool {
  import opened Queues

  datatype Sg = Sg(addr: nat, len: nat)

  /** A buffer in flight: the descriptors it holds, first one first, its token, its scatter list
      (the first `out` elements are read by the device) and the address of its indirect table. */
  datatype Buf = Buf(slots: seq<nat>, token: Token, sg: seq<Sg>, out: nat, table: Option<nat>)

  ghost predicate Linked(next: seq<nat>, c: seq<nat>) {
    && (forall i :: 0 <= i < |c| ==> c[i] < |next|)
    && (forall i {:trigger next[c[i]]} :: 0 <= i < |c| - 1 ==> next[c[i]] == c[i + 1])
  }

  function Cost(queue: seq<Buf>): nat {
    if queue == [] then 0 else |queue[0].slots| + Cost(queue[1..])
  }

  ghost predicate Holds(next: seq<nat>, owner: seq<Option<Buf>>, b: Buf) {
    && |b.slots| >= 1 && Distinct(b.slots) && Linked(next, b.slots)
    && |owner| == |next|
    && forall i :: 0 <= i < |b.slots| ==> owner[b.slots[i]] == Some(b)
  }

  /** The free list holds exactly the descriptors that have no owner, each once. */
  ghost predicate FreeList(next: seq<nat>, free: seq<nat>, owner: seq<Option<Buf>>) {
    && |owner| == |next|
    && Distinct(free) && Linked(next, free)
    && (forall i :: 0 <= i < |free| ==> owner[free[i]] == None)
    && (forall s :: 0 <= s < |next| && owner[s] == None ==> s in free)
  }

  /** The queued buffers hold exactly the descriptors they own. */
  ghost predicate Chains(next: seq<nat>, owner: seq<Option<Buf>>, queue: seq<Buf>) {
    && |owner| == |next|
    && Distinct(queue)
    && (forall i :: 0 <= i < |queue| ==> Holds(next, owner, queue[i]))
    && (forall s :: 0 <= s < |next| && owner[s].Some? ==>
          owner[s].value in queue && s in owner[s].value.slots)
  }

  /** Every descriptor is free or in the chain of exactly one queued buffer, and the lists are what
      `next` links. */
  ghost predicate Partition(next: seq<nat>, free: seq<nat>, owner: seq<Option<Buf>>, queue: seq<Buf>) {
    && FreeList(next, free, owner)
    && Chains(next, owner, queue)
    && |free| + Cost(queue) == |next|
  }

  function Mark(owner: seq<Option<Buf>>, slots: seq<nat>, v: Option<Buf>): (r: seq<Option<Buf>>)
    ensures |r| == |owner|
    ensures forall s :: 0 <= s < |owner| ==> r[s] == if s in slots then v else owner[s]
  {
    seq(|owner|, s requires 0 <= s < |owner| => if s in slots then v else owner[s])
  }

  lemma {:induction false} CostAppend(p: seq<Buf>, q: seq<Buf>)
    ensures Cost(p + q) == Cost(p) + Cost(q)
  {
    if p == [] {
      assert p + q == q;
    } else {
      assert (p + q)[1..] == p[1..] + q;
      CostAppend(p[1..], q);
    }
  }

  function Without<T>(s: seq<T>, j: nat): seq<T>
    requires j < |s|
  {
    s[..j] + s[j + 1..]
  }

  lemma CostWithout(queue: seq<Buf>, j: nat)
    requires j < |queue|
    ensures Cost(queue) == Cost(Without(queue, j)) + |queue[j].slots|
  {
    assert queue == queue[..j] + ([queue[j]] + queue[j + 1..]);
    CostAppend(queue[..j], [queue[j]] + queue[j + 1..]);
    CostAppend([queue[j]], queue[j + 1..]);
    CostAppend(queue[..j], queue[j + 1..]);
    assert Cost([queue[j]]) == |queue[j].slots|;
  }

  lemma TakeFree(next: seq<nat>, free: seq<nat>, owner: seq<Option<Buf>>, b: Buf)
    requires FreeList(next, free, owner)
    requires |b.slots| <= |free| && b.slots == free[..|b.slots|]
    ensures FreeList(next, free[|b.slots|..], Mark(owner, b.slots, Some(b)))
  {
    var k := |b.slots|;
    var owner', free' := Mark(owner, b.slots, Some(b)), free[k..];
    assert forall i :: 0 <= i < k ==> free[i] == b.slots[i] && free[i] in b.slots;
    forall s | 0 <= s < |next| && owner'[s] == None ensures s in free' {
      var i :| 0 <= i < |free| && free[i] == s;
      assert i >= k;
      assert free'[i - k] == s;
    }
    assert forall i :: 0 <= i < |free'| ==> free'[i] == free[k + i];
  }

  lemma TakeChains(next: seq<nat>, free: seq<nat>, owner: seq<Option<Buf>>, queue: seq<Buf>, b: Buf)
    requires FreeList(next, free, owner) && Chains(next, owner, queue)
    requires 1 <= |b.slots| <= |free| && b.slots == free[..|b.slots|]
    ensures Chains(next, Mark(owner, b.slots, Some(b)), queue + [b])
  {
    var owner' := Mark(owner, b.slots, Some(b));
    assert forall i :: 0 <= i < |b.slots| ==> b.slots[i] == free[i];
    forall i | 0 <= i < |queue| ensures Holds(next, owner', queue[i]) && queue[i] != b {
      assert Holds(next, owner, queue[i]);
      assert owner[b.slots[0]] == None && owner[queue[i].slots[0]] == Some(queue[i]);
    }
    assert Holds(next, owner', b);
  }

  /** Taking the first descriptors off the free list for a new buffer keeps the partition. */
  lemma Take(next: seq<nat>, free: seq<nat>, owner: seq<Option<Buf>>, queue: seq<Buf>, b: Buf)
    requires Partition(next, free, owner, queue)
    requires 1 <= |b.slots| <= |free| && b.slots == free[..|b.slots|]
    ensures Partition(next, free[|b.slots|..], Mark(owner, b.slots, Some(b)), queue + [b])
  {
    TakeFree(next, free, owner, b);
    TakeChains(next, free, owner, queue, b);
    CostAppend(queue, [b]);
    assert Cost([b]) == |b.slots|;
  }

  /** next' differs from next only at the last descriptor of b, which it links to the free list. */
  ghost predicate Relinked(next: seq<nat>, free: seq<nat>, b: Buf, next': seq<nat>)
    requires |b.slots| >= 1
  {
    var last := b.slots[|b.slots| - 1];
    && |next'| == |next|
    && (last < |next| && free != [] ==> next'[last] == free[0])
    && forall s :: 0 <= s < |next| && s != last ==> next'[s] == next[s]
  }

  lemma PutFree(next: seq<nat>, free: seq<nat>, owner: seq<Option<Buf>>, b: Buf, next': seq<nat>)
    requires FreeList(next, free, owner) && Holds(next, owner, b) && Relinked(next, free, b, next')
    ensures FreeList(next', b.slots + free, Mark(owner, b.slots, None))
  {
    var free' := b.slots + free;
    var owner' := Mark(owner, b.slots, None);
    assert forall i :: 0 <= i < |b.slots| ==> free'[i] == b.slots[i];
    assert forall i :: |b.slots| <= i < |free'| ==> free'[i] == free[i - |b.slots|];
    assert forall i :: 0 <= i < |free| ==> free[i] != b.slots[|b.slots| - 1];
    forall i | 0 <= i < |free'| ensures owner'[free'[i]] == None {
      if i < |b.slots| { assert free'[i] in b.slots; }
    }
  }

  lemma PutChains(next: seq<nat>, free: seq<nat>, owner: seq<Option<Buf>>, queue: seq<Buf>, j: nat, next': seq<nat>)
    requires Chains(next, owner, queue) && j < |queue| && Holds(next, owner, queue[j])
    requires Relinked(next, free, queue[j], next')
    ensures Chains(next', Mark(owner, queue[j].slots, None), Without(queue, j))
  {
    var b := queue[j];
    var owner', queue' := Mark(owner, b.slots, None), Without(queue, j);
    forall i | 0 <= i < |queue'| ensures Holds(next', owner', queue'[i]) {
      var c := queue'[i];
      assert c == queue[if i < j then i else i + 1] && c != b;
      assert Holds(next, owner, c);
      assert forall k :: 0 <= k < |c.slots| ==> c.slots[k] !in b.slots && c.slots[k] != b.slots[|b.slots| - 1];
    }
    forall s | 0 <= s < |next| && owner'[s].Some?
      ensures owner'[s].value in queue' && s in owner'[s].value.slots
    {
      var i :| 0 <= i < |queue| && queue[i] == owner[s].value;
      assert s !in b.slots;
      assert i != j;
      assert queue'[if i < j then i else i - 1] == owner[s].value;
    }
  }

  /** Linking the last descriptor of a chain to the free list and making its first the new head
      returns the whole chain and keeps the partition. */
  lemma Put(next: seq<nat>, free: seq<nat>, owner: seq<Option<Buf>>, queue: seq<Buf>, j: nat, next': seq<nat>)
    requires Partition(next, free, owner, queue) && j < |queue| && |queue[j].slots| >= 1
    requires Relinked(next, free, queue[j], next')
    ensures Partition(next', queue[j].slots + free, Mark(owner, queue[j].slots, None), Without(queue, j))
  {
    PutFree(next, free, owner, queue[j], next');
    PutChains(next, free, owner, queue, j, next');
    CostWithout(queue, j);
  }

  /** q with element i moved forward to index k. */
  function Move<T>(q: seq<T>, i: nat, k: nat): (q': seq<T>)
    requires k <= i < |q|
    ensures |q'| == |q|
    ensures forall j :: 0 <= j < |q| ==> q'[j] == q[if j < k || j > i then j else if j == k then i else j - 1]
  {
    q[..k] + [q[i]] + q[k..i] + q[i + 1..]
  }

  lemma MovePermutes<T>(q: seq<T>, i: nat, k: nat)
    requires k <= i < |q|
    ensures multiset(Move(q, i, k)) == multiset(q)
  {
    assert q == q[..k] + q[k..i] + [q[i]] + q[i + 1..];
  }

  lemma RemoveFromBoth<T>(queue: seq<T>, pool: seq<T>, j: nat)
    requires queue != [] && j < |pool| && pool[j] == queue[0] && multiset(queue) == multiset(pool)
    ensures multiset(queue[1..]) == multiset(Without(pool, j))
  {
    assert multiset(queue) == multiset{queue[0]} + multiset(queue[1..]) by {
      assert queue == [queue[0]] + queue[1..];
    }
    assert multiset(pool) == multiset{pool[j]} + multiset(Without(pool, j)) by {
      assert pool == pool[..j] + [pool[j]] + pool[j + 1..];
    }
    assert multiset(pool) - multiset{pool[j]} == multiset(Without(pool, j));
    assert multiset(queue) - multiset{queue[0]} == multiset(queue[1..]);
  }

  function IndexOf<T(==)>(q: seq<T>, b: T): (j: nat)
    requires b in q
    ensures j < |q| && q[j] == b
  {
    if q[0] == b then 0 else 1 + IndexOf(q[1..], b)
  }

  function Entries(queue: seq<Buf>): (r: seq<Entry>)
    ensures |r| == |queue|
  {
    seq(|queue|, i requires 0 <= i < |queue| => Entry(queue[i].token, |queue[i].slots|))
  }

  /** What a client sees of a pool. */
  function Abstract(free: nat, queue: seq<Buf>): Queue {
    Queue(free, multiset(Entries(queue)))
  }

  lemma AbstractAdd(free: nat, queue: seq<Buf>, b: Buf)
    requires |b.slots| <= free
    ensures Abstract(free - |b.slots|, queue + [b]) == Add(Abstract(free, queue), Entry(b.token, |b.slots|))
  {
    assert Entries(queue + [b]) == Entries(queue) + [Entry(b.token, |b.slots|)];
  }

  lemma AbstractRemove(free: nat, queue: seq<Buf>, j: nat)
    requires j < |queue|
    ensures var e := Entry(queue[j].token, |queue[j].slots|);
      && e in Abstract(free, queue).inFlight
      && Abstract(free + e.cost, Without(queue, j)) == Remove(Abstract(free, queue), e)
  {
    var es, e := Entries(queue), Entry(queue[j].token, |queue[j].slots|);
    assert es == es[..j] + [e] + es[j + 1..];
    assert Entries(Without(queue, j)) == es[..j] + es[j + 1..];
    assert es[j] in multiset(es);
  }

  lemma {:induction false} EntriesPermute(a: seq<Buf>, b: seq<Buf>)
    requires multiset(a) == multiset(b)
    ensures multiset(Entries(a)) == multiset(Entries(b))
    decreases |a|
  {
    assert |a| == |multiset(a)| == |multiset(b)| == |b|;
    if a != [] {
      assert a[0] in multiset(b);
      var j, e := IndexOf(b, a[0]), Entry(a[0].token, |a[0].slots|);
      RemoveFromBoth(a, b, j);
      EntriesPermute(a[1..], Without(b, j));
      assert Entries(a) == [e] + Entries(a[1..]);
      PutBackEntry(b, j);
    }
  }

  lemma PutBackEntry(b: seq<Buf>, j: nat)
    requires j < |b|
    ensures multiset(Entries(b)) == multiset{Entries(b)[j]} + multiset(Entries(Without(b, j)))
  {
    var es := Entries(b);
    assert es == es[..j] + [es[j]] + es[j + 1..];
    assert Entries(Without(b, j)) == es[..j] + es[j + 1..];
  }

  /** One element of a scatter list as the device sees it. */
  datatype Element = Element(addr: nat, len: nat, writable: bool)

  /** The scatter list of b: the device may write from element number `out` on. */
  function ListOf(b: Buf): seq<Element> {
    seq(|b.sg|, i requires 0 <= i < |b.sg| => Element(b.sg[i].addr, b.sg[i].len, i >= b.out))
  }

  /** The queue with the first of its buffers returned: what the drivers above the ring work with. */
  function VqOfPool(free: nat, pool: seq<Buf>, returned: seq<Buf>): Vq {
    Vq(Abstract(free, pool), Entries(returned))
  }

  lemma VqOfPoolOk(free: nat, pool: seq<Buf>, queue: seq<Buf>, k: nat)
    requires multiset(queue) == multiset(pool) && k <= |queue|
    ensures VqOk(VqOfPool(free, pool, queue[..k]))
  {
    EntriesPermute(queue, pool);
    assert Entries(queue) == Entries(queue[..k]) + Entries(queue[k..]) by {
      assert queue == queue[..k] + queue[k..];
    }
  }

  /** Returning one more buffer, from among those behind the first k, is the device's step. */
  lemma OneMoreReturned(free: nat, pool: seq<Buf>, queue: seq<Buf>, k: nat, i: nat)
    requires multiset(queue) == multiset(pool) && k <= i < |queue|
    ensures DeviceReturns(VqOfPool(free, pool, queue[..k]), VqOfPool(free, pool, Move(queue, i, k)[..k + 1]))
  {
    MovePermutes(queue, i, k);
    VqOfPoolOk(free, pool, Move(queue, i, k), k + 1);
    assert Entries(Move(queue, i, k)[..k + 1])[..k] == Entries(queue[..k]);
  }
}
