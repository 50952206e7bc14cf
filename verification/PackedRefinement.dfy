/** Two more views of the packed ring in its runs: with the buffers that the device has returned in order of
    return, it is the queue that the drivers above it work with; and what the device does while add_buf is
    storing is what it could have done before. */
module PackedRefinement {
  import opened Queues
  import opened Rings
  import opened DescriptorPool
  import opened PackedProtocol
  import opened PackedSpec
  import opened PackedSystem

  /** The queue with its returned buffers. */
  ghost function VqOf(s: System): Vq
    requires |s.g.ring.lens| <= |s.g.ring.queue|
  {
    VqOfPool(s.v.numFree, s.g.pool, s.g.ring.queue[..|s.g.ring.lens|])
  }

  lemma VqOfIsOk(s: System)
    requires SystemInv(s) && s.g.positioned
    ensures |s.g.ring.lens| <= |s.g.ring.queue| && VqOk(VqOf(s))
  {
    VqOfPoolOk(s.v.numFree, s.g.pool, s.g.ring.queue, |s.g.ring.lens|);
  }

  lemma ReadIsGetBuf(s: System)
    requires CanGet(s) && Abs(AfterGet(s)) == Remove(Abs(s), Entry(s.g.ring.queue[0].token, |s.g.ring.queue[0].slots|))
    ensures |AfterGet(s).g.ring.lens| <= |AfterGet(s).g.ring.queue| && VqOf(s).returned != []
    ensures VqOf(AfterGet(s)) == Queues.GetBuf(VqOf(s))
  {
    hide InRange, Mirrors, Spans, Ascending;
    var q, k := s.g.ring.queue, |s.g.ring.lens|;
    assert q[1..][..k - 1] == q[..k][1..];
    assert Entries(q[..k][1..]) == Entries(q[..k])[1..];
  }

  /** get_buf returns the buffer that the device returned first. */
  lemma GetBufIsVq(s: System)
    requires SystemInv(s) && s.g.positioned
    ensures SystemInv(GetStep(s)) && GetStep(s).g.positioned
    ensures VqOf(GetStep(s)) == if VqOf(s).returned == [] then VqOf(s) else Queues.GetBuf(VqOf(s))
  {
    hide PoolOk, TablesOk, Encoded, Abs;
    GetStepKeepsInv(s);
    GetIsExact(s);
    if s.g.ring.lens != [] {
      GetKeepsInv(s);
      ReadIsGetBuf(s);
    }
  }

  lemma AddIsAddBuf(s: System, b: Buf)
    requires PackedSystem.CanAdd(s, b) && |s.g.ring.mem| == |s.v.desc| && s.g.positioned
    requires |s.g.ring.lens| <= |s.g.ring.queue|
    requires Abs(AfterAdd(s, b)) == Add(Abs(s), Entry(b.token, |b.slots|))
    ensures VqOf(AfterAdd(s, b)) == Queues.AddBuf(VqOf(s), Entry(b.token, |b.slots|))
  {
    hide PoolOk;
    var q, k := s.g.ring.queue, |s.g.ring.lens|;
    assert (q + [b])[..k] == q[..k];
  }

  /** A submission goes in exactly if it fits, as one entry of its cost. */
  lemma SubmissionIsVq(s: System, e: Event)
    requires SystemInv(s) && s.g.positioned && e.Submission? && Allowed(s, e)
    ensures SystemInv(Next(s, e)) && Next(s, e).g.positioned
    ensures var cost := CostOf(|e.sg|, e.table.Some?, VqOf(s).queue.free);
      VqOf(Next(s, e)) == if Queues.CanAdd(VqOf(s), cost) then Queues.AddBuf(VqOf(s), Entry(e.token, cost)) else VqOf(s)
  {
    hide FreeList, Chains, Records;
    SubmissionKeepsInv(s, e);
    var b := BufOf(s.v, e.sg, e.out, e.token, e.table);
    if CostOf(|e.sg|, e.table.Some?, s.v.numFree) <= s.v.numFree {
      AddKeepsPool(s, b);
      AddIsAddBuf(s, b);
      SameVq(AfterAdd(s, b), WithPage(s.tables, b, e.page));
    }
  }

  lemma SameVq(s: System, tables: map<nat, seq<Desc>>)
    requires |s.g.ring.lens| <= |s.g.ring.queue|
    ensures VqOf(s.(tables := tables)) == VqOf(s)
  {
  }

  /** A completion, of whichever buffer, is a return. */
  lemma CompletionIsVq(s: System, e: Event)
    requires SystemInv(s) && s.g.positioned && e.DeviceComplete? && Allowed(s, e)
    ensures SystemInv(Next(s, e)) && Next(s, e).g.positioned
    ensures DeviceReturns(VqOf(s), VqOf(Next(s, e)))
  {
    hide PoolOk, TablesOk, Encoded, DeviceReturns;
    DeviceStepKeepsInv(s, e);
    OneMoreReturned(s.v.numFree, s.g.pool, s.g.ring.queue, |s.g.ring.lens|, e.i);
  }

  /** Fetching and the notification steps leave it alone. */
  lemma OtherStepsKeepVq(s: System, e: Event)
    requires SystemInv(s) && s.g.positioned && Allowed(s, e)
    requires e.DeviceFetch? || e.KickPrepare? || e.EnableCb? || e.DisableCb? || e.DeviceAsks?
    ensures SystemInv(Next(s, e)) && Next(s, e).g.positioned && VqOf(Next(s, e)) == VqOf(s)
  {
    StepKeepsInv(s, e);
  }

  /** A run with an honest device and without detach_unused_buf. */
  predicate Orderly(es: seq<Event>) {
    forall e :: e in es ==> !e.DetachUnused? && !e.DeviceStores?
  }

  lemma StepIsVq(s: System, e: Event)
    requires SystemInv(s) && s.g.positioned && Allowed(s, e) && !e.DetachUnused? && !e.DeviceStores?
    ensures SystemInv(Next(s, e)) && Next(s, e).g.positioned
    ensures VqOk(VqOf(Next(s, e))) && VqStep(VqOf(s), VqOf(Next(s, e)))
  {
    hide PoolOk, InStep, TablesOk, DeviceReturns, VqOf, Abs;
    if e.Submission? { SubmissionIsVq(s, e); }
    else if e.GetBuf? { GetBufIsVq(s); }
    else if e.DeviceComplete? { CompletionIsVq(s, e); }
    else { OtherStepsKeepVq(s, e); }
    VqOfIsOk(Next(s, e));
  }

  /** Over every such run the ring steps through states of the queue that the drivers work with. */
  lemma {:induction false} RunIsVq(s: System, es: seq<Event>) returns (vs: seq<Vq>)
    requires SystemInv(s) && s.g.positioned && Runs(s, es) && Orderly(es)
    ensures SystemInv(Final(s, es)) && Final(s, es).g.positioned
    ensures |vs| == |es| + 1 && vs[0] == VqOf(s) && vs[|es|] == VqOf(Final(s, es))
    ensures (forall i :: 0 <= i <= |es| ==> VqOk(vs[i])) && forall i :: 0 <= i < |es| ==> VqStep(vs[i], vs[i + 1])
    decreases |es|
  {
    hide VqOf, SystemInv, VqStep, VqOk, Allowed;
    VqOfIsOk(s);
    vs := [VqOf(s)];
    if es != [] {
      StepIsVq(s, es[0]);
      var rest := RunIsVq(Next(s, es[0]), es[1..]);
      vs := vs + rest;
    }
  }

  /** A new ring is a new queue. */
  lemma StartIsVq(n: nat, eventSuppression: bool)
    requires 0 < n <= 0x8000
    ensures VqOf(Start(n, eventSuppression)) == Vq(Queue(n, multiset{}), [])
  {
    assert Entries([]) == [];
  }

  // ----- the device while add_buf is storing

  /** While k descriptors are being written from the write position on, a completion finds in memory what it
      would have found before, changes none of those k slots, and leaves nothing published. */
  lemma CompletionDuringAdd(r: Ring, m: seq<Desc>, k: nat, i: nat, len: nat, write: bool)
    requires Inv(r) && |r.lens| <= i < r.fetched && |r.log| + k <= r.starts[0] + |r.mem|
    requires Unpublished(m, r.mem, Slot(|r.log|, |r.mem|), k)
    ensures var n, head, u := |r.mem|, Slot(|r.log|, |r.mem|), Slot(r.starts[|r.lens|], |r.mem|);
      var r' := Completed(r, i, len, write);
      && m[u] == r.mem[u] && k <= Offset(u, head, n)
      && r'.mem == r.mem[u := r'.mem[u]] && Unpublished(m[u := r'.mem[u]], r'.mem, head, k)
      && forall x :: 0 <= x < n && Offset(x, head, n) < k ==> x != u
  {
    var n, a, p := |r.mem|, |r.log|, r.starts[|r.lens|];
    SpansAscend(r, |r.lens|, |r.queue|);
    assert r.starts[0] <= p;
    OneLapBack(a, p, n);
    assert Offset(Slot(p, n), Slot(a, n), n) == p + n - a;
  }

  lemma AddKeepsFront(r: Ring, b: Buf, i: nat)
    requires Inv(r) && Shaped(b) && |r.log| + |b.slots| <= r.starts[0] + |r.mem| && |r.lens| <= i < r.fetched
    ensures Inv(Added(r, b)) && Added(r, b).queue[i] == r.queue[i]
    ensures Added(r, b).starts[|r.lens|] == r.starts[|r.lens|] < |r.log|
    ensures Added(r, b).log[r.starts[|r.lens|]] == r.log[r.starts[|r.lens|]]
  {
    AddKeepsInv(r, b);
    SpansAscend(r, |r.lens|, |r.queue|);
  }

  lemma SameRing(r: Ring, b: Buf, i: nat, len: nat, write: bool)
    requires Layout(r) && Shaped(b) && |b.slots| <= |r.mem| && |r.lens| <= i < r.fetched
    requires Layout(Added(r, b)) && Added(r, b).starts[|r.lens|] == r.starts[|r.lens|] < |r.log|
    requires Added(r, b).log[r.starts[|r.lens|]] == r.log[r.starts[|r.lens|]] && Added(r, b).queue[i] == r.queue[i]
    requires |r.starts| == |r.queue| + 1
    requires Offset(Slot(r.starts[|r.lens|], |r.mem|), Slot(|r.log|, |r.mem|), |r.mem|) >= |b.slots|
    ensures Added(Completed(r, i, len, write), b) == Completed(Added(r, b), i, len, write)
  {
    hide Inv, Lap, Slot, Shaped, Spans, Ascending, Mirrors, Parts;
    var x, y := Added(Completed(r, i, len, write), b), Completed(Added(r, b), i, len, write);
    assert x.mem == y.mem;
    assert x.log == y.log;
    assert x.queue == y.queue;
    assert x.starts == y.starts;
  }

  /** The ring is the same whether the buffer is added before the completion or after. */
  lemma RingCommutes(r: Ring, b: Buf, i: nat, len: nat, write: bool)
    requires Inv(r) && Shaped(b) && |r.log| + |b.slots| <= r.starts[0] + |r.mem| && |r.lens| <= i < r.fetched
    ensures Layout(Added(r, b)) && Added(Completed(r, i, len, write), b) == Completed(Added(r, b), i, len, write)
  {
    AddKeepsFront(r, b, i);
    var n, a, p := |r.mem|, |r.log|, r.starts[|r.lens|];
    OneLapBack(a, p, n);
    assert Offset(Slot(p, n), Slot(a, n), n) == p + n - a;
    hide Added, Completed;
    SameRing(r, b, i, len, write);
  }

  lemma AddAfterCompletion(s: System, b: Buf, i: nat, len: nat, write: bool)
    requires SystemInv(s) && s.g.positioned && PackedSystem.CanAdd(s, b) && CanComplete(s, i)
    ensures PackedSystem.CanAdd(AfterComplete(s, i, len, write), b) && CanComplete(AfterAdd(s, b), i)
    ensures InStep(AfterAdd(AfterComplete(s, i, len, write), b)) && InStep(AfterComplete(AfterAdd(s, b), i, len, write))
  {
    hide Records, Partition, Inv, TablesOk;
    var s1 := AfterComplete(s, i, len, write);
    SamePool(s, s1);
    CompleteKeepsStep(s, i, len, write);
    AddKeepsStep(s1, b);
    AddKeepsStep(s, b);
    CompleteKeepsStep(AfterAdd(s, b), i, len, write);
  }

  /** What add_buf does to the other fields does not depend on what is in the ring. */
  lemma AddSpecApart(v: Packed, desc: seq<Desc>, b: Buf)
    requires InRange(v) && Shaped(b) && |b.slots| <= v.numFree && |desc| == |v.desc| && b.slots[0] < |v.desc|
    requires InRange(v.(desc := desc))
    ensures AddSpec(v.(desc := desc), b) == AddSpec(v, b).(desc := AddSpec(v.(desc := desc), b).desc)
  {
  }

  /** The system after b was added, up to what is in the ring. */
  lemma AddApart(s: System, s1: System, b: Buf)
    requires PackedSystem.CanAdd(s, b) && PackedSystem.CanAdd(s1, b) && s.g.positioned
    requires |s.g.ring.mem| == |s.v.desc| == |s1.v.desc| == |s1.g.ring.mem|
    requires s1.v == s.v.(desc := s1.v.desc) && s1.g == s.g.(ring := s1.g.ring) && s1.tables == s.tables
    ensures var x, y := AfterAdd(s, b), AfterAdd(s1, b);
      && y.v == x.v.(desc := y.v.desc) && y.g == x.g.(ring := Added(s1.g.ring, b)) && x.g.ring == Added(s.g.ring, b)
      && y.dev == s1.dev && x.dev == s.dev && x.tables == y.tables == s.tables
  {
    hide PoolInv, Overwrite, Hop, WithRecord, Added;
    AddSpecApart(s.v, s1.v.desc, b);
  }

  /** A completion that happens while add_buf stores - where CompletionDuringAdd shows that it neither sees nor
      disturbs those stores - leads to the same state as one before the call, or after it. */
  lemma CompletionCommutesWithAdd(s: System, b: Buf, i: nat, len: nat, write: bool)
    requires SystemInv(s) && s.g.positioned && PackedSystem.CanAdd(s, b) && CanComplete(s, i)
    ensures PackedSystem.CanAdd(AfterComplete(s, i, len, write), b) && CanComplete(AfterAdd(s, b), i)
    ensures AfterAdd(AfterComplete(s, i, len, write), b) == AfterComplete(AfterAdd(s, b), i, len, write)
  {
    AddAfterCompletion(s, b, i, len, write);
    CompletionApart(s, i, len, write);
    AddApart(s, AfterComplete(s, i, len, write), b);
    AddKeepsFront(s.g.ring, b, i);
    RingCommutes(s.g.ring, b, i, len, write);
    hide PoolOk, Inv, Encoded, Completed, Added, AddSpec;
    var x, y := AfterAdd(AfterComplete(s, i, len, write), b), AfterComplete(AfterAdd(s, b), i, len, write);
    assert x.g.ring == y.g.ring;
    assert x.g == y.g && x.dev == y.dev;
    assert x.v.desc == x.g.ring.mem && y.v.desc == y.g.ring.mem;
  }

  lemma CompletionApart(s: System, i: nat, len: nat, write: bool)
    requires CanComplete(s, i)
    ensures var s1 := AfterComplete(s, i, len, write);
      && s1.v == s.v.(desc := s1.v.desc) && s1.g == s.g.(ring := Completed(s.g.ring, i, len, write))
      && s1.tables == s.tables && |s1.v.desc| == |s.v.desc| == |s1.g.ring.mem|
  {
  }

  /** What a fetch does, by the length of the chain it finds. */
  lemma FetchMoves(s: System)
    requires CanFetch(s)
    ensures s.g.ring.fetched < |s.g.ring.queue| && |s.g.ring.queue[s.g.ring.fetched].slots| <= |s.v.desc|
    ensures var n, k, d := |s.v.desc|, |s.g.ring.queue[s.g.ring.fetched].slots|, s.dev;
      d.fetchIdx < n && AfterFetch(s)
        == s.(dev := d.(fetchIdx := Forward(d.fetchIdx, k, n), fetchWrap := d.fetchWrap != (d.fetchIdx + k >= n)),
              g := s.g.(ring := s.g.ring.(fetched := s.g.ring.fetched + 1)))
  {
    FetchWalksTheChain(s);
    FetchFits(s.g.ring);
  }

  lemma FetchFits(r: Ring)
    requires Layout(r) && r.fetched < |r.queue|
    ensures |r.queue[r.fetched].slots| <= |r.mem|
  {
    assert Shaped(r.queue[r.fetched]) && r.starts[r.fetched + 1] == r.starts[r.fetched] + |r.queue[r.fetched].slots|;
    if r.fetched > 0 { SpansAscend(r, 0, r.fetched); }
    if r.fetched + 1 < |r.queue| { SpansAscend(r, r.fetched + 1, |r.queue|); }
  }

  lemma FetchAfterAdd(s: System, b: Buf)
    requires SystemInv(s) && s.g.positioned && PackedSystem.CanAdd(s, b) && CanFetch(s)
    requires s.g.ring.fetched < |s.g.ring.queue|
    ensures PackedSystem.CanAdd(AfterFetch(s), b) && CanFetch(AfterAdd(s, b))
    ensures AfterAdd(s, b).g.ring.queue[s.g.ring.fetched] == s.g.ring.queue[s.g.ring.fetched]
  {
    hide Records, Partition, Encoded, TablesOk;
    FetchWalksTheChain(s);
    AddKeepsStep(s, b);
    FetchWalksTheChain(AfterAdd(s, b));
    SamePool(s, AfterFetch(s));
  }

  /** A fetch that happens while add_buf stores reads what it would have read before the call. */
  lemma FetchCommutesWithAdd(s: System, b: Buf)
    requires SystemInv(s) && s.g.positioned && PackedSystem.CanAdd(s, b) && CanFetch(s)
    ensures PackedSystem.CanAdd(AfterFetch(s), b) && CanFetch(AfterAdd(s, b))
    ensures AfterAdd(AfterFetch(s), b) == AfterFetch(AfterAdd(s, b))
  {
    FetchMoves(s);
    FetchAfterAdd(s, b);
    FetchMoves(AfterAdd(s, b));
    AddApartFromFetch(s, AfterFetch(s), b);
    hide PoolOk, InStep, AfterAdd, AfterFetch;
  }

  lemma AddApartFromFetch(s: System, s1: System, b: Buf)
    requires PackedSystem.CanAdd(s, b) && PackedSystem.CanAdd(s1, b) && s.g.positioned && |s.g.ring.mem| == |s.v.desc|
    requires s1 == s.(dev := s1.dev, g := s.g.(ring := s.g.ring.(fetched := s1.g.ring.fetched)))
    ensures var x, y := AfterAdd(s, b), AfterAdd(s1, b);
      && y == x.(dev := s1.dev, g := x.g.(ring := x.g.ring.(fetched := s1.g.ring.fetched)))
      && x.dev == s.dev && x.g.ring.fetched == s.g.ring.fetched && |x.v.desc| == |s.v.desc|
  {
    hide PoolInv, Hop, WithRecord;
  }
}
