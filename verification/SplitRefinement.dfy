/** Two more views of the split ring in its runs: with the buffers that the device has returned in order of
    return, it is the queue that the drivers above it work with; and what the device does while add_buf is
    storing is what it could have done before. */
module SplitRefinement {
  import opened Queues
  import opened Rings
  import opened DescriptorPool
  import opened SplitSpec
  import opened SplitSystem
  import opened EventIndex

  /** The queue with its returned buffers. */
  ghost function VqOf(s: System): Vq
    requires |s.g.lens| <= |s.g.queue|
  {
    VqOfPool(s.v.numUnused, s.g.pool, s.g.queue[..|s.g.lens|])
  }

  lemma VqOfIsOk(s: System)
    requires SystemInv(s) && s.g.positioned
    ensures |s.g.lens| <= |s.g.queue| && VqOk(VqOf(s))
  {
    VqOfPoolOk(s.v.numUnused, s.g.pool, s.g.queue, |s.g.lens|);
  }

  lemma ReadIsGetBuf(s: System)
    requires CanGet(s) && |s.g.lens| <= |s.g.queue|
    requires Abs(AfterGet(s)) == Remove(Abs(s), Entry(s.g.queue[0].token, |s.g.queue[0].slots|))
    ensures |AfterGet(s).g.lens| <= |AfterGet(s).g.queue| && VqOf(s).returned != []
    ensures VqOf(AfterGet(s)) == Queues.GetBuf(VqOf(s))
  {
    hide InRange, IsChain;
    var q, k := s.g.queue, |s.g.lens|;
    assert q[1..][..k - 1] == q[..k][1..];
    assert Entries(q[..k][1..]) == Entries(q[..k])[1..];
  }

  /** get_buf returns the buffer that the device returned first. */
  lemma GetBufIsVq(s: System)
    requires SystemInv(s) && s.g.positioned
    ensures SystemInv(GetStep(s)) && GetStep(s).g.positioned
    ensures VqOf(GetStep(s)) == if VqOf(s).returned == [] then VqOf(s) else Queues.GetBuf(VqOf(s))
  {
    hide PoolOk, TablesOk, Named, Abs;
    GetStepKeepsInv(s);
    GetIsExact(s);
    if s.g.lens != [] {
      GetKeepsInv(s);
      ReadIsGetBuf(s);
    }
  }

  lemma AddIsAddBuf(s: System, b: Buf)
    requires SplitSystem.CanAdd(s, b) && |s.g.lens| <= |s.g.queue|
    requires Abs(AfterAdd(s, b)) == Add(Abs(s), Entry(b.token, |b.slots|))
    ensures VqOf(AfterAdd(s, b)) == Queues.AddBuf(VqOf(s), Entry(b.token, |b.slots|))
  {
    var q, k := s.g.queue, |s.g.lens|;
    assert (q + [b])[..k] == q[..k];
  }

  lemma SameVq(s: System, tables: map<nat, seq<Desc>>)
    requires |s.g.lens| <= |s.g.queue|
    ensures VqOf(s.(tables := tables)) == VqOf(s)
  {
  }

  /** A submission goes in exactly if it fits, as one entry of its cost. */
  lemma SubmissionIsVq(s: System, e: Event)
    requires SystemInv(s) && s.g.positioned && e.Submission? && Allowed(s, e)
    ensures SystemInv(Next(s, e)) && Next(s, e).g.positioned
    ensures var cost := CostOf(|e.sg|, e.table.Some?, VqOf(s).queue.free);
      VqOf(Next(s, e)) == if Queues.CanAdd(VqOf(s), cost) then Queues.AddBuf(VqOf(s), Entry(e.token, cost)) else VqOf(s)
  {
    hide FreeList, Chains, Records;
    SubmissionKeepsInv(s, e);
    var b := BufOf(s.v, e.sg, e.out, e.token, e.table);
    if CostOf(|e.sg|, e.table.Some?, s.v.numUnused) <= s.v.numUnused {
      AddKeepsPool(s, b);
      AddIsAddBuf(s, b);
      SameVq(AfterAdd(s, b), WithPage(s.tables, b, e.page));
    }
  }

  /** A completion, of whichever buffer, is a return. */
  lemma CompletionIsVq(s: System, e: Event)
    requires SystemInv(s) && s.g.positioned && e.DeviceComplete? && Allowed(s, e)
    ensures SystemInv(Next(s, e)) && Next(s, e).g.positioned
    ensures DeviceReturns(VqOf(s), VqOf(Next(s, e)))
  {
    hide PoolOk, TablesOk, Named, DeviceReturns;
    CompleteKeepsInv(s, e.i, e.len);
    OneMoreReturned(s.v.numUnused, s.g.pool, s.g.queue, |s.g.lens|, e.i);
  }

  /** Fetching and the notification steps leave it alone. */
  lemma OtherStepsKeepVq(s: System, e: Event)
    requires SystemInv(s) && s.g.positioned && Allowed(s, e)
    requires e.DeviceFetch? || e.KickPrepare? || e.EnableCb? || e.DisableCb? || e.DeviceAsks?
    ensures SystemInv(Next(s, e)) && Next(s, e).g.positioned && VqOf(Next(s, e)) == VqOf(s)
  {
    StepKeepsInv(s, e);
  }

  /** A run with an honest device and without detach_unused_buf. */
  predicate Orderly(es: seq<Event>) {
    forall e :: e in es ==> !e.DetachUnused? && !e.DeviceStores?
  }

  lemma StepIsVq(s: System, e: Event)
    requires SystemInv(s) && s.g.positioned && Allowed(s, e) && !e.DetachUnused? && !e.DeviceStores?
    ensures SystemInv(Next(s, e)) && Next(s, e).g.positioned
    ensures VqOk(VqOf(Next(s, e))) && VqStep(VqOf(s), VqOf(Next(s, e)))
  {
    hide PoolOk, InStep, TablesOk, DeviceReturns, VqOf, Abs;
    if e.Submission? { SubmissionIsVq(s, e); }
    else if e.GetBuf? { GetBufIsVq(s); }
    else if e.DeviceComplete? { CompletionIsVq(s, e); }
    else { OtherStepsKeepVq(s, e); }
    VqOfIsOk(Next(s, e));
  }

  /** Over every such run the ring steps through states of the queue that the drivers work with. */
  lemma {:induction false} RunIsVq(s: System, es: seq<Event>) returns (vs: seq<Vq>)
    requires SystemInv(s) && s.g.positioned && Runs(s, es) && Orderly(es)
    ensures SystemInv(Final(s, es)) && Final(s, es).g.positioned
    ensures |vs| == |es| + 1 && vs[0] == VqOf(s) && vs[|es|] == VqOf(Final(s, es))
    ensures (forall i :: 0 <= i <= |es| ==> VqOk(vs[i])) && forall i :: 0 <= i < |es| ==> VqStep(vs[i], vs[i + 1])
    decreases |es|
  {
    hide VqOf, SystemInv, VqStep, VqOk, Allowed;
    VqOfIsOk(s);
    vs := [VqOf(s)];
    if es != [] {
      StepIsVq(s, es[0]);
      var rest := RunIsVq(Next(s, es[0]), es[1..]);
      vs := vs + rest;
    }
  }

  /** A new ring is a new queue. */
  lemma StartIsVq(n: nat, eventSuppression: bool)
    requires 0 < n <= 0x8000 && Slot(U16, n) == 0
    ensures VqOf(Start(n, eventSuppression)) == Vq(Queue(n, multiset{}), [])
  {
    assert Entries([]) == [];
  }

  // ----- the device while add_buf is storing

  lemma AddAfterCompletion(s: System, b: Buf, i: nat, len: nat)
    requires SystemInv(s) && s.g.positioned && SplitSystem.CanAdd(s, b) && CanComplete(s, i)
    ensures SplitSystem.CanAdd(AfterComplete(s, i, len), b) && CanComplete(AfterAdd(s, b), i)
  {
    hide Lists, TablesOk;
    CompleteKeepsInv(s, i, len);
    FitsRing(s);
    AddKeepsStep(s, b);
  }

  lemma SameEitherWay(s: System, b: Buf, i: nat, len: nat)
    requires SplitSystem.CanAdd(s, b) && CanComplete(s, i)
    requires SplitSystem.CanAdd(AfterComplete(s, i, len), b) && CanComplete(AfterAdd(s, b), i)
    ensures AfterAdd(AfterComplete(s, i, len), b) == AfterComplete(AfterAdd(s, b), i, len)
  {
    hide InRange, WithChain, Hop;
    var x, y := AfterAdd(AfterComplete(s, i, len), b), AfterComplete(AfterAdd(s, b), i, len);
    assert x.g.queue == y.g.queue;
    assert x.v == y.v;
  }

  /** A completion writes nothing that add_buf writes or a device reads of an addition - it writes the used
      ring and index - so that between any two stores of add_buf it leaves what is unpublished unpublished,
      and it leads to the same state before the call, in it or after it. */
  lemma CompletionCommutesWithAdd(s: System, b: Buf, i: nat, len: nat)
    requires SystemInv(s) && s.g.positioned && SplitSystem.CanAdd(s, b) && CanComplete(s, i)
    ensures var v, v' := s.v, AfterComplete(s, i, len).v;
      v'.desc == v.desc && v'.availRing == v.availRing && v'.availIdx == v.availIdx
    ensures SplitSystem.CanAdd(AfterComplete(s, i, len), b) && CanComplete(AfterAdd(s, b), i)
    ensures AfterAdd(AfterComplete(s, i, len), b) == AfterComplete(AfterAdd(s, b), i, len)
  {
    AddAfterCompletion(s, b, i, len);
    hide SplitSystem.CanAdd, AfterAdd;
    SameEitherWay(s, b, i, len);
  }

  /** A fetch reads the index, an entry and the table, and changes nothing in memory. */
  lemma FetchCommutesWithAdd(s: System, b: Buf)
    requires SystemInv(s) && s.g.positioned && SplitSystem.CanAdd(s, b) && s.g.fetched < |s.g.queue|
    ensures SplitSystem.CanAdd(AfterFetch(s), b) && AfterFetch(s).v == s.v
    ensures AfterAdd(AfterFetch(s), b) == AfterFetch(AfterAdd(s, b))
  {
    hide SystemInv, WithChain, Hop;
  }
}
