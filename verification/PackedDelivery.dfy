/** What passes through the packed ring over whole runs: the device reads the requests that clients submitted, each
    with its own list and token, and the driver gets the answers that the device gave, both in order. */
module PackedDelivery {
  import opened Queues
  import opened Rings
  import opened DescriptorPool
  import opened Delivery
  import opened PackedProtocol
  import opened PackedSpec
  import opened PackedSystem
  import opened PackedRefinement

  /** What a fetch reads: the list that the descriptors from the device's index on stand for, and the token that
      the driver keeps under their id. */
  ghost function RequestRead(s: System): Request
    requires InRange(s.v)
  {
    if s.dev.fetchIdx >= |s.v.desc| then Request(None, [])
    else
      var ds := Walk(s.v.desc, s.dev.fetchIdx, |s.v.desc|);
      Request(if ds[0].id < |s.v.state| then s.v.state[ds[0].id].data else None, ReadList(s.tables, ds))
  }

  /** The request of a submission that fits, as its caller gave it: element i is the caller's, and the device may
      write it from element `out` on. */
  ghost function SubmittedBy(s: System, e: Event): seq<Request> {
    match e
    case Submission(sg, out, token, table, _) =>
      if CostOf(|sg|, table.Some?, s.v.numFree) <= s.v.numFree
      then [Request(Some(token), seq(|sg|, i requires 0 <= i < |sg| => Element(sg[i].addr, sg[i].len, i >= out)))]
      else []
    case _ => []
  }

  ghost function FetchedBy(s: System, e: Event): seq<Request>
    requires InRange(s.v)
  {
    if e.DeviceFetch? then [RequestRead(s)] else []
  }

  /** The answer of a completion: the device returns buffer i with this length. */
  ghost function AnsweredBy(s: System, e: Event): seq<Answer> {
    if e.DeviceComplete? && e.i < |s.g.ring.queue| then [Answer(Some(s.g.ring.queue[e.i].token), e.len)] else []
  }

  /** What get_buf answers. */
  ghost function GotBy(s: System, e: Event): seq<Answer>
    requires InRange(s.v)
  {
    if e.GetBuf? && GetResult(s.v).Buffer? then [Answer(Some(GetResult(s.v).token), GetResult(s.v).len)] else []
  }

  // ----- one step

  /** A submission that fits puts the list in the ring that its caller gave, under the caller's token. */
  lemma SubmissionQueuesTheList(s: System, e: Event)
    requires SystemInv(s) && e.Submission? && Allowed(s, e)
    requires CostOf(|e.sg|, e.table.Some?, s.v.numFree) <= s.v.numFree
    ensures var g, g' := s.g, Next(s, e).g;
      && |g'.pool| == |g.pool| + 1 && g'.pool == g.pool + [g'.pool[|g.pool|]]
      && (g.positioned ==> g'.ring.queue == g.ring.queue + [g'.pool[|g.pool|]])
      && g'.ring.fetched == g.ring.fetched && g'.ring.lens == g.ring.lens
      && g'.pool[|g.pool|].token == e.token
      && ListOf(g'.pool[|g.pool|])
         == seq(|e.sg|, i requires 0 <= i < |e.sg| => Element(e.sg[i].addr, e.sg[i].len, i >= e.out))
  {
    hide Partition, Records, Overwrite;
    assert PackedSystem.CanAdd(s, BufOf(s.v, e.sg, e.out, e.token, e.table));
  }

  /** What a fetch reads is the request at the front of those not yet fetched. */
  lemma FetchReadsTheRequest(s: System)
    requires SystemInv(s) && s.g.positioned && CanFetch(s)
    ensures s.dev.fetchIdx < |s.v.desc| && s.g.ring.fetched < |s.g.ring.queue|
    ensures RequestRead(s) == RequestOf(s.g.ring.queue[s.g.ring.fetched])
  {
    hide Describes, Inv, Partition, TablesOk;
    FetchReadsTheBuffer(s);
    var b := s.g.ring.queue[s.g.ring.fetched];
    assert Recorded(s.v.state, s.g.pool[IndexOf(s.g.pool, b)]);
  }

  /** What was to be fetched and what is submitted is what is fetched and what is to be fetched then; what was to
      be read and what is answered is what is got and what is to be read then. */
  ghost predicate Delivers(s: System, e: Event, s': System)
    requires InRange(s.v)
  {
    && Pending(s.g.ring.queue, s.g.ring.fetched) + SubmittedBy(s, e)
       == FetchedBy(s, e) + Pending(s'.g.ring.queue, s'.g.ring.fetched)
    && Unread(s.g.ring.queue, s.g.ring.lens) + AnsweredBy(s, e) == GotBy(s, e) + Unread(s'.g.ring.queue, s'.g.ring.lens)
  }

  lemma InOrder(s: System)
    requires SystemInv(s) && s.g.positioned
    ensures InRange(s.v) && |s.g.ring.lens| <= s.g.ring.fetched <= |s.g.ring.queue|
    ensures |Pending(s.g.ring.queue, s.g.ring.fetched)| == |s.g.ring.queue| - s.g.ring.fetched
    ensures |Unread(s.g.ring.queue, s.g.ring.lens)| == |s.g.ring.lens|
  {
  }

  lemma GetDelivers(s: System)
    requires SystemInv(s) && s.g.positioned && Allowed(s, GetBuf)
    ensures Delivers(s, GetBuf, Next(s, GetBuf))
  {
    hide PoolOk, TablesOk, InStep, Pending, Unread;
    InOrder(s);
    GetIsExact(s);
    if s.g.ring.lens != [] {
      GetKeepsInv(s);
      ReadTakesTheFirst(s.g.ring.queue, s.g.ring.fetched, s.g.ring.lens);
    }
  }

  lemma SubmissionDelivers(s: System, e: Event)
    requires SystemInv(s) && s.g.positioned && e.Submission? && Allowed(s, e)
    ensures InRange(s.v) && Delivers(s, e, Next(s, e))
  {
    hide PoolOk, TablesOk, InStep, Pending, Unread, AfterAdd;
    InOrder(s);
    if CostOf(|e.sg|, e.table.Some?, s.v.numFree) <= s.v.numFree {
      SubmissionQueuesTheList(s, e);
      AppendPends(s.g.ring.queue, s.g.ring.fetched, s.g.ring.lens, Next(s, e).g.pool[|s.g.pool|]);
    }
  }

  lemma StepDelivers(s: System, e: Event)
    requires SystemInv(s) && s.g.positioned && Allowed(s, e) && !e.DetachUnused? && !e.DeviceStores?
    ensures InRange(s.v) && Delivers(s, e, Next(s, e))
  {
    hide PoolOk, TablesOk, Encoded, Layout, Pending, Unread, AfterAdd, GetStep, RequestRead, RequestOf;
    InOrder(s);
    if e.Submission? {
      SubmissionDelivers(s, e);
    } else if e.GetBuf? {
      GetDelivers(s);
    } else if e.DeviceFetch? {
      FetchReadsTheRequest(s);
      FetchTakesTheFirst(s.g.ring.queue, s.g.ring.fetched);
    } else if e.DeviceComplete? {
      ReturnAppends(s.g.ring.queue, s.g.ring.fetched, s.g.ring.lens, e.i, e.len);
    }
  }

  // ----- runs

  ghost function Submitted(s: System, es: seq<Event>): seq<Request>
    requires SystemInv(s) && Runs(s, es)
    decreases |es|
  {
    if es == [] then []
    else
      StepKeepsInv(s, es[0]);
      SubmittedBy(s, es[0]) + Submitted(Next(s, es[0]), es[1..])
  }

  ghost function Fetched(s: System, es: seq<Event>): seq<Request>
    requires SystemInv(s) && Runs(s, es)
    decreases |es|
  {
    if es == [] then []
    else
      StepKeepsInv(s, es[0]);
      FetchedBy(s, es[0]) + Fetched(Next(s, es[0]), es[1..])
  }

  ghost function Answered(s: System, es: seq<Event>): seq<Answer>
    requires SystemInv(s) && Runs(s, es)
    decreases |es|
  {
    if es == [] then []
    else
      StepKeepsInv(s, es[0]);
      AnsweredBy(s, es[0]) + Answered(Next(s, es[0]), es[1..])
  }

  ghost function Got(s: System, es: seq<Event>): seq<Answer>
    requires SystemInv(s) && Runs(s, es)
    decreases |es|
  {
    if es == [] then []
    else
      StepKeepsInv(s, es[0]);
      GotBy(s, es[0]) + Got(Next(s, es[0]), es[1..])
  }

  /** Over every run with an honest device and without detach_unused_buf, what was to be fetched and what clients
      submitted is what the device read and what is to be fetched now, request for request and in that order;
      likewise the answers on their way back. */
  lemma {:induction false} RunDelivers(s: System, es: seq<Event>)
    requires SystemInv(s) && s.g.positioned && Runs(s, es) && Orderly(es)
    ensures SystemInv(Final(s, es)) && Final(s, es).g.positioned
    ensures var f := Final(s, es);
      && Pending(s.g.ring.queue, s.g.ring.fetched) + Submitted(s, es)
         == Fetched(s, es) + Pending(f.g.ring.queue, f.g.ring.fetched)
      && Unread(s.g.ring.queue, s.g.ring.lens) + Answered(s, es) == Got(s, es) + Unread(f.g.ring.queue, f.g.ring.lens)
    decreases |es|
  {
    hide SystemInv, Pending, Unread, Allowed, SubmittedBy, FetchedBy, AnsweredBy, GotBy;
    if es != [] {
      var e, s', rest := es[0], Next(s, es[0]), es[1..];
      StepIsVq(s, e);
      StepDelivers(s, e);
      RunDelivers(s', rest);
      var f := Final(s', rest);
      Chained(Pending(s.g.ring.queue, s.g.ring.fetched), SubmittedBy(s, e), FetchedBy(s, e),
              Pending(s'.g.ring.queue, s'.g.ring.fetched),
              Submitted(s', rest), Fetched(s', rest), Pending(f.g.ring.queue, f.g.ring.fetched));
      Chained(Unread(s.g.ring.queue, s.g.ring.lens), AnsweredBy(s, e), GotBy(s, e),
              Unread(s'.g.ring.queue, s'.g.ring.lens),
              Answered(s', rest), Got(s', rest), Unread(f.g.ring.queue, f.g.ring.lens));
    }
  }

  lemma NothingAtTheStart(n: nat, eventSuppression: bool)
    requires 0 < n <= 0x8000
    ensures var s := Start(n, eventSuppression);
      Pending(s.g.ring.queue, s.g.ring.fetched) == [] && Unread(s.g.ring.queue, s.g.ring.lens) == []
  {
  }

  lemma FetchTest(s: System)
    requires SystemInv(s) && s.g.positioned
    ensures s.dev.fetchIdx < |s.v.desc|
    ensures IsAvailable(s.v.desc[s.dev.fetchIdx], s.dev.fetchWrap) <==> s.g.ring.fetched < |s.g.ring.queue|
  {
    FetchReadsTheBuffer(s);
  }

  /** So from the start on the device reads exactly what clients submitted, nothing twice, nothing out of order
      and nothing else, and once its test finds nothing available it has read it all. */
  lemma DeviceReadsWhatWasSubmitted(n: nat, eventSuppression: bool, es: seq<Event>)
    requires 0 < n <= 0x8000 && Runs(Start(n, eventSuppression), es) && Orderly(es)
    ensures var s := Start(n, eventSuppression);
      var f := Final(s, es);
      && Fetched(s, es) <= Submitted(s, es)
      && f.dev.fetchIdx < |f.v.desc|
      && (Fetched(s, es) == Submitted(s, es) <==> !IsAvailable(f.v.desc[f.dev.fetchIdx], f.dev.fetchWrap))
  {
    hide SystemInv, Allowed, Fetched, Submitted, Runs, Final, Pending;
    var s := Start(n, eventSuppression);
    var f := Final(s, es);
    NothingAtTheStart(n, eventSuppression);
    RunDelivers(s, es);
    assert Submitted(s, es) == Fetched(s, es) + Pending(f.g.ring.queue, f.g.ring.fetched);
    InOrder(f);
    FetchTest(f);
  }

  /** And the driver gets exactly the answers that the device gave, each with the token of the buffer that the
      device returned and its length, in the order of return; once get_buf finds nothing it has got them all. */
  lemma DriverGetsWhatWasAnswered(n: nat, eventSuppression: bool, es: seq<Event>)
    requires 0 < n <= 0x8000 && Runs(Start(n, eventSuppression), es) && Orderly(es)
    ensures var s := Start(n, eventSuppression);
      var f := Final(s, es);
      && Got(s, es) <= Answered(s, es)
      && InRange(f.v) && (Got(s, es) == Answered(s, es) <==> GetResult(f.v) == Nothing)
  {
    hide SystemInv, Allowed, Got, Answered, Runs, Final, Unread;
    var s := Start(n, eventSuppression);
    var f := Final(s, es);
    NothingAtTheStart(n, eventSuppression);
    RunDelivers(s, es);
    assert Answered(s, es) == Got(s, es) + Unread(f.g.ring.queue, f.g.ring.lens);
    InOrder(f);
    GetIsExact(f);
  }
}
