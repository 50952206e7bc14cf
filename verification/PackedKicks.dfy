/** No lost kick on the packed ring (sections 2.7.7 and 2.7.10 of VIRTIO 1.1): a device that stored what it wants to be
    notified of, looked once more and went idle, against a driver that adds buffers and calls kick_prepare. */
module PackedKicks {
  import opened Queues
  import opened Rings
  import opened DescriptorPool
  import opened PackedProtocol
  import opened PackedSpec
  import opened PackedSystem
  import opened EventIndex

  /** The device looks for buffers by itself; or it has stored its event structure; or it found nothing after
      that and is idle. */
  datatype Phase = Polling | Asked | Idle

  /** rung: a kick came since the device went idle. */
  datatype Bell = Bell(s: System, phase: Phase, rung: bool)

  /** A device that goes idle stores the position it will fetch next, or asks for every notification. */
  datatype BellStep =
    | Ordinary(e: Event)
    | AskForNext
    | AskForAll
    | LookAgain
    | WakeUp

  /** The word that names the position the device fetches next. */
  function NextWord(dev: Device): nat {
    OffWrap(dev.fetchIdx, dev.fetchWrap)
  }

  ghost predicate Can(x: Bell, t: BellStep) {
    match t
    case Ordinary(e) =>
      && Allowed(x.s, e) && !e.DetachUnused? && !e.DeviceStores?
      && (e.DeviceFetch? || e.DeviceAsks? ==> x.phase.Polling?)
    case AskForNext => x.phase.Polling?
    case AskForAll => x.phase.Polling?
    case LookAgain => x.phase.Asked? && InStep(x.s)
    case WakeUp => x.phase.Asked? || x.rung
  }

  ghost function Do(x: Bell, t: BellStep): Bell
    requires SystemInv(x.s) && Can(x, t)
  {
    match t
    case Ordinary(e) => x.(s := Next(x.s, e), rung := x.rung || (e.KickPrepare? && KickSpec(x.s.v).1))
    case AskForNext =>
      x.(s := x.s.(v := x.s.v.(deviceOffWrap := NextWord(x.s.dev), deviceFlags := DESC)), phase := Asked)
    case AskForAll => x.(s := x.s.(v := x.s.v.(deviceFlags := ENABLE)), phase := Asked)
    case LookAgain =>
      if IsAvailable(x.s.v.desc[x.s.dev.fetchIdx], x.s.dev.fetchWrap) then x.(phase := Polling)
      else x.(phase := Idle, rung := false)
    case WakeUp => x.(phase := Polling)
  }

  /** The position that the device fetches next. */
  ghost function FetchPos(s: System): nat
    requires s.g.ring.fetched < |s.g.ring.starts|
  {
    s.g.ring.starts[s.g.ring.fetched]
  }

  ghost predicate BellInv(x: Bell) {
    && SystemInv(x.s) && x.s.g.positioned && x.s.g.ring.fetched < |x.s.g.ring.starts|
    && (x.phase.Polling? || x.s.v.deviceFlags == ENABLE
        || (x.s.v.deviceFlags == DESC && x.s.v.deviceOffWrap == NextWord(x.s.dev)))
    && (x.phase.Idle? && !x.rung ==> x.s.g.kickedAt <= FetchPos(x.s))
  }

  /** A kick_prepare is one that its 16-bit arithmetic can decide: avail_wrap_counter is in step, and not more
      than 2^15 descriptors were added since the last. */
  ghost predicate Countable(x: Bell, t: BellStep) {
    t.Ordinary? && t.e.KickPrepare? ==> x.s.g.fullChains % 2 == 0 && x.s.v.numAdded <= 0x8000
  }

  /** A position of the last lap is what its own word names. */
  lemma PositionOfWord(a: nat, n: nat, p: nat)
    requires 0 < n <= 0x8000 && n <= a && a - n <= p < a
    ensures var w := OffWrap(Slot(p, n), Lap(p, n)); WordSlot(w) < n && EventPosition(a, n, w) == p
  {
    var w := OffWrap(Slot(p, n), Lap(p, n));
    OffWrapRoundTrip(Slot(p, n), Lap(p, n));
    EventPositionIsDecoded(a, n, w);
    var e := EventPosition(a, n, w);
    if p < e { WordsDiffer(p, e, n); } else if e < p { WordsDiffer(e, p, n); }
  }

  lemma FetchPosIsRecent(s: System)
    requires InStep(s)
    ensures s.g.ring.fetched < |s.g.ring.starts|
    ensures var a, n := |s.g.ring.log|, |s.v.desc|;
      && a - n <= FetchPos(s) <= a && n <= a && (FetchPos(s) < a <==> s.g.ring.fetched < |s.g.ring.queue|)
      && NextWord(s.dev) == OffWrap(Slot(FetchPos(s), n), Lap(FetchPos(s), n)) && s.g.kickedAt <= a
  {
    var r := s.g.ring;
    if r.fetched > 0 { SpansAscend(r, 0, r.fetched); }
    if r.fetched < |r.queue| { SpansAscend(r, r.fetched, |r.queue|); }
  }

  /** The kick_prepare that finds a buffer the idle device does not know of kicks. */
  lemma KickWakes(x: Bell)
    requires BellInv(x) && x.phase.Idle? && !x.rung && Countable(x, Ordinary(KickPrepare))
    requires x.s.g.ring.fetched < |x.s.g.ring.queue|
    ensures KickSpec(x.s.v).1
  {
    FetchPosIsRecent(x.s);
    if x.s.v.deviceFlags == DESC {
      PositionOfWord(|x.s.g.ring.log|, |x.s.v.desc|, FetchPos(x.s));
      KickIsExact(x.s);
    }
  }

  lemma KickKeepsBell(x: Bell)
    requires BellInv(x) && Countable(x, Ordinary(KickPrepare))
    ensures BellInv(Do(x, Ordinary(KickPrepare)))
  {
    NoticeKeepsInv(x.s, KickPrepare);
    FetchPosIsRecent(x.s);
    if x.phase.Idle? && !x.rung && x.s.g.ring.fetched < |x.s.g.ring.queue| { KickWakes(x); }
    hide PoolOk, TablesOk, InStep;
  }

  /** What the notification of an idle device depends on. */
  datatype Place = Place(fetchPos: nat, kickedAt: nat, dev: nat, wrap: bool, flags: nat, word: nat)

  ghost function PlaceOf(s: System): Place
    requires s.g.ring.fetched < |s.g.ring.starts|
  {
    Place(FetchPos(s), s.g.kickedAt, s.dev.fetchIdx, s.dev.fetchWrap, s.v.deviceFlags, s.v.deviceOffWrap)
  }

  /** The step from s to s' leaves it alone. */
  ghost predicate SamePlace(s: System, s': System) {
    && s.g.ring.fetched < |s.g.ring.starts| && s'.g.ring.fetched < |s'.g.ring.starts|
    && PlaceOf(s') == PlaceOf(s) && s'.g.positioned == s.g.positioned
  }

  lemma AddKeepsPlace(s: System, b: Buf, tables: map<nat, seq<Desc>>)
    requires PackedSystem.CanAdd(s, b) && s.g.positioned && |s.g.ring.mem| == |s.v.desc|
    requires s.g.ring.fetched < |s.g.ring.starts|
    ensures SamePlace(s, AfterAdd(s, b).(tables := tables))
  {
    hide PoolOk, Overwrite, Hop, WithRecord;
  }

  lemma SubmissionKeepsPlace(s: System, e: Event)
    requires SystemInv(s) && s.g.positioned && e.Submission? && Allowed(s, e)
    ensures SamePlace(s, Next(s, e))
  {
    FetchPosIsRecent(s);
    var b := BufOf(s.v, e.sg, e.out, e.token, e.table);
    if CostOf(|e.sg|, e.table.Some?, s.v.numFree) <= s.v.numFree { AddKeepsPlace(s, b, WithPage(s.tables, b, e.page)); }
    hide PoolInv, Inv, Encoded, TablesOk, AfterAdd, AddSpec;
  }

  lemma TakenKeepsPlace(s: System)
    requires CanGet(s)
    ensures SamePlace(s, AfterGet(s))
  {
    NextRead(s.g.ring);
    hide Inv, Mirrors, Ascending, InRange;
  }

  lemma GetKeepsPlace(s: System)
    requires SystemInv(s) && s.g.positioned
    ensures SamePlace(s, GetStep(s))
  {
    FetchPosIsRecent(s);
    GetIsExact(s);
    if s.g.ring.lens != [] {
      GetKeepsInv(s);
      TakenKeepsPlace(s);
    }
    hide SystemInv, PoolOk, InStep, CanGet, AfterGet, AfterAnyGet;
  }

  lemma CompleteKeepsPlace(s: System, i: nat, len: nat, write: bool)
    requires CanComplete(s, i)
    ensures SamePlace(s, AfterComplete(s, i, len, write))
  {
    FetchPosIsRecent(s);
    hide Inv, Encoded;
  }

  lemma NoticeKeepsPlace(s: System, e: Event)
    requires SystemInv(s) && s.g.positioned && (e.EnableCb? || e.DisableCb?)
    ensures SamePlace(s, AfterNotice(s, e))
  {
    FetchPosIsRecent(s);
  }

  lemma StepKeepsPlace(s: System, e: Event)
    requires SystemInv(s) && s.g.positioned && Allowed(s, e) && !e.DetachUnused? && !e.DeviceStores?
    requires !e.KickPrepare? && !e.DeviceFetch? && !e.DeviceAsks?
    ensures SamePlace(s, Next(s, e))
  {
    hide PoolOk, TablesOk, InStep, SamePlace, AfterNotice;
    if e.Submission? { SubmissionKeepsPlace(s, e); }
    else if e.GetBuf? { GetKeepsPlace(s); }
    else if e.DeviceComplete? { CompleteKeepsPlace(s, e.i, e.len, e.write); }
    else { NoticeKeepsPlace(s, e); }
  }

  lemma StaysPositioned(s: System, e: Event)
    requires SystemInv(s) && s.g.positioned && Allowed(s, e) && !e.DetachUnused? && !e.DeviceStores?
    ensures SystemInv(Next(s, e)) && Next(s, e).g.positioned
    ensures Next(s, e).g.ring.fetched < |Next(s, e).g.ring.starts|
  {
    hide PoolOk, TablesOk, Inv, Encoded;
    StepKeepsInv(s, e);
    if !e.KickPrepare? && !e.DeviceFetch? && !e.DeviceAsks? { StepKeepsPlace(s, e); }
    FetchPosIsRecent(Next(s, e));
  }

  /** Every interleaved step keeps: an idle device that was not woken was last notified before the position it
      waits for. */
  lemma StepKeepsBell(x: Bell, t: BellStep)
    requires BellInv(x) && Can(x, t) && Countable(x, t)
    ensures BellInv(Do(x, t))
  {
    match t
    case Ordinary(e) =>
      if e.KickPrepare? {
        KickKeepsBell(x);
      } else {
        hide PoolOk, TablesOk, InStep, Next;
        StaysPositioned(x.s, e);
        if !x.phase.Polling? { StepKeepsPlace(x.s, e); }
      }
    case AskForNext => OtherFieldsAreFree(x.s, Do(x, t).s);
    case AskForAll => OtherFieldsAreFree(x.s, Do(x, t).s);
    case LookAgain =>
      FetchWalksTheChain(x.s);
      FetchPosIsRecent(x.s);
    case WakeUp =>
  }

  /** Every step is possible where it happens, and every kick decision one that can be made. */
  ghost predicate Proceeds(x: Bell, ts: seq<BellStep>)
    requires BellInv(x)
    decreases |ts|
  {
    ts == []
    || (Can(x, ts[0]) && Countable(x, ts[0]) && (StepKeepsBell(x, ts[0]); Proceeds(Do(x, ts[0]), ts[1..])))
  }

  ghost function Reached(x: Bell, ts: seq<BellStep>): (y: Bell)
    requires BellInv(x) && Proceeds(x, ts)
    ensures BellInv(y)
    decreases |ts|
  {
    if ts == [] then x
    else
      StepKeepsBell(x, ts[0]);
      Reached(Do(x, ts[0]), ts[1..])
  }

  ghost function BellStart(n: nat, eventSuppression: bool): (x: Bell)
    requires 0 < n <= 0x8000
    ensures BellInv(x)
  {
    FetchPosIsRecent(Start(n, eventSuppression));
    Bell(Start(n, eventSuppression), Polling, false)
  }

  /** In every interleaving: if the device is idle and there is a buffer it has not fetched, then it was kicked
      since it went idle, or the driver has still to call kick_prepare - which will kick. */
  lemma NoLostKick(n: nat, eventSuppression: bool, ts: seq<BellStep>)
    requires 0 < n <= 0x8000 && Proceeds(BellStart(n, eventSuppression), ts)
    ensures var x := Reached(BellStart(n, eventSuppression), ts);
      x.phase.Idle? && x.s.g.ring.fetched < |x.s.g.ring.queue| && !x.rung ==>
        x.s.v.numAdded > 0 && (Countable(x, Ordinary(KickPrepare)) ==> KickSpec(x.s.v).1)
  {
    var x := Reached(BellStart(n, eventSuppression), ts);
    if x.phase.Idle? && x.s.g.ring.fetched < |x.s.g.ring.queue| && !x.rung {
      FetchPosIsRecent(x.s);
      if Countable(x, Ordinary(KickPrepare)) { KickWakes(x); }
    }
  }
}
