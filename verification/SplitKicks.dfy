/** No lost kick on the split ring (section 2.6.7 of VIRTIO 1.1): a device that stored what it wants to be
    notified of, looked once more and went idle, against a driver that adds buffers and calls kick_prepare. */
module SplitKicks {
  import opened Queues
  import opened Rings
  import opened DescriptorPool
  import opened SplitSpec
  import opened SplitSystem
  import opened EventIndex

  /** The device looks for buffers by itself; or it has stored what it wants; or it found nothing after that and
      is idle. */
  datatype Phase = Polling | Asked | Idle

  /** rung: a kick came since the device went idle. */
  datatype Bell = Bell(s: System, phase: Phase, rung: bool)

  datatype BellStep =
    | Ordinary(e: Event)
    | Ask
    | LookAgain
    | WakeUp

  ghost predicate Can(x: Bell, t: BellStep) {
    match t
    case Ordinary(e) =>
      && Allowed(x.s, e) && !e.DetachUnused? && !e.DeviceStores?
      && (e.DeviceFetch? || e.DeviceAsks? ==> x.phase.Polling?)
    case Ask => x.phase.Polling?
    case LookAgain => x.phase.Asked?
    case WakeUp => x.phase.Asked? || x.rung
  }

  /** The device asks for the index that it fetches next, or - without event suppression - for every
      notification. */
  ghost function Do(x: Bell, t: BellStep): Bell
    requires SystemInv(x.s) && Can(x, t)
  {
    match t
    case Ordinary(e) => x.(s := Next(x.s, e), rung := x.rung || (e.KickPrepare? && KickSpec(x.s.v).1))
    case Ask => x.(s := x.s.(v := x.s.v.(availEvent := x.s.seen, usedNoNotify := false)), phase := Asked)
    case LookAgain => if x.s.seen != x.s.v.availIdx then x.(phase := Polling) else x.(phase := Idle, rung := false)
    case WakeUp => x.(phase := Polling)
  }

  /** How many buffers the device has fetched, ever. */
  ghost function Fetched(s: System): nat {
    s.g.read + s.g.fetched
  }

  ghost predicate BellInv(x: Bell) {
    && SystemInv(x.s) && x.s.g.positioned
    && (x.phase.Polling? || (if x.s.v.eventSuppression then x.s.v.availEvent == x.s.seen else !x.s.v.usedNoNotify))
    && (x.phase.Idle? && !x.rung ==> x.s.g.kickedAt <= Fetched(x.s))
  }

  /** The kick_prepare that finds a buffer the idle device does not know of kicks. */
  lemma KickWakes(x: Bell)
    requires BellInv(x) && x.phase.Idle? && !x.rung && x.s.g.fetched < |x.s.g.queue|
    ensures KickSpec(x.s.v).1
  {
    if x.s.v.eventSuppression {
      assert Mod16(Fetched(x.s)) == x.s.v.availEvent;
      KickIsExact(x.s);
    }
  }

  lemma KickKeepsBell(x: Bell)
    requires BellInv(x)
    ensures BellInv(Do(x, Ordinary(KickPrepare)))
  {
    hide Lists, TablesOk, Named, Mirrors;
    NoticeKeepsInv(x.s, KickPrepare);
    if x.phase.Idle? && !x.rung && x.s.g.fetched < |x.s.g.queue| { KickWakes(x); }
  }

  /** What the notification of an idle device depends on stays as it is. */
  ghost predicate SamePlace(s: System, s': System) {
    && Fetched(s') == Fetched(s) && s'.g.kickedAt == s.g.kickedAt && s'.seen == s.seen
    && s'.v.eventSuppression == s.v.eventSuppression && s'.v.availEvent == s.v.availEvent
    && s'.v.usedNoNotify == s.v.usedNoNotify && s'.g.positioned == s.g.positioned
  }

  lemma StepKeepsPlace(s: System, e: Event)
    requires SystemInv(s) && s.g.positioned && Allowed(s, e) && !e.DetachUnused? && !e.DeviceStores?
    requires !e.KickPrepare? && !e.DeviceFetch? && !e.DeviceAsks?
    ensures SamePlace(s, Next(s, e))
  {
    hide Lists, TablesOk, Named, Mirrors, WithChain, Hop, TableHolds, PageUnused;
    if e.GetBuf? { GetIsExact(s); }
  }

  lemma StaysPositioned(s: System, e: Event)
    requires SystemInv(s) && s.g.positioned && Allowed(s, e) && !e.DetachUnused? && !e.DeviceStores?
    ensures SystemInv(Next(s, e)) && Next(s, e).g.positioned
  {
    hide PoolOk, TablesOk, InStep;
    StepKeepsInv(s, e);
    if !e.KickPrepare? && !e.DeviceFetch? && !e.DeviceAsks? { StepKeepsPlace(s, e); }
  }

  /** Every interleaved step keeps: an idle device that was not woken was last notified before the buffer it
      waits for. */
  lemma StepKeepsBell(x: Bell, t: BellStep)
    requires BellInv(x) && Can(x, t)
    ensures BellInv(Do(x, t))
  {
    match t
    case Ordinary(e) =>
      if e.KickPrepare? {
        KickKeepsBell(x);
      } else {
        hide PoolOk, TablesOk, InStep, Next;
        StaysPositioned(x.s, e);
        if !x.phase.Polling? { StepKeepsPlace(x.s, e); }
      }
    case Ask => OtherFieldsAreFree(x.s, Do(x, t).s);
    case LookAgain => AvailIndexTest(x.s);
    case WakeUp =>
  }

  /** Every step is possible where it happens. */
  ghost predicate Proceeds(x: Bell, ts: seq<BellStep>)
    requires BellInv(x)
    decreases |ts|
  {
    ts == [] || (Can(x, ts[0]) && (StepKeepsBell(x, ts[0]); Proceeds(Do(x, ts[0]), ts[1..])))
  }

  ghost function Reached(x: Bell, ts: seq<BellStep>): (y: Bell)
    requires BellInv(x) && Proceeds(x, ts)
    ensures BellInv(y)
    decreases |ts|
  {
    if ts == [] then x
    else
      StepKeepsBell(x, ts[0]);
      Reached(Do(x, ts[0]), ts[1..])
  }

  ghost function BellStart(n: nat, eventSuppression: bool): (x: Bell)
    requires 0 < n <= 0x8000 && Slot(U16, n) == 0
    ensures BellInv(x)
  {
    Bell(Start(n, eventSuppression), Polling, false)
  }

  /** In every interleaving: if the device is idle and there is a buffer it has not fetched, then it was kicked
      since it went idle, or the driver has still to call kick_prepare - which will kick. */
  lemma NoLostKick(n: nat, eventSuppression: bool, ts: seq<BellStep>)
    requires 0 < n <= 0x8000 && Slot(U16, n) == 0 && Proceeds(BellStart(n, eventSuppression), ts)
    ensures var x := Reached(BellStart(n, eventSuppression), ts);
      x.phase.Idle? && x.s.g.fetched < |x.s.g.queue| && !x.rung ==> x.s.v.numAdded > 0 && KickSpec(x.s.v).1
  {
    var x := Reached(BellStart(n, eventSuppression), ts);
    if x.phase.Idle? && x.s.g.fetched < |x.s.g.queue| && !x.rung { KickWakes(x); }
  }
}
