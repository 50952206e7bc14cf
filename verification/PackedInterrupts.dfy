/** No lost interrupt on the packed ring (sections 2.7.7 and 2.7.10 of VIRTIO 1.1): the driver's stores to
    its event structure and its reads of the ring, interleaved with the device's, one access at a time. */
module PackedInterrupts {
  import opened Queues
  import opened Rings
  import opened DescriptorPool
  import opened PackedProtocol
  import opened PackedSpec
  import opened PackedSystem
  import opened EventIndex

  /** How far a call of enable_cb has come. */
  datatype Phase = Ready | EventStored | FlagsStored

  /** The device has decided about interrupts for what it returned before position judged; saw holds what
      it has read for its next decision.  armed: the driver last saw an empty queue with interrupts
      enabled, and waits.  raised: an interrupt came since the device returned the first buffer after that. */
  datatype Irq = Irq(s: System, phase: Phase, judged: nat, saw: Option<Look>, armed: bool, raised: bool)

  /** The flags that the device read after it had returned everything before upTo. */
  datatype Look = Look(flags: nat, upTo: nat)

  datatype IrqStep =
    | Ordinary(e: Event)
    | StoreEvent
    | StoreFlags
    | Poll
    | DeviceReadsFlags
    | DeviceDecides(interrupt: bool)

  /** Where the driver reads next, and up to where the device has returned buffers. */
  ghost function ReadPos(s: System): nat
    requires s.g.ring.starts != []
  {
    s.g.ring.starts[0]
  }

  ghost function UsedPos(s: System): nat
    requires |s.g.ring.lens| < |s.g.ring.starts|
  {
    s.g.ring.starts[|s.g.ring.lens|]
  }

  /** What the standard demands: with the flags that it read after returning buffers, the device
      interrupts if they ask for every buffer, or for the descriptor that the event word names and it
      wrote that one.  It may interrupt more often. */
  ghost predicate MustInterrupt(x: Irq)
    requires x.saw.Some? && x.s.v.desc != []
  {
    var look := x.saw.value;
    || (look.flags == ENABLE && x.judged < look.upTo)
    || (look.flags == DESC && NamesPassed(|x.s.v.desc|, x.judged, look.upTo, x.s.v.driverOffWrap))
  }

  ghost predicate Can(x: Irq, t: IrqStep)
    requires SystemInv(x.s) && x.s.g.positioned
  {
    match t
    case Ordinary(e) =>
      && Allowed(x.s, e) && !e.EnableCb? && !e.DetachUnused? && !e.DeviceStores?
      && (e.Submission? || e.GetBuf? || e.KickPrepare? || e.DisableCb? ==> x.phase.Ready?)
    case StoreEvent => x.phase.Ready?
    case StoreFlags => x.phase.EventStored?
    case Poll => x.phase.FlagsStored?
    case DeviceReadsFlags => x.saw.None?
    case DeviceDecides(interrupt) => x.saw.Some? && (MustInterrupt(x) ==> interrupt)
  }

  /** A get_buf that finds nothing leaves the driver waiting, if interrupts are enabled. */
  ghost function AfterGetBuf(x: Irq): Irq
    requires PoolOk(x.s)
  {
    if GetResult(x.s.v).Nothing? then x.(armed := x.s.v.eventFlagsShadow != DISABLE, raised := false)
    else x.(s := GetStep(x.s), armed := false)
  }

  ghost function Do(x: Irq, t: IrqStep): Irq
    requires SystemInv(x.s) && x.s.g.positioned && Can(x, t)
  {
    match t
    case Ordinary(e) =>
      if e.GetBuf? then AfterGetBuf(x)
      else if e.DeviceComplete? then x.(s := Next(x.s, e), raised := x.raised && x.s.g.ring.lens != [])
      else x.(s := Next(x.s, e), armed := x.armed && !e.DisableCb?)
    case StoreEvent => x.(s := x.s.(v := EnableEvent(x.s.v)), phase := EventStored)
    case StoreFlags => x.(s := x.s.(v := EnableFlags(x.s.v)), phase := FlagsStored)
    case Poll => x.(phase := Ready, armed := GetResult(x.s.v).Nothing?, raised := false)
    case DeviceReadsFlags => x.(saw := Some(Look(x.s.v.driverFlags, UsedPos(x.s))))
    case DeviceDecides(interrupt) => x.(judged := x.saw.value.upTo, saw := None, raised := x.raised || interrupt)
  }

  /** The flags are those of the shadow, and the event word is up to date whenever it counts. */
  ghost predicate Registers(v: Packed, phase: Phase) {
    && v.driverFlags == v.eventFlagsShadow <= DESC
    && (v.eventFlagsShadow == DESC || (phase != Ready && v.eventSuppression) ==>
          v.driverOffWrap == OffWrap(v.lastUsedIdx, v.usedWrapCounter))
    && (phase == FlagsStored ==> v.eventFlagsShadow != DISABLE)
  }

  /** While the driver waits and something is unread, an interrupt came or is still to be decided with
      flags that ask for it. */
  ghost predicate Watched(x: Irq)
    requires |x.s.g.ring.lens| < |x.s.g.ring.starts|
  {
    && |x.s.v.desc| <= x.judged <= UsedPos(x.s) && (x.saw.Some? ==> x.judged <= x.saw.value.upTo <= UsedPos(x.s))
    && (x.armed ==> x.s.v.eventFlagsShadow != DISABLE)
    && (x.armed && x.s.g.ring.lens != [] && !x.raised ==>
          && x.judged <= ReadPos(x.s)
          && (x.saw.Some? ==> x.saw.value.upTo <= ReadPos(x.s) || x.saw.value.flags == x.s.v.driverFlags))
  }

  ghost predicate IrqInv(x: Irq) {
    && SystemInv(x.s) && x.s.g.positioned && Registers(x.s.v, x.phase)
    && Watched(x)
  }

  lemma DecideKeepsWatch(x: Irq, interrupt: bool)
    requires IrqInv(x) && Can(x, DeviceDecides(interrupt))
    ensures Watched(Do(x, DeviceDecides(interrupt)))
  {
    var v, r := x.s.v, x.s.g.ring;
    if x.armed && r.lens != [] && !x.raised {
      assert r.starts[0] < r.starts[|r.lens|];
      assert v.driverFlags == DESC ==>
        OffWrap(Slot(ReadPos(x.s), |v.desc|), Lap(ReadPos(x.s), |v.desc|)) == v.driverOffWrap;
    }
  }

  /** After disable_cb the flags that the device finds demand no interrupt, whatever it has returned. */
  lemma DisabledIsNotAsked(x: Irq, upTo: nat)
    requires IrqInv(x) && Can(x, Ordinary(DisableCb))
    ensures var y := Do(x, Ordinary(DisableCb));
      && y.s.v.desc != [] && y.s.v.driverFlags == DISABLE && !y.armed
      && !MustInterrupt(y.(saw := Some(Look(y.s.v.driverFlags, upTo))))
  {
    hide TablesOk, InStep, PoolInv, NamesPassed;
  }

  lemma DriverStoreKeeps(x: Irq, v: Packed, phase: Phase)
    requires IrqInv(x) && Registers(v, phase)
    requires v == x.s.v.(driverOffWrap := v.driverOffWrap, eventFlagsShadow := v.eventFlagsShadow,
                         driverFlags := v.driverFlags)
    requires || v.eventFlagsShadow == x.s.v.eventFlagsShadow
             || (x.s.v.eventFlagsShadow == DISABLE && v.eventFlagsShadow != DISABLE)
    ensures IrqInv(x.(s := x.s.(v := v), phase := phase))
  {
    OtherFieldsAreFree(x.s, x.s.(v := v));
  }

  lemma GetKeepsRegisters(v: Packed)
    requires InRange(v) && v.desc[v.lastUsedIdx].id < |v.desc| && Registers(v, Ready)
    ensures Registers(GetSpec(v), Ready)
  {
  }

  lemma GetKeepsWatch(x: Irq)
    requires PoolOk(x.s) && Layout(x.s.g.ring) && Watched(x) && CanGet(x.s) && x.s.g.ring.lens != []
    ensures Watched(x.(s := AfterGet(x.s), armed := false))
  {
  }

  lemma GetKeepsIrq(x: Irq)
    requires IrqInv(x) && x.phase.Ready?
    ensures IrqInv(AfterGetBuf(x))
  {
    GetIsExact(x.s);
    if x.s.g.ring.lens != [] {
      GetKeepsInv(x.s);
      GetKeepsRegisters(x.s.v);
      GetKeepsWatch(x);
    }
  }

  lemma CompleteKeepsWatch(x: Irq, i: nat, len: nat, write: bool)
    requires CanComplete(x.s, i) && Watched(x)
    requires Spans(AfterComplete(x.s, i, len, write).g.ring)
    ensures Watched(x.(s := AfterComplete(x.s, i, len, write), raised := x.raised && x.s.g.ring.lens != []))
  {
    assert Shaped(AfterComplete(x.s, i, len, write).g.ring.queue[|x.s.g.ring.lens|]);
  }

  lemma CompleteKeepsIrq(x: Irq, e: Event)
    requires IrqInv(x) && e.DeviceComplete? && Can(x, Ordinary(e))
    ensures IrqInv(Do(x, Ordinary(e)))
  {
    DeviceStepKeepsInv(x.s, e);
    CompleteKeepsWatch(x, e.i, e.len, e.write);
  }

  /** Neither reading nor returning a buffer. */
  ghost predicate Quiet(e: Event) {
    !e.GetBuf? && !e.DeviceComplete? && !e.DetachUnused? && !e.EnableCb? && !e.DeviceStores?
  }

  lemma QuietKeepsPlaces(s: System, e: Event)
    requires SystemInv(s) && s.g.positioned && Allowed(s, e) && Quiet(e)
    ensures var r, r' := s.g.ring, Next(s, e).g.ring;
      r'.lens == r.lens && r.starts <= r'.starts && Next(s, e).g.positioned
  {
  }

  lemma QuietKeepsRegisters(s: System, e: Event)
    requires SystemInv(s) && Allowed(s, e) && Quiet(e)
    ensures var v, v' := s.v, Next(s, e).v;
      && |v'.desc| == |v.desc| && v'.eventSuppression == v.eventSuppression && v'.driverOffWrap == v.driverOffWrap
      && v'.lastUsedIdx == v.lastUsedIdx && v'.usedWrapCounter == v.usedWrapCounter
      && if e.DisableCb?
         then v'.eventFlagsShadow == DISABLE && (v.driverFlags == v.eventFlagsShadow ==> v'.driverFlags == DISABLE)
         else v'.eventFlagsShadow == v.eventFlagsShadow && v'.driverFlags == v.driverFlags
  {
    hide PoolOk, TablesOk, InStep, TableHolds, PageUnused, CanFetch, DetachStep, GetStep;
  }

  lemma QuietKeepsIrq(x: Irq, e: Event)
    requires IrqInv(x) && Can(x, Ordinary(e)) && Quiet(e)
    ensures IrqInv(Do(x, Ordinary(e)))
  {
    hide PoolOk, TablesOk, LapBits, Readable, UsedReadable, Next, GetStep, AfterAdd, WithPage, Inv, Layout, Mirrors;
    StepKeepsInv(x.s, e);
    QuietKeepsPlaces(x.s, e);
    QuietKeepsRegisters(x.s, e);
  }

  lemma StepKeepsIrq(x: Irq, t: IrqStep)
    requires IrqInv(x) && Can(x, t)
    ensures IrqInv(Do(x, t))
  {
    match t
    case Ordinary(e) =>
      if e.GetBuf? { GetKeepsIrq(x); }
      else if e.DeviceComplete? { CompleteKeepsIrq(x, e); }
      else { QuietKeepsIrq(x, e); }
    case StoreEvent => DriverStoreKeeps(x, EnableEvent(x.s.v), EventStored);
    case StoreFlags => DriverStoreKeeps(x, EnableFlags(x.s.v), FlagsStored);
    case Poll => GetIsExact(x.s);
    case DeviceReadsFlags =>
    case DeviceDecides(interrupt) => DecideKeepsWatch(x, interrupt);
  }

  /** Every step is possible where it happens. */
  ghost predicate Proceeds(x: Irq, ts: seq<IrqStep>)
    requires IrqInv(x)
    decreases |ts|
  {
    ts == [] || (Can(x, ts[0]) && (StepKeepsIrq(x, ts[0]); Proceeds(Do(x, ts[0]), ts[1..])))
  }

  ghost function Reached(x: Irq, ts: seq<IrqStep>): Irq
    requires IrqInv(x) && Proceeds(x, ts)
    decreases |ts|
  {
    if ts == [] then x
    else
      StepKeepsIrq(x, ts[0]);
      Reached(Do(x, ts[0]), ts[1..])
  }

  /** The driver neither reads a buffer nor changes its mind about interrupts. */
  ghost predicate Patient(t: IrqStep) {
    t != Poll && (t.Ordinary? ==> !t.e.GetBuf? && !t.e.DisableCb?)
  }

  ghost predicate Waits(ts: seq<IrqStep>) {
    ts == [] || (Patient(ts[0]) && Waits(ts[1..]))
  }

  lemma {:induction false} WaitingStaysArmed(x: Irq, ts: seq<IrqStep>)
    requires IrqInv(x) && Proceeds(x, ts)
    ensures IrqInv(Reached(x, ts))
    ensures Waits(ts) && x.armed ==> Reached(x, ts).armed
    decreases |ts|
  {
    if ts != [] {
      StepKeepsIrq(x, ts[0]);
      WaitingStaysArmed(Do(x, ts[0]), ts[1..]);
    }
  }

  ghost function IrqStart(n: nat, eventSuppression: bool): (x: Irq)
    requires 0 < n <= 0x8000
    ensures IrqInv(x)
  {
    Irq(Start(n, eventSuppression), Ready, n, None, false, false)
  }

  /** Whether it was enable_cb or get_buf that found the queue empty: once the device has returned a
      buffer and decided about it, the waiting driver has been interrupted. */
  lemma WaitingDriverIsInterrupted(x: Irq)
    requires IrqInv(x) && x.armed && x.s.g.ring.lens != [] && x.judged == UsedPos(x.s)
    ensures x.raised
  {
    assert x.s.g.ring.starts[0] < x.s.g.ring.starts[|x.s.g.ring.lens|];
  }

  /** enable_cb answers true exactly when nothing is unread; and if it does, then in every run in which
      the driver waits, once the device has returned the next buffer and decided about it, an interrupt came
      after that return - with event suppression or without. */
  lemma NoLostInterrupt(n: nat, eventSuppression: bool, before: seq<IrqStep>, after: seq<IrqStep>)
    requires 0 < n <= 0x8000 && Proceeds(IrqStart(n, eventSuppression), before)
    ensures var x := Reached(IrqStart(n, eventSuppression), before);
      && IrqInv(x)
      && (x.phase.FlagsStored? ==> (GetResult(x.s.v).Nothing? <==> x.s.g.ring.lens == []))
      && (x.phase.FlagsStored? && GetResult(x.s.v).Nothing? ==>
            && Can(x, Poll) && IrqInv(Do(x, Poll))
            && (Waits(after) && Proceeds(Do(x, Poll), after) ==>
                  var y := Reached(Do(x, Poll), after);
                  IrqInv(y) && (y.s.g.ring.lens != [] && y.judged == UsedPos(y.s) ==> y.raised)))
  {
    WaitingStaysArmed(IrqStart(n, eventSuppression), before);
    var x := Reached(IrqStart(n, eventSuppression), before);
    GetIsExact(x.s);
    if x.phase.FlagsStored? && GetResult(x.s.v).Nothing? {
      StepKeepsIrq(x, Poll);
      if Waits(after) && Proceeds(Do(x, Poll), after) {
        WaitingStaysArmed(Do(x, Poll), after);
        var y := Reached(Do(x, Poll), after);
        if y.s.g.ring.lens != [] && y.judged == UsedPos(y.s) { WaitingDriverIsInterrupted(y); }
      }
    }
  }

  /** A device that decides with the driver's own wrap-aware test does what MustInterrupt asks, and no
      more, if it decides at least once a lap. */
  lemma UsualDeviceIsHonest(x: Irq)
    requires IrqInv(x) && x.saw.Some? && x.saw.value.flags == DESC && x.saw.value.upTo <= x.judged + |x.s.v.desc|
    requires x.s.v.driverOffWrap < U16 && WordSlot(x.s.v.driverOffWrap) < |x.s.v.desc|
    ensures var n, d := |x.s.v.desc|, x.saw.value.upTo;
      PackedKick(n, Slot(d, n), Lap(d, n), d - x.judged, x.s.v.driverOffWrap) <==> MustInterrupt(x)
  {
    PackedKickNamesPassed(|x.s.v.desc|, x.judged, x.saw.value.upTo, x.s.v.driverOffWrap);
  }
}
