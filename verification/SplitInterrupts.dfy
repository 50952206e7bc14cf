/** No lost interrupt on the split ring (section 2.6.7 of VIRTIO 1.1): the driver's stores to the flag and
    the event index and its reads of the used index, interleaved with the device's steps. */
module SplitInterrupts {
  import opened Queues
  import opened Rings
  import opened DescriptorPool
  import opened SplitSpec
  import opened SplitSystem
  import opened EventIndex

  /** How far a call of enable_cb has come. */
  datatype Phase = Ready | FlagStored | EventStored

  /** The device has decided about interrupts for the first `judged` buffers it returned.  armed: the
      driver last saw an empty queue with interrupts enabled, and waits.  raised: an interrupt came since the
      device returned the first buffer after that. */
  datatype Irq = Irq(s: System, phase: Phase, judged: nat, armed: bool, raised: bool)

  datatype IrqStep = Ordinary(e: Event) | StoreFlag | StoreEvent | Poll | DeviceDecides(interrupt: bool)

  /** How many buffers the device has returned. */
  ghost function UsedCount(s: System): nat {
    s.g.read + |s.g.lens|
  }

  /** Some of the used elements from `from` up to `to` got the index that the driver asked for. */
  ghost predicate Passed(event: nat, from: nat, to: nat) {
    exists p :: from <= p < to && Mod16(p) == event
  }

  /** What the standard demands of a device that looks at the flag, or at the event index, after it
      returned buffers.  It may interrupt more often. */
  ghost predicate MustInterrupt(x: Irq) {
    if x.s.v.eventSuppression then Passed(x.s.v.usedEvent, x.judged, UsedCount(x.s))
    else x.judged < UsedCount(x.s) && !x.s.v.availNoInterrupt
  }

  ghost predicate Can(x: Irq, t: IrqStep)
    requires SystemInv(x.s) && x.s.g.positioned
  {
    match t
    case Ordinary(e) =>
      && Allowed(x.s, e) && !e.EnableCb? && !e.DetachUnused? && !e.DeviceStores?
      && (e.Submission? || e.GetBuf? || e.KickPrepare? || e.DisableCb? ==> x.phase.Ready?)
    case StoreFlag => x.phase.Ready?
    case StoreEvent => x.phase.FlagStored?
    case Poll => x.phase.EventStored?
    case DeviceDecides(interrupt) => MustInterrupt(x) ==> interrupt
  }

  /** A get_buf that finds nothing leaves the driver waiting, if interrupts are enabled. */
  ghost function AfterGetBuf(x: Irq): Irq
    requires PoolOk(x.s)
  {
    if NextUsed(x.s.v).None? then x.(armed := !x.s.v.noInterrupt, raised := false)
    else x.(s := GetStep(x.s), armed := false)
  }

  ghost function Do(x: Irq, t: IrqStep): Irq
    requires SystemInv(x.s) && x.s.g.positioned && Can(x, t)
  {
    match t
    case Ordinary(e) =>
      if e.GetBuf? then AfterGetBuf(x)
      else if e.DeviceComplete? then x.(s := Next(x.s, e), raised := x.raised && x.s.g.lens != [])
      else x.(s := Next(x.s, e), armed := x.armed && !e.DisableCb?)
    case StoreFlag => x.(s := x.s.(v := EnableFlag(x.s.v)), phase := FlagStored)
    case StoreEvent => x.(s := x.s.(v := EnableEvent(x.s.v)), phase := EventStored)
    case Poll => x.(phase := Ready, armed := NextUsed(x.s.v).None?, raised := false)
    case DeviceDecides(interrupt) => x.(judged := UsedCount(x.s), raised := x.raised || interrupt)
  }

  /** The shared flag follows the master copy where it counts, and so does the event index with the read
      index - but for the time between the two stores of enable_cb. */
  ghost predicate Registers(v: Split, phase: Phase) {
    && (!v.eventSuppression ==> v.availNoInterrupt == v.noInterrupt)
    && (phase != Ready ==> !v.noInterrupt)
    && (phase == EventStored || (phase == Ready && !v.noInterrupt && v.eventSuppression) ==> v.usedEvent == v.lastUsed)
  }

  /** While the driver waits and something is unread, an interrupt came or is still to be decided, and the
      words that the device will look at ask for it. */
  ghost predicate Watched(x: Irq) {
    && x.judged <= UsedCount(x.s)
    && (x.armed ==> !x.s.v.noInterrupt && (x.s.v.eventSuppression ==> x.s.v.usedEvent == x.s.v.lastUsed))
    && (x.armed && x.s.g.lens != [] && !x.raised ==> x.judged <= x.s.g.read)
  }

  ghost predicate IrqInv(x: Irq) {
    SystemInv(x.s) && x.s.g.positioned && Registers(x.s.v, x.phase) && Watched(x)
  }

  lemma DecideKeepsWatch(x: Irq, interrupt: bool)
    requires IrqInv(x) && Can(x, DeviceDecides(interrupt))
    ensures Watched(Do(x, DeviceDecides(interrupt)))
  {
    assert Mod16(x.s.g.read) == x.s.v.lastUsed;
  }

  /** After disable_cb the flag that the device finds demands no interrupt, whatever it has returned; with event
      suppression the device is told nothing, and the driver no longer waits. */
  lemma DisabledIsNotAsked(x: Irq)
    requires IrqInv(x) && Can(x, Ordinary(DisableCb))
    ensures var y := Do(x, Ordinary(DisableCb));
      && y.s.v.noInterrupt && !y.armed
      && if x.s.v.eventSuppression then y.s.v == x.s.v.(noInterrupt := true) else !MustInterrupt(y)
  {
    hide TablesOk, InStep, Lists;
  }

  lemma DriverStoreKeeps(x: Irq, v: Split, phase: Phase)
    requires IrqInv(x) && Registers(v, phase)
    requires x.armed ==> !v.noInterrupt && (v.eventSuppression ==> v.usedEvent == v.lastUsed)
    requires v == x.s.v.(noInterrupt := v.noInterrupt, availNoInterrupt := v.availNoInterrupt, usedEvent := v.usedEvent)
    ensures IrqInv(x.(s := x.s.(v := v), phase := phase))
  {
    OtherFieldsAreFree(x.s, x.s.(v := v));
  }

  lemma GetKeepsWatch(x: Irq)
    requires CanGet(x.s) && Watched(x) && Registers(x.s.v, Ready)
    ensures Watched(x.(s := AfterGet(x.s), armed := false)) && Registers(AfterGet(x.s).v, Ready)
  {
  }

  lemma GetKeepsIrq(x: Irq)
    requires IrqInv(x) && x.phase.Ready?
    ensures IrqInv(AfterGetBuf(x))
  {
    GetIsExact(x.s);
    if x.s.g.lens != [] {
      PositionedGet(x.s);
      GetKeepsInv(x.s);
      GetKeepsWatch(x);
    }
    hide PoolOk, TablesOk, InStep, UsedNames, AfterAnyGet, NamedBuf;
  }

  lemma CompleteKeepsWatch(x: Irq, i: nat, len: nat)
    requires CanComplete(x.s, i) && Watched(x) && Registers(x.s.v, x.phase)
    ensures Watched(x.(s := AfterComplete(x.s, i, len), raised := x.raised && x.s.g.lens != []))
    ensures Registers(AfterComplete(x.s, i, len).v, x.phase)
  {
  }

  lemma CompleteKeepsIrq(x: Irq, e: Event)
    requires IrqInv(x) && e.DeviceComplete? && Can(x, Ordinary(e))
    ensures IrqInv(Do(x, Ordinary(e)))
  {
    CompleteKeepsInv(x.s, e.i, e.len);
    CompleteKeepsWatch(x, e.i, e.len);
  }

  /** Neither reading nor returning a buffer. */
  ghost predicate Quiet(e: Event) {
    !e.GetBuf? && !e.DeviceComplete? && !e.DetachUnused? && !e.EnableCb? && !e.DeviceStores?
  }

  lemma QuietKeepsPlaces(s: System, e: Event)
    requires SystemInv(s) && s.g.positioned && Allowed(s, e) && Quiet(e)
    ensures Next(s, e).g.lens == s.g.lens && Next(s, e).g.read == s.g.read && Next(s, e).g.positioned
  {
  }

  lemma QuietKeepsRegisters(s: System, e: Event)
    requires SystemInv(s) && Allowed(s, e) && Quiet(e)
    ensures var v, v' := s.v, Next(s, e).v;
      && v'.eventSuppression == v.eventSuppression && v'.usedEvent == v.usedEvent && v'.lastUsed == v.lastUsed
      && if e.DisableCb?
         then v'.noInterrupt && (!v.eventSuppression && v.availNoInterrupt == v.noInterrupt ==> v'.availNoInterrupt)
         else v'.noInterrupt == v.noInterrupt && v'.availNoInterrupt == v.availNoInterrupt
  {
    hide PoolOk, TablesOk, InStep, TableHolds, PageUnused;
  }

  lemma QuietKeepsIrq(x: Irq, e: Event)
    requires IrqInv(x) && Can(x, Ordinary(e)) && Quiet(e)
    ensures IrqInv(Do(x, Ordinary(e)))
  {
    StepKeepsInv(x.s, e);
    QuietKeepsPlaces(x.s, e);
    QuietKeepsRegisters(x.s, e);
  }

  lemma StepKeepsIrq(x: Irq, t: IrqStep)
    requires IrqInv(x) && Can(x, t)
    ensures IrqInv(Do(x, t))
  {
    match t
    case Ordinary(e) =>
      if e.GetBuf? { GetKeepsIrq(x); }
      else if e.DeviceComplete? { CompleteKeepsIrq(x, e); }
      else { QuietKeepsIrq(x, e); }
    case StoreFlag => DriverStoreKeeps(x, EnableFlag(x.s.v), FlagStored);
    case StoreEvent => DriverStoreKeeps(x, EnableEvent(x.s.v), EventStored);
    case Poll => GetIsExact(x.s);
    case DeviceDecides(interrupt) => DecideKeepsWatch(x, interrupt);
  }

  /** Every step is possible where it happens. */
  ghost predicate Proceeds(x: Irq, ts: seq<IrqStep>)
    requires IrqInv(x)
    decreases |ts|
  {
    ts == [] || (Can(x, ts[0]) && (StepKeepsIrq(x, ts[0]); Proceeds(Do(x, ts[0]), ts[1..])))
  }

  ghost function Reached(x: Irq, ts: seq<IrqStep>): Irq
    requires IrqInv(x) && Proceeds(x, ts)
    decreases |ts|
  {
    if ts == [] then x
    else
      StepKeepsIrq(x, ts[0]);
      Reached(Do(x, ts[0]), ts[1..])
  }

  /** The driver neither reads a buffer nor changes its mind about interrupts. */
  ghost predicate Patient(t: IrqStep) {
    t != Poll && (t.Ordinary? ==> !t.e.GetBuf? && !t.e.DisableCb?)
  }

  ghost predicate Waits(ts: seq<IrqStep>) {
    ts == [] || (Patient(ts[0]) && Waits(ts[1..]))
  }

  lemma {:induction false} WaitingStaysArmed(x: Irq, ts: seq<IrqStep>)
    requires IrqInv(x) && Proceeds(x, ts)
    ensures IrqInv(Reached(x, ts))
    ensures Waits(ts) && x.armed ==> Reached(x, ts).armed
    decreases |ts|
  {
    if ts != [] {
      StepKeepsIrq(x, ts[0]);
      WaitingStaysArmed(Do(x, ts[0]), ts[1..]);
    }
  }

  ghost function IrqStart(n: nat, eventSuppression: bool): (x: Irq)
    requires 0 < n <= 0x8000 && Slot(U16, n) == 0
    ensures IrqInv(x)
  {
    Irq(Start(n, eventSuppression), Ready, 0, false, false)
  }

  /** Whether it was enable_cb or get_buf that found the queue empty: once the device has returned a
      buffer and decided about it, the waiting driver has been interrupted. */
  lemma WaitingDriverIsInterrupted(x: Irq)
    requires IrqInv(x) && x.armed && x.s.g.lens != [] && x.judged == UsedCount(x.s)
    ensures x.raised
  {
  }

  /** enable_cb answers true exactly when nothing is unread; and if it does, then in every run in which
      the driver waits, once the device has returned the next buffer and decided about it, an interrupt came
      after that return - with event suppression or without. */
  lemma NoLostInterrupt(n: nat, eventSuppression: bool, before: seq<IrqStep>, after: seq<IrqStep>)
    requires 0 < n <= 0x8000 && Slot(U16, n) == 0 && Proceeds(IrqStart(n, eventSuppression), before)
    ensures var x := Reached(IrqStart(n, eventSuppression), before);
      && IrqInv(x)
      && (x.phase.EventStored? ==> (NextUsed(x.s.v).None? <==> x.s.g.lens == []))
      && (x.phase.EventStored? && NextUsed(x.s.v).None? ==>
            && Can(x, Poll) && IrqInv(Do(x, Poll))
            && (Waits(after) && Proceeds(Do(x, Poll), after) ==>
                  var y := Reached(Do(x, Poll), after);
                  IrqInv(y) && (y.s.g.lens != [] && y.judged == UsedCount(y.s) ==> y.raised)))
  {
    WaitingStaysArmed(IrqStart(n, eventSuppression), before);
    var x := Reached(IrqStart(n, eventSuppression), before);
    GetIsExact(x.s);
    if x.phase.EventStored? && NextUsed(x.s.v).None? {
      StepKeepsIrq(x, Poll);
      if Waits(after) && Proceeds(Do(x, Poll), after) {
        WaitingStaysArmed(Do(x, Poll), after);
        var y := Reached(Do(x, Poll), after);
        if y.s.g.lens != [] && y.judged == UsedCount(y.s) { WaitingDriverIsInterrupted(y); }
      }
    }
  }

  /** A device that decides by vring_need_event does what MustInterrupt asks, and no more, if it decides
      at least once in 2^16 buffers. */
  lemma UsualDeviceIsHonest(x: Irq)
    requires IrqInv(x) && x.s.v.eventSuppression && x.s.v.usedEvent < U16 && UsedCount(x.s) < x.judged + U16
    ensures NeedEvent(x.s.v.usedEvent, UsedCount(x.s), x.judged) <==> MustInterrupt(x)
  {
    NeedEventIsMembership(x.s.v.usedEvent, UsedCount(x.s), x.judged);
    Residue(x.s.v.usedEvent, 0, x.s.v.usedEvent);
  }
}
