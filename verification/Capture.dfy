/** The capture side of ViosndWaveRT.cpp: packets that the device has filled wait in the shared buffer, slot
    by slot, for the client to read them; the oldest make way for new ones. */
module Capture {
  import opened Queues
  import opened Rings
  import opened PacketNumbers
  import opened PcmCopy

  const POOL: nat := 8
  const TARGET: nat := 4

  type Bytes = seq<Byte>

  // ----- the packets

  /** log: what became of every packet, by number: its audio, padded with silence, or None if it failed.
      Packets `from` up to `upTo` are ready for the client. */
  datatype Window = Window(cap: nat, log: seq<Option<Bytes>>, from: nat, upTo: nat)

  ghost predicate WindowOk(w: Window) {
    && 0 < w.cap && w.from <= w.upTo <= |w.log| && w.upTo - w.from <= w.cap
    && forall k :: w.upTo <= k < |w.log| ==> w.log[k].None?
  }

  function Ready(w: Window): seq<Option<Bytes>>
    requires w.from <= w.upTo <= |w.log|
  {
    w.log[w.from..w.upTo]
  }

  /** Failures that no later success has made ready yet. */
  function Pending(w: Window): seq<Option<Bytes>>
    requires w.upTo <= |w.log|
  {
    w.log[w.upTo..]
  }

  /** A packet ends: a success makes it the newest that is ready. */
  function Ended(w: Window, x: Option<Bytes>): Window {
    if x.None? then w.(log := w.log + [x])
    else
      var upTo := |w.log| + 1;
      w.(log := w.log + [x], upTo := upTo, from := if upTo > w.from + w.cap then upTo - w.cap else w.from)
  }

  function ReadOne(w: Window): Window {
    w.(from := w.from + 1)
  }

  /** A success appends to a queue of the last `cap` packets - and with it, as if they were audio, the
      failed packets before it. */
  lemma SuccessIsDropOldest(w: Window, x: Bytes)
    requires WindowOk(w)
    ensures WindowOk(Ended(w, Some(x)))
    ensures Ready(Ended(w, Some(x))) == Newest(w.cap, Ready(w) + Pending(w) + [Some(x)])
  {
    assert Ready(w) + Pending(w) + [Some(x)] == (w.log + [Some(x)])[w.from..];
  }

  lemma FailureWaits(w: Window)
    requires WindowOk(w)
    ensures WindowOk(Ended(w, None)) && Ready(Ended(w, None)) == Ready(w)
    ensures Pending(Ended(w, None)) == Pending(w) + [None]
  {
  }

  lemma ReadIsHead(w: Window)
    requires WindowOk(w) && w.from < w.upTo
    ensures WindowOk(ReadOne(w)) && Ready(ReadOne(w)) == Ready(w)[1..]
  {
  }

  datatype Step = Ends(x: Option<Bytes>) | Reads

  function Next(w: Window, t: Step): Window {
    if t.Ends? then Ended(w, t.x) else if w.from < w.upTo then ReadOne(w) else w
  }

  function After(w: Window, ts: seq<Step>): Window
    decreases |ts|
  {
    if ts == [] then w else After(Next(w, ts[0]), ts[1..])
  }

  /** The packets that the client gets, in turn. */
  function Given(w: Window, ts: seq<Step>): seq<nat>
    decreases |ts|
  {
    if ts == [] then []
    else (if ts[0].Reads? && w.from < w.upTo then [w.from] else []) + Given(Next(w, ts[0]), ts[1..])
  }

  /** How many packets were dropped unread. */
  function Dropped(w: Window, ts: seq<Step>): int
    decreases |ts|
  {
    if ts == [] then 0
    else (if ts[0].Ends? then Next(w, ts[0]).from - w.from else 0) + Dropped(Next(w, ts[0]), ts[1..])
  }

  /** Over every run: at most `cap` packets are ready, the client gets no packet twice and none out of
      order, and every packet up to the newest ready one was read, was dropped, or is ready. */
  lemma {:induction false} EveryPacketOnce(w: Window, ts: seq<Step>)
    requires WindowOk(w)
    ensures WindowOk(After(w, ts)) && Dropped(w, ts) >= 0
    ensures After(w, ts).upTo == w.from + |Given(w, ts)| + Dropped(w, ts) + |Ready(After(w, ts))|
    ensures forall i :: 0 <= i < |Given(w, ts)| ==> w.from <= Given(w, ts)[i] < After(w, ts).from
    ensures forall i, j :: 0 <= i < j < |Given(w, ts)| ==> Given(w, ts)[i] < Given(w, ts)[j]
    decreases |ts|
  {
    if ts != [] {
      EveryPacketOnce(Next(w, ts[0]), ts[1..]);
    }
  }

  ghost predicate AllAudio(rs: seq<Option<Bytes>>) {
    forall i :: 0 <= i < |rs| ==> rs[i].Some?
  }

  /** What is ready after a success is all audio exactly when no failure is among the last cap - 1 packets
      that were ready or failed before it. */
  lemma ReadyIsAudioIff(w: Window, x: Bytes)
    requires WindowOk(w)
    ensures AllAudio(Ready(Ended(w, Some(x)))) <==> AllAudio(Newest(w.cap - 1, Ready(w) + Pending(w)))
  {
    SuccessIsDropOldest(w, x);
    var s := Ready(w) + Pending(w);
    var a, b := Newest(w.cap, s + [Some(x)]), Newest(w.cap - 1, s);
    assert a == b + [Some(x)];
    if AllAudio(a) { assert forall i :: 0 <= i < |b| ==> b[i] == a[i]; }
  }

  /** A run in which the client is handed a packet that failed. */
  lemma FailedPacketIsGiven(x: Bytes, y: Bytes)
    ensures var w := After(Window(4, [], 0, 0), [Ends(Some(x)), Ends(None), Ends(Some(y)), Reads]);
      w == Window(4, [Some(x), None, Some(y)], 1, 3) && Given(w, [Reads]) == [1] && w.log[1].None?
  {
    var w0 := Window(4, [], 0, 0);
    var ts := [Ends(Some(x)), Ends(None), Ends(Some(y)), Reads];
    assert ts[1..] == [Ends(None), Ends(Some(y)), Reads] && ts[1..][1..] == [Ends(Some(y)), Reads];
    assert ts[1..][1..][1..] == [Reads] && ts[1..][1..][1..][1..] == [];
    var w1 := Ended(w0, Some(x));
    var w2 := Ended(w1, None);
    var w3 := Ended(w2, Some(y));
    assert After(w0, ts) == After(w1, ts[1..]) == After(w2, [Ends(Some(y)), Reads]) == After(w3, [Reads]);
    assert After(w3, [Reads]) == ReadOne(w3);
    assert w3.log == [Some(x), None, Some(y)];
    assert [Reads][1..] == [];
  }

  // ----- the slots

  function SlotBytes(mem: Bytes, i: nat, size: nat): Bytes
    requires i * size + size <= |mem|
  {
    mem[i * size..i * size + size]
  }

  function WithSlot(mem: Bytes, i: nat, size: nat, x: Bytes): (r: Bytes)
    requires |x| == size && i * size + size <= |mem|
    ensures |r| == |mem|
  {
    mem[..i * size] + x + mem[i * size + size..]
  }

  lemma OtherSlotsStay(mem: Bytes, i: nat, j: nat, n: nat, size: nat, x: Bytes)
    requires i < n && j < n && |mem| == n * size && |x| == size
    ensures i * size + size <= |mem| && j * size + size <= |mem|
    ensures SlotBytes(WithSlot(mem, i, size, x), j, size) == if j == i then x else SlotBytes(mem, j, size)
  {
    SlotFits(i, n, size);
    SlotFits(j, n, size);
    if j < i { SlotFits(j, i, size); } else if i < j { SlotFits(i, j, size); }
  }

  /** Packet numbers and slots agree: the number of slots divides 2^32, or the numbers have not wrapped. */
  ghost predicate Regular(n: nat, packets: nat)
    requires n > 0
  {
    Slot(U32, n) == 0 || packets <= U32
  }

  /** Every ready packet that did not fail is held, whole, in the slot of its number. */
  ghost predicate Held(mem: Bytes, w: Window, size: nat)
    requires w.cap > 0 && |mem| == w.cap * size
  {
    forall k {:trigger w.log[k]} :: w.from <= k < w.upTo <= |w.log| && w.log[k].Some? ==>
      PacketSlot(k, w.cap) * size + size <= |mem|
      && SlotBytes(mem, PacketSlot(k, w.cap), size) == w.log[k].value
  }

  lemma OlderSlotStays(mem: Bytes, w: Window, size: nat, x: Bytes, k: nat)
    requires 0 < w.cap && |mem| == w.cap * size && |x| == size && Regular(w.cap, |w.log| + 1)
    requires k < |w.log| < k + w.cap
    ensures PacketSlot(|w.log|, w.cap) * size + size <= |mem| && PacketSlot(k, w.cap) * size + size <= |mem|
    ensures SlotBytes(WithSlot(mem, PacketSlot(|w.log|, w.cap), size, x), PacketSlot(k, w.cap), size)
         == SlotBytes(mem, PacketSlot(k, w.cap), size)
  {
    PacketSlotIsSlot(k, w.cap);
    PacketSlotIsSlot(|w.log|, w.cap);
    SlotsDiffer(k, |w.log|, w.cap);
    OtherSlotsStay(mem, PacketSlot(|w.log|, w.cap), PacketSlot(k, w.cap), w.cap, size, x);
  }

  lemma SuccessIsHeld(mem: Bytes, w: Window, size: nat, x: Bytes)
    requires WindowOk(w) && |mem| == w.cap * size && |x| == size
    requires Held(mem, w, size) && Regular(w.cap, |w.log| + 1)
    ensures PacketSlot(|w.log|, w.cap) * size + size <= |mem|
    ensures Held(WithSlot(mem, PacketSlot(|w.log|, w.cap), size, x), Ended(w, Some(x)), size)
  {
    hide PacketSlot, SlotBytes, WithSlot;
    var k0, w' := |w.log|, Ended(w, Some(x));
    OtherSlotsStay(mem, PacketSlot(k0, w.cap), PacketSlot(k0, w.cap), w.cap, size, x);
    var mem' := WithSlot(mem, PacketSlot(k0, w.cap), size, x);
    forall k | w'.from <= k < w'.upTo && w'.log[k].Some?
      ensures PacketSlot(k, w.cap) * size + size <= |mem|
      ensures SlotBytes(mem', PacketSlot(k, w.cap), size) == w'.log[k].value
    {
      if k < k0 {
        OlderSlotStays(mem, w, size, x, k);
        assert w.log[k] == w'.log[k] && k < w.upTo;
      }
    }
  }

  lemma FailureIsHeld(mem: Bytes, w: Window, size: nat)
    requires WindowOk(w) && |mem| == w.cap * size && Held(mem, w, size)
    ensures Held(mem, Ended(w, None), size)
  {
    forall k | w.from <= k < w.upTo && w.log[k].Some?
      ensures PacketSlot(k, w.cap) * size + size <= |mem|
      ensures SlotBytes(mem, PacketSlot(k, w.cap), size) == w.log[k].value
    {
    }
  }

  /** The oldest ready packet, if it did not fail, byte by byte in the slot of its number. */
  lemma OldestIsHeld(mem: Bytes, w: Window, size: nat)
    requires WindowOk(w) && |mem| == w.cap * size && Held(mem, w, size)
    requires w.from < w.upTo && w.log[w.from].Some?
    ensures var i, x := PacketSlot(w.from, w.cap), w.log[w.from].value;
      i * size + size <= |mem| && |x| == size && forall j :: 0 <= j < size ==> mem[i * size + j] == x[j]
  {
    var i, x := PacketSlot(w.from, w.cap), w.log[w.from].value;
    assert SlotBytes(mem, i, size) == x;
    forall j | 0 <= j < size ensures mem[i * size + j] == x[j] {
      assert SlotBytes(mem, i, size)[j] == mem[i * size + j];
    }
  }

  lemma ReadKeepsHeld(mem: Bytes, w: Window, size: nat)
    requires WindowOk(w) && |mem| == w.cap * size && Held(mem, w, size) && w.from < w.upTo
    ensures Held(mem, ReadOne(w), size)
  {
  }

  // ----- the stream

  /** One completion: whether the device reported success, how many bytes it captured, and where. */
  datatype Completion = Completion(ok: bool, bytesRead: nat, audio: array<Byte>)

  function Padded(audio: Bytes, bytesRead: nat, size: nat): (r: Bytes)
    requires bytesRead <= size <= |audio|
    ensures |r| == size
  {
    audio[..bytesRead] + seq(size - bytesRead, _ => 0)
  }

  /** x is what the device recorded: byte by byte its audio, and silence from bytesRead on. */
  ghost predicate Recorded(x: Bytes, c: Completion, size: nat)
    requires c.bytesRead <= size <= c.audio.Length
    reads c.audio
  {
    |x| == size && forall j :: 0 <= j < size ==> x[j] == if j < c.bytesRead then c.audio[j] else 0
  }

  /** Packet k ended as the completion says: with what the device recorded, or failed. */
  ghost predicate EndedAs(x: Option<Bytes>, c: Completion, size: nat)
    requires c.bytesRead <= size <= c.audio.Length
    reads c.audio
  {
    if c.ok then x.Some? && Recorded(x.value, c, size) else x.None?
  }

  /** What the completion makes of its packet. */
  function Outcome(c: Completion, size: nat): Option<Bytes>
    requires c.bytesRead <= size <= c.audio.Length
    reads c.audio
  {
    if c.ok then Some(Padded(c.audio[..], c.bytesRead, size)) else None
  }

  lemma OutcomeIsRecorded(c: Completion, size: nat)
    requires c.bytesRead <= size <= c.audio.Length
    ensures EndedAs(Outcome(c, size), c, size)
  {
  }

  /** The counters of a running capture stream. */
  datatype Counters = Counters(packetNumber: nat, nextSubmit: nat, nextRead: nat, ready: nat, inFlight: nat,
                               ioFree: nat, overflows: nat, readCount: nat)

  /** The 32-bit counters say where the window is, and no IO block is lost. */
  ghost predicate Counted(c: Counters, w: Window) {
    && c.packetNumber == Mod32(w.upTo) && c.nextRead == Mod32(w.from) && c.ready == w.upTo - w.from
    && c.nextSubmit == Mod32(|w.log| + c.inFlight) && c.inFlight + c.ioFree == POOL
    && c.overflows + c.readCount == w.from
  }

  /** The number that the driver gave the packet that ends next. */
  function OldestInFlight(w: Window): nat {
    Mod32(|w.log|)
  }

  /** ReclaimCapturePackets counting a success of packet `number`, cap slots being there. */
  function CountSuccess(c: Counters, number: nat, cap: nat): Counters {
    var upTo := Mod32(number + 1);
    var ready := Mod32(upTo - c.nextRead);
    var drop := if ready > cap then ready - cap else 0;
    c.(packetNumber := upTo, nextRead := Mod32(c.nextRead + drop), ready := ready - drop,
       overflows := c.overflows + drop)
  }

  lemma CountSuccessApart(c: Counters, number: nat, cap: nat, inFlight: nat, ioFree: nat)
    ensures CountSuccess(c.(inFlight := inFlight), number, cap).(ioFree := ioFree)
         == CountSuccess(c, number, cap).(inFlight := inFlight, ioFree := ioFree)
  {
  }

  lemma SuccessIsCounted(c: Counters, w: Window, x: Bytes)
    requires WindowOk(w) && Counted(c, w) && c.inFlight > 0 && |w.log| - w.from < U32 - 1
    ensures Counted(CountSuccess(c, OldestInFlight(w), w.cap).(inFlight := c.inFlight - 1, ioFree := c.ioFree + 1),
                    Ended(w, Some(x)))
  {
    var upTo := |w.log| + 1;
    NextNumber(Mod32(|w.log|), |w.log|, 1);
    NumberDifference(upTo, w.from);
    NextNumber(c.nextRead, w.from, if upTo - w.from > w.cap then upTo - w.from - w.cap else 0);
  }

  /** A completion out of turn, of packet k, is counted as if it were the newest.  Up to `cap` packets from
      its own down are ready then, none of them read before - unless packet k itself had been passed already:
      then, and only then, the read position steps back and `cap` packets are handed out again. */
  lemma LateSuccessStepsBackIff(c: Counters, from: nat, k: nat, cap: nat)
    requires c.nextRead == Mod32(from) && 0 < cap < 0x8000_0000
    requires k + 1 < from + 0x8000_0000 && from < k + 1 + 0x8000_0000
    ensures var c', ready := CountSuccess(c, Mod32(k), cap),
                             if from <= k + 1 <= from + cap then k + 1 - from else cap;
      && c'.ready == ready && c'.nextRead == Mod32(k + 1 - ready) && c'.packetNumber == Mod32(k + 1)
      && (k + 1 - ready < from <==> k + 1 < from)
  {
    NextNumber(Mod32(k), k, 1);
    LateDifference(from, k);
    var ready := Mod32(Mod32(k + 1) - Mod32(from));
    var drop := if ready > cap then ready - cap else 0;
    if k + 1 >= from {
      NextNumber(c.nextRead, from, drop);
    } else {
      WrapsBack(from, drop, k + 1 - cap);
    }
  }

  lemma LateDifference(from: nat, k: nat)
    requires k + 1 < from + 0x8000_0000 && from < k + 1 + 0x8000_0000
    ensures Mod32(Mod32(k + 1) - Mod32(from)) == if k + 1 >= from then k + 1 - from else k + 1 - from + U32
  {
    if k + 1 >= from {
      NumberDifference(k + 1, from);
    } else {
      var q := from / 0x1_0000_0000 - (k + 1) / 0x1_0000_0000;
      Residue32(Mod32(k + 1) - Mod32(from), q - 1, k + 1 - from + U32);
    }
  }

  lemma WrapsBack(from: nat, drop: nat, to: int)
    requires from + drop == to + U32
    ensures Mod32(Mod32(from) + drop) == Mod32(to)
  {
    Residue32(Mod32(from) + drop, to / 0x1_0000_0000 + 1 - from / 0x1_0000_0000, Mod32(to));
  }

  lemma TwoWrites(mem: Bytes, mem1: Bytes, mem2: Bytes, offset: nat, x: Bytes, z: Bytes)
    requires offset + |x| + |z| <= |mem|
    requires mem1 == mem[..offset] + x + mem[offset + |x|..]
    requires mem2 == mem1[..offset + |x|] + z + mem1[offset + |x| + |z|..]
    ensures mem2 == mem[..offset] + (x + z) + mem[offset + |x| + |z|..]
  {
    assert mem1[..offset + |x|] == mem[..offset] + x;
    assert mem1[offset + |x| + |z|..] == mem[offset + |x| + |z|..];
  }

  class CaptureStream {
    const buffer: array<Byte>
    const notificationCount: nat
    const packetSize: nat

    var running: bool
    var packetNumber: nat
    var nextSubmit: nat
    var nextRead: nat

    /** m_OutstandingWrites: for a capture stream, the packets that are ready. */
    var ready: nat
    var inFlight: nat
    var ioFree: nat
    var overflows: nat
    var readCount: nat
    var position: nat

    /** The packet numbers in the IO blocks that the receive queue holds, oldest first. */
    var rxQueue: seq<nat>
    ghost var w: Window

    ghost function Count(): Counters
      reads this
    {
      Counters(packetNumber, nextSubmit, nextRead, ready, inFlight, ioFree, overflows, readCount)
    }

    /** The buffer holds what is ready, as long as the packet numbers have not wrapped irregularly. */
    ghost predicate Stored()
      reads this, buffer
    {
      && WindowOk(w) && w.cap == notificationCount && packetSize > 0 && buffer.Length == notificationCount * packetSize
      && (Regular(w.cap, |w.log|) ==> Held(buffer[..], w, packetSize))
    }

    ghost predicate Valid()
      reads this, buffer
    {
      && Stored() && Counted(Count(), w)
      && |rxQueue| == inFlight <= TARGET && inFlight <= notificationCount
      && forall i :: 0 <= i < |rxQueue| ==> rxQueue[i] == Mod32(|w.log| + i)
    }

    /** The counters as SetState resets them for a run, over whatever the buffer holds. */
    constructor (buffer: array<Byte>, notificationCount: nat, packetSize: nat)
      requires 0 < notificationCount && 0 < packetSize && buffer.Length == notificationCount * packetSize
      ensures Valid() && running && w == Window(notificationCount, [], 0, 0) && this.buffer == buffer
    {
      this.buffer, this.notificationCount, this.packetSize := buffer, notificationCount, packetSize;
      running, packetNumber, nextSubmit, nextRead, ready, inFlight := true, 0, 0, 0, 0, 0;
      ioFree, overflows, readCount, position := POOL, 0, 0, 0;
      rxQueue := [];
      w := Window(notificationCount, [], 0, 0);
    }

    /** SubmitCapturePacket; accepted says whether the receive queue takes the buffers. */
    method SubmitCapturePacket(accepted: bool) returns (ok: bool)
      requires Valid() && inFlight < TARGET
      modifies `nextSubmit, `inFlight, `ioFree, `rxQueue
      ensures Valid() && (ok <==> accepted && old(inFlight) < notificationCount)
      ensures inFlight == old(inFlight) + (if ok then 1 else 0)
    {
      hide Held, WindowOk;
      if ioFree == 0 || inFlight >= notificationCount {
        return false;
      }
      ioFree := ioFree - 1;
      if accepted {
        NextNumber(nextSubmit, |w.log| + inFlight, 1);
        rxQueue := rxQueue + [nextSubmit];
        nextSubmit := Mod32(nextSubmit + 1);
        inFlight := inFlight + 1;
      } else {
        ioFree := ioFree + 1;
      }
      ok := accepted;
    }

    /** The worker keeps the queue filled up to its target. */
    method SubmitUpToTarget(accepts: nat)
      requires Valid()
      modifies `nextSubmit, `inFlight, `ioFree, `rxQueue
      ensures Valid() && old(inFlight) <= inFlight
      ensures accepts >= TARGET ==> inFlight == if notificationCount < TARGET then notificationCount else TARGET
    {
      var target := if notificationCount < TARGET then notificationCount else TARGET;
      var left := accepts;
      while inFlight < target
        invariant Valid() && old(inFlight) <= inFlight <= target && left + inFlight == accepts + old(inFlight)
        decreases target - inFlight
      {
        var ok := SubmitCapturePacket(left > 0);
        if !ok { break; }
        left := left - 1;
      }
    }

    lemma CopiedAt(mem: Bytes, mem': Bytes, offset: nat, audio: Bytes, bytesRead: nat, size: nat, j: nat)
      requires bytesRead <= size <= |audio| && offset + size <= |mem|
      requires mem' == mem[..offset] + Padded(audio, bytesRead, size) + mem[offset + size..]
      requires j < |mem|
      ensures mem'[j] == if !(offset <= j < offset + size) then mem[j]
                         else if j - offset < bytesRead then audio[j - offset] else 0
    {
    }

    /** The memory part of a success: the samples are copied, and silence after them. */
    method CopyPacket(offset: nat, audio: array<Byte>, bytesRead: nat)
      requires audio != buffer && offset + packetSize <= buffer.Length
      requires bytesRead <= packetSize <= audio.Length
      modifies buffer
      ensures buffer[..] == old(buffer[..offset]) + Padded(audio[..], bytesRead, packetSize)
                          + old(buffer[offset + packetSize..])
      ensures forall j :: offset <= j < offset + packetSize ==>
        buffer[j] == if j - offset < bytesRead then audio[j - offset] else 0
      ensures forall j :: 0 <= j < offset || offset + packetSize <= j < buffer.Length ==> buffer[j] == old(buffer[j])
    {
      hide Padded;
      ghost var mem := buffer[..];
      CopyAndSilence(offset, audio, bytesRead);
      forall j | 0 <= j < buffer.Length
        ensures buffer[j] == if !(offset <= j < offset + packetSize) then mem[j]
                             else if j - offset < bytesRead then audio[j - offset] else 0
      {
        CopiedAt(mem, buffer[..], offset, audio[..], bytesRead, packetSize, j);
      }
    }

    method CopyAndSilence(offset: nat, audio: array<Byte>, bytesRead: nat)
      requires audio != buffer && offset + packetSize <= buffer.Length
      requires bytesRead <= packetSize <= audio.Length
      modifies buffer
      ensures buffer[..] == old(buffer[..offset]) + Padded(audio[..], bytesRead, packetSize)
                          + old(buffer[offset + packetSize..])
    {
      ghost var mem, x, z := buffer[..], audio[..][..bytesRead], seq(packetSize - bytesRead, _ => 0);
      assert audio[..bytesRead] == x;
      var peak := CopyGain(buffer, offset, audio, bytesRead, 1);
      GainOneIsIdentity(x);
      ghost var mem1 := buffer[..];
      assert mem1 == mem[..offset] + x + mem[offset + bytesRead..];
      Silence(offset + bytesRead, offset + packetSize);
      TwoWrites(mem, mem1, buffer[..], offset, x, z);
    }

    method Silence(from: nat, to: nat)
      requires from <= to <= buffer.Length
      modifies buffer
      ensures buffer[..] == old(buffer[..from]) + seq(to - from, _ => 0) + old(buffer[to..])
    {
      forall j | from <= j < to {
        buffer[j] := 0;
      }
    }

    /** The counters after a success, with the oldest unread packets dropped if there are too many. */
    method CountOne(number: nat)
      requires nextRead < U32
      modifies `packetNumber, `nextRead, `ready, `overflows, `position
      ensures Count() == CountSuccess(old(Count()), number, notificationCount)
      ensures position == old(position) + packetSize
    {
      packetNumber := Mod32(number + 1);
      position := position + packetSize;
      ready := Mod32(packetNumber - nextRead);
      if ready > notificationCount {
        var dropped := ready - notificationCount;
        nextRead := Mod32(nextRead + dropped);
        ready := notificationCount;
        overflows := overflows + dropped;
      }
    }

    /** A success: the packet goes to the slot of its number and counts as the newest. */
    method Succeed(c: Completion, number: nat)
      requires Stored() && number == Mod32(|w.log|) && nextRead < U32
      requires c.audio != buffer && c.bytesRead <= packetSize <= c.audio.Length
      modifies buffer, `packetNumber, `nextRead, `ready, `overflows, `position, `w
      ensures Stored() && Count() == CountSuccess(old(Count()), number, notificationCount)
      ensures w == Ended(old(w), Some(Padded(c.audio[..], c.bytesRead, packetSize)))
      ensures position == old(position) + packetSize
    {
      hide Held, CountSuccess;
      ghost var x, mem := Padded(c.audio[..], c.bytesRead, packetSize), buffer[..];
      var i := Slot(number, notificationCount);
      SlotFits(i, notificationCount, packetSize);
      CopyPacket(i * packetSize, c.audio, c.bytesRead);
      CountOne(number);
      SuccessIsDropOldest(w, x);
      if Regular(w.cap, |w.log| + 1) { SuccessIsHeld(mem, w, packetSize, x); }
      w := Ended(w, Some(x));
    }

    /** A failure: nothing happens to buffer and counters. */
    ghost method Fail()
      requires Stored()
      modifies `w
      ensures Stored() && w == Ended(old(w), None)
    {
      hide Held;
      FailureWaits(w);
      if Regular(w.cap, |w.log|) { FailureIsHeld(buffer[..], w, packetSize); }
      w := Ended(w, None);
    }

    /** The body of ReclaimCapturePackets, for the oldest packet in flight. */
    method Reclaim(c: Completion)
      requires Valid() && inFlight > 0 && c.audio != buffer && c.bytesRead <= packetSize <= c.audio.Length
      requires |w.log| - w.from < U32 - 1
      modifies this, buffer
      ensures Valid() && running == old(running) && inFlight == old(inFlight) - 1
      ensures w == Ended(old(w), Outcome(c, packetSize))
      ensures |w.log| == |old(w).log| + 1 && w.log[..|old(w).log|] == old(w).log && w.from >= old(w).from
      ensures EndedAs(w.log[|old(w).log|], c, packetSize)
      ensures position == old(position) + if c.ok then packetSize else 0
    {
      hide CountSuccess, Held, EndedAs, WindowOk, Padded, Mod32;
      ghost var x := Outcome(c, packetSize);
      if c.ok {
        SuccessIsCounted(Count(), w, x.value);
        CountSuccessApart(Count(), rxQueue[0], w.cap, inFlight - 1, ioFree + 1);
      }
      inFlight := inFlight - 1;
      var number := rxQueue[0];
      rxQueue := rxQueue[1..];
      if c.ok {
        Succeed(c, number);
      } else {
        Fail();
      }
      ioFree := ioFree + 1;
      OutcomeIsRecorded(c, packetSize);
    }

    /** ReclaimCapturePackets: all the completions that the device has returned, in order. */
    method ReclaimCapturePackets(cs: seq<Completion>)
      requires Valid() && |cs| <= inFlight && |w.log| + |cs| - w.from < U32
      requires forall c :: c in cs ==> c.audio != buffer && c.bytesRead <= packetSize <= c.audio.Length
      modifies this, buffer
      ensures Valid() && running == old(running) && inFlight == old(inFlight) - |cs|
      ensures w == After(old(w), EndsOf(cs, packetSize))
      ensures |w.log| == |old(w).log| + |cs| && w.log[..|old(w).log|] == old(w).log
      ensures forall k :: 0 <= k < |cs| ==> EndedAs(w.log[|old(w).log| + k], cs[k], packetSize)
    {
      hide Valid, EndedAs, Outcome, Padded, Ended;
      for i := 0 to |cs|
        invariant |w.log| == |old(w).log| + i && w.log[..|old(w).log|] == old(w).log
        invariant forall k :: 0 <= k < i ==> EndedAs(w.log[|old(w).log| + k], cs[k], packetSize)
        invariant Valid() && running == old(running) && inFlight == old(inFlight) - i
        invariant |w.log| + |cs| - i - w.from < U32
        invariant After(w, EndsOf(cs[i..], packetSize)) == After(old(w), EndsOf(cs, packetSize))
      {
        assert cs[i..][1..] == cs[i + 1..];
        Reclaim(cs[i]);
      }
    }

    /** GetReadPacket: the oldest ready packet, and whether there are more. */
    method GetReadPacket() returns (packet: Option<nat>, moreData: bool)
      requires Valid()
      modifies `nextRead, `ready, `readCount, `w
      ensures Valid() && (packet.Some? <==> running && old(w.from) < old(w.upTo))
      ensures packet.None? ==> w == old(w)
      ensures packet.Some? ==> packet.value == Mod32(old(w.from)) && w == ReadOne(old(w))
      ensures packet.Some? ==> Ready(old(w)) != [] && Ready(w) == Ready(old(w))[1..]
      ensures packet.Some? ==> (moreData <==> Ready(w) != [])
      ensures packet.Some? && Regular(w.cap, |w.log|) && Ready(old(w))[0].Some? ==>
        var i, x := Slot(packet.value, notificationCount), Ready(old(w))[0].value;
        && i * packetSize + packetSize <= buffer.Length && |x| == packetSize
        && forall j :: 0 <= j < packetSize ==> buffer[i * packetSize + j] == x[j]
    {
      hide Held, Mod32, Slot;
      if !running || ready == 0 {
        return None, false;
      }
      if Regular(w.cap, |w.log|) {
        ReadKeepsHeld(buffer[..], w, packetSize);
        if w.log[w.from].Some? { OldestIsHeld(buffer[..], w, packetSize); }
      }
      assert Ready(w)[0] == w.log[w.from];
      ReadIsHead(w);
      NextNumber(nextRead, w.from, 1);
      packet := Some(nextRead);
      nextRead := Mod32(nextRead + 1);
      ready := ready - 1;
      moreData := ready != 0;
      readCount := readCount + 1;
      w := ReadOne(w);
    }
  }

  function EndsOf(cs: seq<Completion>, size: nat): seq<Step>
    requires forall c :: c in cs ==> c.bytesRead <= size <= c.audio.Length
    reads set c | c in cs :: c.audio
  {
    if cs == [] then [] else [Ends(Outcome(cs[0], size))] + EndsOf(cs[1..], size)
  }
}
