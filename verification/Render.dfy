/** The render side of ViosndWaveRT.cpp: packets that the client writes are submitted to the transmit queue
    in IO blocks of a fixed pool - as they are, or up to three resampled into one - and paid out to the
    stream position when the device returns them. */
module Render {
  import opened Queues
  import opened Rings
  import opened PacketNumbers
  import opened Resampler

  const POOL: nat := 12
  const TARGET: nat := 8
  const CYCLIC_TARGET: nat := 2
  const FALLBACK_TARGET: nat := 2
  const PREROLL: nat := 2
  const PERIOD_BYTES: nat := 2048
  const INITIAL_PHASE: nat := 32_000

  /** What an IO block was submitted for: the audio in it, and how many bytes of the client's it stands
      for.  MAXULONG is the packet number of preroll silence. */
  datatype Io = Io(packetNumber: nat, audio: seq<Frame>, sourceLength: nat)

  /** How many packets the worker keeps in the queue, by mode. */
  function Target(notificationCount: nat, most: nat): (r: nat)
    ensures r <= most || (r == 1 && notificationCount == 1)
  {
    if notificationCount == 0 then 0
    else if notificationCount == 1 then 1
    else if notificationCount - 1 < most then notificationCount - 1 else most
  }

  // ----- the pool

  /** In the queue, an IO block is two elements. */
  function Held(id: nat): Entry {
    Entry(id, 2)
  }

  /** Every block is either free or in the queue, once. */
  ghost predicate Pooled(free: seq<nat>, held: multiset<Entry>) {
    && Distinct(free)
    && (forall i :: 0 <= i < |free| ==> free[i] < POOL)
    && (forall e :: e in held ==> e == Held(e.token) && e.token < POOL)
    && (forall id :: 0 <= id < POOL ==> held[Held(id)] == if id in free then 0 else 1)
    && |free| + |held| == POOL
  }

  ghost predicate PoolOk(free: seq<nat>, v: Vq) {
    VqOk(v) && Pooled(free, v.queue.inFlight)
  }

  lemma FullPool(free: seq<nat>, queueFree: nat)
    requires |free| == POOL && forall i :: 0 <= i < POOL ==> free[i] == i
    ensures PoolOk(free, Vq(Queue(queueFree, multiset{}), []))
    ensures forall id :: 0 <= id < POOL ==> id in free
  {
    forall id | 0 <= id < POOL ensures id in free { assert free[id] == id; }
  }

  lemma TakeOne(free: seq<nat>, held: multiset<Entry>)
    requires Pooled(free, held) && free != []
    ensures var n := |free| - 1; Pooled(free[..n], held + multiset{Held(free[n])})
  {
    var n, last := |free| - 1, free[|free| - 1];
    assert last !in free[..n];
    assert forall id :: id in free <==> id in free[..n] || id == last by { assert free == free[..n] + [last]; }
  }

  lemma TakeBlock(free: seq<nat>, v: Vq)
    requires PoolOk(free, v) && free != [] && CanAdd(v, 2)
    ensures var n := |free| - 1; PoolOk(free[..n], AddBuf(v, Held(free[n])))
  {
    hide Pooled;
    VqSteps(v, free[|free| - 1], 2);
    TakeOne(free, v.queue.inFlight);
  }

  lemma HeldOnce(free: seq<nat>, held: multiset<Entry>, e: Entry)
    requires Pooled(free, held) && e in held
    ensures e.token < POOL && e.token !in free && e == Held(e.token) && held[e] == 1
  {
  }

  lemma GiveOne(free: seq<nat>, held: multiset<Entry>, e: Entry)
    requires Pooled(free, held) && e in held
    ensures Pooled(free + [e.token], held - multiset{e})
  {
    HeldOnce(free, held, e);
    assert held == (held - multiset{e}) + multiset{e};
    assert forall id :: id in free + [e.token] <==> id in free || id == e.token;
  }

  /** A block comes back from the queue: returned by the device, or detached. */
  lemma GiveBlock(free: seq<nat>, v: Vq, e: Entry, v': Vq)
    requires PoolOk(free, v) && e in v.queue.inFlight && VqOk(v') && v'.queue == Remove(v.queue, e)
    ensures PoolOk(free + [e.token], v') && e.token < POOL
  {
    hide Pooled;
    HeldOnce(free, v.queue.inFlight, e);
    GiveOne(free, v.queue.inFlight, e);
  }

  lemma ReturnBlock(free: seq<nat>, v: Vq)
    requires PoolOk(free, v) && v.returned != []
    ensures v.returned[0] == Held(v.returned[0].token) && v.returned[0].token < POOL
    ensures v.returned[0].token !in free && PoolOk(free + [v.returned[0].token], GetBuf(v))
  {
    hide Pooled;
    var e := v.returned[0];
    VqSteps(v, 0, 2);
    assert e in multiset(v.returned) && e in v.queue.inFlight;
    HeldOnce(free, v.queue.inFlight, e);
    GiveBlock(free, v, e, GetBuf(v));
  }

  // ----- merging packets for the fallback rate

  /** The packets of the client's buffer: `slots` of `size` frames. */
  datatype Packets = Packets(mem: seq<Frame>, slots: nat, size: nat)

  ghost predicate PacketsOk(ps: Packets) {
    ps.slots > 0 && |ps.mem| == ps.slots * ps.size
  }

  /** The frames of packet k; the last packet of the stream has eosBytes bytes only. */
  function PacketFrames(ps: Packets, k: nat, frames: nat): seq<Frame>
    requires PacketsOk(ps) && frames <= ps.size
  {
    SlotFits(Slot(k, ps.slots), ps.slots, ps.size);
    var from := Slot(k, ps.slots) * ps.size;
    ps.mem[from..from + frames]
  }

  /** Packet k stands in slot k modulo the number of slots. */
  lemma FramesOfPacket(ps: Packets, k: nat, frames: nat)
    requires PacketsOk(ps) && frames <= ps.size
    ensures var from := (k % ps.slots) * ps.size;
      0 <= from && from + ps.size <= |ps.mem| && PacketFrames(ps, k, frames) == ps.mem[from..from + frames]
  {
    SlotIsMod(k, ps.slots);
    SlotFits(k % ps.slots, ps.slots, ps.size);
  }

  /** The client's side of the stream: which packet it wrote last, and where the stream ends. */
  datatype Client = Client(lastOs: nat, eosPacket: nat, eosLength: nat)

  /** Packet k may be submitted: nothing is past the end while the client has not written at all. */
  predicate Written(c: Client, k: nat) {
    c.lastOs == MAXULONG || PacketLessOrEqual(k, c.lastOs)
  }

  function SourceBytes(c: Client, k: nat, size: nat): nat {
    if c.eosPacket == k then c.eosLength else size * FRAME_BYTES
  }

  /** A fallback period in the making: what is filled, from how many packets and source bytes. */
  datatype Merge = Merge(fill: Fill, packets: nat, bytes: nat)

  /** The j-th packet from `first` was written; it is the end of the stream. */
  predicate WrittenAt(c: Client, first: nat, j: nat) {
    Written(c, Mod32(first + j))
  }

  predicate EndsAt(c: Client, first: nat, j: nat) {
    c.eosPacket == Mod32(first + j)
  }

  predicate CanMerge(c: Client, first: nat, m: Merge) {
    && m.packets < 3 && |m.fill.out| < PACKET_FRAMES && WrittenAt(c, first, m.packets)
    && (m.packets > 0 ==> !EndsAt(c, first, m.packets - 1))
  }

  function MergeOne(ps: Packets, c: Client, first: nat, m: Merge): Merge
    requires PacketsOk(ps) && |m.fill.out| <= PACKET_FRAMES && c.eosLength <= ps.size * FRAME_BYTES
  {
    var k := Mod32(first + m.packets);
    var bytes := SourceBytes(c, k, ps.size);
    Merge(Filled(m.fill, PacketFrames(ps, k, bytes / FRAME_BYTES), PACKET_FRAMES), m.packets + 1, m.bytes + bytes)
  }

  lemma MergeFits(ps: Packets, c: Client, first: nat, m: Merge)
    requires PacketsOk(ps) && |m.fill.out| <= PACKET_FRAMES && m.fill.phase < RATE
    requires c.eosLength <= ps.size * FRAME_BYTES
    ensures |MergeOne(ps, c, first, m).fill.out| <= PACKET_FRAMES && MergeOne(ps, c, first, m).fill.phase < RATE
  {
    var k := Mod32(first + m.packets);
    FilledFits(m.fill, PacketFrames(ps, k, SourceBytes(c, k, ps.size) / FRAME_BYTES), PACKET_FRAMES);
  }

  /** The whole loop: as many packets as can be merged. */
  function MergeAll(ps: Packets, c: Client, first: nat, m: Merge): Merge
    requires PacketsOk(ps) && |m.fill.out| <= PACKET_FRAMES && m.fill.phase < RATE
    requires c.eosLength <= ps.size * FRAME_BYTES
    decreases 3 - m.packets
  {
    if CanMerge(c, first, m)
    then
      MergeFits(ps, c, first, m);
      MergeAll(ps, c, first, MergeOne(ps, c, first, m))
    else m
  }

  /** Every merged packet was written, and only the last can be the end of the stream. */
  ghost predicate MergeOk(c: Client, first: nat, m: Merge) {
    && m.packets <= 3 && |m.fill.out| <= PACKET_FRAMES && m.fill.phase < RATE
    && (forall j :: 0 <= j < m.packets ==> WrittenAt(c, first, j))
    && (forall j :: 0 <= j < m.packets - 1 ==> !EndsAt(c, first, j))
  }

  lemma MergeStepOk(ps: Packets, c: Client, first: nat, m: Merge)
    requires PacketsOk(ps) && c.eosLength <= ps.size * FRAME_BYTES
    requires MergeOk(c, first, m) && CanMerge(c, first, m)
    ensures MergeOk(c, first, MergeOne(ps, c, first, m))
  {
    hide WrittenAt, EndsAt, Filled, PacketFrames;
    MergeFits(ps, c, first, m);
  }

  lemma {:induction false} MergeAllOk(ps: Packets, c: Client, first: nat, m: Merge)
    requires PacketsOk(ps) && c.eosLength <= ps.size * FRAME_BYTES && MergeOk(c, first, m)
    ensures MergeOk(c, first, MergeAll(ps, c, first, m)) && !CanMerge(c, first, MergeAll(ps, c, first, m))
    ensures MergeAll(ps, c, first, m).packets > m.packets || MergeAll(ps, c, first, m) == m
    decreases 3 - m.packets
  {
    if CanMerge(c, first, m) {
      MergeStepOk(ps, c, first, m);
      MergeAllOk(ps, c, first, MergeOne(ps, c, first, m));
    }
  }

  /** The frames of the packets first, first + 1, ..., one after the other, each up to the end of the stream. */
  function Joined(ps: Packets, c: Client, first: nat, count: nat): seq<Frame>
    requires PacketsOk(ps) && c.eosLength <= ps.size * FRAME_BYTES
  {
    if count == 0 then []
    else
      var k := Mod32(first + count - 1);
      Joined(ps, c, first, count - 1) + PacketFrames(ps, k, SourceBytes(c, k, ps.size) / FRAME_BYTES)
  }

  function SourceTotal(c: Client, size: nat, first: nat, count: nat): nat {
    if count == 0 then 0 else SourceTotal(c, size, first, count - 1) + SourceBytes(c, Mod32(first + count - 1), size)
  }

  /** Merging packet by packet is resampling the packets joined, once, as far as the period has room; and the
      source bytes are those of the packets. */
  lemma {:induction false} MergeIsJoined(ps: Packets, c: Client, first: nat, m: Merge, phase: nat)
    requires PacketsOk(ps) && c.eosLength <= ps.size * FRAME_BYTES
    requires |m.fill.out| <= PACKET_FRAMES && m.fill.phase < RATE
    requires m.fill == Filled(Fill([], phase), Joined(ps, c, first, m.packets), PACKET_FRAMES)
    requires m.bytes == SourceTotal(c, ps.size, first, m.packets)
    ensures var m' := MergeAll(ps, c, first, m);
      && m'.fill == Filled(Fill([], phase), Joined(ps, c, first, m'.packets), PACKET_FRAMES)
      && m'.bytes == SourceTotal(c, ps.size, first, m'.packets)
    decreases 3 - m.packets
  {
    hide Filled, PacketFrames;
    if CanMerge(c, first, m) {
      var k := Mod32(first + m.packets);
      assert SourceBytes(c, k, ps.size) / FRAME_BYTES <= ps.size;
      FilledTwice(Fill([], phase), Joined(ps, c, first, m.packets),
                  PacketFrames(ps, k, SourceBytes(c, k, ps.size) / FRAME_BYTES), PACKET_FRAMES);
      MergeFits(ps, c, first, m);
      MergeIsJoined(ps, c, first, MergeOne(ps, c, first, m), phase);
    }
  }

  function NoMerge(phase: nat): Merge {
    Merge(Fill([], phase), 0, 0)
  }

  /** In full flow - three whole packets of 512 frames written, the end not among the first two - a
      fallback period takes exactly three packets and is full, whatever the phase. */
  lemma FullFlowTakesThree(ps: Packets, c: Client, first: nat, phase: nat)
    requires PacketsOk(ps) && ps.size == PACKET_FRAMES && c.eosLength <= ps.size * FRAME_BYTES && phase < RATE
    requires forall j :: 0 <= j < 3 ==> WrittenAt(c, first, j) && !EndsAt(c, first, j)
    ensures MergeAll(ps, c, first, NoMerge(phase))
         == Merge(MergeAll(ps, c, first, NoMerge(phase)).fill, 3, 3 * PERIOD_BYTES)
    ensures |MergeAll(ps, c, first, NoMerge(phase)).fill.out| == PACKET_FRAMES
    ensures MergeAll(ps, c, first, NoMerge(phase)).fill.phase == phase % FALLBACK_RATE
  {
    hide WrittenAt, EndsAt, PacketFrames, Filled;
    var a, b := PacketFrames(ps, Mod32(first), PACKET_FRAMES), PacketFrames(ps, Mod32(first + 1), PACKET_FRAMES);
    var d := PacketFrames(ps, Mod32(first + 2), PACKET_FRAMES);
    FrameCount(ps, Mod32(first), PACKET_FRAMES);
    FrameCount(ps, Mod32(first + 1), PACKET_FRAMES);
    FrameCount(ps, Mod32(first + 2), PACKET_FRAMES);
    ThreePacketsFillAPeriod(a, b, d, phase);
    var m0 := NoMerge(phase);
    WholePacket(ps, c, first, m0);
    MergeFits(ps, c, first, m0);
    var m1 := MergeOne(ps, c, first, m0);
    WholePacket(ps, c, first, m1);
    MergeFits(ps, c, first, m1);
    var m2 := MergeOne(ps, c, first, m1);
    WholePacket(ps, c, first, m2);
    var m3 := MergeOne(ps, c, first, m2);
    assert MergeAll(ps, c, first, m2) == MergeAll(ps, c, first, m3) == m3;
    assert MergeAll(ps, c, first, m1) == MergeAll(ps, c, first, m2);
  }

  lemma FrameCount(ps: Packets, k: nat, frames: nat)
    requires PacketsOk(ps) && frames <= ps.size
    ensures |PacketFrames(ps, k, frames)| == frames
  {
    SlotFits(Slot(k, ps.slots), ps.slots, ps.size);
  }

  lemma WholePacket(ps: Packets, c: Client, first: nat, m: Merge)
    requires PacketsOk(ps) && ps.size == PACKET_FRAMES && c.eosLength <= ps.size * FRAME_BYTES
    requires |m.fill.out| <= PACKET_FRAMES && !EndsAt(c, first, m.packets)
    ensures MergeOne(ps, c, first, m)
         == Merge(Filled(m.fill, PacketFrames(ps, Mod32(first + m.packets), PACKET_FRAMES), PACKET_FRAMES),
                  m.packets + 1, m.bytes + PERIOD_BYTES)
  {
  }

  /** The frames that a fallback period may draw on, from the j-th packet on: of three packets, those that
      were written, up to the end of the stream. */
  function Available(c: Client, size: nat, first: nat, j: nat): nat
    decreases 3 - j
  {
    if j >= 3 || !WrittenAt(c, first, j) then 0
    else
      SourceBytes(c, Mod32(first + j), size) / FRAME_BYTES
      + if EndsAt(c, first, j) then 0 else Available(c, size, first, j + 1)
  }

  /** What has been filled so far is all that `frames` frames give from this phase. */
  predicate AllOf(m: Merge, phase: nat, frames: nat) {
    && |m.fill.out| < PACKET_FRAMES && m.fill.phase < RATE
    && |m.fill.out| * RATE + m.fill.phase == Units(phase, FALLBACK_RATE, frames)
  }

  /** The period is full, and the rest of the last packet was not looked at. */
  predicate Full(m: Merge, phase: nat) {
    |m.fill.out| == PACKET_FRAMES && m.fill.phase == phase % FALLBACK_RATE
  }

  lemma PacketLength(ps: Packets, c: Client, first: nat, m: Merge)
    requires PacketsOk(ps) && |m.fill.out| <= PACKET_FRAMES && c.eosLength <= ps.size * FRAME_BYTES
    ensures var k := Mod32(first + m.packets); var frames := SourceBytes(c, k, ps.size) / FRAME_BYTES;
      && frames <= ps.size && |PacketFrames(ps, k, frames)| == frames
      && MergeOne(ps, c, first, m).fill == Filled(m.fill, PacketFrames(ps, k, frames), PACKET_FRAMES)
      && MergeOne(ps, c, first, m).packets == m.packets + 1
  {
    hide Filled, PacketFrames;
    var k := Mod32(first + m.packets);
    FrameCount(ps, k, SourceBytes(c, k, ps.size) / FRAME_BYTES);
  }

  /** One packet more: all its frames are used, or the period is full. */
  lemma MergeOnePhase(ps: Packets, c: Client, first: nat, m: Merge, phase: nat, used: nat)
    requires PacketsOk(ps) && c.eosLength <= ps.size * FRAME_BYTES && phase < RATE && AllOf(m, phase, used)
    ensures var m', used' := MergeOne(ps, c, first, m),
                             used + SourceBytes(c, Mod32(first + m.packets), ps.size) / FRAME_BYTES;
      if Units(phase, FALLBACK_RATE, used') < PACKET_FRAMES * RATE then AllOf(m', phase, used') else Full(m', phase)
  {
    hide Filled, PacketFrames, MergeOne;
    PacketLength(ps, c, first, m);
    var k := Mod32(first + m.packets);
    var packet := PacketFrames(ps, k, SourceBytes(c, k, ps.size) / FRAME_BYTES);
    if Units(phase, FALLBACK_RATE, used + |packet|) < PACKET_FRAMES * RATE {
      PacketUsedUp(m.fill, packet, PACKET_FRAMES);
    } else {
      PeriodFilled(m.fill, packet, PACKET_FRAMES);
      SameResidue(m.fill.phase, phase, used - 3 * |m.fill.out|);
    }
  }

  lemma FullOnThird(phase: nat, used: nat, packets: nat)
    requires phase < RATE && used <= packets * PACKET_FRAMES
    ensures Units(phase, FALLBACK_RATE, used) >= PACKET_FRAMES * RATE ==> packets >= 3
  {
  }

  /** The whole loop, from `used` frames on: with packets of at most a period, the period is full only on
      the third. */
  lemma {:induction false} MergeAllPhase(ps: Packets, c: Client, first: nat, m: Merge, phase: nat, used: nat)
    requires PacketsOk(ps) && ps.size <= PACKET_FRAMES && c.eosLength <= ps.size * FRAME_BYTES && phase < RATE
    requires AllOf(m, phase, used) && used <= m.packets * PACKET_FRAMES
    requires m.packets > 0 ==> !EndsAt(c, first, m.packets - 1)
    ensures var m', n := MergeAll(ps, c, first, m), used + Available(c, ps.size, first, m.packets);
      if Units(phase, FALLBACK_RATE, n) < PACKET_FRAMES * RATE then AllOf(m', phase, n) else Full(m', phase)
    decreases 3 - m.packets
  {
    hide Filled, PacketFrames, WrittenAt, EndsAt, SourceBytes, MergeOne, Units;
    if CanMerge(c, first, m) {
      MergeFits(ps, c, first, m);
      PacketLength(ps, c, first, m);
      MergeOnePhase(ps, c, first, m, phase, used);
      var m1 := MergeOne(ps, c, first, m);
      var used1 := used + SourceBytes(c, Mod32(first + m.packets), ps.size) / FRAME_BYTES;
      FullOnThird(phase, used1, m1.packets);
      if Full(m1, phase) || EndsAt(c, first, m.packets) {
        assert MergeAll(ps, c, first, m1) == m1;
      } else {
        MergeAllPhase(ps, c, first, m1, phase, used1);
      }
    }
  }

  /** The phases that n frames bring back. */
  predicate Returns(phase: nat, n: nat) {
    (n < 3 * PACKET_FRAMES && n % 3 == 0) || (n == 3 * PACKET_FRAMES && phase < FALLBACK_RATE)
  }

  lemma {:induction false} AvailableFits(c: Client, size: nat, first: nat, j: nat)
    requires j <= 3 && size <= PACKET_FRAMES && c.eosLength <= size * FRAME_BYTES
    ensures Available(c, size, first, j) <= (3 - j) * PACKET_FRAMES
    decreases 3 - j
  {
    hide WrittenAt, EndsAt;
    if j < 3 { AvailableFits(c, size, first, j + 1); }
  }

  lemma ReturnsIff(m: Merge, phase: nat, n: nat)
    requires phase < RATE && n <= 3 * PACKET_FRAMES
    requires if Units(phase, FALLBACK_RATE, n) < PACKET_FRAMES * RATE then AllOf(m, phase, n) else Full(m, phase)
    ensures m.fill.phase == phase <==> Returns(phase, n)
    ensures m.fill.out == [] <==> Units(phase, FALLBACK_RATE, n) < RATE
  {
  }

  /** For every client: merging brings the phase back exactly if the frames it may draw on are a multiple of
      three below a period, or a whole period's worth and the phase was below 16000.  It puts out nothing
      exactly if they do not come to one output frame. */
  lemma MergeKeepsPhaseIff(ps: Packets, c: Client, first: nat, phase: nat)
    requires PacketsOk(ps) && ps.size <= PACKET_FRAMES && c.eosLength <= ps.size * FRAME_BYTES && phase < RATE
    ensures var m, n := MergeAll(ps, c, first, NoMerge(phase)), Available(c, ps.size, first, 0);
      && (m.fill.phase == phase <==> Returns(phase, n))
      && (m.fill.out == [] <==> Units(phase, FALLBACK_RATE, n) < RATE)
      && (n == 3 * PACKET_FRAMES ==> m.fill.phase == phase % FALLBACK_RATE)
  {
    hide MergeAll, Available;
    MergeAllPhase(ps, c, first, NoMerge(phase), phase, 0);
    AvailableFits(c, ps.size, first, 0);
    ReturnsIff(MergeAll(ps, c, first, NoMerge(phase)), phase, Available(c, ps.size, first, 0));
  }

  /** What a submission of packet k puts in its block: the packet as it is, or a fallback period. */
  function Prepared(ps: Packets, c: Client, fallback: bool, phase: nat, k: nat): Merge
    requires PacketsOk(ps) && phase < RATE && c.eosLength <= ps.size * FRAME_BYTES
  {
    if fallback then MergeAll(ps, c, k, NoMerge(phase))
    else Merge(Fill(PacketFrames(ps, k, ps.size), phase), 1, ps.size * FRAME_BYTES)
  }

  function IoOf(k: nat, m: Merge): Io {
    Io(k, m.fill.out, if m.bytes != 0 then m.bytes else |m.fill.out| * FRAME_BYTES)
  }

  lemma PreparedMaySend(ps: Packets, c: Client, fallback: bool, phase: nat, k: nat)
    requires PacketsOk(ps) && phase < RATE && c.eosLength <= ps.size * FRAME_BYTES && ps.size > 0
    requires k < U32 && Written(c, k)
    ensures var m := Prepared(ps, c, fallback, phase, k);
      && m.fill.phase < RATE && (!fallback ==> m.fill.phase == phase && m.fill.out != [])
      && (m.fill.out != [] ==>
            && 1 <= m.packets <= 3 && Paid(IoOf(k, m), fallback) == Earned(IoOf(k, m))
            && forall j :: 0 <= j < m.packets ==> WrittenAt(c, k, j))
  {
    if fallback {
      MergeAllOk(ps, c, k, NoMerge(phase));
    } else {
      SlotFits(Slot(k, ps.slots), ps.slots, ps.size);
      Residue32(k, 0, k);
    }
  }

  // ----- the books of the stream

  /** orderly: the client has written packets first, first + 1, ... up to `written` of them.  log: the packets
      submitted since its first. */
  datatype Order = Order(first: nat, written: nat, log: seq<nat>, orderly: bool)

  /** sent: every submission, ever; a serial is its number there.  serials[id]: what block id was submitted for
      last.  out: what the device has not returned. */
  datatype Wire = Wire(sent: seq<Io>, serials: seq<nat>, out: set<nat>)

  datatype Payment = Payment(serial: nat, io: Io)

  /** free: the pool from the bottom up.  next: the packet to submit next.  paid: what the driver was paid for,
      ever.  detached: a block was detached while the queue held it. */
  datatype Books = Books(
    free: seq<nat>, vq: Vq, ios: seq<Io>, outstanding: nat, next: nat, client: Client,
    fallback: bool, phase: nat, position: nat, completed: nat,
    order: Order, wire: Wire, paid: seq<Payment>, detached: bool)

  /** The log has no gap and no packet twice. */
  ghost predicate GapFree(log: seq<nat>, first: nat) {
    forall i :: 0 <= i < |log| ==> log[i] == first + i
  }

  /** Of what the client wrote, in order, the first |log| packets were submitted and no others. */
  ghost predicate InOrder(b: Books) {
    b.client.lastOs != MAXULONG && b.order.orderly ==>
      && b.next == b.order.first + |b.order.log| && b.client.lastOs == b.order.first + b.order.written - 1
      && GapFree(b.order.log, b.order.first)
      && |b.order.log| <= b.order.written < |b.order.log| + 0x8000_0000 && b.order.first + b.order.written <= MAXULONG
  }

  /** What a returned block adds to the position: nothing if it was preroll, else its source bytes. */
  function Earned(io: Io): nat {
    if io.packetNumber == MAXULONG then 0 else io.sourceLength
  }

  /** The driver pays by the length of the block, or by the source length in fallback mode. */
  function Paid(io: Io, fallback: bool): nat {
    var bytes := |io.audio| * FRAME_BYTES;
    if io.packetNumber == MAXULONG then 0
    else if fallback && io.sourceLength != 0 then io.sourceLength else bytes
  }

  function TotalEarned(paid: seq<Payment>): nat {
    if paid == [] then 0 else TotalEarned(paid[..|paid| - 1]) + Earned(paid[|paid| - 1].io)
  }

  lemma {:induction false} TotalAdds(a: seq<Payment>, b: seq<Payment>)
    ensures TotalEarned(a + b) == TotalEarned(a) + TotalEarned(b)
  {
    if b == [] {
      assert a + b == a;
    } else {
      assert (a + b)[..|a + b| - 1] == a + b[..|b| - 1];
      TotalAdds(a, b[..|b| - 1]);
    }
  }

  lemma TotalNext(paid: seq<Payment>, p: Payment)
    ensures TotalEarned(paid + [p]) == TotalEarned(paid) + Earned(p.io)
  {
    assert (paid + [p])[..|paid|] == paid;
  }

  // ----- the wire

  /** The blocks that the queue holds stand for different submissions, with what was submitted. */
  ghost predicate Tracked(free: seq<nat>, ios: seq<Io>, w: Wire) {
    && |w.serials| == POOL == |ios|
    && (forall id :: 0 <= id < POOL && id !in free ==>
          w.serials[id] < |w.sent| && w.sent[w.serials[id]] == ios[id])
    && forall i, j :: 0 <= i < j < POOL && i !in free && j !in free ==> w.serials[i] != w.serials[j]
  }

  /** Every payment is for one submission and none of those in the queue, and none is paid for twice. */
  ghost predicate PaidOnce(free: seq<nat>, w: Wire, paid: seq<Payment>)
    requires |w.serials| == POOL
  {
    && (forall k :: 0 <= k < |paid| ==> paid[k].serial < |w.sent| && w.sent[paid[k].serial] == paid[k].io)
    && (forall i, j :: 0 <= i < j < |paid| ==> paid[i].serial != paid[j].serial)
    && forall k, id :: 0 <= k < |paid| && 0 <= id < POOL && id !in free ==> paid[k].serial != w.serials[id]
  }

  /** Unless a block was detached: what get_buf will give is what the device returned, and it was paid for
      nothing that the device has. */
  ghost predicate Honest(free: seq<nat>, returned: seq<Entry>, w: Wire, paid: seq<Payment>, detached: bool)
    requires |w.serials| == POOL
  {
    detached || (
      && (forall id :: 0 <= id < POOL && id !in free ==> (w.serials[id] in w.out <==> Held(id) !in returned))
      && forall k :: 0 <= k < |paid| ==> paid[k].serial !in w.out)
  }

  ghost predicate WireOk(free: seq<nat>, ios: seq<Io>, returned: seq<Entry>, w: Wire, paid: seq<Payment>,
                         detached: bool)
  {
    Tracked(free, ios, w) && PaidOnce(free, w, paid) && Honest(free, returned, w, paid, detached)
  }

  function WireSent(w: Wire, id: nat, io: Io): Wire
    requires id < |w.serials|
  {
    Wire(w.sent + [io], w.serials[id := |w.sent|], w.out + {|w.sent|})
  }

  lemma SendKeepsWire(free: seq<nat>, ios: seq<Io>, v: Vq, w: Wire, paid: seq<Payment>, detached: bool, io: Io)
    requires PoolOk(free, v) && WireOk(free, ios, v.returned, w, paid, detached)
    requires free != [] && free[|free| - 1] < POOL
    requires forall k :: k in w.out ==> k < |w.sent|
    ensures var n := |free| - 1;
      WireOk(free[..n], ios[free[n] := io], v.returned, WireSent(w, free[n], io), paid, detached)
  {
    hide PoolOk;
    var n, id := |free| - 1, free[|free| - 1];
    assert forall x :: x in free <==> x in free[..n] || x == id by { assert free == free[..n] + [id]; }
    NotReturned(free, v, id);
  }

  lemma NotReturned(free: seq<nat>, v: Vq, id: nat)
    requires PoolOk(free, v) && id in free && id < POOL
    ensures Held(id) !in v.returned
  {
    assert v.queue.inFlight[Held(id)] == 0;
    assert Held(id) !in multiset(v.returned);
  }

  /** The block of the first return is paid for. */
  lemma PayKeepsWire(free: seq<nat>, ios: seq<Io>, v: Vq, w: Wire, paid: seq<Payment>, detached: bool)
    requires PoolOk(free, v) && v.returned != [] && WireOk(free, ios, v.returned, w, paid, detached)
    ensures var id := v.returned[0].token;
      id < POOL && WireOk(free + [id], ios, v.returned[1..], w, paid + [Payment(w.serials[id], ios[id])], detached)
  {
    hide Pooled;
    ReturnBlock(free, v);
    var id := v.returned[0].token;
    assert forall x :: x in free + [id] <==> x in free || x == id;
    forall x | x != id && x !in free ensures Held(x) in v.returned <==> Held(x) in v.returned[1..] {
      assert v.returned == [Held(id)] + v.returned[1..];
    }
  }

  lemma DetachKeepsWire(free: seq<nat>, ios: seq<Io>, returned: seq<Entry>, w: Wire, paid: seq<Payment>,
                         detached: bool, id: nat)
    requires WireOk(free, ios, returned, w, paid, detached) && id !in free
    ensures WireOk(free + [id], ios, [], w, paid, true)
  {
    assert forall x :: x in free + [id] <==> x in free || x == id;
  }

  /** The device returns submission `back`, and get_buf will give block e for it: its own, unless a block was
      detached. */
  lemma ReturnKeepsWire(free: seq<nat>, ios: seq<Io>, v: Vq, w: Wire, paid: seq<Payment>, detached: bool,
                         e: Entry, back: nat)
    requires PoolOk(free, v) && WireOk(free, ios, v.returned, w, paid, detached)
    requires e in v.queue.inFlight - multiset(v.returned)
    requires e.token < |w.serials| && (!detached ==> back == w.serials[e.token])
    ensures WireOk(free, ios, v.returned + [e], w.(out := w.out - {back}), paid, detached)
  {
    HeldOnce(free, v.queue.inFlight, e);
    forall x | 0 <= x < POOL ensures Held(x) in v.returned + [e] <==> Held(x) in v.returned || x == e.token {
      assert Held(x) in [e] <==> x == e.token;
    }
  }

  /** The pool is complete, the order is kept, what the device holds will be paid for what it is worth, and
      the position is the sum of what came back. */
  ghost predicate BooksOk(b: Books) {
    && PoolOk(b.free, b.vq) && |b.ios| == POOL && b.outstanding == |b.vq.queue.inFlight|
    && b.next < U32 && b.client.lastOs < U32 && b.phase < RATE && InOrder(b)
    && b.position == TotalEarned(b.paid) && WireOk(b.free, b.ios, b.vq.returned, b.wire, b.paid, b.detached)
    && (forall k :: k in b.wire.out ==> k < |b.wire.sent|)
    && forall id :: 0 <= id < POOL && id !in b.free ==> Paid(b.ios[id], b.fallback) == Earned(b.ios[id])
  }

  lemma TopIsBlock(b: Books)
    requires BooksOk(b) && b.free != []
    ensures b.free[|b.free| - 1] < POOL && |b.ios| == POOL == |b.wire.serials|
  {
  }

  /** The device returned submission `back`, for which get_buf will give block e. */
  function Back(b: Books, e: Entry, back: nat): Books {
    b.(vq := b.vq.(returned := b.vq.returned + [e]), wire := b.wire.(out := b.wire.out - {back}))
  }

  /** An honest device returns a block that it has; after a detach get_buf may take that for any block in the
      queue. */
  ghost predicate MayReturn(b: Books, e: Entry, back: nat) {
    && e in b.vq.queue.inFlight - multiset(b.vq.returned) && e.token < |b.wire.serials|
    && (!b.detached ==> back == b.wire.serials[e.token])
  }

  lemma BackKeepsBooks(b: Books, e: Entry, back: nat)
    requires BooksOk(b) && MayReturn(b, e, back)
    ensures BooksOk(Back(b, e, back)) && DeviceReturns(b.vq, Back(b, e, back).vq)
  {
    hide Pooled, WireOk, GapFree, Paid, Earned, TotalEarned, DeviceReturns;
    NothingReturned(b.vq);
    DeviceReturnsOneMore(b.vq, b.vq, e);
    ReturnIsOk(b.vq, Back(b, e, back).vq);
    ReturnKeepsWire(b.free, b.ios, b.vq, b.wire, b.paid, b.detached, e, back);
  }

  lemma NothingReturned(v: Vq)
    requires VqOk(v)
    ensures DeviceReturns(v, v)
  {
  }

  lemma ReturnIsOk(v: Vq, v': Vq)
    requires DeviceReturns(v, v')
    ensures VqOk(v') && v'.queue == v.queue
  {
  }

  lemma NextInRange(b: Books)
    requires BooksOk(b)
    ensures b.next < U32 && b.phase < RATE
  {
  }

  lemma PhaseMoves(b: Books, phase: nat)
    requires BooksOk(b) && phase < RATE
    ensures BooksOk(b.(phase := phase))
  {
  }

  /** The packets k, k + 1, ... of one submission. */
  function Numbers(k: nat, count: nat): (r: seq<nat>)
    ensures |r| == count
  {
    seq<nat>(count, j requires 0 <= j => Mod32(k + j))
  }

  /** A block was accepted by the queue for packet io.packetNumber and the `count` - 1 after it, or, for preroll
      silence, for none. */
  function Sent(b: Books, io: Io, count: nat): Books
    requires b.free != [] && |b.ios| == POOL == |b.wire.serials| && CanAdd(b.vq, 2) && b.free[|b.free| - 1] < POOL
  {
    var n := |b.free| - 1;
    var b1 := b.(free := b.free[..n], vq := AddBuf(b.vq, Held(b.free[n])), ios := b.ios[b.free[n] := io],
                 outstanding := b.outstanding + 1, wire := WireSent(b.wire, b.free[n], io));
    if count == 0 then b1
    else b1.(next := Mod32(io.packetNumber + count),
             order := b.order.(log := b.order.log + Numbers(io.packetNumber, count)))
  }

  /** The packets of a submission are the next ones, all of them written. */
  ghost predicate MaySend(b: Books, io: Io, count: nat) {
    count > 0 ==>
      && io.packetNumber == b.next
      && forall j :: 0 <= j < count ==> WrittenAt(b.client, b.next, j)
  }

  lemma NotYetWritten(b: Books)
    requires InOrder(b) && b.client.lastOs != MAXULONG && b.order.orderly
    ensures !WrittenAt(b.client, b.next, b.order.written - |b.order.log|)
  {
    var k := b.next + (b.order.written - |b.order.log|);
    PacketOrderIsExact(k, b.client.lastOs);
    Residue32(b.client.lastOs, 0, b.client.lastOs);
    Residue32(k, 0, k);
  }

  /** Submitting the next packets, if they were written, keeps the order: each goes out once, and none
      before the client wrote it. */
  lemma SentInOrder(b: Books, count: nat)
    requires InOrder(b) && count <= 3 && b.client.lastOs != MAXULONG && b.order.orderly
    requires forall j :: 0 <= j < count ==> WrittenAt(b.client, b.next, j)
    ensures |b.order.log| + count <= b.order.written && Mod32(b.next + count) == b.next + count
    ensures GapFree(b.order.log + Numbers(b.next, count), b.order.first)
  {
    hide WrittenAt;
    NotYetWritten(b);
    assert |b.order.log| + count <= b.order.written;
    Residue32(b.next + count, 0, b.next + count);
    forall j | 0 <= j < count ensures Numbers(b.next, count)[j] == b.next + j {
      Residue32(b.next + j, 0, b.next + j);
    }
  }

  lemma SentKeepsBooks(b: Books, io: Io, count: nat)
    requires BooksOk(b) && b.free != [] && CanAdd(b.vq, 2) && count <= 3
    requires MaySend(b, io, count) && Paid(io, b.fallback) == Earned(io)
    ensures BooksOk(Sent(b, io, count))
  {
    hide WrittenAt, PoolOk, WireOk;
    TopIsBlock(b);
    TakeBlock(b.free, b.vq);
    SendKeepsWire(b.free, b.ios, b.vq, b.wire, b.paid, b.detached, io);
    var b' := Sent(b, io, count);
    var n := |b.free| - 1;
    assert forall id :: id in b.free <==> id in b'.free || id == b.free[n] by {
      assert b.free == b'.free + [b.free[n]];
    }
    if count > 0 && b.client.lastOs != MAXULONG && b.order.orderly {
      SentInOrder(b, count);
    }
  }

  /** A submission of packet k once a block is free: nothing to send leaves the books alone; else the phase
      moves, and if the queue takes the block it is sent. */
  ghost function SubmitSpec(b: Books, ps: Packets, k: nat, acquired: bool): (r: (Books, bool))
    requires BooksOk(b) && b.free != [] && PacketsOk(ps) && b.client.eosLength <= ps.size * FRAME_BYTES
  {
    var m := Prepared(ps, b.client, b.fallback, b.phase, k);
    var b1 := b.(phase := m.fill.phase);
    if m.fill.out == [] then (b, false)
    else if acquired && CanAdd(b.vq, 2) then (Sent(b1, IoOf(k, m), m.packets), true)
    else (b1, false)
  }

  /** A failed submission changes neither the pool nor what is next - only, maybe, the phase. */
  lemma FailedSubmitChangesNothing(b: Books, ps: Packets, k: nat, acquired: bool)
    requires BooksOk(b) && b.free != [] && PacketsOk(ps) && b.client.eosLength <= ps.size * FRAME_BYTES && ps.size > 0
    requires k == b.next && Written(b.client, k)
    ensures var r := SubmitSpec(b, ps, k, acquired);
      && (!r.1 ==> r.0 == b.(phase := r.0.phase) && (!b.fallback ==> r.0 == b))
      && (!b.fallback ==> (r.1 <==> acquired && CanAdd(b.vq, 2)))
  {
    PreparedMaySend(ps, b.client, b.fallback, b.phase, k);
  }

  /** A fallback submission that fails - the queue is full, or busy - has moved the phase already.  For every
      client the retry starts from the same phase exactly if there was nothing to put out, or the frames
      available bring the phase back.  With a whole period available it does not on the first submission. */
  lemma FailedSubmitKeepsPhaseIff(b: Books, ps: Packets, k: nat, acquired: bool)
    requires BooksOk(b) && b.free != [] && PacketsOk(ps) && b.client.eosLength <= ps.size * FRAME_BYTES
    requires ps.size <= PACKET_FRAMES
    ensures var n, (b', sent) := Available(b.client, ps.size, k, 0), SubmitSpec(b, ps, k, acquired);
      b.fallback && !sent ==>
        && (b'.phase == b.phase <==> Units(b.phase, FALLBACK_RATE, n) < RATE || Returns(b.phase, n))
        && (n == 3 * PACKET_FRAMES && b.phase == INITIAL_PHASE ==> b'.phase == 0)
  {
    hide MergeAll, Available, PoolOk, InOrder;
    MergeKeepsPhaseIff(ps, b.client, k, b.phase);
  }

  /** A block came back from the device. */
  function Reclaimed(b: Books): Books
    requires b.vq.returned != [] && |b.ios| == POOL == |b.wire.serials| && b.outstanding > 0
    requires b.vq.returned[0].token < POOL
  {
    var io := b.ios[b.vq.returned[0].token];
    b.(free := b.free + [b.vq.returned[0].token], vq := GetBuf(b.vq), outstanding := b.outstanding - 1,
       position := b.position + Earned(io), completed := b.completed + if io.packetNumber == MAXULONG then 0 else 1,
       paid := b.paid + [Payment(b.wire.serials[b.vq.returned[0].token], io)])
  }

  lemma ReclaimKeepsBooks(b: Books)
    requires BooksOk(b) && b.vq.returned != []
    ensures b.vq.returned[0].token < POOL && b.outstanding > 0
    ensures BooksOk(Reclaimed(b)) && b.vq.returned[0].token !in b.free
    ensures Paid(b.ios[b.vq.returned[0].token], b.fallback) == Earned(b.ios[b.vq.returned[0].token])
  {
    hide Pooled, WireOk, GapFree, TotalEarned, Paid, Earned;
    ReturnBlock(b.free, b.vq);
    var e := b.vq.returned[0];
    assert e in multiset(b.vq.returned) && e in b.vq.queue.inFlight;
    CostOfHeld(b, e);
    TotalNext(b.paid, Payment(b.wire.serials[e.token], b.ios[e.token]));
    PayKeepsWire(b.free, b.ios, b.vq, b.wire, b.paid, b.detached);
    assert forall id :: id in b.free + [e.token] <==> id in b.free || id == e.token;
  }

  /** All that the device has returned came back. */
  ghost function ReclaimedAll(b: Books): Books
    requires BooksOk(b)
    decreases |b.vq.returned|
  {
    if b.vq.returned == [] then b
    else
      ReclaimKeepsBooks(b);
      ReclaimedAll(Reclaimed(b))
  }

  function Earnings(ios: seq<Io>, es: seq<Entry>): nat {
    if es == [] then 0
    else (if es[0].token < |ios| then Earned(ios[es[0].token]) else 0) + Earnings(ios, es[1..])
  }

  /** The position grows by the source bytes of what came back, preroll apart; pool and queue stay complete. */
  lemma {:induction false} PositionGrowsBySourceBytes(b: Books)
    requires BooksOk(b)
    ensures var b' := ReclaimedAll(b);
      && BooksOk(b') && b'.vq.returned == [] && b'.position == b.position + Earnings(b.ios, b.vq.returned)
      && b'.outstanding == b.outstanding - |b.vq.returned| && |b'.free| + b'.outstanding == POOL
      && b' == b.(free := b'.free, vq := b'.vq, outstanding := b'.outstanding, position := b'.position,
                  completed := b'.completed, paid := b'.paid)
    decreases |b.vq.returned|
  {
    hide PoolOk, InOrder;
    if b.vq.returned != [] {
      ReclaimKeepsBooks(b);
      PositionGrowsBySourceBytes(Reclaimed(b));
    } else {
      WholePool(b);
    }
  }

  lemma WholePool(b: Books)
    requires BooksOk(b)
    ensures |b.free| + b.outstanding == POOL
  {
  }

  /** A block that the queue still held was detached: it earns nothing.  What get_buf will give from then on
      is not decided by what was returned before. */
  function Detached(b: Books, e: Entry): Books
    requires b.outstanding > 0
  {
    b.(free := b.free + [e.token], vq := Vq(Remove(b.vq.queue, e), []), outstanding := b.outstanding - 1,
       detached := true)
  }

  lemma DetachKeepsBooks(b: Books, e: Entry)
    requires BooksOk(b) && e in b.vq.queue.inFlight
    ensures b.outstanding > 0 && BooksOk(Detached(b, e))
  {
    hide WireOk, Pooled, GapFree, Paid, Earned, TotalEarned;
    assert b.vq.queue.inFlight == Remove(b.vq.queue, e).inFlight + multiset{e};
    HeldOnce(b.free, b.vq.queue.inFlight, e);
    GiveBlock(b.free, b.vq, e, Detached(b, e).vq);
    DetachKeepsWire(b.free, b.ios, b.vq.returned, b.wire, b.paid, b.detached, e.token);
    assert forall id :: id in b.free + [e.token] <==> id in b.free || id == e.token;
  }

  /** Without a detach, nothing is paid that the device has not returned. */
  lemma PaidIsBack(b: Books)
    requires BooksOk(b) && !b.detached
    ensures forall k :: 0 <= k < |b.paid| ==> b.paid[k].serial !in b.wire.out
  {
  }

  /** Block e was detached; io is submitted next, in the same block and the same descriptors. */
  ghost function NextInTheBlock(b: Books, e: Entry, io: Io, count: nat): (b1: Books)
    requires BooksOk(b) && e in b.vq.queue.inFlight && b.outstanding > 0 && count <= 3
    requires MaySend(Detached(b, e), io, count) && Paid(io, b.fallback) == Earned(io)
    ensures BooksOk(b1) && b1.vq.returned == [] && e.token < POOL && b1.ios[e.token] == io
    ensures b1.wire.serials[e.token] == |b.wire.sent| && |b.wire.sent| in b1.wire.out && b1.detached
    ensures b1.position == b.position && b1.paid == b.paid && e in b1.vq.queue.inFlight && b1.outstanding > 0
    ensures b.wire.serials[e.token] < |b.wire.sent|
  {
    DetachKeepsBooks(b, e);
    CostOfHeld(b, e);
    SentKeepsBooks(Detached(b, e), io, count);
    Sent(Detached(b, e), io, count)
  }

  /** The device returned `back`, and get_buf gives block e for it. */
  ghost function PaidForIt(b: Books, e: Entry, back: nat): (b': Books)
    requires BooksOk(b) && MayReturn(b, e, back) && b.vq.returned == [] && b.outstanding > 0
    ensures BooksOk(b') && e.token < |b.ios| && e.token < |b.wire.serials|
    ensures b'.position == b.position + Earned(b.ios[e.token]) && b'.wire.out == b.wire.out - {back}
    ensures b'.paid == b.paid + [Payment(b.wire.serials[e.token], b.ios[e.token])]
  {
    CostOfHeld(b, e);
    BackKeepsBooks(b, e, back);
    ReclaimKeepsBooks(Back(b, e, back));
    Reclaimed(Back(b, e, back))
  }

  /** With one it is: the device has block e, which is detached, and io is submitted next.  When the device
      returns e the driver is paid for io, which the device has. */
  lemma DetachPaysTheNext(b: Books, e: Entry, io: Io, count: nat)
    requires BooksOk(b) && e in b.vq.queue.inFlight && b.outstanding > 0 && count <= 3
    requires MaySend(Detached(b, e), io, count) && Paid(io, b.fallback) == Earned(io)
    ensures e.token < |b.wire.serials|
    ensures var b1, back := NextInTheBlock(b, e, io, count), b.wire.serials[e.token];
      && MayReturn(b1, e, back)
      && var b2 := PaidForIt(b1, e, back);
      && BooksOk(b2) && b2.position == b.position + Earned(io)
      && b2.paid == b.paid + [Payment(|b.wire.sent|, io)] && |b.wire.sent| in b2.wire.out
  {
    CostOfHeld(b, e);
    CostOfHeld(NextInTheBlock(b, e, io, count), e);
    hide BooksOk, Paid, Earned, MaySend, NextInTheBlock, Detached, PaidForIt;
  }

  lemma CostOfHeld(b: Books, e: Entry)
    requires BooksOk(b) && e in b.vq.queue.inFlight
    ensures e == Held(e.token) && e.token < POOL && |b.wire.serials| == POOL == |b.ios|
    ensures b.wire.serials[e.token] < |b.wire.sent|
  {
    HeldOnce(b.free, b.vq.queue.inFlight, e);
  }

  /** The client wrote packet n, maybe the last one, cut short. */
  function WroteClient(c: Client, n: nat, eos: bool, eosLength: nat, size: nat): Client {
    if eos then Client(n, n, if eosLength < size * FRAME_BYTES then eosLength else size * FRAME_BYTES)
    else if c.eosPacket != MAXULONG && PacketLessOrEqual(c.eosPacket, n) then Client(n, MAXULONG, 0)
    else c.(lastOs := n)
  }

  /** SetWritePacket: the first packet that the client writes is the next to be submitted. */
  function WriteSpec(b: Books, n: nat, eos: bool, eosLength: nat, size: nat): Books {
    var b1 := b.(client := WroteClient(b.client, n, eos, eosLength, size));
    if b.client.lastOs == MAXULONG
    then b1.(next := n, order := Order(n, 1, [], n != MAXULONG))
    else b1.(order := b.order.(written := b.order.written + 1,
               orderly := b.order.orderly && n == b.order.first + b.order.written && n != MAXULONG
                          && b.order.written + 1 < |b.order.log| + 0x8000_0000))
  }

  lemma WriteKeepsBooks(b: Books, n: nat, eos: bool, eosLength: nat, size: nat)
    requires BooksOk(b) && n < U32
    ensures BooksOk(WriteSpec(b, n, eos, eosLength, size))
  {
    hide PoolOk, Paid, Earned;
  }

  /** ViosndHasWritableRenderPacket. */
  predicate HasWritable(next: nat, lastOs: nat) {
    lastOs != MAXULONG && PacketLessOrEqual(next, lastOs)
  }

  /** For a client that writes in order and keeps clear of that number, the test is exact. */
  lemma HasWritableIsExact(b: Books)
    requires BooksOk(b) && b.client.lastOs != MAXULONG && b.order.orderly
    ensures HasWritable(b.next, b.client.lastOs) <==> |b.order.log| < b.order.written
  {
    PacketOrderIsExact(b.next, b.client.lastOs);
    Residue32(b.next, 0, b.next);
    Residue32(b.client.lastOs, 0, b.client.lastOs);
  }

  /** The client writes packet n in its turn: its first, or the one after the last, not 2^31 ahead. */
  predicate InTurn(b: Books, n: nat) {
    || b.client.lastOs == MAXULONG
    || (b.order.orderly && n == b.order.first + b.order.written
        && b.order.written + 1 < |b.order.log| + 0x8000_0000)
  }

  /** A client that writes a packet in its turn has given the worker something to submit, unless the packet
      is numbered MAXULONG: that number stands for no packet at all, and with it the client is forgotten,
      whatever it wrote before. */
  lemma ForgottenIffMaxulong(b: Books, n: nat, eos: bool, eosLength: nat, size: nat)
    requires BooksOk(b) && n < U32 && InTurn(b, n)
    ensures var b' := WriteSpec(b, n, eos, eosLength, size);
      HasWritable(b'.next, b'.client.lastOs) <==> n != MAXULONG
  {
    hide PoolOk;
    if n != MAXULONG {
      WriteKeepsBooks(b, n, eos, eosLength, size);
      HasWritableIsExact(WriteSpec(b, n, eos, eosLength, size));
    }
  }

  /** SetWritePacket takes no lock.  Here it falls between the test of the worker and the store of what is next
      at the end of its submission, which then stays. */
  function Raced(b: Books, io: Io, count: nat, n: nat, eos: bool, eosLength: nat, size: nat): Books
    requires b.free != [] && |b.ios| == POOL == |b.wire.serials| && CanAdd(b.vq, 2) && b.free[|b.free| - 1] < POOL
  {
    var w, s := WriteSpec(b, n, eos, eosLength, size), Sent(b, io, count);
    s.(client := w.client,
       order := if b.client.lastOs == MAXULONG then w.order else w.order.(log := s.order.log))
  }

  /** A packet written in its turn in that moment keeps the order if and only if it is not the client's first, or
      it happens to be the one after those submitted.  Else the stream waits at the wrong packet. */
  lemma RacedWriteKeepsOrderIff(b: Books, io: Io, count: nat, n: nat, eos: bool, eosLength: nat, size: nat)
    requires BooksOk(b) && b.free != [] && CanAdd(b.vq, 2) && 1 <= count <= 3
    requires MaySend(b, io, count)
    requires InTurn(b, n) && n < MAXULONG
    ensures b.free[|b.free| - 1] < POOL && |b.ios| == POOL == |b.wire.serials|
    ensures InOrder(Raced(b, io, count, n, eos, eosLength, size))
       <==> b.client.lastOs != MAXULONG || Mod32(io.packetNumber + count) == n
  {
    hide PoolOk, WireOk, WrittenAt, Paid, Earned;
    TopIsBlock(b);
    if b.client.lastOs != MAXULONG {
      RacedLater(b, io, count, n, eos, eosLength, size);
    } else {
      RacedFirst(b, io, count, n, eos, eosLength, size);
    }
  }

  lemma RacedLater(b: Books, io: Io, count: nat, n: nat, eos: bool, eosLength: nat, size: nat)
    requires BooksOk(b) && b.free != [] && CanAdd(b.vq, 2) && 1 <= count <= 3 && MaySend(b, io, count)
    requires InTurn(b, n) && n < MAXULONG && b.client.lastOs != MAXULONG
    requires b.free[|b.free| - 1] < POOL && |b.ios| == POOL == |b.wire.serials|
    ensures InOrder(Raced(b, io, count, n, eos, eosLength, size))
  {
    hide PoolOk, WireOk, WrittenAt, Paid, Earned, TotalEarned, GapFree, Numbers, PacketLessOrEqual, AddBuf, WireSent;
    SentInOrder(b, count);
  }

  lemma RacedFirst(b: Books, io: Io, count: nat, n: nat, eos: bool, eosLength: nat, size: nat)
    requires b.free != [] && CanAdd(b.vq, 2) && 1 <= count <= 3
    requires n < MAXULONG && b.client.lastOs == MAXULONG
    requires b.free[|b.free| - 1] < POOL && |b.ios| == POOL == |b.wire.serials|
    ensures InOrder(Raced(b, io, count, n, eos, eosLength, size)) <==> Mod32(io.packetNumber + count) == n
  {
    hide Numbers, PacketLessOrEqual, AddBuf, WireSent, Mod32;
  }
}
