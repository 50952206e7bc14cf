/** The render stream's methods, updating the books of module Render and the buffer in place, with the tape of
    module RenderTape beside them. */
module RenderStream {
  import opened Queues
  import opened Rings
  import opened PacketNumbers
  import opened Resampler
  import opened Render
  import opened RenderTape

  function Silence(frames: nat): (r: seq<Frame>)
    ensures |r| == frames
  {
    seq(frames, _ => Frame(0, 0))
  }

  lemma MergeCounts(ps: Packets, c: Client, first: nat, m: Merge)
    requires PacketsOk(ps) && |m.fill.out| <= PACKET_FRAMES && m.fill.phase < RATE
    requires c.eosLength <= ps.size * FRAME_BYTES
    ensures MergeOne(ps, c, first, m).packets == m.packets + 1
    ensures MergeOne(ps, c, first, m).bytes == m.bytes + SourceBytes(c, Mod32(first + m.packets), ps.size)
  {
  }

  function SentSilence(b: Books, k: nat, size: nat): Books
    requires b.free != [] && |b.ios| == POOL == |b.wire.serials| && CanAdd(b.vq, 2) && b.free[|b.free| - 1] < POOL
  {
    var frames := if b.fallback then PACKET_FRAMES else size;
    Sent(b, Io(k, Silence(frames), frames * FRAME_BYTES), if k == MAXULONG then 0 else 1)
  }

  /** A block of this many silent frames, for packet k. */
  ghost predicate AllSilent(io: Io, k: nat, frames: nat) {
    io.packetNumber == k && |io.audio| == frames && forall j :: 0 <= j < frames ==> io.audio[j] == Frame(0, 0)
  }

  lemma SilenceMaySend(b: Books, k: nat, frames: nat)
    requires BooksOk(b) && (k == MAXULONG || (k == b.next && b.client.lastOs == MAXULONG)) && frames > 0
    ensures var io := Io(k, Silence(frames), frames * FRAME_BYTES);
      MaySend(b, io, if k == MAXULONG then 0 else 1) && Paid(io, b.fallback) == Earned(io)
  {
  }

  lemma ReclaimEffect(b: Books)
    requires BooksOk(b) && b.vq.returned != []
    ensures GetBuf(b.vq).queue.free == b.vq.queue.free + 2
    ensures |b.free| < POOL && |b.ios| == POOL && b.vq.returned[0].token < POOL && b.outstanding > 0
    ensures var b' := Reclaimed(b);
      BooksOk(b') && ReclaimedAll(b) == ReclaimedAll(b') && |b'.vq.returned| == |b.vq.returned| - 1
    ensures var io := b.ios[b.vq.returned[0].token];
      Paid(io, b.fallback) == Earned(io) && |b.wire.serials| == POOL
  {
    hide PoolOk, InOrder;
    ReturnBlock(b.free, b.vq);
    ReclaimKeepsBooks(b);
    WholePool(b);
  }

  /** Every block in the queue stands for as many bytes as it holds, or is preroll. */
  ghost predicate Plain(b: Books) {
    |b.ios| == POOL && forall id :: 0 <= id < POOL && id !in b.free ==> Paid(b.ios[id], false) == Earned(b.ios[id])
  }

  lemma SilenceEffect(b: Books, k: nat, size: nat)
    requires BooksOk(b) && b.free != [] && CanAdd(b.vq, 2)
    ensures b.free[|b.free| - 1] < POOL && |b.ios| == POOL
    ensures var b' := SentSilence(b, k, size);
      && b'.outstanding == b.outstanding + 1
      && b'.vq.queue.free == b.vq.queue.free - 2 && b'.vq.returned == b.vq.returned
      && |b'.order.log| >= |b.order.log| && |b'.wire.sent| == |b.wire.sent| + 1
      && AllSilent(b'.wire.sent[|b.wire.sent|], k, if b.fallback then PACKET_FRAMES else size)
      && (k == MAXULONG ==> b'.next == b.next && b'.order == b.order && (Plain(b) ==> Plain(b')))
  {
    hide PoolOk, InOrder;
    TopIsBlock(b);
    var b' := SentSilence(b, k, size);
    assert forall id :: id in b.free <==> id in b'.free || id == b.free[|b.free| - 1] by {
      assert b.free == b'.free + [b.free[|b.free| - 1]];
    }
  }

  lemma SubmitEffect(b: Books, ps: Packets, k: nat, acquired: bool)
    requires BooksOk(b) && b.free != [] && PacketsOk(ps) && b.client.eosLength <= ps.size * FRAME_BYTES
    ensures var r := SubmitSpec(b, ps, k, acquired);
      r.0.outstanding == b.outstanding + (if r.1 then 1 else 0) && r.0.vq.returned == b.vq.returned
  {
    hide Prepared;
    TopIsBlock(b);
  }

  lemma FewReturned(b: Books)
    requires BooksOk(b)
    ensures |b.vq.returned| <= b.outstanding <= POOL
  {
    hide WireOk, InOrder;
    WholePool(b);
    assert |multiset(b.vq.returned)| == |b.vq.returned|;
    assert b.vq.queue.inFlight == multiset(b.vq.returned) + (b.vq.queue.inFlight - multiset(b.vq.returned));
  }

  lemma NoBlock(b: Books, preroll: nat, size: nat)
    requires b.free == []
    ensures Stuck(b, preroll, size)
  {
  }

  lemma OrderIsKept(b: Books)
    requires BooksOk(b)
    ensures InOrder(b) && b.client.lastOs < U32
  {
  }

  lemma ModeChanges(b: Books, phase: nat)
    requires BooksOk(b) && !b.fallback && phase < RATE
    ensures BooksOk(b.(fallback := true, phase := phase)) && Plain(b.(fallback := true, phase := phase))
  {
    hide PoolOk;
  }

  lemma ModeBack(b: Books)
    requires BooksOk(b) && Plain(b)
    ensures BooksOk(b.(fallback := false))
  {
    hide PoolOk;
  }

  lemma NothingToReclaim(b: Books)
    requires BooksOk(b) && b.vq.returned == []
    ensures ReclaimedAll(b) == b
  {
  }

  lemma SomethingHeld(b: Books)
    requires BooksOk(b) && b.outstanding != 0
    ensures exists e :: e in b.vq.queue.inFlight
  {
    hide PoolOk, InOrder;
    assert b.vq.queue.inFlight != multiset{};
  }

  /** What a client does between two rounds of the worker; how a switch to the fallback rate goes; and a round:
      whether they happen, and how often the queue's lock is to be had. */
  datatype Write = Write(n: nat, data: seq<Frame>, endOfStream: bool, length: nat)
  datatype Switch = Switch(stopped: bool, configured: bool, started: bool, locks: nat, detaches: nat, accepts: nat)
  datatype Round = Round(write: Option<Write>, locks: nat, fallback: Option<Switch>, accepts: nat)

  predicate Succeeds(how: Switch) {
    how.stopped && how.configured && how.started && how.accepts >= PREROLL
  }

  predicate RoundOk(r: Round, size: nat) {
    r.write.Some? ==> r.write.value.n < U32 && |r.write.value.data| == size
  }

  class RenderStream {
    const notificationCount: nat
    /** Frames in a packet; at most a period. */
    const size: nat
    /** The buffer that the client writes packets to. */
    const buffer: array<Frame>
    const fallbackBuffer: array<Frame>
    const ioPool: array<nat>
    const ios: array<Io>

    var freeCount: nat
    var vq: Vq
    var outstanding: nat
    var next: nat
    var lastOs: nat
    var eosPacket: nat
    var eosLength: nat
    var prerollPackets: nat
    var fallbackActive: bool
    var fallbackPhase: nat
    var position: nat
    var completed: nat
    ghost var order: Order
    ghost var wire: Wire
    /** A block was detached while the queue held it. */
    ghost var detached: bool
    /** What the driver was paid for. */
    ghost var paid: seq<Payment>
    /** What the client wrote and the stream played. */
    ghost var tape: Tape

    ghost predicate Shaped()
      reads this
    {
      && notificationCount > 0 && 0 < size <= PACKET_FRAMES && buffer.Length == notificationCount * size
      && fallbackBuffer.Length == PACKET_FRAMES && ioPool.Length == POOL == ios.Length && freeCount <= POOL
      && buffer != fallbackBuffer && eosLength <= size * FRAME_BYTES
    }

    ghost function View(): Books
      requires freeCount <= ioPool.Length
      reads this, ioPool, ios
    {
      Books(ioPool[..freeCount], vq, ios[..], outstanding, next, TheClient(),
            fallbackActive, fallbackPhase, position, completed,
            order, wire, paid, detached)
    }

    /** The fields are those of b. */
    ghost predicate Shows(b: Books)
      requires freeCount <= ioPool.Length
      reads this, ioPool, ios
    {
      && ioPool[..freeCount] == b.free && vq == b.vq && ios[..] == b.ios && outstanding == b.outstanding
      && next == b.next && lastOs == b.client.lastOs && eosPacket == b.client.eosPacket
      && eosLength == b.client.eosLength && fallbackActive == b.fallback && fallbackPhase == b.phase
      && position == b.position && completed == b.completed
      && order == b.order && wire == b.wire && paid == b.paid && detached == b.detached
    }

    lemma ShowsIsView(b: Books)
      requires freeCount <= ioPool.Length && Shows(b)
      ensures View() == b
    {
    }

    ghost predicate Valid()
      reads this, ioPool, ios
    {
      Shaped() && BooksOk(View())
    }

    ghost function Buffer(): Packets
      reads buffer
    {
      Packets(buffer[..], notificationCount, size)
    }

    function TheClient(): Client
      reads `lastOs, `eosPacket, `eosLength
    {
      Client(lastOs, eosPacket, eosLength)
    }

    /** The tape is in step with the buffer and the packets submitted. */
    ghost predicate Taped()
      reads `tape, `order, `lastOs, `eosPacket, `eosLength, buffer
    {
      PacketsOk(Buffer()) && InStep(tape, order, TheClient(), Buffer())
    }

    /** The descriptors of the transmit queue. */
    function Capacity(): nat
      reads this
    {
      vq.queue.free + 2 * outstanding
    }

    /** An honest device returns some of the blocks that it has.  Once a block was detached, the ring no longer
        tells which: get_buf may then take any return for any block in the queue. */
    method DeviceRuns()
      requires Valid()
      modifies `vq, `wire
      ensures Valid() && DeviceReturns(old(vq), vq) && wire == old(wire).(out := wire.out)
    {
      hide BooksOk, DeviceReturns;
      Unchanged(vq);
      while *
        invariant Valid() && DeviceReturns(old(vq), vq) && wire == old(wire).(out := wire.out)
        decreases |vq.queue.inFlight - multiset(vq.returned)|
      {
        var e: Entry := *;
        if e !in vq.queue.inFlight - multiset(vq.returned) { break; }
        DeviceReturnsOneMore(old(vq), vq, e);
        ReturnOne(e);
      }
    }

    method ReturnOne(e: Entry)
      requires Valid() && e in vq.queue.inFlight - multiset(vq.returned)
      modifies `vq, `wire
      ensures Valid() && wire == old(wire).(out := wire.out)
      ensures vq == old(vq).(returned := old(vq).returned + [e])
    {
      hide BooksOk, DeviceReturns;
      HeldToken(e);
      ghost var back: nat := *;
      if !detached {
        back := wire.serials[e.token];
      }
      BackKeepsBooks(View(), e, back);
      vq := vq.(returned := vq.returned + [e]);
      wire := wire.(out := wire.out - {back});
    }

    lemma HeldToken(e: Entry)
      requires Valid() && e in vq.queue.inFlight
      ensures e.token < |wire.serials| && e.cost == 2
    {
      hide WireOk, Pooled;
      CostOfHeld(View(), e);
    }

    lemma Unchanged(v: Vq)
      requires Valid() && v == vq
      ensures DeviceReturns(v, v)
    {
    }

    /** The queue accepted block id for packet io.packetNumber and the count - 1 after it, if any. */
    method Post(id: nat, io: Io, count: nat)
      requires id < ios.Length == |wire.serials| && CanAdd(vq, 2)
      modifies ios, `vq, `next, `outstanding, `order, `wire
      ensures wire == WireSent(old(wire), id, io)
      ensures ios[..] == old(ios[..])[id := io] && vq == AddBuf(old(vq), Held(id))
      ensures outstanding == old(outstanding) + 1
      ensures next == if count != 0 then Mod32(io.packetNumber + count) else old(next)
      ensures order == if count == 0 then old(order)
                       else old(order).(log := old(order.log) + Numbers(io.packetNumber, count))
    {
      ios[id] := io;
      wire := WireSent(wire, id, io);
      vq := AddBuf(vq, Held(id));
      outstanding := outstanding + 1;
      if count != 0 {
        next := Mod32(io.packetNumber + count);
        order := order.(log := order.log + Numbers(io.packetNumber, count));
      }
    }

    /** A block from the pool is put in the queue, which has room for it. */
    method SendTop(io: Io, count: nat)
      requires Valid() && freeCount > 0 && count <= 3 && CanAdd(vq, 2)
      requires MaySend(View(), io, count) && Paid(io, fallbackActive) == Earned(io)
      modifies `freeCount, ioPool, ios, `vq, `next, `outstanding, `order, `wire
      ensures Valid() && View() == Sent(old(View()), io, count)
    {
      hide MaySend, BooksOk, Paid, Earned, AddBuf, Add, Held, Numbers, Mod32, WireSent;
      TopIsBlock(View());
      SentKeepsBooks(View(), io, count);
      freeCount := freeCount - 1;
      assert ioPool[..freeCount] == old(ioPool[..freeCount])[..freeCount];
      Post(ioPool[freeCount], io, count);
      ShowsIsView(Sent(old(View()), io, count));
    }

    /** The tail of the submit methods: a block is taken from the pool and put in the queue - or back, if
        the queue's lock is not to be had or the queue is full. */
    method SendBlock(io: Io, count: nat, acquired: bool) returns (ok: bool)
      requires Valid() && freeCount > 0 && count <= 3
      requires MaySend(View(), io, count) && Paid(io, fallbackActive) == Earned(io)
      modifies `freeCount, ioPool, ios, `vq, `next, `outstanding, `order, `wire
      ensures Valid() && (ok <==> acquired && CanAdd(old(vq), 2))
      ensures View() == if ok then Sent(old(View()), io, count) else old(View())
    {
      hide MaySend, BooksOk, Paid, Earned, Sent;
      TopIsBlock(View());
      ok := acquired && CanAdd(vq, 2);
      if ok {
        SendTop(io, count);
      } else {
        var id := ioPool[freeCount - 1];
        ioPool[freeCount - 1] := id;
        ShowsIsView(old(View()));
      }
    }

    /** The fallback buffer holds what m has filled so far. */
    ghost predicate Filling(m: Merge, frames: nat, phase: nat)
      reads this, fallbackBuffer
    {
      && frames <= fallbackBuffer.Length == PACKET_FRAMES && phase < RATE
      && fallbackBuffer[..frames] == m.fill.out && phase == m.fill.phase
    }

    /** One packet resampled into the fallback buffer. */
    method MergePacket(k: nat, length: nat, frames: nat, phase: nat, ghost first: nat, ghost m: Merge)
      returns (frames': nat, phase': nat)
      requires Shaped() && Filling(m, frames, phase) && length <= size * FRAME_BYTES
      requires k == Mod32(first + m.packets) && length == SourceBytes(TheClient(), k, size)
      modifies fallbackBuffer
      ensures Filling(MergeOne(Buffer(), TheClient(), first, m), frames', phase')
    {
      hide Kept, Looked, PhaseAfter;
      ghost var c := TheClient();
      SlotFits(Slot(k, notificationCount), notificationCount, size);
      MergeFits(Buffer(), c, first, m);
      var from := Slot(k, notificationCount) * size;
      var packet := buffer[from..from + length / FRAME_BYTES];
      assert packet == PacketFrames(Buffer(), k, length / FRAME_BYTES);
      var count;
      ghost var out := fallbackBuffer[..frames];
      count, phase' := Downsample(fallbackBuffer, frames, PACKET_FRAMES - frames, packet, FALLBACK_RATE, phase);
      frames' := frames + count;
      assert fallbackBuffer[..frames'] == out + fallbackBuffer[frames..frames'];
    }

    /** The loop of SubmitRenderPacket that fills a fallback period from packet k on. */
    method FillFallback(k: nat) returns (frames: nat, packets: nat, bytes: nat, phase: nat)
      requires Shaped() && fallbackPhase < RATE && k < U32
      modifies fallbackBuffer
      ensures frames <= PACKET_FRAMES
      ensures Merge(Fill(fallbackBuffer[..frames], phase), packets, bytes)
           == MergeAll(Buffer(), TheClient(), k, NoMerge(fallbackPhase))
    {
      hide MergeOne;
      ghost var c, ps := TheClient(), Buffer();
      frames, packets, bytes, phase := 0, 0, 0, fallbackPhase;
      ghost var m := NoMerge(fallbackPhase);
      var go := true;
      while go && packets < 3 && frames < PACKET_FRAMES
        invariant Filling(m, frames, phase) && m.packets == packets && m.bytes == bytes && Buffer() == ps
        invariant MergeAll(ps, c, k, m) == MergeAll(ps, c, k, NoMerge(fallbackPhase))
        invariant go ==> packets == 0 || !EndsAt(c, k, packets - 1)
        invariant !go ==> !CanMerge(c, k, m)
        decreases if go then 4 - packets else 0
      {
        var source := Mod32(k + packets);
        if lastOs != MAXULONG && !PacketLessOrEqual(source, lastOs) {
          go := false;
        } else {
          var length := if eosPacket == source then eosLength else size * FRAME_BYTES;
          MergeFits(ps, c, k, m);
          MergeCounts(ps, c, k, m);
          frames, phase := MergePacket(source, length, frames, phase, k, m);
          m := MergeOne(ps, c, k, m);
          bytes := bytes + length;
          packets := packets + 1;
          go := eosPacket != source;
        }
      }
      assert !CanMerge(c, k, m);
    }

    /** RtlZeroMemory over the rest of a short packet. */
    method SilenceFrom(from: nat, length: nat)
      requires from + size <= buffer.Length
      modifies buffer
      ensures buffer[..] == old(buffer[..from]) + Silenced(old(buffer[from..from + size]), length)
                          + old(buffer[from + size..])
    {
      hide KeepBytes;
      forall i | from <= i < from + size {
        buffer[i] := if length >= (i - from) * FRAME_BYTES then KeepBytes(buffer[i], length - (i - from) * FRAME_BYTES)
                     else Frame(0, 0);
      }
    }

    method PadPacket(k: nat, length: nat)
      requires Shaped()
      modifies buffer
      ensures Buffer() == Padded(old(Buffer()), k, length)
    {
      SlotFits(Slot(k, notificationCount), notificationCount, size);
      if length < size * FRAME_BYTES {
        SilenceFrom(Slot(k, notificationCount) * size, length);
      }
    }

    /** What SubmitRenderPacket puts in its block, made in the buffers. */
    method Prepare(k: nat) returns (io: Io, packets: nat, phase: nat)
      requires Shaped() && fallbackPhase < RATE && k < U32
      modifies fallbackBuffer
      ensures var m := Prepared(Buffer(), TheClient(), fallbackActive, fallbackPhase, k);
        io == IoOf(k, m) && packets == m.packets && phase == m.fill.phase
    {
      hide MergeAll;
      if fallbackActive {
        var frames, bytes;
        frames, packets, bytes, phase := FillFallback(k);
        io := Io(k, fallbackBuffer[..frames], if bytes != 0 then bytes else frames * FRAME_BYTES);
      } else {
        SlotFits(Slot(k, notificationCount), notificationCount, size);
        var from := Slot(k, notificationCount) * size;
        io, packets, phase := Io(k, buffer[from..from + size], size * FRAME_BYTES), 1, fallbackPhase;
      }
    }

    /** SubmitRenderPacket, for the packet that is next and was written; length is its length up to the end of the
        stream.  acquired says whether the queue's lock is to be had in time. */
    method SubmitRenderPacket(k: nat, length: nat, acquired: bool) returns (ok: bool)
      requires Valid() && Taped() && k == next && Written(TheClient(), k)
      requires lastOs != MAXULONG ==> length == SourceBytes(TheClient(), k, size)
      requires HasWritable(k, lastOs) || (lastOs == MAXULONG && prerollPackets == 0)
      modifies `freeCount, ioPool, ios, `vq, `next, `outstanding, `order, `wire, `fallbackPhase, `tape,
               buffer, fallbackBuffer
      ensures Valid() && Taped() && (old(freeCount) == 0 ==> !ok && View() == old(View()) && Buffer() == old(Buffer()))
      ensures old(freeCount) > 0 ==>
        Buffer() == Padded(old(Buffer()), k, length) && (View(), ok) == SubmitSpec(old(View()), Buffer(), k, acquired)
      ensures outstanding == old(outstanding) + (if ok then 1 else 0) && vq.returned == old(vq.returned)
      ensures ok <==> acquired && !Stuck(old(View()), prerollPackets, size)
      ensures acquired && !ok ==> Stuck(View(), prerollPackets, size)
      ensures |order.log| >= |old(order.log)| && (ok ==> |order.log| > |old(order.log)|)
      ensures ok ==> |wire.sent| == |old(wire.sent)| + 1
      ensures ok ==> MadeOf(wire.sent[|old(wire.sent)|], Buffer(), TheClient(), fallbackActive, old(fallbackPhase), k,
                            |order.log| - |old(order.log)|)
    {
      hide BooksOk, Prepared, Padded, Sent, Stuck, InStep, MadeOf, Written, SourceBytes;
      if freeCount == 0 {
        NoBlock(View(), prerollPackets, size);
        return false;
      }
      ghost var b, t := View(), tape;
      SubmissionKeepsTape(b, t, Buffer(), length, acquired);
      PadPacket(k, length);
      ghost var ps := Buffer();
      SubmitEffect(b, ps, k, acquired);
      SubmittedIsMadeOf(b, ps, k, acquired);
      SubmittedUnlessStuck(b, ps, prerollPackets, acquired);
      ok := SubmitPrepared(k, acquired);
      if ok { tape := PlayedOn(t, b, k, Prepared(ps, b.client, b.fallback, b.phase, k)); }
    }

    /** SubmitRenderPacket once the packet was padded. */
    method SubmitPrepared(k: nat, acquired: bool) returns (ok: bool)
      requires Valid() && k == next && Written(TheClient(), k) && freeCount > 0
      modifies `freeCount, ioPool, ios, `vq, `next, `outstanding, `order, `wire, `fallbackPhase, fallbackBuffer
      ensures Valid() && (View(), ok) == SubmitSpec(old(View()), Buffer(), k, acquired)
    {
      hide BooksOk, Prepared, Sent;
      NextInRange(View());
      PreparedMaySend(Buffer(), TheClient(), fallbackActive, fallbackPhase, k);
      var io, packets, phase := Prepare(k);
      if io.audio == [] { return false; }
      PhaseMoves(View(), phase);
      fallbackPhase := phase;
      ok := SendBlock(io, packets, acquired);
    }

    /** SubmitRenderSilencePacket: preroll, numbered MAXULONG, or the next packet while the client has not
        written any. */
    method SubmitRenderSilencePacket(k: nat, acquired: bool) returns (ok: bool)
      requires Valid() && (k == MAXULONG || (k == next && lastOs == MAXULONG))
      modifies `freeCount, ioPool, ios, `vq, `next, `outstanding, `order, `wire
      ensures Valid() && (ok <==> old(freeCount) > 0 && acquired && CanAdd(old(vq), 2))
      ensures !ok ==> View() == old(View())
      ensures ok ==> View() == SentSilence(old(View()), k, size) && outstanding == old(outstanding) + 1
      ensures k == MAXULONG ==> next == old(next) && order == old(order) && (Plain(old(View())) ==> Plain(View()))
      ensures Capacity() == old(Capacity()) && |order.log| >= |old(order.log)| && vq.returned == old(vq.returned)
      ensures ok ==> |wire.sent| == |old(wire.sent)| + 1
      ensures ok ==> AllSilent(wire.sent[|old(wire.sent)|], k, if fallbackActive then PACKET_FRAMES else size)
    {
      hide BooksOk, Sent, Plain, AllSilent;
      if freeCount == 0 { return false; }
      if CanAdd(vq, 2) { SilenceEffect(View(), k, size); }
      var frames := if fallbackActive then PACKET_FRAMES else size;
      SilenceMaySend(View(), k, frames);
      var count := if k == MAXULONG then 0 else 1;
      ok := SendBlock(Io(k, Silence(frames), frames * FRAME_BYTES), count, acquired);
    }

    /** The client is paid for a block that came back. */
    method Pay(io: Io, ghost serial: nat)
      modifies `position, `completed, `paid
      ensures paid == old(paid) + [Payment(serial, io)]
      ensures position == old(position) + Paid(io, fallbackActive)
      ensures completed == old(completed) + if io.packetNumber == MAXULONG then 0 else 1
    {
      paid := paid + [Payment(serial, io)];
      if io.packetNumber != MAXULONG {
        var sourceBytes := if fallbackActive then io.sourceLength else |io.audio| * FRAME_BYTES;
        if sourceBytes == 0 {
          sourceBytes := |io.audio| * FRAME_BYTES;
        }
        position := position + sourceBytes;
        completed := completed + 1;
      }
    }

    /** A block goes back to the pool. */
    method PutBack(id: nat)
      requires freeCount < ioPool.Length
      modifies ioPool, `freeCount
      ensures freeCount == old(freeCount) + 1 && ioPool[..freeCount] == old(ioPool[..freeCount]) + [id]
    {
      ioPool[freeCount] := id;
      freeCount := freeCount + 1;
    }

    /** A block from the queue. */
    method TakeReturned() returns (id: nat)
      requires vq.returned != []
      modifies `vq, `outstanding
      ensures id == old(vq).returned[0].token && vq == GetBuf(old(vq))
      ensures outstanding == if old(outstanding) != 0 then old(outstanding) - 1 else 0
    {
      id := vq.returned[0].token;
      vq := GetBuf(vq);
      if outstanding != 0 {
        outstanding := outstanding - 1;
      }
    }

    /** The body of the loop of ReclaimRenderPackets. */
    method ReclaimOne()
      requires Valid() && vq.returned != []
      modifies `freeCount, ioPool, `vq, `outstanding, `position, `completed, `paid
      ensures old(paid) <= paid && |paid| == |old(paid)| + 1
      ensures Valid() && outstanding == old(outstanding) - 1 && |vq.returned| == |old(vq.returned)| - 1
      ensures ReclaimedAll(View()) == ReclaimedAll(old(View())) && Capacity() == old(Capacity())
    {
      hide BooksOk, Paid, Earned, ReclaimedAll, GetBuf;
      ghost var b := View();
      ReclaimEffect(b);
      TakeBack();
      StillValid(Reclaimed(b));
    }

    lemma StillValid(b: Books)
      requires Shaped() && View() == b && BooksOk(b)
      ensures Valid()
    {
    }

    /** The block of the first return is paid for and goes back to the pool. */
    method TakeBack()
      requires Shaped() && vq.returned != [] && vq.returned[0].token < POOL == |wire.serials|
      requires freeCount < POOL && outstanding > 0
      requires Paid(ios[vq.returned[0].token], fallbackActive) == Earned(ios[vq.returned[0].token])
      modifies `freeCount, ioPool, `vq, `outstanding, `position, `completed, `paid
      ensures Shaped() && View() == Reclaimed(old(View()))
    {
      hide Paid, Earned, GetBuf;
      ghost var b := Reclaimed(View());
      var id := TakeReturned();
      Pay(ios[id], wire.serials[id]);
      PutBack(id);
      ShowsIsView(b);
    }

    /** ReclaimRenderPackets: everything that the device has returned, while the queue's lock is to be had, `locks`
        times. */
    method ReclaimRenderPackets(locks: nat) returns (all: bool)
      requires Valid()
      modifies `freeCount, ioPool, `vq, `outstanding, `position, `completed, `paid
      ensures Valid() && outstanding <= old(outstanding) && old(paid) <= paid && Capacity() == old(Capacity())
      ensures all <==> locks >= |old(vq.returned)|
      ensures |paid| + |vq.returned| == |old(paid)| + |old(vq.returned)|
      ensures all ==> View() == ReclaimedAll(old(View())) && vq.returned == []
      ensures !all ==> |vq.returned| == |old(vq.returned)| - locks && ReclaimedAll(View()) == ReclaimedAll(old(View()))
    {
      hide BooksOk, Reclaimed, ReclaimedAll;
      var left: nat := locks;
      while left > 0 && vq.returned != []
        invariant Valid() && outstanding <= old(outstanding) && old(paid) <= paid && Capacity() == old(Capacity())
        invariant ReclaimedAll(View()) == ReclaimedAll(old(View()))
        invariant left <= locks && |vq.returned| + locks == |old(vq.returned)| + left
        invariant |paid| + |vq.returned| == |old(paid)| + |old(vq.returned)|
        decreases left
      {
        ReclaimOne();
        left := left - 1;
      }
      all := vq.returned == [];
      if all { NothingToReclaim(View()); }
    }

    /** CancelRenderWrites: the device may return blocks until the queue's lock is taken for the reclaim, and
        after it; `left` blocks were still outstanding then, and those are detached as long as the lock is to be
        had, `detaches` times.  Nothing of that is paid for. */
    method CancelRenderWrites(locks: nat, detaches: nat) returns (drained: bool, left: nat)
      requires Valid()
      modifies `freeCount, ioPool, `vq, `outstanding, `position, `completed, `paid, `wire, `detached
      ensures Valid() && outstanding <= left <= old(outstanding) && Capacity() == old(Capacity())
      ensures outstanding == if detaches >= left then 0 else left - detaches
      ensures (drained <==> outstanding == 0) && (drained ==> freeCount == POOL)
      ensures old(paid) <= paid && wire == old(wire).(out := wire.out)
      ensures detached <==> old(detached) || outstanding < left
    {
      hide BooksOk, ReclaimedAll, Valid;
      DeviceRuns();
      var all := ReclaimRenderPackets(locks);
      left := outstanding;
      DeviceRuns();
      var acquires: nat := detaches;
      while acquires > 0 && outstanding != 0
        invariant Valid() && outstanding <= left && old(paid) <= paid && Capacity() == old(Capacity())
        invariant acquires <= detaches && outstanding + detaches == left + acquires
        invariant wire == old(wire).(out := wire.out)
        invariant detached <==> old(detached) || outstanding < left
        decreases acquires
      {
        DetachOne();
        acquires := acquires - 1;
      }
      drained := outstanding == 0;
      AllBlocks();
    }

    lemma AllBlocks()
      requires Valid()
      ensures freeCount + outstanding == POOL
    {
      WholePool(View());
    }

    /** virtqueue_detach_unused_buf finds some block in the queue. */
    method DetachOne()
      requires Valid() && outstanding != 0
      modifies `freeCount, ioPool, `vq, `outstanding, `detached
      ensures Valid() && outstanding == old(outstanding) - 1 && detached && Capacity() == old(Capacity())
    {
      hide BooksOk, VqOk, PoolOk, WireOk;
      SomethingHeld(View());
      var e :| e in vq.queue.inFlight;
      HeldToken(e);
      DetachKeepsBooks(View(), e);
      WholePool(View());
      ghost var b := Detached(View(), e);
      vq := Vq(Remove(vq.queue, e), []);
      outstanding := outstanding - 1;
      detached := true;
      PutBack(e.token);
      ShowsIsView(b);
    }

    method NoteClient(n: nat, endOfStream: bool, length: nat)
      modifies `lastOs, `eosPacket, `eosLength
      ensures old(eosLength) <= size * FRAME_BYTES ==> eosLength <= size * FRAME_BYTES
      ensures TheClient()
           == WroteClient(old(TheClient()), n, endOfStream, length, size)
      ensures lastOs == n
      ensures endOfStream ==>
        eosPacket == n && eosLength == if length < size * FRAME_BYTES then length else size * FRAME_BYTES
      ensures !endOfStream && old(eosPacket) != MAXULONG && PacketLessOrEqual(old(eosPacket), n) ==>
        eosPacket == MAXULONG
      ensures !endOfStream && (old(eosPacket) == MAXULONG || !PacketLessOrEqual(old(eosPacket), n)) ==>
        eosPacket == old(eosPacket) && eosLength == old(eosLength)
    {
      lastOs := n;
      if endOfStream {
        eosPacket := n;
        eosLength := if length < size * FRAME_BYTES then length else size * FRAME_BYTES;
      } else if eosPacket != MAXULONG && PacketLessOrEqual(eosPacket, n) {
        eosPacket, eosLength := MAXULONG, 0;
      }
    }

    /** SetWritePacket. */
    method SetWritePacket(n: nat, endOfStream: bool, length: nat)
      requires Valid() && n < U32
      modifies `next, `lastOs, `eosPacket, `eosLength, `order
      ensures Valid() && View() == WriteSpec(old(View()), n, endOfStream, length, size)
      ensures lastOs == n && (old(lastOs) == MAXULONG ==> next == n) && (old(lastOs) != MAXULONG ==> next == old(next))
      ensures endOfStream ==>
        eosPacket == n && eosLength == if length < size * FRAME_BYTES then length else size * FRAME_BYTES
    {
      hide BooksOk, WroteClient, PacketLessOrEqual;
      ghost var b := WriteSpec(View(), n, endOfStream, length, size);
      WriteKeepsBooks(View(), n, endOfStream, length, size);
      order := b.order;
      if lastOs == MAXULONG {
        next := n;
      }
      NoteClient(n, endOfStream, length);
      ShowsIsView(b);
    }

    method PutPacket(n: nat, data: seq<Frame>)
      requires Shaped() && |data| == size
      modifies buffer
      ensures PacketsOk(old(Buffer())) && Buffer() == WithPacket(old(Buffer()), n, data)
    {
      SlotFits(Slot(n, notificationCount), notificationCount, size);
      var from := Slot(n, notificationCount) * size;
      forall j | from <= j < from + size {
        buffer[j] := data[j - from];
      }
    }

    /** What a client does: it puts the frames of packet n in their slot, and says so. */
    method ClientWrites(n: nat, data: seq<Frame>, endOfStream: bool, length: nat)
      requires Valid() && Taped() && n < U32 && |data| == size
      modifies `next, `lastOs, `eosPacket, `eosLength, `order, `tape, buffer
      ensures Valid() && Taped() && View() == WriteSpec(old(View()), n, endOfStream, length, size)
      ensures Buffer() == WithPacket(old(Buffer()), n, data) && lastOs == n
      ensures var w := Wrote(data, if endOfStream && length < size * FRAME_BYTES then length else size * FRAME_BYTES);
        tape == WrittenOn(old(tape), old(order), old(TheClient()), w, notificationCount)
    {
      hide BooksOk, InStep, WroteClient, WrittenOn, EndWaits, WriteSpec, WithPacket;
      ghost var b, ps := View(), Buffer();
      ghost var w := Wrote(data, if endOfStream && length < size * FRAME_BYTES then length else size * FRAME_BYTES);
      OrderIsKept(b);
      WriteKeepsTape(b, tape, ps, n, w, endOfStream, length);
      PutPacket(n, data);
      SetWritePacket(n, endOfStream, length);
      tape := WrittenOn(tape, b.order, b.client, w, notificationCount);
    }

    /** The loop that queues silence before a stream starts; `accepts` of the submissions get the lock. */
    method Prequeue(accepts: nat) returns (ok: bool)
      requires Valid() && outstanding <= TARGET
      modifies `freeCount, ioPool, ios, `vq, `next, `outstanding, `order, `wire
      ensures Valid() && outstanding <= TARGET && next == old(next) && order == old(order)
      ensures ok ==> outstanding == if old(outstanding) < PREROLL then PREROLL else old(outstanding)
      ensures accepts >= PREROLL && Capacity() >= 2 * PREROLL ==> ok
      ensures Capacity() == old(Capacity()) && (Plain(old(View())) ==> Plain(View()))
    {
      hide BooksOk, SentSilence, Plain;
      var left, locks := PREROLL, accepts;
      ok := true;
      while ok && left != 0 && outstanding < PREROLL
        invariant Valid() && outstanding <= TARGET && next == old(next) && order == old(order) && left <= PREROLL
        invariant Capacity() == old(Capacity()) && (Plain(old(View())) ==> Plain(View()))
        invariant outstanding <= PREROLL || outstanding == old(outstanding)
        invariant ok ==> outstanding == old(outstanding) + PREROLL - left && locks + PREROLL == accepts + left
        invariant accepts >= PREROLL && Capacity() >= 2 * PREROLL ==> ok
        decreases left, ok
      {
        WholePool(View());
        ok := SubmitRenderSilencePacket(MAXULONG, locks > 0);
        if ok {
          left, locks := left - 1, locks - 1;
        }
      }
    }

    /** How many packets the worker means to keep in the queue, by mode; and the client keeps a slot of its own. */
    function Most(): nat
      reads this
    {
      if fallbackActive then FALLBACK_TARGET else if lastOs == MAXULONG then CYCLIC_TARGET else TARGET
    }

    ghost predicate AtTarget()
      reads this
    {
      outstanding >= Most() || outstanding >= if notificationCount == 1 then 1 else notificationCount - 1
    }

    /** The submission part of the render worker's loop: packets that the client wrote, in order, or - while
        it has not written any - silence and then the buffer as it is; up to the target of the mode.  `accepts` of
        the submissions get the queue's lock.  If all do, it stops only at the target or when it is stuck; and if
        it need not stop at once, something goes out. */
    method SubmitUpToTarget(accepts: nat)
      requires Valid() && Taped() && outstanding <= TARGET
      modifies `freeCount, ioPool, ios, `vq, `next, `outstanding, `order, `wire, `fallbackPhase, `prerollPackets,
               `tape, buffer, fallbackBuffer
      ensures Valid() && Taped() && old(outstanding) <= outstanding <= TARGET && vq.returned == old(vq.returned)
      ensures accepts >= TARGET ==> AtTarget() || Stuck(View(), prerollPackets, size)
      ensures outstanding > old(outstanding) ==>
        outstanding <= Most() && (notificationCount > 1 ==> outstanding < notificationCount)
      ensures |order.log| >= |old(order.log)|
      ensures var goes := accepts > 0 && !old(AtTarget()) && !Stuck(old(View()), old(prerollPackets), size);
        && (goes <==> outstanding > old(outstanding))
        && (goes && HasWritable(old(next), lastOs) ==> |order.log| > |old(order.log)|)
    {
      hide BooksOk, SubmitSpec, SentSilence, Stuck, InStep;
      var target := Target(notificationCount, Most());
      assert target == if notificationCount == 1 then 1
                       else if notificationCount - 1 < Most() then notificationCount - 1 else Most();
      var go, left := true, accepts;
      while go && outstanding < target
        invariant Valid() && Taped() && old(outstanding) <= outstanding <= TARGET && vq.returned == old(vq.returned)
        invariant outstanding > old(outstanding) ==> outstanding <= target
        invariant |order.log| >= |old(order.log)|
        invariant go ==> left + outstanding == accepts + old(outstanding)
        invariant !go && left > 0 ==> Stuck(View(), prerollPackets, size)
        invariant !go ==> left + outstanding == accepts + old(outstanding)
        invariant go && outstanding == old(outstanding) ==>
          View() == old(View()) && prerollPackets == old(prerollPackets)
        invariant !go && outstanding == old(outstanding) ==>
          accepts == 0 || Stuck(old(View()), old(prerollPackets), size)
        invariant outstanding > old(outstanding) ==>
          && accepts > 0 && !Stuck(old(View()), old(prerollPackets), size)
          && (HasWritable(old(next), lastOs) ==> |order.log| > |old(order.log)|)
        decreases POOL - outstanding, go
      {
        go := SubmitNext(left > 0);
        if go {
          left := left - 1;
        }
      }
    }

    /** The length of the packet that is next. */
    function NextLength(): nat
      reads this
    {
      if HasWritable(next, lastOs) && eosPacket == next then eosLength else size * FRAME_BYTES
    }

    /** One round of that loop: what the client wrote goes first; without any, silence while preroll is
        left, then the buffer as it is; and nothing past what it wrote. */
    method SubmitNext(acquired: bool) returns (ok: bool)
      requires Valid() && Taped() && outstanding < TARGET
      modifies `freeCount, ioPool, ios, `vq, `next, `outstanding, `order, `wire, `fallbackPhase, `prerollPackets,
               `tape, buffer, fallbackBuffer
      ensures Valid() && Taped() && outstanding == old(outstanding) + if ok then 1 else 0
      ensures vq.returned == old(vq.returned)
      ensures HasWritable(old(next), lastOs) || (lastOs == MAXULONG && old(prerollPackets) == 0) ==>
        && prerollPackets == old(prerollPackets)
        && (old(freeCount) == 0 ==> !ok && View() == old(View()))
        && (old(freeCount) > 0 ==> Buffer() == Padded(old(Buffer()), old(next), old(NextLength()))
                                   && (View(), ok) == SubmitSpec(old(View()), Buffer(), old(next), acquired))
      ensures lastOs == MAXULONG && old(prerollPackets) != 0 ==>
        && prerollPackets == old(prerollPackets) - (if ok then 1 else 0)
        && (ok <==> old(freeCount) > 0 && acquired && CanAdd(old(vq), 2))
        && View() == if ok then SentSilence(old(View()), old(next), size) else old(View())
      ensures lastOs != MAXULONG && !HasWritable(old(next), lastOs) ==> !ok && View() == old(View())
      ensures ok <==> acquired && !Stuck(old(View()), old(prerollPackets), size)
      ensures acquired && !ok ==> Stuck(View(), prerollPackets, size)
      ensures |order.log| >= |old(order.log)| + if ok && HasWritable(old(next), lastOs) then 1 else 0
    {
      hide BooksOk, SentSilence, SubmitSpec, Padded, InStep;
      if HasWritable(next, lastOs) {
        var length := if eosPacket == next then eosLength else size * FRAME_BYTES;
        ok := SubmitRenderPacket(next, length, acquired);
      } else if lastOs == MAXULONG {
        if prerollPackets != 0 {
          ok := SubmitRenderSilencePacket(next, acquired);
          NotLive(tape, order, TheClient(), Buffer());
          if ok {
            prerollPackets := prerollPackets - 1;
          }
        } else {
          ok := SubmitRenderPacket(next, size * FRAME_BYTES, acquired);
        }
      } else {
        ok := false;
      }
    }

    /** The part of SwitchRenderToFallback after the device was stopped; `accepts` of the silent blocks get the
        queue's lock. */
    method StartFallback(configured: bool, started: bool, accepts: nat) returns (ok: bool)
      requires Valid() && outstanding <= TARGET && !fallbackActive
      modifies `freeCount, ioPool, ios, `vq, `next, `outstanding, `order, `wire, `fallbackActive, `fallbackPhase
      ensures Valid() && outstanding <= TARGET && next == old(next) && order == old(order) && (ok <==> fallbackActive)
      ensures ok ==> fallbackPhase == INITIAL_PHASE && configured && started
      ensures ok ==> outstanding == if old(outstanding) < PREROLL then PREROLL else old(outstanding)
      ensures configured && started && accepts >= PREROLL && Capacity() >= 2 * PREROLL ==> ok
      ensures Capacity() == old(Capacity())
    {
      hide BooksOk, Plain;
      ModeChanges(View(), INITIAL_PHASE);
      fallbackActive := true;
      fallbackPhase := INITIAL_PHASE;
      ok := configured;
      if ok {
        ok := Prequeue(accepts);
      }
      ok := ok && started;
      if !ok {
        ModeBack(View());
        fallbackActive := false;
      }
    }

    /** SwitchRenderToFallback; the flags say whether stopping, configuring and starting succeed.  The writes
        are cancelled in any case; `left` of them were not back. */
    method SwitchToFallback(how: Switch) returns (ok: bool, left: nat)
      requires Valid() && outstanding <= TARGET && !fallbackActive
      modifies `freeCount, ioPool, ios, `vq, `next, `outstanding, `order, `wire, `position, `completed,
               `paid, `detached, `fallbackActive, `fallbackPhase
      ensures Valid() && outstanding <= TARGET && next == old(next) && order == old(order) && old(paid) <= paid
      ensures ok <==> fallbackActive
      ensures ok ==> fallbackPhase == INITIAL_PHASE && outstanding >= PREROLL
      ensures left <= old(outstanding)
      ensures how.detaches >= left ==> (ok ==> outstanding == PREROLL) && (!how.stopped ==> outstanding == 0)
      ensures ok ==> how.stopped && how.configured && how.started
      ensures Succeeds(how) && old(Capacity()) >= 2 * PREROLL ==> ok
      ensures left == 0 ==> detached == old(detached)
      ensures old(Taped()) ==> Taped()
    {
      hide BooksOk, Valid;
      var drained;
      drained, left := CancelRenderWrites(how.locks, how.detaches);
      if !how.stopped { return false, left; }
      ok := StartFallback(how.configured, how.started, how.accepts);
    }

    /** A stream whose pool was just filled, before anything was submitted; queueFree descriptors of the
        transmit queue are free. */
    constructor (notificationCount: nat, size: nat, buffer: array<Frame>, queueFree: nat)
      requires notificationCount > 0 && 0 < size <= PACKET_FRAMES && buffer.Length == notificationCount * size
      ensures Valid() && outstanding == 0 && freeCount == POOL && !fallbackActive && position == 0
      ensures this.buffer == buffer && lastOs == MAXULONG && Taped()
    {
      this.notificationCount, this.size, this.buffer := notificationCount, size, buffer;
      fallbackBuffer := new Frame[PACKET_FRAMES](_ => Frame(0, 0));
      ioPool := new nat[POOL](i => i);
      ios := new Io[POOL](_ => Io(0, [], 0));
      freeCount, vq, outstanding := POOL, Vq(Queue(queueFree, multiset{}), []), 0;
      next, lastOs, eosPacket, eosLength, prerollPackets := 0, MAXULONG, MAXULONG, 0, 0;
      fallbackActive, fallbackPhase, position, completed := false, 0, 0, 0;
      order, wire, paid := Order(0, 0, [], false), Wire([], seq(POOL, _ => 0), {}), [];
      detached, tape := false, Tape([], [], true);
      new;
      FullPool(ioPool[..freeCount], queueFree);
    }

    /** The render worker over any rounds, with the device, the client and the switch to the fallback rate in
        between: no block is lost, the queue never holds more than the target, and of what an orderly client wrote
        the stream has submitted a prefix, each packet once and in order, in blocks that hold what the client wrote
        for them.  After a round with the lock to be had, all that it wrote was submitted, unless the queue is at
        its target or without room, or what is left makes no frame at the fallback rate.  The position has grown by
        the source bytes of exactly the submissions that were paid, each once; and if the device had returned
        everything whenever writes were cancelled, allBack, then these are submissions that the device has
        returned. */
    method RenderWorker(rounds: seq<Round>) returns (allBack: bool)
      requires Valid() && Taped() && outstanding <= TARGET
      requires forall i :: 0 <= i < |rounds| ==> RoundOk(rounds[i], size)
      modifies this, ioPool, ios, buffer, fallbackBuffer
      ensures Valid() && Taped() && outstanding <= TARGET && freeCount + outstanding == POOL
      ensures Live(order, TheClient()) ==>
        && GapFree(order.log, order.first) && |order.log| <= order.written && next == order.first + |order.log|
        && (tape.kept ==> |tape.wrote| == order.written && Plays(tape, |order.log|, size))
      ensures rounds != [] && rounds[|rounds| - 1].accepts >= TARGET ==>
        AtTarget() || Stuck(View(), prerollPackets, size)
      ensures Live(order, TheClient()) ==> (HasWritable(next, lastOs) <==> |order.log| < order.written)
      ensures old(paid) <= paid && position == old(position) + TotalEarned(paid[|old(paid)|..])
      ensures |wire.serials| == POOL && PaidOnce(ioPool[..freeCount], wire, paid)
      ensures allBack ==> detached == old(detached)
      ensures !detached ==> forall k :: 0 <= k < |paid| ==> paid[k].serial !in wire.out
    {
      hide Stuck, InStep, Plays;
      allBack := RunRounds(rounds);
      WholePool(View());
      TotalAdds(old(paid), paid[|old(paid)|..]);
      assert paid == old(paid) + paid[|old(paid)|..];
      if Live(order, TheClient()) {
        HasWritableIsExact(View());
        TapePlays(tape, order, TheClient(), Buffer());
      }
    }

    /** The loop of the worker. */
    method RunRounds(rounds: seq<Round>) returns (allBack: bool)
      requires Valid() && Taped() && outstanding <= TARGET
      requires forall i :: 0 <= i < |rounds| ==> RoundOk(rounds[i], size)
      modifies this, ioPool, ios, buffer, fallbackBuffer
      ensures Valid() && Taped() && outstanding <= TARGET && old(paid) <= paid
      ensures rounds != [] && rounds[|rounds| - 1].accepts >= TARGET ==>
        AtTarget() || Stuck(View(), prerollPackets, size)
      ensures allBack ==> detached == old(detached)
    {
      hide BooksOk, InStep, Stuck, AtTarget, Taped;
      allBack := true;
      for i := 0 to |rounds|
        invariant Valid() && Taped() && outstanding <= TARGET && old(paid) <= paid
        invariant allBack ==> detached == old(detached)
        invariant i > 0 && rounds[i - 1].accepts >= TARGET ==> AtTarget() || Stuck(View(), prerollPackets, size)
      {
        var left := OneRound(rounds[i]);
        allBack := allBack && left == 0;
      }
    }

    /** One round; `left` blocks were not back when writes were cancelled in it.  With the lock to be had, everything
        that the device returned is paid for, and a switch to the fallback rate that meets no error succeeds.  If the
        client left a packet that
        was not submitted, and the stream is neither at its target nor stuck, then this round submits it, given the
        lock. */
    method OneRound(round: Round) returns (left: nat)
      requires Valid() && Taped() && outstanding <= TARGET && RoundOk(round, size)
      modifies this, ioPool, ios, buffer, fallbackBuffer
      ensures Valid() && Taped() && outstanding <= TARGET && old(paid) <= paid
      ensures left == 0 ==> detached == old(detached)
      ensures round.write.Some? ==> lastOs == round.write.value.n
      ensures round.locks >= POOL ==> |paid| >= |old(paid)| + |old(vq.returned)|
      ensures round.locks >= POOL && round.fallback.None? ==> vq.returned == []
      ensures round.fallback.Some? && Succeeds(round.fallback.value) && old(Capacity()) >= 2 * PREROLL ==>
        fallbackActive
      ensures round.accepts >= TARGET ==> AtTarget() || Stuck(View(), prerollPackets, size)
      ensures round.write.None? && round.fallback.None? && round.accepts > 0
              && HasWritable(old(next), old(lastOs)) && !old(AtTarget())
              && !Stuck(old(View()), old(prerollPackets), size) ==>
        |order.log| > |old(order.log)|
    {
      hide BooksOk, Valid, InStep, Stuck, AtTarget, Taped, HasWritable;
      left := BeforeSubmitting(round);
      SubmitUpToTarget(round.accepts);
    }

    /** The round up to the submissions. */
    method BeforeSubmitting(round: Round) returns (left: nat)
      requires Valid() && Taped() && outstanding <= TARGET && RoundOk(round, size)
      modifies this, ioPool, ios, buffer
      ensures Valid() && Taped() && outstanding <= TARGET && old(paid) <= paid
      ensures left == 0 ==> detached == old(detached)
      ensures round.write.Some? ==> lastOs == round.write.value.n
      ensures round.locks >= POOL ==> |paid| >= |old(paid)| + |old(vq.returned)|
      ensures round.locks >= POOL && round.fallback.None? ==> vq.returned == []
      ensures round.fallback.Some? && Succeeds(round.fallback.value) && old(Capacity()) >= 2 * PREROLL ==>
        fallbackActive
      ensures round.write.None? && round.fallback.None? ==>
        && next == old(next) && lastOs == old(lastOs) && order == old(order)
        && (!old(AtTarget()) ==> !AtTarget())
        && (!Stuck(old(View()), old(prerollPackets), size) ==> !Stuck(View(), prerollPackets, size))
    {
      hide BooksOk, WriteSpec, Valid, InStep, Stuck, AtTarget, Taped, WithPacket, WrittenOn;
      left := 0;
      if round.write.Some? {
        var w := round.write.value;
        ClientWrites(w.n, w.data, w.endOfStream, w.length);
      }
      var all := Reclaiming(round.locks);
      if round.fallback.Some? && !fallbackActive {
        var ok;
        ok, left := SwitchToFallback(round.fallback.value);
      }
    }

    /** The device returns what it likes, and the worker takes it: there is only more room then. */
    method Reclaiming(locks: nat) returns (all: bool)
      requires Valid() && outstanding <= TARGET
      modifies `freeCount, ioPool, `vq, `outstanding, `position, `completed, `paid, `wire
      ensures Valid() && outstanding <= old(outstanding) && old(paid) <= paid && Capacity() == old(Capacity())
      ensures locks >= POOL ==> vq.returned == [] && |paid| >= |old(paid)| + |old(vq.returned)|
      ensures !old(AtTarget()) ==> !AtTarget()
      ensures !Stuck(old(View()), prerollPackets, size) ==> !Stuck(View(), prerollPackets, size)
    {
      hide BooksOk, ReclaimedAll, Available;
      AllBlocks();
      DeviceRuns();
      FewReturned(View());
      all := ReclaimRenderPackets(locks);
      AllBlocks();
    }
  }

  lemma NotLive(t: Tape, o: Order, c: Client, ps: Packets)
    requires PacketsOk(ps) && c.lastOs == MAXULONG
    ensures InStep(t, o, c, ps)
  {
  }

  lemma TapePlays(t: Tape, o: Order, c: Client, ps: Packets)
    requires PacketsOk(ps) && InStep(t, o, c, ps) && Live(o, c)
    ensures t.kept ==> |t.wrote| == o.written && Plays(t, |o.log|, ps.size)
  {
  }
}
