/** What the client of a render stream wrote and what the stream played of it: the blocks submitted hold, packet
    after packet, what the client wrote for those packets. */
module RenderTape {
  import opened Queues
  import opened Rings
  import opened PacketNumbers
  import opened Resampler
  import opened Render

  // ----- the end of a short packet

  /** The first `keep` bytes of a frame stay, the others become 0 (little endian). */
  function KeepBytes(f: Frame, keep: nat): Frame {
    if keep == 0 then Frame(0, 0)
    else if keep == 1 then Frame(f.left % 256, 0)
    else if keep == 2 then Frame(f.left, 0)
    else if keep == 3 then Frame(f.left, f.right % 256)
    else f
  }

  /** Packet frames with everything from byte `length` on silenced. */
  function Silenced(frames: seq<Frame>, length: nat): (r: seq<Frame>)
    ensures |r| == |frames|
  {
    seq(|frames|, i requires 0 <= i < |frames| =>
      if length >= i * FRAME_BYTES then KeepBytes(frames[i], length - i * FRAME_BYTES) else Frame(0, 0))
  }

  /** Byte b of a frame, little endian. */
  function ByteOf(f: Frame, b: nat): int {
    var sample := if b < 2 then f.left else f.right;
    if b % 2 == 0 then sample % 256 else sample / 256 % 256
  }

  lemma KeptByte(f: Frame, keep: nat, b: nat)
    requires b < FRAME_BYTES
    ensures ByteOf(KeepBytes(f, keep), b) == if b < keep then ByteOf(f, b) else 0
  {
  }

  /** Byte by byte: what comes before `length` stays, and the rest is zero. */
  lemma SilencedBytes(frames: seq<Frame>, length: nat, k: nat, b: nat)
    requires k < |frames| && b < FRAME_BYTES
    ensures ByteOf(Silenced(frames, length)[k], b)
         == if k * FRAME_BYTES + b < length then ByteOf(frames[k], b) else 0
  {
    hide KeepBytes, ByteOf;
    KeptByte(frames[k], if length >= k * FRAME_BYTES then length - k * FRAME_BYTES else 0, b);
    KeptByte(frames[k], 0, b);
    NoByteKept(frames[k]);
  }

  lemma NoByteKept(f: Frame)
    ensures KeepBytes(f, 0) == Frame(0, 0)
  {
  }

  /** Silencing twice is silencing once; whole frames before the end stay, and a whole packet is not touched. */
  lemma SilencedAgain(frames: seq<Frame>, length: nat)
    ensures Silenced(Silenced(frames, length), length) == Silenced(frames, length)
    ensures forall j :: 0 <= j < |frames| && j < length / FRAME_BYTES ==> Silenced(frames, length)[j] == frames[j]
    ensures length >= |frames| * FRAME_BYTES ==> Silenced(frames, length) == frames
  {
  }

  /** The packets with packet k silenced from byte `length` on, if it is short. */
  function Padded(ps: Packets, k: nat, length: nat): Packets
    requires PacketsOk(ps)
  {
    if length >= ps.size * FRAME_BYTES then ps
    else
      SlotFits(Slot(k, ps.slots), ps.slots, ps.size);
      var from := Slot(k, ps.slots) * ps.size;
      ps.(mem := ps.mem[..from] + Silenced(ps.mem[from..from + ps.size], length) + ps.mem[from + ps.size..])
  }

  /** Padding silences the end of packet k in its slot and touches no other slot. */
  lemma PaddedSlots(ps: Packets, k: nat, length: nat, j: nat)
    requires PacketsOk(ps)
    ensures PacketsOk(Padded(ps, k, length)) && Padded(ps, k, length).slots == ps.slots
    ensures Padded(ps, k, length).size == ps.size
    ensures PacketFrames(Padded(ps, k, length), j, ps.size)
         == if Slot(j, ps.slots) == Slot(k, ps.slots) then Silenced(PacketFrames(ps, j, ps.size), length)
            else PacketFrames(ps, j, ps.size)
  {
    hide Slot, Silenced;
    var a, b := Slot(k, ps.slots), Slot(j, ps.slots);
    SlotFits(a, ps.slots, ps.size);
    SlotFits(b, ps.slots, ps.size);
    if a < b { SlotFits(a, b, ps.size); } else if b < a { SlotFits(b, a, ps.size); }
    FrameCount(ps, j, ps.size);
    SilencedAgain(PacketFrames(ps, j, ps.size), length);
    StretchSilenced(ps.mem, a * ps.size, b * ps.size, ps.size, length, a == b);
  }

  /** The memory with one stretch of it silenced, seen at a stretch that is the same or apart from it. */
  lemma StretchSilenced(mem: seq<Frame>, from: nat, at: nat, size: nat, length: nat, same: bool)
    requires from + size <= |mem| && at + size <= |mem|
    requires if same then at == from else at + size <= from || from + size <= at
    ensures var mem' := mem[..from] + Silenced(mem[from..from + size], length) + mem[from + size..];
      && |mem'| == |mem|
      && mem'[at..at + size] == if same then Silenced(mem[at..at + size], length) else mem[at..at + size]
  {
    hide Silenced;
  }

  // ----- what a block holds

  /** The block submitted for packet k at the full rate holds the slot of packet k, frame by frame. */
  lemma BlockHoldsThePacket(ps: Packets, c: Client, phase: nat, k: nat)
    requires PacketsOk(ps) && phase < RATE && c.eosLength <= ps.size * FRAME_BYTES
    ensures var io, from := IoOf(k, Prepared(ps, c, false, phase, k)), (k % ps.slots) * ps.size;
      && 0 <= from && from + ps.size <= |ps.mem| && io.audio == ps.mem[from..from + ps.size]
      && io.packetNumber == k && (ps.size > 0 ==> io.sourceLength == ps.size * FRAME_BYTES)
  {
    hide PacketFrames, MergeAll;
    FramesOfPacket(ps, k, ps.size);
  }

  /** The frames that the resampler keeps of src until it has filled a period. */
  function PeriodOf(src: seq<Frame>, phase: nat): seq<Frame> {
    Kept(src[..Looked(src, FALLBACK_RATE, phase, PACKET_FRAMES)], FALLBACK_RATE, phase)
  }

  /** At the fallback rate it holds what the resampler keeps of packets k, k + 1, ... joined. */
  lemma BlockHoldsTheMerge(ps: Packets, c: Client, phase: nat, k: nat)
    requires PacketsOk(ps) && phase < RATE && c.eosLength <= ps.size * FRAME_BYTES
    ensures var m := Prepared(ps, c, true, phase, k);
      && m.packets <= 3 && IoOf(k, m).packetNumber == k
      && IoOf(k, m).audio == PeriodOf(Joined(ps, c, k, m.packets), phase)
      && m.bytes == SourceTotal(c, ps.size, k, m.packets)
  {
    hide Kept, Looked, Joined;
    assert Joined(ps, c, k, 0) == [] by { JoinedNone(ps, c, k); }
    NothingMore(Fill([], phase), [], PACKET_FRAMES);
    MergeIsJoined(ps, c, k, NoMerge(phase), phase);
    MergeAllOk(ps, c, k, NoMerge(phase));
  }

  lemma JoinedNone(ps: Packets, c: Client, k: nat)
    requires PacketsOk(ps) && c.eosLength <= ps.size * FRAME_BYTES
    ensures Joined(ps, c, k, 0) == []
  {
  }

  // ----- the tape

  /** One packet as the client wrote it: its frames, and how many bytes there are up to the end of the stream. */
  datatype Wrote = Wrote(data: seq<Frame>, length: nat)

  /** One block submitted: for the `count` packets of the client from its at-th on. */
  datatype Block = Block(at: nat, count: nat, io: Io, fallback: bool, phase: nat)

  /** What the client wrote since its first packet and what was submitted of it.  kept: it wrote into no slot that
      was still waiting, and nothing after an end that was. */
  datatype Tape = Tape(wrote: seq<Wrote>, played: seq<Block>, kept: bool)

  function WholeFrames(w: Wrote): seq<Frame>
    requires w.length <= |w.data| * FRAME_BYTES
  {
    w.data[..w.length / FRAME_BYTES]
  }

  ghost predicate AllFit(wrote: seq<Wrote>, size: nat) {
    forall i :: 0 <= i < |wrote| ==> |wrote[i].data| == size && wrote[i].length <= size * FRAME_BYTES
  }

  /** The frames of `count` packets from the at-th on, each up to the end. */
  function Spliced(wrote: seq<Wrote>, at: nat, count: nat, size: nat): seq<Frame>
    requires AllFit(wrote, size) && at + count <= |wrote|
  {
    if count == 0 then [] else Spliced(wrote, at, count - 1, size) + WholeFrames(wrote[at + count - 1])
  }

  function Lengths(wrote: seq<Wrote>, at: nat, count: nat): nat
    requires at + count <= |wrote|
  {
    if count == 0 then 0 else Lengths(wrote, at, count - 1) + wrote[at + count - 1].length
  }

  /** Block b holds what the client wrote: one packet, silent from its end on, or a period resampled from up to
      three, whose bytes it stands for. */
  ghost predicate Faithful(wrote: seq<Wrote>, b: Block, size: nat)
    requires AllFit(wrote, size)
  {
    && b.at + b.count <= |wrote| && 1 <= b.count <= 3
    && if b.fallback
       then && b.io.audio == PeriodOf(Spliced(wrote, b.at, b.count, size), b.phase) != []
            && (Lengths(wrote, b.at, b.count) != 0 ==> b.io.sourceLength == Lengths(wrote, b.at, b.count))
       else b.count == 1 && b.io.audio == Silenced(wrote[b.at].data, wrote[b.at].length)
  }

  /** The blocks follow one another without a gap, from the client's first packet up to its n-th. */
  ghost predicate Gapless(played: seq<Block>, n: nat) {
    if played == [] then n == 0
    else
      var x := played[|played| - 1];
      n == x.at + x.count && Gapless(played[..|played| - 1], x.at)
  }

  /** Every block holds what the client wrote, without a gap up to packet n. */
  ghost predicate Plays(t: Tape, n: nat, size: nat) {
    && AllFit(t.wrote, size)
    && (forall i :: 0 <= i < |t.played| ==> Faithful(t.wrote, t.played[i], size))
    && Gapless(t.played, n)
  }

  /** Slot by slot the buffer holds what was written and not submitted: the same bytes up to the end. */
  ghost predicate Waits(t: Tape, o: Order, c: Client, ps: Packets)
    requires PacketsOk(ps)
  {
    forall i {:trigger t.wrote[i]} :: |o.log| <= i < |t.wrote| ==>
      && SourceBytes(c, o.first + i, ps.size) == t.wrote[i].length
      && Silenced(PacketFrames(ps, o.first + i, ps.size), t.wrote[i].length)
         == Silenced(t.wrote[i].data, t.wrote[i].length)
  }

  /** The client writes its packets in order. */
  predicate Live(o: Order, c: Client) {
    c.lastOs != MAXULONG && o.orderly
  }

  ghost predicate InStep(t: Tape, o: Order, c: Client, ps: Packets)
    requires PacketsOk(ps)
  {
    Live(o, c) && t.kept ==>
      && |t.wrote| == o.written <= |o.log| + ps.slots
      && Plays(t, |o.log|, ps.size) && Waits(t, o, c, ps)
  }

  // ----- the client writes

  /** The stream's end was written and is not yet submitted. */
  predicate EndWaits(o: Order, c: Client) {
    c.eosPacket != MAXULONG && o.first + |o.log| <= c.eosPacket < o.first + o.written
  }

  /** The client writes w as packet n. */
  function WrittenOn(t: Tape, o: Order, c: Client, w: Wrote, slots: nat): Tape {
    if c.lastOs == MAXULONG then Tape([w], [], true)
    else Tape(t.wrote + [w], t.played, t.kept && o.written < |o.log| + slots && !EndWaits(o, c))
  }

  /** The buffer with these frames in the slot of packet n. */
  function WithPacket(ps: Packets, n: nat, data: seq<Frame>): Packets
    requires PacketsOk(ps) && |data| == ps.size
  {
    SlotFits(Slot(n, ps.slots), ps.slots, ps.size);
    var from := Slot(n, ps.slots) * ps.size;
    ps.(mem := ps.mem[..from] + data + ps.mem[from + ps.size..])
  }

  lemma PacketWritten(ps: Packets, n: nat, data: seq<Frame>, j: nat)
    requires PacketsOk(ps) && |data| == ps.size
    ensures var ps' := WithPacket(ps, n, data);
      && PacketsOk(ps') && ps'.slots == ps.slots && ps'.size == ps.size
      && PacketFrames(ps', j, ps.size)
         == if Slot(j, ps.slots) == Slot(n, ps.slots) then data else PacketFrames(ps, j, ps.size)
  {
    hide Slot;
    var a, b := Slot(n, ps.slots), Slot(j, ps.slots);
    SlotFits(a, ps.slots, ps.size);
    SlotFits(b, ps.slots, ps.size);
    if a < b { SlotFits(a, b, ps.size); } else if b < a { SlotFits(b, a, ps.size); }
    StretchReplaced(ps.mem, a * ps.size, b * ps.size, data, a == b);
  }

  lemma StretchReplaced(mem: seq<Frame>, from: nat, at: nat, x: seq<Frame>, same: bool)
    requires from + |x| <= |mem| && at + |x| <= |mem|
    requires if same then at == from else at + |x| <= from || from + |x| <= at
    ensures var mem' := mem[..from] + x + mem[from + |x|..];
      |mem'| == |mem| && mem'[at..at + |x|] == if same then x else mem[at..at + |x|]
  {
  }

  lemma {:induction false} SplicedStays(wrote: seq<Wrote>, w: Wrote, at: nat, count: nat, size: nat)
    requires AllFit(wrote, size) && AllFit(wrote + [w], size) && at + count <= |wrote|
    ensures Spliced(wrote + [w], at, count, size) == Spliced(wrote, at, count, size)
    ensures Lengths(wrote + [w], at, count) == Lengths(wrote, at, count)
  {
    if count > 0 { SplicedStays(wrote, w, at, count - 1, size); }
  }

  lemma PlaysOn(t: Tape, w: Wrote, n: nat, size: nat, kept: bool)
    requires Plays(t, n, size) && |w.data| == size && w.length <= size * FRAME_BYTES
    ensures Plays(Tape(t.wrote + [w], t.played, kept), n, size)
  {
    hide Spliced, Lengths, PeriodOf, Silenced;
    var wrote := t.wrote + [w];
    assert AllFit(wrote, size);
    forall i | 0 <= i < |t.played| ensures Faithful(wrote, t.played[i], size) {
      assert Faithful(t.wrote, t.played[i], size);
      SplicedStays(t.wrote, w, t.played[i].at, t.played[i].count, size);
    }
  }

  /** The client remembers where the stream ends: at the packet it just wrote, if that was the last; else not
      there, and only at a later packet than it wrote. */
  lemma EndIsRemembered(c: Client, n: nat, eos: bool, eosLength: nat, size: nat)
    requires n < MAXULONG
    ensures var c', cut := WroteClient(c, n, eos, eosLength, size),
                           if eosLength < size * FRAME_BYTES then eosLength else size * FRAME_BYTES;
      && c'.lastOs == n
      && (eos ==> c'.eosPacket == n && c'.eosLength == cut)
      && (!eos ==> c'.eosPacket != n && (c'.eosPacket == MAXULONG || c'.eosPacket == c.eosPacket))
      && (!eos && c.eosPacket != MAXULONG && PacketLessOrEqual(c.eosPacket, n) ==> c'.eosPacket == MAXULONG)
      && (!eos && c.eosPacket != MAXULONG && !PacketLessOrEqual(c.eosPacket, n) ==>
            c'.eosPacket == c.eosPacket && c'.eosLength == c.eosLength)
      && SourceBytes(c', n, size) == if eos then cut else size * FRAME_BYTES
  {
  }

  lemma EarlierStillWaits(b: Books, t: Tape, ps: Packets, n: nat, w: Wrote, eos: bool, eosLength: nat, i: nat)
    requires InOrder(b) && b.client.lastOs != MAXULONG && b.order.orderly && b.client.lastOs < U32
    requires PacketsOk(ps) && |w.data| == ps.size && n == b.order.first + b.order.written < MAXULONG
    requires |t.wrote| == b.order.written < |b.order.log| + ps.slots && Waits(t, b.order, b.client, ps)
    requires !EndWaits(b.order, b.client) && |b.order.log| <= i < |t.wrote|
    ensures PacketsOk(WithPacket(ps, n, w.data)) && WithPacket(ps, n, w.data).size == ps.size
    ensures var c', ps' := WroteClient(b.client, n, eos, eosLength, ps.size), WithPacket(ps, n, w.data);
      && SourceBytes(c', b.order.first + i, ps.size) == t.wrote[i].length
      && PacketFrames(ps', b.order.first + i, ps.size) == PacketFrames(ps, b.order.first + i, ps.size)
  {
    hide PacketFrames, WithPacket, Silenced, GapFree;
    var k := b.order.first + i;
    PacketWritten(ps, n, w.data, k);
    SlotsDiffer(k, n, ps.slots);
    EndIsRemembered(b.client, n, eos, eosLength, ps.size);
    assert SourceBytes(b.client, k, ps.size) == t.wrote[i].length;
  }

  /** What a client writes waits in its slot, and what waited before still does. */
  lemma WriteKeepsTape(b: Books, t: Tape, ps: Packets, n: nat, w: Wrote, eos: bool, eosLength: nat)
    requires InOrder(b) && b.client.lastOs < U32 && PacketsOk(ps) && n < U32
    requires InStep(t, b.order, b.client, ps) && |w.data| == ps.size
    requires w.length == if eos && eosLength < ps.size * FRAME_BYTES then eosLength else ps.size * FRAME_BYTES
    ensures PacketsOk(WithPacket(ps, n, w.data))
    ensures var b' := WriteSpec(b, n, eos, eosLength, ps.size);
      InStep(WrittenOn(t, b.order, b.client, w, ps.slots), b'.order, b'.client, WithPacket(ps, n, w.data))
  {
    hide PacketFrames, WithPacket, Silenced, Plays, WroteClient, GapFree, SourceBytes;
    var b', t' := WriteSpec(b, n, eos, eosLength, ps.size), WrittenOn(t, b.order, b.client, w, ps.slots);
    var ps' := WithPacket(ps, n, w.data);
    PacketWritten(ps, n, w.data, n);
    if n < MAXULONG {
      EndIsRemembered(b.client, n, eos, eosLength, ps.size);
      if b.client.lastOs == MAXULONG {
        NothingPlayed(w, ps.size);
      } else if Live(b'.order, b'.client) && t'.kept {
        PlaysOn(t, w, |b.order.log|, ps.size, true);
        forall i | |b.order.log| <= i < |t.wrote|
          ensures SourceBytes(b'.client, b.order.first + i, ps.size) == t.wrote[i].length
          ensures PacketFrames(ps', b.order.first + i, ps.size) == PacketFrames(ps, b.order.first + i, ps.size)
        {
          EarlierStillWaits(b, t, ps, n, w, eos, eosLength, i);
        }
      }
    }
  }

  lemma NothingPlayed(w: Wrote, size: nat)
    requires |w.data| == size && w.length <= size * FRAME_BYTES
    ensures Plays(Tape([w], [], true), 0, size)
  {
  }

  // ----- the stream submits

  /** The packet that is next was written: it is the first that waits. */
  lemma NextWaits(b: Books)
    requires InOrder(b) && Live(b.order, b.client) && b.next < U32 && Written(b.client, b.next)
    ensures b.next == b.order.first + |b.order.log| && |b.order.log| < b.order.written
  {
    NotYetWritten(b);
    Residue32(b.next, 0, b.next);
  }

  /** Its slot is padded as the client cut it short. */
  ghost predicate NextIsCut(b: Books, t: Tape, ps: Packets)
    requires PacketsOk(ps)
  {
    Live(b.order, b.client) && t.kept ==>
      && |b.order.log| < |t.wrote|
      && PacketFrames(ps, b.next, ps.size)
         == Silenced(t.wrote[|b.order.log|].data, t.wrote[|b.order.log|].length)
  }

  lemma PadKeepsTape(b: Books, t: Tape, ps: Packets, length: nat)
    requires InOrder(b) && b.next < U32 && Written(b.client, b.next)
    requires PacketsOk(ps) && InStep(t, b.order, b.client, ps)
    requires b.client.lastOs != MAXULONG ==> length == SourceBytes(b.client, b.next, ps.size)
    ensures PacketsOk(Padded(ps, b.next, length)) && Padded(ps, b.next, length).size == ps.size
    ensures InStep(t, b.order, b.client, Padded(ps, b.next, length))
    ensures NextIsCut(b, t, Padded(ps, b.next, length))
  {
    hide PacketFrames, Padded, Silenced, Plays, GapFree;
    var ps' := Padded(ps, b.next, length);
    PaddedSlots(ps, b.next, length, b.next);
    if Live(b.order, b.client) && t.kept {
      NextWaits(b);
      assert SourceBytes(b.client, b.next, ps.size) == t.wrote[|b.order.log|].length;
      forall i | |b.order.log| <= i < |t.wrote|
        ensures Silenced(PacketFrames(ps', b.order.first + i, ps.size), t.wrote[i].length)
             == Silenced(t.wrote[i].data, t.wrote[i].length)
      {
        var k := b.order.first + i;
        PaddedSlots(ps, b.next, length, k);
        if i == |b.order.log| {
          SilencedAgain(PacketFrames(ps, k, ps.size), length);
        } else {
          SlotsDiffer(b.next, k, ps.slots);
        }
      }
    }
  }

  lemma FirstFrames(ps: Packets, k: nat, n: nat)
    requires PacketsOk(ps) && n <= ps.size
    ensures |PacketFrames(ps, k, ps.size)| == ps.size
    ensures PacketFrames(ps, k, n) == PacketFrames(ps, k, ps.size)[..n]
  {
    hide PacketFrames;
    FramesOfPacket(ps, k, n);
    FramesOfPacket(ps, k, ps.size);
  }

  lemma WaitingFrames(ps: Packets, k: nat, w: Wrote)
    requires PacketsOk(ps) && |w.data| == ps.size && w.length <= ps.size * FRAME_BYTES
    requires Silenced(PacketFrames(ps, k, ps.size), w.length) == Silenced(w.data, w.length)
    ensures PacketFrames(ps, k, w.length / FRAME_BYTES) == WholeFrames(w)
  {
    hide Silenced, PacketFrames;
    var n, x := w.length / FRAME_BYTES, PacketFrames(ps, k, ps.size);
    SilencedAgain(x, w.length);
    SilencedAgain(w.data, w.length);
    FirstFrames(ps, k, n);
    forall j | 0 <= j < n ensures x[j] == w.data[j] {
      assert Silenced(x, w.length)[j] == Silenced(w.data, w.length)[j];
    }
    assert x[..n] == w.data[..n];
  }

  /** What is resampled of the buffer is what the client wrote. */
  lemma {:induction false} JoinedIsSpliced(b: Books, t: Tape, ps: Packets, count: nat)
    requires InOrder(b) && Live(b.order, b.client) && t.kept && PacketsOk(ps) && InStep(t, b.order, b.client, ps)
    requires b.client.eosLength <= ps.size * FRAME_BYTES && |b.order.log| + count <= |t.wrote|
    ensures Joined(ps, b.client, b.next, count) == Spliced(t.wrote, |b.order.log|, count, ps.size)
    ensures SourceTotal(b.client, ps.size, b.next, count) == Lengths(t.wrote, |b.order.log|, count)
  {
    hide PacketFrames, Silenced, GapFree, SourceBytes, WholeFrames;
    if count > 0 {
      JoinedIsSpliced(b, t, ps, count - 1);
      var i := |b.order.log| + count - 1;
      var w := t.wrote[i];
      Residue32(b.order.first + i, 0, b.order.first + i);
      assert SourceBytes(b.client, b.order.first + i, ps.size) == w.length;
      WaitingFrames(ps, b.order.first + i, w);
    }
  }

  lemma PlaysNext(t: Tape, x: Block, n: nat, size: nat)
    requires Plays(t, n, size) && Faithful(t.wrote, x, size) && x.at == n
    ensures Plays(t.(played := t.played + [x]), n + x.count, size)
  {
    hide Faithful;
    assert (t.played + [x])[..|t.played|] == t.played;
  }

  /** The tape after packet k was submitted as m. */
  function PlayedOn(t: Tape, b: Books, k: nat, m: Merge): Tape {
    t.(played := t.played + [Block(|b.order.log|, m.packets, IoOf(k, m), b.fallback, b.phase)])
  }

  lemma SubmittedIsFaithful(b: Books, t: Tape, ps: Packets)
    requires InOrder(b) && Live(b.order, b.client) && t.kept && b.next < U32 && b.phase < RATE
    requires PacketsOk(ps) && ps.size > 0 && b.client.eosLength <= ps.size * FRAME_BYTES
    requires Written(b.client, b.next) && InStep(t, b.order, b.client, ps) && NextIsCut(b, t, ps)
    requires Prepared(ps, b.client, b.fallback, b.phase, b.next).fill.out != []
    ensures var m := Prepared(ps, b.client, b.fallback, b.phase, b.next);
      && |b.order.log| + m.packets <= b.order.written && AllFit(t.wrote, ps.size)
      && Faithful(t.wrote, Block(|b.order.log|, m.packets, IoOf(b.next, m), b.fallback, b.phase), ps.size)
  {
    hide PacketFrames, Silenced, MergeAll, PeriodOf, Joined, Spliced, GapFree, WrittenAt, Waits;
    var m := Prepared(ps, b.client, b.fallback, b.phase, b.next);
    PreparedMaySend(ps, b.client, b.fallback, b.phase, b.next);
    NextWaits(b);
    SentInOrder(b, m.packets);
    if b.fallback {
      BlockHoldsTheMerge(ps, b.client, b.phase, b.next);
      JoinedIsSpliced(b, t, ps, m.packets);
    }
  }

  /** A submission plays what waits first, and leaves the rest waiting. */
  lemma SubmitKeepsTape(b: Books, t: Tape, ps: Packets, acquired: bool)
    requires BooksOk(b) && b.free != [] && PacketsOk(ps) && ps.size > 0
    requires b.client.eosLength <= ps.size * FRAME_BYTES && Written(b.client, b.next)
    requires InStep(t, b.order, b.client, ps) && NextIsCut(b, t, ps)
    ensures b.phase < RATE
    ensures var r := SubmitSpec(b, ps, b.next, acquired);
      InStep(if r.1 then PlayedOn(t, b, b.next, Prepared(ps, b.client, b.fallback, b.phase, b.next)) else t,
             r.0.order, r.0.client, ps)
  {
    hide PoolOk, WireOk, Prepared, Faithful, GapFree, PacketFrames, Silenced, Paid, Earned;
    TopIsBlock(b);
    PreparedMaySend(ps, b.client, b.fallback, b.phase, b.next);
    var m := Prepared(ps, b.client, b.fallback, b.phase, b.next);
    if Live(b.order, b.client) && t.kept && m.fill.out != [] {
      SubmittedIsFaithful(b, t, ps);
      PlaysNext(t, Block(|b.order.log|, m.packets, IoOf(b.next, m), b.fallback, b.phase), |b.order.log|, ps.size);
    }
  }

  /** Block io was made of packet k: at the full rate it holds the slot of packet k, at the fallback rate what is
      kept of `count` packets joined, and it stands for their bytes. */
  ghost predicate MadeOf(io: Io, ps: Packets, c: Client, fallback: bool, phase: nat, k: nat, count: nat)
    requires PacketsOk(ps) && c.eosLength <= ps.size * FRAME_BYTES
  {
    && io.packetNumber == k && 1 <= count <= 3
    && if fallback
       then && io.audio == PeriodOf(Joined(ps, c, k, count), phase)
            && (SourceTotal(c, ps.size, k, count) != 0 ==> io.sourceLength == SourceTotal(c, ps.size, k, count))
       else var from := (k % ps.slots) * ps.size;
         && count == 1 && io.sourceLength == ps.size * FRAME_BYTES
         && 0 <= from && from + ps.size <= |ps.mem| && io.audio == ps.mem[from..from + ps.size]
  }

  /** What such a block earns when it comes back, and the driver pays for it: the bytes of the client that it was
      made of. */
  lemma EarnsItsBytes(io: Io, ps: Packets, c: Client, fallback: bool, phase: nat, k: nat, count: nat)
    requires PacketsOk(ps) && c.eosLength <= ps.size * FRAME_BYTES && MadeOf(io, ps, c, fallback, phase, k, count)
    requires k != MAXULONG && 0 < SourceTotal(c, ps.size, k, count)
    ensures var bytes := if fallback then SourceTotal(c, ps.size, k, count) else ps.size * FRAME_BYTES;
      Earned(io) == bytes && Paid(io, fallback) == bytes
  {
    hide PeriodOf, Joined, SourceTotal;
  }

  /** A block that was submitted is the last on the wire and is made of the packets added to the log. */
  lemma SubmittedIsMadeOf(b: Books, ps: Packets, k: nat, acquired: bool)
    requires BooksOk(b) && b.free != [] && PacketsOk(ps) && b.client.eosLength <= ps.size * FRAME_BYTES
    requires ps.size > 0 && k < U32 && Written(b.client, k)
    ensures var r := SubmitSpec(b, ps, k, acquired);
      && r.0.client == b.client && |r.0.order.log| >= |b.order.log|
      && (r.1 ==> && |r.0.wire.sent| == |b.wire.sent| + 1 && |r.0.order.log| > |b.order.log|
                  && MadeOf(r.0.wire.sent[|b.wire.sent|], ps, b.client, b.fallback, b.phase, k,
                            |r.0.order.log| - |b.order.log|))
  {
    hide PoolOk, WireOk, MergeAll, PacketFrames, PeriodOf, Joined, SourceTotal, WrittenAt, InOrder;
    TopIsBlock(b);
    PreparedMaySend(ps, b.client, b.fallback, b.phase, k);
    if b.fallback {
      BlockHoldsTheMerge(ps, b.client, b.phase, k);
    } else {
      BlockHoldsThePacket(ps, b.client, b.phase, k);
    }
  }

  /** SubmitRenderPacket on the tape: padding, then the submission. */
  lemma SubmissionKeepsTape(b: Books, t: Tape, ps0: Packets, length: nat, acquired: bool)
    requires BooksOk(b) && b.free != [] && PacketsOk(ps0) && ps0.size > 0
    requires b.client.eosLength <= ps0.size * FRAME_BYTES && Written(b.client, b.next)
    requires InStep(t, b.order, b.client, ps0)
    requires b.client.lastOs != MAXULONG ==> length == SourceBytes(b.client, b.next, ps0.size)
    ensures b.phase < RATE && b.next < U32
    ensures var ps := Padded(ps0, b.next, length);
      && PacketsOk(ps) && ps.size == ps0.size && ps.slots == ps0.slots
      && var r := SubmitSpec(b, ps, b.next, acquired);
      InStep(if r.1 then PlayedOn(t, b, b.next, Prepared(ps, b.client, b.fallback, b.phase, b.next)) else t,
             r.0.order, r.0.client, ps)
  {
    hide PoolOk, WireOk, InStep, NextIsCut, Padded, SubmitSpec, Written, SourceBytes, GapFree;
    PaddedSlots(ps0, b.next, length, b.next);
    PadKeepsTape(b, t, ps0, length);
    SubmitKeepsTape(b, t, Padded(ps0, b.next, length), acquired);
  }

  // ----- when the stream cannot submit

  /** There is nothing to submit - the client has written, but nothing that is left, or what there is makes no
      frame at the fallback rate - or no room for it. */
  ghost predicate Stuck(b: Books, preroll: nat, size: nat) {
    || (b.client.lastOs != MAXULONG && !HasWritable(b.next, b.client.lastOs))
    || b.free == [] || !CanAdd(b.vq, 2)
    || (b.fallback && (b.client.lastOs != MAXULONG || preroll == 0)
        && Units(b.phase, FALLBACK_RATE, Available(b.client, size, b.next, 0)) < RATE)
  }

  /** A packet is submitted exactly if the lock is had and the stream is not stuck; if it is not although the lock
      was had, the stream is stuck afterwards, too. */
  lemma SubmittedUnlessStuck(b: Books, ps: Packets, preroll: nat, acquired: bool)
    requires BooksOk(b) && b.free != [] && PacketsOk(ps) && b.client.eosLength <= ps.size * FRAME_BYTES
    requires 0 < ps.size <= PACKET_FRAMES && Written(b.client, b.next)
    requires HasWritable(b.next, b.client.lastOs) || (b.client.lastOs == MAXULONG && preroll == 0)
    ensures b.phase < RATE
    ensures var r := SubmitSpec(b, ps, b.next, acquired);
      && (r.1 <==> acquired && !Stuck(b, preroll, ps.size))
      && (acquired && !r.1 ==> Stuck(r.0, preroll, ps.size))
  {
    hide PoolOk, WireOk, MergeAll, PacketFrames, InOrder, Available;
    TopIsBlock(b);
    PreparedMaySend(ps, b.client, b.fallback, b.phase, b.next);
    if b.fallback { MergeKeepsPhaseIff(ps, b.client, b.next, b.phase); }
  }
}
