/** The fallback path's downsampler, ViosndDownsampleStereo16: of every 48000 input frames `rate` are
    kept, chosen by a phase accumulator that is carried from call to call. */
module Resampler {

  const RATE: nat := 48_000
  const FALLBACK_RATE: nat := 16_000
  const FRAME_BYTES: nat := 4
  const PACKET_FRAMES: nat := 512

  /** A stereo frame of two 16-bit samples. */
  datatype Frame = Frame(left: int, right: int)

  /** One step of the accumulator. */
  function NextPhase(phase: nat, rate: nat): nat {
    if phase + rate >= RATE then phase + rate - RATE else phase + rate
  }

  function PhaseAfter(phase: nat, rate: nat, n: nat): nat {
    if n == 0 then phase else NextPhase(PhaseAfter(phase, rate, n - 1), rate)
  }

  /** The frames kept of src. */
  function Kept(src: seq<Frame>, rate: nat, phase: nat): seq<Frame> {
    if src == [] then []
    else
      var n := |src| - 1;
      Kept(src[..n], rate, phase) + if PhaseAfter(phase, rate, n) + rate >= RATE then [src[n]] else []
  }

  /** What n frames from this phase come to, in units of 1 / 48000 output frame. */
  function Units(phase: nat, rate: nat, n: nat): nat {
    phase + n * rate
  }

  lemma UnitsStep(phase: nat, rate: nat, n: nat)
    ensures Units(phase, rate, n + 1) == Units(phase, rate, n) + rate
  {
  }

  /** Closed form: n frames give (phase + n rate) div 48000 outputs and leave the phase at the
      remainder. */
  lemma {:induction false} ClosedForm(src: seq<Frame>, rate: nat, phase: nat)
    requires phase < RATE && rate < RATE
    ensures |Kept(src, rate, phase)| == Units(phase, rate, |src|) / RATE
    ensures PhaseAfter(phase, rate, |src|) == Units(phase, rate, |src|) % RATE
  {
    if src != [] {
      var n := |src| - 1;
      ClosedForm(src[..n], rate, phase);
      UnitsStep(phase, rate, n);
      Carry(Units(phase, rate, n), rate);
    }
  }

  lemma Carry(u: nat, rate: nat)
    requires rate < RATE
    ensures (u + rate) / RATE == u / RATE + if u % RATE + rate >= RATE then 1 else 0
    ensures (u + rate) % RATE == NextPhase(u % RATE, rate)
  {
  }

  /** Which frames are kept: the j-th output is the frame at which the quotient steps from j to j + 1. */
  lemma {:induction false} OutputIsStep(src: seq<Frame>, rate: nat, phase: nat, i: nat)
    requires phase < RATE && rate < RATE && i < |src|
    requires Units(phase, rate, i) / RATE < Units(phase, rate, i + 1) / RATE
    ensures var j := Units(phase, rate, i) / RATE;
      j < |Kept(src, rate, phase)| && Kept(src, rate, phase)[j] == src[i]
  {
    var n := |src| - 1;
    ClosedForm(src[..n], rate, phase);
    ClosedForm(src, rate, phase);
    if i < n {
      OutputIsStep(src[..n], rate, phase, i);
    } else {
      UnitsStep(phase, rate, n);
      Carry(Units(phase, rate, n), rate);
    }
  }

  lemma {:induction false} PhaseAdds(phase: nat, rate: nat, m: nat, n: nat)
    ensures PhaseAfter(phase, rate, m + n) == PhaseAfter(PhaseAfter(phase, rate, m), rate, n)
  {
    if n > 0 { PhaseAdds(phase, rate, m, n - 1); }
  }

  /** Resampling a concatenation is resampling the parts with the phase carried over. */
  lemma {:induction false} Composition(a: seq<Frame>, b: seq<Frame>, rate: nat, phase: nat)
    ensures Kept(a + b, rate, phase) == Kept(a, rate, phase) + Kept(b, rate, PhaseAfter(phase, rate, |a|))
  {
    if b == [] {
      assert a + b == a;
    } else {
      var n := |b| - 1;
      assert (a + b)[..|a| + n] == a + b[..n];
      Composition(a, b[..n], rate, phase);
      PhaseAdds(phase, rate, |a|, n);
    }
  }

  /** How many frames the capped loop looks at: it stops when the output is full. */
  function Looked(src: seq<Frame>, rate: nat, phase: nat, cap: nat): (n: nat)
    ensures n <= |src|
  {
    if src == [] then 0
    else
      var m := Looked(src[..|src| - 1], rate, phase, cap);
      if m == |src| - 1 && |Kept(src[..m], rate, phase)| < cap then |src| else m
  }

  /** It looks at all frames, or at the fewest that fill the output. */
  lemma {:induction false} LookedIsFewest(src: seq<Frame>, rate: nat, phase: nat, cap: nat)
    ensures var n := Looked(src, rate, phase, cap);
      && |Kept(src[..n], rate, phase)| <= cap
      && (n < |src| ==> |Kept(src[..n], rate, phase)| == cap)
      && forall m :: 0 <= m < n ==> |Kept(src[..m], rate, phase)| < cap
  {
    if src != [] {
      var n := |src| - 1;
      LookedIsFewest(src[..n], rate, phase, cap);
      assert forall m :: 0 <= m <= n ==> src[..n][..m] == src[..m];
      assert src[..|src|] == src;
    }
  }

  lemma LookNext(src: seq<Frame>, rate: nat, phase: nat, cap: nat, frame: nat)
    requires frame < |src| && Looked(src[..frame], rate, phase, cap) == frame
    requires |Kept(src[..frame], rate, phase)| < cap
    ensures Looked(src[..frame + 1], rate, phase, cap) == frame + 1
    ensures PhaseAfter(phase, rate, frame + 1) == NextPhase(PhaseAfter(phase, rate, frame), rate)
    ensures Kept(src[..frame + 1], rate, phase)
         == Kept(src[..frame], rate, phase) + if PhaseAfter(phase, rate, frame) + rate >= RATE then [src[frame]] else []
  {
    assert src[..frame + 1][..frame] == src[..frame];
  }

  lemma NothingYet(src: seq<Frame>, rate: nat, phase: nat, cap: nat)
    ensures Looked(src[..0], rate, phase, cap) == 0 && Kept(src[..0], rate, phase) == []
    ensures PhaseAfter(phase, rate, 0) == phase
  {
  }

  /** ViosndDownsampleStereo16, in frames: an invalid rate does nothing. */
  method Downsample(dst: array<Frame>, from: nat, cap: nat, src: seq<Frame>, rate: nat, phase: nat)
    returns (count: nat, phase': nat)
    requires from + cap <= dst.Length
    modifies dst
    ensures rate == 0 || rate >= RATE ==> count == 0 && phase' == phase && dst[..] == old(dst[..])
    ensures 0 < rate < RATE ==>
      var n := Looked(src, rate, phase, cap);
      && count == |Kept(src[..n], rate, phase)| <= cap && phase' == PhaseAfter(phase, rate, n)
      && dst[from..from + count] == Kept(src[..n], rate, phase)
      && dst[..from] == old(dst[..from]) && dst[from + count..] == old(dst[from + count..])
  {
    hide Kept, Looked, PhaseAfter;
    count, phase' := 0, phase;
    if rate == 0 || rate >= RATE {
      return;
    }
    var frame := 0;
    NothingYet(src, rate, phase, cap);
    while frame < |src| && count < cap
      invariant 0 <= frame <= |src| && Looked(src[..frame], rate, phase, cap) == frame
      invariant count == |Kept(src[..frame], rate, phase)| <= cap && phase' == PhaseAfter(phase, rate, frame)
      invariant dst[from..from + count] == Kept(src[..frame], rate, phase)
      invariant dst[..from] == old(dst[..from]) && dst[from + count..] == old(dst[from + count..])
    {
      LookNext(src, rate, phase, cap, frame);
      phase' := phase' + rate;
      if phase' >= RATE {
        phase' := phase' - RATE;
        dst[from + count] := src[frame];
        count := count + 1;
      }
      frame := frame + 1;
    }
    StopsThere(src, rate, phase, cap, frame);
  }

  lemma {:induction false} StopsThere(src: seq<Frame>, rate: nat, phase: nat, cap: nat, frame: nat)
    requires frame <= |src| && Looked(src[..frame], rate, phase, cap) == frame
    requires frame == |src| || |Kept(src[..frame], rate, phase)| >= cap
    ensures Looked(src, rate, phase, cap) == frame
  {
    if frame == |src| {
      assert src[..frame] == src;
    } else {
      var n := |src| - 1;
      assert src[..n][..frame] == src[..frame];
      StopsThere(src[..n], rate, phase, cap, frame);
    }
  }

  /** What is left of the output, and the phase, after one more source packet: the body of the loop that
      fills a fallback period. */
  datatype Fill = Fill(out: seq<Frame>, phase: nat)

  function Filled(f: Fill, packet: seq<Frame>, cap: nat): Fill
    requires |f.out| <= cap
  {
    var n := Looked(packet, FALLBACK_RATE, f.phase, cap - |f.out|);
    Fill(f.out + Kept(packet[..n], FALLBACK_RATE, f.phase), PhaseAfter(f.phase, FALLBACK_RATE, n))
  }

  lemma FilledFits(f: Fill, packet: seq<Frame>, cap: nat)
    requires |f.out| <= cap && f.phase < RATE
    ensures |Filled(f, packet, cap).out| <= cap && Filled(f, packet, cap).phase < RATE
  {
    var n := Looked(packet, FALLBACK_RATE, f.phase, cap - |f.out|);
    LookedIsFewest(packet, FALLBACK_RATE, f.phase, cap - |f.out|);
    ClosedForm(packet[..n], FALLBACK_RATE, f.phase);
  }

  lemma LookedLast(src: seq<Frame>, rate: nat, phase: nat, cap: nat)
    requires src != []
    ensures var n, m := |src| - 1, Looked(src[..|src| - 1], rate, phase, cap);
      Looked(src, rate, phase, cap) == if m == n && |Kept(src[..n], rate, phase)| < cap then |src| else m
  {
  }

  /** The capped loop over a concatenation: it stops in the first part, or goes on in the second with the phase
      and the room that are left. */
  lemma {:induction false} LookedJoins(a: seq<Frame>, b: seq<Frame>, rate: nat, phase: nat, cap: nat)
    ensures Looked(a, rate, phase, cap) < |a| ==> Looked(a + b, rate, phase, cap) == Looked(a, rate, phase, cap)
    ensures Looked(a, rate, phase, cap) == |a| ==>
      && |Kept(a, rate, phase)| <= cap
      && Looked(a + b, rate, phase, cap)
         == |a| + Looked(b, rate, PhaseAfter(phase, rate, |a|), cap - |Kept(a, rate, phase)|)
  {
    hide Kept, PhaseAfter, Looked;
    NothingYet([], rate, PhaseAfter(phase, rate, |a|), 0);
    LookedIsFewest(a, rate, phase, cap);
    assert a[..|a|] == a;
    if b == [] {
      assert a + b == a;
    } else {
      var s, last := a + b, b[..|b| - 1];
      assert s[..|s| - 1] == a + last;
      LookedJoins(a, last, rate, phase, cap);
      LookedLast(s, rate, phase, cap);
      if Looked(a, rate, phase, cap) == |a| {
        var room, phase1 := cap - |Kept(a, rate, phase)|, PhaseAfter(phase, rate, |a|);
        LookedLast(b, rate, phase1, room);
        Composition(a, last, rate, phase);
      }
    }
  }

  lemma NothingMore(f: Fill, packet: seq<Frame>, cap: nat)
    requires |f.out| <= cap && (|f.out| == cap || packet == [])
    ensures Filled(f, packet, cap) == f
  {
    LookedIsFewest(packet, FALLBACK_RATE, f.phase, cap - |f.out|);
    assert Kept(packet[..0], FALLBACK_RATE, f.phase) == [];
  }

  /** Filling from one packet and then from another is filling from the two joined. */
  lemma FilledTwice(f: Fill, a: seq<Frame>, b: seq<Frame>, cap: nat)
    requires |f.out| <= cap
    ensures |Filled(f, a, cap).out| <= cap && Filled(Filled(f, a, cap), b, cap) == Filled(f, a + b, cap)
  {
    hide Kept, PhaseAfter, Looked;
    var room := cap - |f.out|;
    var n, f1 := Looked(a, FALLBACK_RATE, f.phase, room), Filled(f, a, cap);
    LookedIsFewest(a, FALLBACK_RATE, f.phase, room);
    LookedJoins(a, b, FALLBACK_RATE, f.phase, room);
    if n < |a| {
      NothingMore(f1, b, cap);
      assert (a + b)[..n] == a[..n];
    } else {
      assert a[..n] == a;
      var n2 := Looked(b, FALLBACK_RATE, f1.phase, cap - |f1.out|);
      assert (a + b)[..n + n2] == a + b[..n2];
      Composition(a, b[..n2], FALLBACK_RATE, f.phase);
      PhaseAdds(f.phase, FALLBACK_RATE, n, n2);
    }
  }

  /** A packet is used up if the output has room for all it gives. */
  lemma PacketUsedUp(f: Fill, packet: seq<Frame>, cap: nat)
    requires f.phase < RATE && |f.out| <= cap
    requires Units(f.phase, FALLBACK_RATE, |packet|) < (cap - |f.out|) * RATE
    ensures var f' := Filled(f, packet, cap);
      && |f'.out| * RATE + f'.phase == |f.out| * RATE + Units(f.phase, FALLBACK_RATE, |packet|)
      && f'.phase < RATE && |f'.out| < cap
  {
    var n := Looked(packet, FALLBACK_RATE, f.phase, cap - |f.out|);
    LookedIsFewest(packet, FALLBACK_RATE, f.phase, cap - |f.out|);
    ClosedForm(packet[..n], FALLBACK_RATE, f.phase);
  }

  lemma SameResidue(x: nat, y: nat, q: int)
    requires x == y + q * 16_000
    ensures x % FALLBACK_RATE == y % FALLBACK_RATE
  {
  }

  lemma Quotient(u: nat, q: nat)
    requires q * RATE <= u < q * RATE + RATE
    ensures u / RATE == q && u % RATE == u - q * RATE
  {
  }

  /** The step on which the quotient reaches `room` leaves less than one step of phase. */
  lemma StepOver(phase: nat, n: nat, room: nat)
    requires phase + (n - 1) * 16_000 < room * RATE <= phase + n * 16_000
    ensures (phase + n * 16_000) / RATE == room && (phase + n * 16_000) % RATE == phase % FALLBACK_RATE
  {
    var u := phase + n * 16_000;
    Quotient(u, room);
    SameResidue(u - room * RATE, phase, n - 3 * room);
  }

  lemma Below(u: nat, room: nat)
    requires u / RATE < room
    ensures u < room * RATE
  {
  }

  /** Else it fills the output, and is looked at only as far as it takes. */
  lemma PeriodFilled(f: Fill, packet: seq<Frame>, cap: nat)
    requires f.phase < RATE && |f.out| < cap
    requires Units(f.phase, FALLBACK_RATE, |packet|) >= (cap - |f.out|) * RATE
    ensures var f' := Filled(f, packet, cap); |f'.out| == cap && f'.phase == f.phase % FALLBACK_RATE
  {
    var room := cap - |f.out|;
    var n := Looked(packet, FALLBACK_RATE, f.phase, room);
    LookedIsFewest(packet, FALLBACK_RATE, f.phase, room);
    ClosedForm(packet[..n], FALLBACK_RATE, f.phase);
    if n == |packet| { AtLeast(Units(f.phase, FALLBACK_RATE, n), room); }
    assert room * RATE <= Units(f.phase, FALLBACK_RATE, n);
    ClosedForm(packet[..n - 1], FALLBACK_RATE, f.phase);
    Below(Units(f.phase, FALLBACK_RATE, n - 1), room);
    StepOver(f.phase, n, room);
  }

  lemma AtLeast(u: nat, room: nat)
    requires u >= room * RATE
    ensures u / RATE >= room
  {
  }

  /** Any three packets of 512 frames make one fallback period of exactly 512 frames, from any phase. The
      phase that is left is not the uncapped one but its residue mod 16000: up to two frames of the third
      packet are not looked at.  Started like the driver at phase 32000 or 0, it is 0 ever after. */
  lemma ThreePacketsFillAPeriod(a: seq<Frame>, b: seq<Frame>, c: seq<Frame>, phase: nat)
    requires |a| == |b| == |c| == PACKET_FRAMES && phase < RATE
    ensures var f1 := Filled(Fill([], phase), a, PACKET_FRAMES);
      && |f1.out| < PACKET_FRAMES
      && var f2 := Filled(f1, b, PACKET_FRAMES);
      && |f2.out| < PACKET_FRAMES
      && var f3 := Filled(f2, c, PACKET_FRAMES);
      |f3.out| == PACKET_FRAMES && f3.phase == phase % FALLBACK_RATE
  {
    PacketUsedUp(Fill([], phase), a, PACKET_FRAMES);
    var f1 := Filled(Fill([], phase), a, PACKET_FRAMES);
    PacketUsedUp(f1, b, PACKET_FRAMES);
    var f2 := Filled(f1, b, PACKET_FRAMES);
    assert |f2.out| * RATE + f2.phase == phase + 1024 * FALLBACK_RATE;
    PeriodFilled(f2, c, PACKET_FRAMES);
    SameResidue(f2.phase, phase, 1024 - 3 * |f2.out|);
  }
}
