/** Event suppression: deciding from 16-bit indices whether the other side asked to be notified. */
module EventIndex {
  import opened Rings

  const U16: nat := 0x1_0000

  function Mod16(x: int): (r: nat)
    ensures r < U16
  {
    x % 0x1_0000
  }

  lemma Residue(x: int, q: int, r: nat)
    requires x == q * 0x1_0000 + r && r < 0x1_0000
    ensures Mod16(x) == r
  {
  }

  lemma SameResidue(x: int, y: int, q: int)
    requires x == y + q * 0x1_0000
    ensures Mod16(x) == Mod16(y)
  {
    Residue(x, y / 0x1_0000 + q, Mod16(y));
  }

  /** vring_need_event: unsigned 16-bit subtraction and comparison. */
  predicate NeedEvent(event: int, to: int, from: int) {
    Mod16(to - event - 1) < Mod16(to - from)
  }

  /** The test in unbounded indices: it holds exactly when the requested index, read as the one of
      its residue class just below `to`, is among those passed. */
  lemma NeedEventIsMembership(event: int, to: int, from: int)
    requires from <= to < from + U16
    ensures NeedEvent(event, to, from) <==> exists k :: from <= k < to && Mod16(k) == Mod16(event)
  {
    var x := to - event - 1;
    var d := Mod16(x);
    Residue(to - from, 0, to - from);
    if d < to - from {
      SameResidue(to - 1 - d, event, x / 0x1_0000);
      assert from <= to - 1 - d < to;
    }
    forall k | from <= k < to && Mod16(k) == Mod16(event) ensures d == to - 1 - k {
      SameResidue(x, to - 1 - k, k / 0x1_0000 - event / 0x1_0000);
      Residue(to - 1 - k, 0, to - 1 - k);
    }
  }

  /** The split ring's kick decision, with the flag for 2^16 or more additions since the last kick. */
  predicate SplitKick(event: nat, idx: nat, added: nat) {
    added >= U16 || NeedEvent(event, idx, Mod16(idx - added))
  }

  /** It is exact: the device is kicked iff some index added since the last kick is, modulo 2^16,
      the one it asked for - however many were added. */
  lemma SplitKickIsExact(event: nat, count: nat, added: nat)
    requires event < U16 && added <= count
    ensures SplitKick(event, Mod16(count), added)
       <==> exists k :: count - added <= k < count && Mod16(k) == event
  {
    var idx := Mod16(count);
    if added < U16 {
      NeedEventIsMembership(event, count, count - added);
      SameResidue(idx - event - 1, count - event - 1, -(count / 0x1_0000));
      SameResidue(idx - Mod16(idx - added), added, (idx - added) / 0x1_0000);
      SameResidue(count - (count - added), added, 0);
      Residue(event, 0, event);
    } else {
      var x := count - event - 1;
      SameResidue(count - 1 - Mod16(x), event, x / 0x1_0000);
      Residue(event, 0, event);
    }
  }

  /** The off_wrap word of a packed event structure: 15 bits of slot, one bit of lap parity. */
  function OffWrap(slot: nat, wrap: bool): nat {
    slot + if wrap then 0x8000 else 0
  }

  function WordSlot(w: nat): nat {
    w % 0x8000
  }

  predicate WordWrap(w: nat) {
    w / 0x8000 == 1
  }

  lemma OffWrapRoundTrip(slot: nat, wrap: bool)
    requires slot < 0x8000
    ensures WordSlot(OffWrap(slot, wrap)) == slot && WordWrap(OffWrap(slot, wrap)) == wrap
    ensures OffWrap(slot, wrap) < U16
  {
  }

  /** The position an event word names, seen by a driver that will write position a next: in the lap
      of a if the parities agree, in the lap before otherwise. */
  function EventPosition(a: nat, n: nat, w: nat): int
    requires n > 0
  {
    a - Slot(a, n) + WordSlot(w) - if WordWrap(w) == Lap(a, n) then 0 else n
  }

  lemma {:induction false} LapStart(a: nat, s: nat, n: nat)
    requires 0 < n && s < n
    ensures Slot(a, n) <= a
    ensures Slot(a - Slot(a, n) + s, n) == s && Lap(a - Slot(a, n) + s, n) == Lap(a, n)
  {
    if a >= n { LapStart(a - n, s, n); }
  }

  /** It is the position of that slot and parity less than a lap away from the lap of a. */
  lemma EventPositionIsDecoded(a: nat, n: nat, w: nat)
    requires 0 < n <= a && WordSlot(w) < n
    ensures var e := EventPosition(a, n, w);
      e >= 0 && Slot(e, n) == WordSlot(w) && Lap(e, n) == WordWrap(w)
  {
    LapStart(a, WordSlot(w), n);
    LapStart(a, 0, n);
  }

  /** virtqueue_kick_prepare_packed once the device asked for a descriptor event: idx is
      next_avail_idx, ctr avail_wrap_counter, added num_added and w the device's off_wrap. */
  predicate PackedKick(n: nat, idx: nat, ctr: bool, added: nat, w: nat) {
    var event := if WordWrap(w) != ctr then Mod16(WordSlot(w) - n) else WordSlot(w);
    NeedEvent(event, idx, Mod16(idx - added))
  }

  lemma PackedKickInPositions(n: nat, a: nat, added: nat, w: nat)
    requires 0 < n && WordSlot(w) < 0x8000
    ensures PackedKick(n, Slot(a, n), Lap(a, n), added, w)
        <==> Mod16(a - EventPosition(a, n, w) - 1) < Mod16(added)
  {
    var idx := Slot(a, n);
    var raw := WordSlot(w) - if WordWrap(w) == Lap(a, n) then 0 else n;
    assert a - EventPosition(a, n, w) == idx - raw;
    SameResidue(idx - Mod16(raw) - 1, idx - raw - 1, raw / 0x1_0000);
    Residue(WordSlot(w), 0, WordSlot(w));
    SameResidue(idx - Mod16(idx - added), added, (idx - added) / 0x1_0000);
  }

  /** The decision in positions, for every number of additions.  The second case is the 16-bit wrap:
      it cannot arise with at most 2^15 additions since the last kick. */
  lemma PackedKickIsExact(n: nat, a: nat, added: nat, w: nat)
    requires 0 < n <= 0x8000 && n <= a && WordSlot(w) < n
    ensures var e, r := EventPosition(a, n, w), Mod16(added);
      && (PackedKick(n, Slot(a, n), Lap(a, n), added, w) <==> a - r <= e < a || e - a >= U16 - r)
      && (added <= 0x8000 ==> (PackedKick(n, Slot(a, n), Lap(a, n), added, w) <==> a - added <= e < a))
  {
    PackedKickInPositions(n, a, added, w);
    var x := a - EventPosition(a, n, w) - 1;
    assert -0x8000 <= x < 0x1_0000 by { LapStart(a, 0, n); }
    Residue(x, if x < 0 then -1 else 0, if x < 0 then x + 0x1_0000 else x);
    if added < 0x1_0000 { Residue(added, 0, added); }
  }

  /** A slot with its lap parity names one position in any two laps. */
  lemma WordsDiffer(p: nat, q: nat, n: nat)
    requires 0 < n && p < q < p + 2 * n
    ensures Slot(p, n) != Slot(q, n) || Lap(p, n) != Lap(q, n)
  {
    if q < p + n {
      SlotsDiffer(p, q, n);
    } else {
      assert Slot(q, n) == Slot(q - n, n) && Lap(q, n) == !Lap(q - n, n);
      if p < q - n { SlotsDiffer(p, q - n, n); }
    }
  }

  /** The event word w names one of the positions in [from, a). */
  ghost predicate NamesPassed(n: nat, from: nat, a: nat, w: nat)
    requires n > 0
  {
    exists p {:trigger Slot(p, n)} :: from <= p < a && OffWrap(Slot(p, n), Lap(p, n)) == w
  }

  /** The decision without arithmetic: of the positions passed, at most a lap, one is what w names. */
  lemma PackedKickNamesPassed(n: nat, from: nat, a: nat, w: nat)
    requires 0 < n <= 0x8000 && n <= a && from <= a <= from + n && w < U16 && WordSlot(w) < n
    ensures PackedKick(n, Slot(a, n), Lap(a, n), a - from, w) <==> NamesPassed(n, from, a, w)
  {
    PackedKickIsExact(n, a, a - from, w);
    EventPositionIsDecoded(a, n, w);
    var e := EventPosition(a, n, w);
    if from <= e < a {
      assert OffWrap(Slot(e, n), Lap(e, n)) == w;
    }
    LapStart(a, 0, n);
    forall p | from <= p < a && OffWrap(Slot(p, n), Lap(p, n)) == w ensures p == e {
      OffWrapRoundTrip(Slot(p, n), Lap(p, n));
      if p < e { WordsDiffer(p, e, n); } else if e < p { WordsDiffer(e, p, n); }
    }
  }

  /** avail_wrap_counter after a direct chain of k descriptors written from position a, when it was ctr
      before: the driver flips it only if the write index moved backwards. */
  predicate CounterAfter(ctr: bool, a: nat, k: nat, n: nat)
    requires n > 0
  {
    if Slot(a + k, n) < Slot(a, n) then !ctr else ctr
  }

  /** A chain of all n descriptors, and no other, changes whether the counter carries the lap parity of
      the write position. */
  lemma FullChainTurnsTheCounter(ctr: bool, a: nat, k: nat, n: nat)
    requires 0 < k <= n
    ensures (CounterAfter(ctr, a, k, n) == Lap(a + k, n)) == ((ctr == Lap(a, n)) == (k < n))
  {
    Advance(a, k, n);
  }

  /** The kick decision with counter ctr, at write position a after `added` additions, is right for every
      event word that the device may have written. */
  ghost predicate KicksRight(a: nat, added: nat, n: nat, ctr: bool)
    requires n > 0
  {
    forall w :: WordSlot(w) < n ==>
      (PackedKick(n, Slot(a, n), ctr, added, w) <==> a - added <= EventPosition(a, n, w) < a)
  }

  /** How far off the decision reads the event position when the counter is out of step. */
  function Misread(n: nat, a: nat, w: nat): int
    requires n > 0
  {
    if WordWrap(w) == Lap(a, n) then n else -(n as int)
  }

  /** With the counter out of step the decision is that for the position a lap back, or further on. */
  lemma OutOfStepKick(n: nat, a: nat, added: nat, w: nat)
    requires 0 < n <= a && WordSlot(w) < n
    ensures PackedKick(n, Slot(a, n), !Lap(a, n), added, w)
       <==> Mod16(a - EventPosition(a, n, w) - 1 + Misread(n, a, w)) < Mod16(added)
  {
    var idx := Slot(a, n);
    var raw := WordSlot(w) - if WordWrap(w) == Lap(a, n) then n else 0;
    SameResidue(idx - Mod16(raw) - 1, idx - raw - 1, raw / 0x1_0000);
    Residue(WordSlot(w), 0, WordSlot(w));
    SameResidue(idx - Mod16(idx - added), added, (idx - added) / 0x1_0000);
  }

  /** The word of position e, seen from the lap of a. */
  lemma WordOf(n: nat, a: nat, e: nat)
    requires 0 < n <= 0x8000 && n <= a && a - 1 <= e <= a
    ensures var w := OffWrap(Slot(e, n), Lap(e, n));
      WordSlot(w) == Slot(e, n) && WordWrap(w) == Lap(e, n) && EventPosition(a, n, w) == e
  {
    OffWrapRoundTrip(Slot(e, n), Lap(e, n));
    Advance(a - 1, 1, n);
  }

  /** The word that the decision gets wrong with the counter out of step: that of the last descriptor
      added, or - after a whole lap of additions - that of the next one. */
  lemma OutOfStepMisleads(n: nat, a: nat, added: nat)
    requires 0 < n <= 0x8000 && n <= a && 0 < added <= 0x8000 && added <= a
    ensures !KicksRight(a, added, n, !Lap(a, n))
  {
    var e := if added < n then a - 1 else a;
    var w := OffWrap(Slot(e, n), Lap(e, n));
    WordOf(n, a, e);
    OutOfStepKick(n, a, added, w);
    Residue(added, 0, added);
    Residue(n, 0, n);
    Residue(n - 1, 0, n - 1);
    Residue(-(n as int), -1, 0x1_0000 - n);
  }

  /** So with something added since the last kick the decision is right for every event word exactly when
      the counter is in step. */
  lemma KickRightIffInStep(n: nat, a: nat, added: nat, ctr: bool)
    requires 0 < n <= 0x8000 && n <= a && added <= 0x8000 && added <= a
    ensures KicksRight(a, added, n, ctr) <==> added == 0 || ctr == Lap(a, n)
  {
    if ctr == Lap(a, n) || added == 0 {
      forall w | WordSlot(w) < n
        ensures PackedKick(n, Slot(a, n), ctr, added, w) <==> a - added <= EventPosition(a, n, w) < a
      {
        Residue(added, 0, added);
        if added == 0 {
          SameResidue(Slot(a, n) - Mod16(Slot(a, n) - added), 0, Slot(a, n) / 0x1_0000);
        } else {
          PackedKickIsExact(n, a, added, w);
        }
      }
    } else {
      OutOfStepMisleads(n, a, added);
    }
  }

  /** The kick after adding one direct chain is right for every event word if the counter was in step before
      and the chain is shorter than the ring, or it was out of step and the chain is the whole ring - and
      only then: after a chain of all n descriptors a kick is missed, and after every shorter one that
      follows, until a second such chain brings the counter back. */
  lemma KickAfterChainIsRightIff(ctr: bool, a: nat, k: nat, n: nat)
    requires 0 < k <= n <= 0x8000 && n <= a
    ensures KicksRight(a + k, k, n, CounterAfter(ctr, a, k, n)) <==> (ctr == Lap(a, n)) == (k < n)
  {
    FullChainTurnsTheCounter(ctr, a, k, n);
    KickRightIffInStep(n, a + k, k, CounterAfter(ctr, a, k, n));
  }
}
