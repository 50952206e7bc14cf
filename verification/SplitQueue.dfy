/** The split virtqueue of VirtIORing.c, updated in place: every operation does to the fields what its
    specification in SplitSpec says, one shared store at a time where a device may look. */
module SplitQueue {
  import opened Queues
  import opened Rings
  import opened DescriptorPool
  import opened SplitSpec
  import opened EventIndex

  /** What the driver writes and the device reads of an addition. */
  datatype Shared = Shared(desc: seq<Desc>, ring: seq<nat>, idx: nat)

  predicate OneField(d: Desc, e: Desc) {
    e == d.(addr := e.addr) || e == d.(len := e.len) || e == d.(flags := e.flags) || e == d.(next := e.next)
  }

  /** One store: to a field of one descriptor, to one avail entry, or to the avail index. */
  ghost predicate OneStore(a: Shared, b: Shared) {
    || (&& |b.desc| == |a.desc|
        && exists s :: 0 <= s < |a.desc| && b == a.(desc := a.desc[s := b.desc[s]]) && OneField(a.desc[s], b.desc[s]))
    || (|b.ring| == |a.ring| && exists s :: 0 <= s < |a.ring| && b == a.(ring := a.ring[s := b.ring[s]]))
    || b == a.(idx := b.idx)
  }

  ghost predicate StoreByStore(trace: seq<Shared>) {
    trace != [] && forall k :: 0 < k < |trace| ==> OneStore(trace[k - 1], trace[k])
  }

  /** A memory during the addition of a buffer with these slots into avail entry e: the avail index, all
      other descriptors and all other entries are as in m0. */
  ghost predicate Unpublished(m: Shared, m0: Shared, slots: seq<nat>, e: nat) {
    && m.idx == m0.idx && |m.desc| == |m0.desc| && |m.ring| == |m0.ring|
    && (forall s :: 0 <= s < |m.desc| && s !in slots ==> m.desc[s] == m0.desc[s])
    && (forall s :: 0 <= s < |m.ring| && s != e ==> m.ring[s] == m0.ring[s])
  }

  ghost predicate AllUnpublished(trace: seq<Shared>, m0: Shared, slots: seq<nat>, e: nat) {
    && StoreByStore(trace) && trace[0] == m0
    && forall k :: 0 <= k < |trace| ==> Unpublished(trace[k], m0, slots, e)
  }

  /** trace is a run of single stores from m0, of which only the last, of the avail index, publishes. */
  ghost predicate PublishedLast(trace: seq<Shared>, m0: Shared, slots: seq<nat>, e: nat) {
    && StoreByStore(trace) && trace[0] == m0
    && forall k :: 0 <= k < |trace| - 1 ==> Unpublished(trace[k], m0, slots, e)
  }

  lemma LastEndsTheChain(d: seq<Desc>, d0: seq<Desc>, b: Buf)
    requires Shaped(b) && b.table.None? && forall k :: 0 <= k < |b.slots| ==> b.slots[k] < |d0|
    requires d == Filled(d0, b, |b.slots|)
    ensures var last := b.slots[|b.slots| - 1];
      WithChain(d0, b) == d[last := d[last].(flags := d[last].flags.(next := false))]
  {
  }

  class SplitVirtqueue {
    const eventSuppression: bool
    const desc: array<Desc>
    const availRing: array<nat>
    const usedRing: array<UsedElem>
    const opaques: array<Option<Token>>

    /** The shared index, flag and event words. */
    var availIdx: nat
    var availNoInterrupt: bool
    var usedEvent: nat
    var usedIdx: nat
    var usedNoNotify: bool
    var availEvent: nat

    var masterIdx: nat
    var noInterrupt: bool
    var numUnused: nat
    var numAdded: nat
    var firstUnused: nat
    var lastUsed: nat

    ghost function View(): Split
      reads this, desc, availRing, usedRing, opaques
    {
      Split(eventSuppression, desc[..], availRing[..], usedRing[..], opaques[..], availIdx, availNoInterrupt,
            usedEvent, usedIdx, usedNoNotify, availEvent, masterIdx, noInterrupt,
            numUnused, numAdded, firstUnused, lastUsed)
    }

    /** The fields are those of w. */
    ghost predicate Shows(w: Split)
      reads this, desc, availRing, usedRing, opaques
    {
      && eventSuppression == w.eventSuppression && desc[..] == w.desc && availRing[..] == w.availRing
      && usedRing[..] == w.usedRing && opaques[..] == w.opaques
      && availIdx == w.availIdx && availNoInterrupt == w.availNoInterrupt && usedEvent == w.usedEvent
      && usedIdx == w.usedIdx && usedNoNotify == w.usedNoNotify && availEvent == w.availEvent
      && masterIdx == w.masterIdx && noInterrupt == w.noInterrupt
      && numUnused == w.numUnused && numAdded == w.numAdded
      && firstUnused == w.firstUnused && lastUsed == w.lastUsed
    }

    ghost predicate Valid()
      reads this, desc, availRing, usedRing, opaques
    {
      InRange(View())
    }

    ghost function Memory(): Shared
      reads this, desc, availRing
    {
      Shared(desc[..], availRing[..], availIdx)
    }

    /** A store to descriptor i, one of the slots of the buffer being added. */
    method StoreDesc(i: nat, d: Desc, ghost slots: seq<nat>, ghost e: nat, ghost trace: seq<Shared>)
      returns (ghost trace': seq<Shared>)
      requires i < desc.Length && i in slots && OneField(desc[i], d)
      requires trace != [] && AllUnpublished(trace, trace[0], slots, e) && trace[|trace| - 1] == Memory()
      modifies desc
      ensures desc[..] == old(desc[..])[i := d]
      ensures trace' != [] && AllUnpublished(trace', trace[0], slots, e) && trace'[|trace'| - 1] == Memory()
    {
      desc[i] := d;
      trace' := trace + [Memory()];
      assert OneStore(old(Memory()), Memory()) by {
        assert desc[..] == old(desc[..])[i := desc[..][i]];
      }
    }

    /** Fills descriptor i as add_buf does: address, length, NEXT, WRITE if the device writes it, next. */
    method FillDesc(i: nat, sg: Sg, write: bool, next: nat, ghost slots: seq<nat>, ghost e: nat,
                    ghost trace: seq<Shared>)
      returns (ghost trace': seq<Shared>)
      requires i < desc.Length && i in slots
      requires trace != [] && AllUnpublished(trace, trace[0], slots, e) && trace[|trace| - 1] == Memory()
      modifies desc
      ensures desc[..] == old(desc[..])[i := Desc(sg.addr, sg.len, Flags(true, write, false), next)]
      ensures trace' != [] && AllUnpublished(trace', trace[0], slots, e) && trace'[|trace'| - 1] == Memory()
    {
      trace' := StoreDesc(i, desc[i].(addr := sg.addr), slots, e, trace);
      trace' := StoreDesc(i, desc[i].(len := sg.len), slots, e, trace');
      trace' := StoreDesc(i, desc[i].(flags := Flags(true, false, false)), slots, e, trace');
      if write {
        trace' := StoreDesc(i, desc[i].(flags := desc[i].flags.(write := true)), slots, e, trace');
      }
      trace' := StoreDesc(i, desc[i].(next := next), slots, e, trace');
    }

    /** get_unused_desc. */
    method GetUnusedDesc() returns (idx: nat)
      requires numUnused > 0 && firstUnused < desc.Length
      modifies `firstUnused, `numUnused
      ensures idx == old(firstUnused) && firstUnused == desc[..][idx].next && numUnused == old(numUnused) - 1
    {
      idx := firstUnused;
      firstUnused := desc[idx].next;
      numUnused := numUnused - 1;
    }

    /** The first i descriptors of b are filled; m0 and f0 are the memory and the free list's head before. */
    ghost predicate Filling(b: Buf, i: nat, m0: Shared, f0: nat, e: nat, trace: seq<Shared>)
      reads this, desc, availRing
    {
      var d0 := m0.desc;
      && Shaped(b) && b.table.None? && i <= |b.sg|
      && |d0| == desc.Length && f0 < |d0| && (forall s :: 0 <= s < |d0| ==> d0[s].next < |d0|)
      && (forall k :: 0 <= k < |b.slots| ==> b.slots[k] == Hop(d0, f0, k) < |d0|)
      && desc[..] == Filled(d0, b, i) && firstUnused == Hop(d0, f0, i)
      && trace != [] && AllUnpublished(trace, m0, b.slots, e) && trace[|trace| - 1] == Memory()
    }

    /** Takes the i-th free descriptor and fills it with the i-th part of b. */
    method NextDesc(i: nat, sg: Sg, write: bool, ghost b: Buf, ghost m0: Shared, ghost f0: nat, ghost e: nat,
                    ghost trace: seq<Shared>)
      returns (idx: nat, ghost trace': seq<Shared>)
      requires Filling(b, i, m0, f0, e, trace) && numUnused > 0
      requires i < |b.sg| && b.sg[i] == sg && write == (i >= b.out)
      modifies desc, `firstUnused, `numUnused
      ensures Filling(b, i + 1, m0, f0, e, trace') && idx == b.slots[i] && numUnused == old(numUnused) - 1
    {
      idx := GetUnusedDesc();
      assert b.slots[i] in b.slots;
      trace' := FillDesc(idx, sg, write, firstUnused, b.slots, e, trace);
    }

    /** The descriptors of the direct branch of add_buf, for the buffer b whose chain starts the free list,
        still with NEXT in the last one. */
    method FillAll(sg: seq<Sg>, out: nat, ghost b: Buf, ghost m0: Shared, ghost f0: nat, ghost e: nat)
      returns (idx: nat, last: nat, ghost trace: seq<Shared>)
      requires Filling(b, 0, m0, f0, e, [m0]) && b.sg == sg && b.out == out && |sg| <= numUnused
      modifies desc, `firstUnused, `numUnused
      ensures Filling(b, |sg|, m0, f0, e, trace) && idx == b.slots[0] && last == b.slots[|sg| - 1]
      ensures numUnused == old(numUnused) - |sg|
    {
      idx, trace := NextDesc(0, sg[0], out == 0, b, m0, f0, e, [m0]);
      last := idx;
      for i := 1 to |sg|
        invariant Filling(b, i, m0, f0, e, trace) && last == b.slots[i - 1]
        invariant numUnused == old(numUnused) - i
      {
        last, trace := NextDesc(i, sg[i], i >= out, b, m0, f0, e, trace);
      }
    }

    lemma FillingStarts(b: Buf, e: nat)
      requires firstUnused < desc.Length && forall s :: 0 <= s < desc.Length ==> desc[..][s].next < desc.Length
      requires Shaped(b) && b.table.None?
      requires forall k :: 0 <= k < |b.slots| ==> b.slots[k] == Hop(desc[..], firstUnused, k) < desc.Length
      ensures Filling(b, 0, Memory(), firstUnused, e, [Memory()])
    {
    }

    method FillChain(sg: seq<Sg>, out: nat, ghost b: Buf, ghost e: nat) returns (idx: nat, ghost trace: seq<Shared>)
      requires firstUnused < desc.Length && forall s :: 0 <= s < desc.Length ==> desc[..][s].next < desc.Length
      requires Shaped(b) && b.table.None? && b.sg == sg && b.out == out && |sg| <= numUnused
      requires forall k :: 0 <= k < |b.slots| ==> b.slots[k] == Hop(desc[..], firstUnused, k) < desc.Length
      modifies desc, `firstUnused, `numUnused
      ensures idx == b.slots[0] && desc[..] == WithChain(old(desc[..]), b)
      ensures firstUnused == Hop(old(desc[..]), old(firstUnused), |sg|) && numUnused == old(numUnused) - |sg|
      ensures trace != [] && AllUnpublished(trace, old(Memory()), b.slots, e) && trace[|trace| - 1] == Memory()
    {
      hide Hop, Unpublished, OneStore, Filled, WithChain;
      ghost var d0 := desc[..];
      var last;
      FillingStarts(b, e);
      idx, last, trace := FillAll(sg, out, b, Memory(), firstUnused, e);
      assert b.slots[|sg| - 1] in b.slots;
      LastEndsTheChain(desc[..], d0, b);
      trace := StoreDesc(last, desc[last].(flags := desc[last].flags.(next := false)), b.slots, e, trace);
    }

    /** The table and the descriptor of the indirect branch of add_buf. */
    method FillIndirect(sg: seq<Sg>, out: nat, va: array<Desc>, phys: nat, ghost b: Buf, ghost e: nat)
      returns (idx: nat, ghost trace: seq<Shared>)
      requires firstUnused < desc.Length && forall s :: 0 <= s < desc.Length ==> desc[..][s].next < desc.Length
      requires va != desc && |sg| <= va.Length && numUnused > 0
      requires Shaped(b) && b.table == Some(phys) && b.sg == sg && b.out == out && b.slots[0] == firstUnused
      modifies va, desc, `firstUnused, `numUnused
      ensures idx == b.slots[0] && desc[..] == WithChain(old(desc[..]), b)
      ensures firstUnused == Hop(old(desc[..]), old(firstUnused), 1) && numUnused == old(numUnused) - 1
      ensures TableHolds(va[..], sg, out)
      ensures trace != [] && AllUnpublished(trace, old(Memory()), b.slots, e) && trace[|trace| - 1] == Memory()
    {
      WriteTable(sg, out, va);
      trace := [Memory()];
      assert Hop(desc[..], firstUnused, 0) == firstUnused && b.slots[0] in b.slots;
      idx := GetUnusedDesc();
      trace := StoreDesc(idx, desc[idx].(flags := Flags(false, false, true)), b.slots, e, trace);
      trace := StoreDesc(idx, desc[idx].(addr := phys), b.slots, e, trace);
      trace := StoreDesc(idx, desc[idx].(len := |sg| * DESC_SIZE), b.slots, e, trace);
    }

    method WriteTable(sg: seq<Sg>, out: nat, va: array<Desc>)
      requires 1 <= |sg| <= va.Length
      modifies va
      ensures TableHolds(va[..], sg, out)
    {
      for i := 0 to |sg|
        invariant forall j :: 0 <= j < i ==>
          va[j] == Desc(sg[j].addr, sg[j].len, Flags(true, j >= out, false), j + 1)
      {
        va[i] := Desc(sg[i].addr, sg[i].len, Flags(true, i >= out, false), i + 1);
      }
      va[|sg| - 1] := va[|sg| - 1].(flags := va[|sg| - 1].flags.(next := false));
    }

    /** The end of add_buf: avail entry e, then - the publishing store - the avail index. */
    method Publish(idx: nat, e: nat, ghost slots: seq<nat>, ghost m0: Shared, ghost trace: seq<Shared>)
      returns (ghost trace': seq<Shared>)
      requires e < availRing.Length && AllUnpublished(trace, m0, slots, e) && trace[|trace| - 1] == Memory()
      modifies availRing, `masterIdx, `availIdx, `numAdded
      ensures availRing[..] == old(availRing[..])[e := idx]
      ensures masterIdx == availIdx == Mod16(old(masterIdx) + 1) && numAdded == old(numAdded) + 1
      ensures PublishedLast(trace', m0, slots, e) && trace'[|trace'| - 1] == Memory()
    {
      availRing[e] := idx;
      ghost var m := Memory();
      assert m.ring == old(availRing[..])[e := m.ring[e]];
      trace' := trace + [m];
      assert OneStore(trace[|trace| - 1], m);
      masterIdx := Mod16(masterIdx + 1);
      availIdx := masterIdx;
      assert OneStore(m, Memory());
      trace' := trace' + [Memory()];
      numAdded := numAdded + 1;
    }

    /** The descriptors of add_buf, whichever branch it takes. */
    method FillBuffer(sg: seq<Sg>, out: nat, va: array?<Desc>, phys: nat, ghost b: Buf, ghost e: nat)
      returns (ok: bool, idx: nat, ghost trace: seq<Shared>)
      requires firstUnused < desc.Length && forall s :: 0 <= s < desc.Length ==> desc[..][s].next < desc.Length
      requires 1 <= |sg| && (va != null ==> va != desc && |sg| <= va.Length)
      requires b.table == if va != null && |sg| > 1 && numUnused > 0 then Some(phys) else None
      requires Shaped(b) && b.sg == sg && b.out == out
      requires forall k :: 0 <= k < |b.slots| ==> b.slots[k] == Hop(desc[..], firstUnused, k) < desc.Length
      modifies desc, `firstUnused, `numUnused, if va == null then {} else {va}
      ensures ok <==> |b.slots| <= old(numUnused)
      ensures !ok ==> desc[..] == old(desc[..]) && firstUnused == old(firstUnused) && numUnused == old(numUnused)
      ensures ok ==> idx == b.slots[0] && desc[..] == WithChain(old(desc[..]), b)
      ensures ok ==> firstUnused == Hop(old(desc[..]), old(firstUnused), |b.slots|)
      ensures ok ==> numUnused == old(numUnused) - |b.slots|
      ensures ok && b.table.Some? ==> va != null && TableHolds(va[..], sg, out)
      ensures ok ==> AllUnpublished(trace, old(Memory()), b.slots, e) && trace[|trace| - 1] == Memory()
    {
      idx, trace, ok := 0, [], true;
      if va != null && |sg| > 1 && numUnused > 0 {
        idx, trace := FillIndirect(sg, out, va, phys, b, e);
      } else if |sg| > numUnused {
        ok := false;
      } else {
        idx, trace := FillChain(sg, out, b, e);
      }
    }

    /** The fields after b was added, given those before. */
    ghost predicate Inserted(b: Buf, v: Split, e: nat)
      requires e < |v.availRing| && v.firstUnused < |v.desc| && Shaped(b)
      requires forall s :: 0 <= s < |v.desc| ==> v.desc[s].next < |v.desc|
      requires forall k :: 0 <= k < |b.slots| ==> b.slots[k] < |v.desc| == |v.opaques|
      reads this, desc, availRing, opaques
    {
      && desc[..] == WithChain(v.desc, b) && opaques[..] == v.opaques[b.slots[0] := Some(b.token)]
      && availRing[..] == v.availRing[e := b.slots[0]]
      && firstUnused == Hop(v.desc, v.firstUnused, |b.slots|) && numUnused == v.numUnused - |b.slots|
      && masterIdx == availIdx == Mod16(v.masterIdx + 1) && numAdded == v.numAdded + 1
    }

    /** The fields that an addition leaves alone. */
    ghost predicate Untouched(v: Split)
      reads this, usedRing
    {
      && eventSuppression == v.eventSuppression && usedRing[..] == v.usedRing
      && availNoInterrupt == v.availNoInterrupt && usedEvent == v.usedEvent
      && usedIdx == v.usedIdx && usedNoNotify == v.usedNoNotify && availEvent == v.availEvent
      && noInterrupt == v.noInterrupt && lastUsed == v.lastUsed
    }

    ghost predicate Unmoved(v: Split)
      reads this, desc, availRing, opaques
    {
      && desc[..] == v.desc && opaques[..] == v.opaques && availRing[..] == v.availRing
      && firstUnused == v.firstUnused && numUnused == v.numUnused
      && masterIdx == v.masterIdx && availIdx == v.availIdx && numAdded == v.numAdded
    }

    lemma InsertedIsAddSpec(b: Buf, v: Split)
      requires InRange(v) && Shaped(b) && |b.slots| <= v.numUnused
      requires forall k :: 0 <= k < |b.slots| ==> b.slots[k] < |v.desc|
      requires Inserted(b, v, Slot(v.masterIdx, |v.desc|)) && Untouched(v)
      ensures Shows(AddSpec(v, b))
    {
    }

    method Insert(sg: seq<Sg>, out: nat, token: Token, va: array?<Desc>, phys: nat, e: nat, ghost b: Buf)
      returns (ok: bool, ghost trace: seq<Shared>)
      requires desc.Length == opaques.Length && e < availRing.Length
      requires firstUnused < desc.Length && forall s :: 0 <= s < desc.Length ==> desc[..][s].next < desc.Length
      requires 1 <= |sg| && (va != null ==> va != desc && |sg| <= va.Length)
      requires b.table == if va != null && |sg| > 1 && numUnused > 0 then Some(phys) else None
      requires Shaped(b) && b.sg == sg && b.out == out && b.token == token
      requires forall k :: 0 <= k < |b.slots| ==> b.slots[k] == Hop(desc[..], firstUnused, k) < desc.Length
      modifies desc, availRing, opaques, if va == null then {} else {va}
      modifies `availIdx, `masterIdx, `numUnused, `numAdded, `firstUnused
      ensures ok <==> |b.slots| <= old(numUnused)
      ensures ok ==> Inserted(b, old(View()), e) && (b.table.Some? ==> va != null && TableHolds(va[..], sg, out))
      ensures ok ==> PublishedLast(trace, old(Memory()), b.slots, e) && trace[|trace| - 1] == Memory()
      ensures Untouched(old(View())) && (!ok ==> Unmoved(old(View())))
    {
      hide PublishedLast, AllUnpublished, TableHolds, WithChain, Hop, Mod16, StoreByStore;
      ghost var m0 := Memory();
      var idx;
      ok, idx, trace := FillBuffer(sg, out, va, phys, b, e);
      if ok {
        opaques[idx] := Some(token);
        trace := Publish(idx, e, b.slots, m0, trace);
      }
    }

    /** virtqueue_add_buf_split.  It succeeds iff the cost fits the free count.  On success trace shows
        what the device can see after each store: only the last one publishes the buffer. */
    method AddBuf(sg: seq<Sg>, out: nat, token: Token, va: array?<Desc>, phys: nat)
      returns (ok: bool, ghost b: Buf, ghost trace: seq<Shared>)
      requires Valid() && 1 <= |sg| && out <= |sg|
      requires va != null ==> va != desc && |sg| <= va.Length
      modifies desc, availRing, opaques, if va == null then {} else {va}
      modifies `availIdx, `masterIdx, `numUnused, `numAdded, `firstUnused
      ensures b == BufOf(old(View()), sg, out, token, if va != null then Some(phys) else None) && Shaped(b)
      ensures forall i :: 0 <= i < |b.slots| ==> b.slots[i] < desc.Length
      ensures ok <==> |b.slots| <= old(numUnused)
      ensures ok <==> (va != null && |sg| > 1 && old(numUnused) > 0) || |sg| <= old(numUnused)
      ensures ok ==> Shows(AddSpec(old(View()), b))
      ensures ok ==> opaques[..][old(firstUnused)] == Some(token)
      ensures ok ==> availRing[..] == old(availRing[..])[Slot(old(masterIdx), desc.Length) := old(firstUnused)]
      ensures ok && !(va != null && |sg| > 1 && old(numUnused) > 0)
              && Distinct(Hops(old(desc[..]), old(firstUnused), |sg|)) ==>
        ChainStands(old(desc[..]), desc[..], old(firstUnused), sg, out)
      ensures ok && va != null && |sg| > 1 && old(numUnused) > 0 ==>
        && TableHolds(va[..], sg, out)
        && desc[..] == old(desc[..])[old(firstUnused) :=
             Desc(phys, |sg| * DESC_SIZE, Flags(false, false, true), old(desc[..])[old(firstUnused)].next)]
      ensures ok ==> PublishedLast(trace, old(Memory()), b.slots, Slot(old(masterIdx), desc.Length))
      ensures ok ==> trace[|trace| - 1] == Memory()
      ensures !ok ==> Shows(old(View()))
    {
      hide TableHolds, ChainStands, Filled, Mod16, PublishedLast, Slot;
      b := BufOf(View(), sg, out, token, if va != null then Some(phys) else None);
      ghost var v := View();
      ok, trace := Insert(sg, out, token, va, phys, Slot(masterIdx, desc.Length), b);
      if ok {
        InsertedIsAddSpec(b, v);
        if b.table.None? && Distinct(b.slots) { ChainThatWasFilledStands(v.desc, v.firstUnused, b); }
      }
    }

    /** put_unused_desc_chain: c is the chain that starts at idx; the loop runs along it. */
    method PutUnusedDescChain(idx: nat, ghost c: seq<nat>)
      requires IsChain(desc[..], c) && c[0] == idx && idx < opaques.Length
      modifies desc, opaques, `numUnused, `firstUnused
      ensures desc[..] == old(desc[..])[c[|c| - 1] :=
        old(desc[..])[c[|c| - 1]].(flags := Flags(true, false, false), next := old(firstUnused))]
      ensures opaques[..] == old(opaques[..])[idx := None]
      ensures numUnused == old(numUnused) + |c| && firstUnused == idx
    {
      ghost var d0, k := desc[..], 0;
      opaques[idx] := None;
      var i := idx;
      while desc[i].flags.next
        invariant 0 <= k < |c| && i == c[k] && desc[..] == d0
        invariant numUnused == old(numUnused) + k && firstUnused == old(firstUnused)
        invariant opaques[..] == old(opaques[..])[idx := None]
        decreases |c| - k
      {
        assert d0[c[k]].next == c[k + 1];
        i := desc[i].next;
        numUnused := numUnused + 1;
        k := k + 1;
      }
      desc[i] := desc[i].(flags := Flags(true, false, false));
      desc[i] := desc[i].(next := firstUnused);
      numUnused := numUnused + 1;
      firstUnused := idx;
    }

    /** virtqueue_get_buf_split.  c is the chain of the used element to be read, if there is one; the
        driver relies on the device to name the head of one. */
    method GetBuf(ghost c: seq<nat>) returns (r: Option<Token>, len: nat)
      requires Valid()
      requires NextUsed(View()).Some? ==> IsChain(desc[..], c) && c[0] == Mod16(NextUsed(View()).value.id)
      modifies desc, opaques, `numUnused, `firstUnused, `lastUsed, `usedEvent
      ensures NextUsed(old(View())).None? ==> r.None? && Shows(old(View()))
      ensures NextUsed(old(View())).Some? ==>
        && r == old(View()).opaques[c[0]] && len == NextUsed(old(View())).value.len
        && Shows(GetSpec(old(View()), c))
    {
      if lastUsed == usedIdx {
        return None, 0;
      }
      var e := usedRing[Slot(lastUsed, usedRing.Length)];
      len := e.len;
      var idx := Mod16(e.id);
      r := opaques[idx];
      PutUnusedDescChain(idx, c);
      lastUsed := Mod16(lastUsed + 1);
      if eventSuppression && !noInterrupt {
        usedEvent := lastUsed;
      }
    }

    /** virtqueue_detach_unused_buf_split: detaches the buffer with the lowest head; c is its chain. */
    method DetachUnusedBuf(ghost c: seq<nat>) returns (r: Option<Token>)
      requires Valid() && (c == [] ==> forall s :: 0 <= s < opaques.Length ==> opaques[s].None?)
      requires c != [] ==> IsChain(desc[..], c) && c[0] < opaques.Length && opaques[c[0]].Some?
      requires c != [] ==> forall s :: 0 <= s < c[0] ==> opaques[..][s].None?
      modifies desc, opaques, `numUnused, `firstUnused, `masterIdx, `availIdx
      ensures c == [] ==> r.None? && Shows(old(View()))
      ensures c != [] ==> r.Some? && r == old(View()).opaques[c[0]] && Shows(DetachSpec(old(View()), c))
    {
      hide IsChain;
      for i := 0 to opaques.Length
        invariant Shows(old(View())) && (c != [] ==> i <= c[0])
      {
        r := opaques[i];
        if r.Some? {
          assert c != [] && i == c[0];
          PutUnusedDescChain(i, c);
          masterIdx := Mod16(masterIdx - 1);
          availIdx := masterIdx;
          return;
        }
      }
      r := None;
    }

    /** virtqueue_disable_cb_split. */
    method DisableCb()
      modifies `noInterrupt, `availNoInterrupt
      ensures Shows(DisableSpec(old(View())))
      ensures noInterrupt && (!eventSuppression && old(availNoInterrupt) == old(noInterrupt) ==> availNoInterrupt)
    {
      if !noInterrupt {
        noInterrupt := true;
        if !eventSuppression {
          availNoInterrupt := noInterrupt;
        }
      }
    }

    /** virtqueue_enable_cb_split, with nothing happening between its steps. */
    method EnableCb() returns (quiet: bool, ghost between: Split)
      requires Valid()
      modifies `noInterrupt, `availNoInterrupt, `usedEvent
      ensures between == EnableFlag(old(View())) && Shows(EnableEvent(between))
      ensures quiet <==> NextUsed(old(View())).None?
    {
      if noInterrupt {
        noInterrupt := false;
        if !eventSuppression {
          availNoInterrupt := noInterrupt;
        }
      }
      between := View();
      usedEvent := lastUsed;
      quiet := lastUsed == usedIdx;
    }

    /** virtqueue_kick_prepare_split. */
    method KickPrepare() returns (kick: bool)
      modifies `numAdded
      ensures Shows(KickSpec(old(View())).0) && kick == KickSpec(old(View())).1
      ensures numAdded == 0 && (!eventSuppression ==> (kick <==> !usedNoNotify))
    {
      var wrapAround := numAdded >= U16;
      var from, to := Mod16(masterIdx - numAdded), masterIdx;
      numAdded := 0;
      if eventSuppression {
        kick := wrapAround || NeedEvent(availEvent, to, from);
      } else {
        kick := !usedNoNotify;
      }
    }

    /** vring_new_virtqueue_split over zeroed ring memory, num having passed the power-of-two test. */
    constructor (num: nat, eventSuppression: bool)
      requires 1 <= num <= 0x8000 && Slot(U16, num) == 0
      ensures Valid() && Shows(InitSpec(num, eventSuppression))
      ensures fresh(desc) && fresh(availRing) && fresh(usedRing) && fresh(opaques)
    {
      this.eventSuppression := eventSuppression;
      desc := new Desc[num](_ => Desc(0, 0, Flags(false, false, false), 0));
      availRing := new nat[num](_ => 0);
      usedRing := new UsedElem[num](_ => UsedElem(0, 0));
      opaques := new Option<Token>[num](_ => None);
      availIdx, usedEvent, usedIdx, availEvent := 0, 0, 0, 0;
      availNoInterrupt, usedNoNotify, noInterrupt := false, false, false;
      masterIdx, numAdded, firstUnused, lastUsed := 0, 0, 0, 0;
      numUnused := num;
      new;
      LinkAll();
    }

    method LinkAll()
      requires desc.Length > 0
      requires forall s :: 0 <= s < desc.Length ==> desc[s] == Desc(0, 0, Flags(false, false, false), 0)
      modifies desc
      ensures desc[..] == InitSpec(desc.Length, eventSuppression).desc
    {
      for i := 0 to desc.Length - 1
        invariant forall s :: 0 <= s < desc.Length ==>
          desc[s] == Desc(0, 0, Flags(s < i, false, false), if s < i then s + 1 else 0)
      {
        desc[i] := desc[i].(flags := Flags(true, false, false));
        desc[i] := desc[i].(next := i + 1);
      }
    }
  }
}
