/** The packed virtqueue of VirtIORing-Packed.c, updated in place: every operation does to the fields
    what its specification in PackedSpec says, one shared store at a time where a device may look. */
module PackedQueue {
  import opened Queues
  import opened Rings
  import opened DescriptorPool
  import opened PackedProtocol
  import opened PackedSpec
  import opened EventIndex

  /** The ring after n of the descriptors ds were written from slot head on, the flags of the first
      held back. */
  function HeldBack(mem: seq<Desc>, head: nat, ds: seq<Desc>, n: nat): (r: seq<Desc>)
    requires head < |mem| && n <= |ds| <= |mem|
    ensures |r| == |mem|
  {
    var w := Overwrite(mem, head, ds[..n]);
    if n == 0 then w else w[head := w[head].(flags := mem[head].flags)]
  }

  lemma HeldBackNext(mem: seq<Desc>, head: nat, ds: seq<Desc>, n: nat)
    requires head < |mem| && n < |ds| <= |mem|
    ensures var i := Forward(head, n, |mem|);
      && HeldBack(mem, head, ds, 0) == mem
      && HeldBack(mem, head, ds, n + 1)
         == HeldBack(mem, head, ds, n)[i := if n == 0 then ds[0].(flags := mem[head].flags) else ds[n]]
      && (n == 0 || i != head)
      && HeldBack(mem, head, ds, n)[i].flags == (if n == 0 then mem[head].flags else mem[i].flags)
      && HeldBack(mem, head, ds, |ds|)[head := ds[0]] == Overwrite(mem, head, ds)
  {
    OverwriteNext(mem, head, ds, n);
    OverwriteAt(mem, head, ds[..n], n);
    OverwriteAt(mem, head, ds, 0);
    OverwriteAt(mem, head, ds[..1], 0);
    assert ds[..|ds|] == ds;
  }

  lemma DirectParts(b: Buf, head: nat, lap: bool, n: nat)
    requires Shaped(b) && b.table.None?
    ensures forall i :: 0 <= i < |b.sg| ==>
      var l := if head + i < n then lap else !lap;
      Written(b, head, lap, n)[i]
        == Desc(b.sg[i].addr, b.sg[i].len, b.slots[0], Flags(i != |b.sg| - 1, i >= b.out, false, l, !l))
  {
    forall i | 0 <= i < |b.sg|
      ensures var l := if head + i < n then lap else !lap;
        Written(b, head, lap, n)[i]
          == Desc(b.sg[i].addr, b.sg[i].len, b.slots[0], Flags(i != |b.sg| - 1, i >= b.out, false, l, !l))
    {
      assert Written(b, head, lap, n)[i] == Part(b, i, if head + i < n then lap else !lap);
    }
  }

  /** m is the ring m0 after a direct chain of the elements sg was put in from slot head on, under this id:
      element i stands in the i-th slot from there, WRITE is set from `out` on and NEXT in all but the last,
      AVAIL and USED are those of the lap the slot is in.  No other slot is touched. */
  ghost predicate ChainStands(m0: seq<Desc>, m: seq<Desc>, head: nat, id: nat, sg: seq<Sg>, out: nat, lap: bool) {
    && head < |m0| == |m| && |sg| <= |m|
    && (forall i :: 0 <= i < |sg| ==>
          var d, l := m[Forward(head, i, |m|)], if head + i < |m| then lap else !lap;
          && d.addr == sg[i].addr && d.len == sg[i].len && d.id == id
          && d.flags == Flags(i + 1 < |sg|, i >= out, false, l, !l))
    && forall s :: 0 <= s < |m| && Offset(s, head, |m|) >= |sg| ==> m[s] == m0[s]
  }

  lemma WrittenChainStands(m0: seq<Desc>, head: nat, b: Buf, lap: bool)
    requires head < |m0| && Shaped(b) && b.table.None? && |b.sg| <= |m0|
    ensures ChainStands(m0, Overwrite(m0, head, Written(b, head, lap, |m0|)), head, b.slots[0], b.sg, b.out, lap)
  {
    var ds := Written(b, head, lap, |m0|);
    DirectParts(b, head, lap, |m0|);
    forall i | 0 <= i < |b.sg| ensures Overwrite(m0, head, ds)[Forward(head, i, |m0|)] == ds[i] {
      OverwriteAt(m0, head, ds, i);
    }
  }

  /** One store to one field of one descriptor. */
  ghost predicate OneStore(a: seq<Desc>, b: seq<Desc>) {
    && |a| == |b|
    && exists s :: 0 <= s < |a| && b == a[s := b[s]] && OneField(a[s], b[s])
  }

  predicate OneField(d: Desc, e: Desc) {
    e == d.(addr := e.addr) || e == d.(len := e.len) || e == d.(id := e.id) || e == d.(flags := e.flags)
  }

  /** The memories m0, ..., mk of a run of single stores. */
  ghost predicate StoreByStore(trace: seq<seq<Desc>>) {
    trace != [] && forall k :: 0 < k < |trace| ==> OneStore(trace[k - 1], trace[k])
  }

  /** trace is a run of single stores from m0, of which only the last publishes anything. */
  ghost predicate Published(trace: seq<seq<Desc>>, m0: seq<Desc>, head: nat, k: nat) {
    && StoreByStore(trace) && trace[0] == m0
    && forall i :: 0 <= i < |trace| - 1 ==> Unpublished(trace[i], m0, head, k)
  }

  lemma FirstOfTrace(mem: seq<Desc>, head: nat, k: nat)
    requires head < |mem|
    ensures StoreByStore([mem]) && forall t :: t in [mem] ==> Unpublished(t, mem, head, k)
  {
  }

  class PackedVirtqueue {
    const eventSuppression: bool
    /** The shared ring. */
    const desc: array<Desc>
    const state: array<State>

    var numAdded: nat
    var freeHead: nat
    var numFree: nat
    var lastUsedIdx: nat
    var availFlag: bool
    var usedFlag: bool
    var availWrapCounter: bool
    var usedWrapCounter: bool
    var nextAvailIdx: nat
    var eventFlagsShadow: nat
    /** The shared event structures. */
    var driverOffWrap: nat
    var driverFlags: nat
    var deviceOffWrap: nat
    var deviceFlags: nat

    ghost function View(): Packed
      reads this, desc, state
    {
      Packed(eventSuppression, desc[..], state[..], numAdded, freeHead, numFree, lastUsedIdx, availFlag, usedFlag,
             availWrapCounter, usedWrapCounter, nextAvailIdx, eventFlagsShadow,
             driverOffWrap, driverFlags, deviceOffWrap, deviceFlags)
    }

    /** The fields are those of w. */
    ghost predicate Shows(w: Packed)
      reads this, desc, state
    {
      && eventSuppression == w.eventSuppression && desc[..] == w.desc && state[..] == w.state
      && numAdded == w.numAdded && freeHead == w.freeHead && numFree == w.numFree
      && lastUsedIdx == w.lastUsedIdx && availFlag == w.availFlag && usedFlag == w.usedFlag
      && availWrapCounter == w.availWrapCounter && usedWrapCounter == w.usedWrapCounter
      && nextAvailIdx == w.nextAvailIdx && eventFlagsShadow == w.eventFlagsShadow
      && driverOffWrap == w.driverOffWrap && driverFlags == w.driverFlags
      && deviceOffWrap == w.deviceOffWrap && deviceFlags == w.deviceFlags
    }

    ghost predicate Valid()
      reads this, desc, state
    {
      InRange(View())
    }

    method Store(i: nat, d: Desc, ghost trace: seq<seq<Desc>>) returns (ghost trace': seq<seq<Desc>>)
      requires i < desc.Length && OneField(desc[i], d)
      requires StoreByStore(trace) && trace[|trace| - 1] == desc[..]
      modifies desc
      ensures desc[..] == old(desc[..])[i := d]
      ensures trace' == trace + [desc[..]] && StoreByStore(trace')
    {
      desc[i] := d;
      trace' := trace + [desc[..]];
      assert OneStore(old(desc[..]), desc[..]) by {
        assert desc[..] == old(desc[..])[i := desc[..][i]];
      }
    }

    /** Fills the descriptor in slot i, field by field, its flags only when it is not the head. */
    method Fill(i: nat, d: Desc, first: bool, ghost head: nat, ghost k: nat, ghost trace: seq<seq<Desc>>)
      returns (ghost trace': seq<seq<Desc>>)
      requires i < desc.Length && head < desc.Length && Offset(i, head, desc.Length) < k && first == (i == head)
      requires StoreByStore(trace) && trace[|trace| - 1] == desc[..]
      requires forall t :: t in trace ==> Unpublished(t, trace[0], head, k)
      modifies desc
      ensures desc[..] == old(desc[..])[i := if first then d.(flags := old(desc[i]).flags) else d]
      ensures StoreByStore(trace') && trace' != [] && trace'[0] == trace[0] && trace'[|trace'| - 1] == desc[..]
      ensures forall t :: t in trace' ==> Unpublished(t, trace[0], head, k)
    {
      assert trace[|trace| - 1] in trace && Unpublished(desc[..], trace[0], head, k);
      trace' := Store(i, desc[i].(addr := d.addr), trace);
      trace' := Store(i, desc[i].(len := d.len), trace');
      trace' := Store(i, desc[i].(id := d.id), trace');
      if !first {
        trace' := Store(i, desc[i].(flags := d.flags), trace');
      }
    }

    /** The loop of the direct branch of add_buf: writes the descriptors ds of the buffer from slot head
        on, all but the flags of the first. */
    method WriteChain(head: nat, id: nat, sg: seq<Sg>, out: nat, ghost ds: seq<Desc>)
      returns (i: nat, curr: nat, prev: nat, headFlags: Flags, ghost trace: seq<seq<Desc>>)
      requires desc.Length == state.Length && head < desc.Length && id < desc.Length && usedFlag == !availFlag
      requires 1 <= |sg| == |ds| <= desc.Length
      requires forall n :: 0 <= n < |ds| ==>
        var lap := if head + n < desc.Length then availFlag else !availFlag;
        ds[n] == Desc(sg[n].addr, sg[n].len, id, Flags(n != |sg| - 1, n >= out, false, lap, !lap))
      requires forall s :: 0 <= s < state.Length ==> state[..][s].next < state.Length
      modifies desc, this`availFlag, this`usedFlag
      ensures i == Forward(head, |sg|, desc.Length) && usedFlag == !availFlag
      ensures availFlag == (old(availFlag) != (head + |sg| >= desc.Length))
      ensures prev == Hop(state[..], id, |sg| - 1) && curr == Hop(state[..], id, |sg|)
      ensures headFlags == ds[0].flags && desc[..] == HeldBack(old(desc[..]), head, ds, |ds|)
      ensures trace != [] && StoreByStore(trace) && trace[0] == old(desc[..]) && trace[|trace| - 1] == desc[..]
      ensures forall t :: t in trace ==> Unpublished(t, old(desc[..]), head, |sg|)
    {
      hide StoreByStore, HeldBack, Unpublished;
      ghost var mem0, st0, lap := desc[..], state[..], availFlag;
      trace := [mem0];
      i, curr, prev, headFlags := head, id, id, Flags(false, false, false, false, false);
      var n := 0;
      FirstOfTrace(mem0, head, |sg|);
      HeldBackNext(mem0, head, ds, 0);
      while n < |sg|
        invariant 0 <= n <= |sg| && i == Forward(head, n, desc.Length) && state[..] == st0
        invariant availFlag == (lap != (head + n >= desc.Length)) && usedFlag == !availFlag
        invariant curr == Hop(st0, id, n) && (n > 0 ==> prev == Hop(st0, id, n - 1))
        invariant n > 0 ==> headFlags == ds[0].flags
        invariant desc[..] == HeldBack(mem0, head, ds, n)
        invariant trace != [] && StoreByStore(trace) && trace[0] == mem0 && trace[|trace| - 1] == desc[..]
        invariant forall t :: t in trace ==> Unpublished(t, mem0, head, |sg|)
      {
        var flags := Flags(n != |sg| - 1, n >= out, false, availFlag, usedFlag);
        HeldBackNext(mem0, head, ds, n);
        trace := Fill(i, Desc(sg[n].addr, sg[n].len, id, flags), n == 0, head, |sg|, trace);
        if n == 0 {
          headFlags := flags;
        }
        prev := curr;
        assert state[curr] == st0[curr];
        curr := state[curr].next;
        n := n + 1;
        i := i + 1;
        if i >= desc.Length {
          i := 0;
          availFlag, usedFlag := !availFlag, !usedFlag;
        }
      }
    }

    /** The end of the direct branch: the publishing store, of the flags held back. */
    method PublishHead(head: nat, flags: Flags, k: nat, ghost mem0: seq<Desc>, ghost ds: seq<Desc>,
                       ghost trace: seq<seq<Desc>>)
      returns (ghost trace': seq<seq<Desc>>)
      requires head < desc.Length == |mem0| && 1 <= |ds| <= |mem0| && flags == ds[0].flags
      requires desc[..] == HeldBack(mem0, head, ds, |ds|)
      requires StoreByStore(trace) && trace[0] == mem0 && trace[|trace| - 1] == desc[..]
      requires forall t :: t in trace ==> Unpublished(t, mem0, head, |ds|)
      modifies desc, `numAdded
      ensures desc[..] == Overwrite(mem0, head, ds) && numAdded == old(numAdded) + k
      ensures Published(trace', mem0, head, |ds|) && trace'[|trace'| - 1] == desc[..]
    {
      HeldBackNext(mem0, head, ds, 0);
      trace' := Store(head, desc[head].(flags := flags), trace);
      assert forall i :: 0 <= i < |trace| ==> trace'[i] == trace[i] && trace[i] in trace;
      numAdded := numAdded + k;
    }

    /** The bookkeeping of the direct branch before the publishing store. */
    method AccountDirect(head: nat, id: nat, k: nat, i: nat, curr: nat, prev: nat, token: Token)
      requires id < state.Length && k <= numFree
      modifies state, `availWrapCounter, `numFree, `nextAvailIdx, `freeHead
      ensures availWrapCounter == (old(availWrapCounter) != (i < head))
      ensures numFree == old(numFree) - k && nextAvailIdx == i && freeHead == curr
      ensures state[..] == old(state[..])[id := State(Some(token), k, old(state[..])[id].next, prev)]
    {
      if i < head {
        availWrapCounter := !availWrapCounter;
      }
      numFree := numFree - k;
      nextAvailIdx := i;
      freeHead := curr;
      state[id] := State(Some(token), k, state[id].next, prev);
    }

    /** virtqueue_add_buf_packed, the direct branch, for the buffer b whose chain starts the free list. */
    method AddDirect(sg: seq<Sg>, out: nat, token: Token, ghost b: Buf) returns (ghost trace: seq<seq<Desc>>)
      requires Valid() && |sg| <= numFree && Shaped(b)
      requires b.sg == sg && b.out == out && b.token == token && b.table.None?
      requires b.slots[0] == freeHead && b.slots[|sg| - 1] == Hop(state[..], freeHead, |sg| - 1)
      modifies desc, state
      modifies `availFlag, `usedFlag, `availWrapCounter, `numFree, `nextAvailIdx, `freeHead, `numAdded
      ensures desc[..] == Overwrite(old(desc[..]), old(nextAvailIdx),
                                    Written(b, old(nextAvailIdx), old(availFlag), desc.Length))
      ensures state[..] == WithRecord(old(state[..]), b) && freeHead == Hop(old(state[..]), old(freeHead), |b.slots|)
      ensures numFree == old(numFree) - |b.slots| && numAdded == old(numAdded) + |b.slots|
      ensures nextAvailIdx == Forward(old(nextAvailIdx), |b.slots|, desc.Length)
      ensures var wraps := old(nextAvailIdx) + |b.slots| >= desc.Length;
        && availFlag == (old(availFlag) != wraps) && usedFlag == (old(usedFlag) != wraps)
        && availWrapCounter == (old(availWrapCounter) != (nextAvailIdx < old(nextAvailIdx)))
      ensures Published(trace, old(desc[..]), old(nextAvailIdx), |sg|) && trace[|trace| - 1] == desc[..]
      ensures ChainStands(old(desc[..]), desc[..], old(nextAvailIdx), old(freeHead), sg, out, old(availFlag))
      ensures state[..][old(freeHead)].data == Some(token)
    {
      hide ChainStands, Published, Overwrite, Written, Part;
      var head, id := nextAvailIdx, freeHead;
      ghost var mem0, st0 := desc[..], state[..];
      ghost var ds := Written(b, head, availFlag, desc.Length);
      DirectParts(b, head, availFlag, desc.Length);
      WrittenChainStands(mem0, head, b, availFlag);
      var i, curr, prev, headFlags;
      i, curr, prev, headFlags, trace := WriteChain(head, id, sg, out, ds);
      AccountDirect(head, id, |sg|, i, curr, prev, token);
      assert state[..] == WithRecord(st0, b);
      trace := PublishHead(head, headFlags, |sg|, mem0, ds, trace);
    }

    method PublishOne(head: nat, d: Desc) returns (ghost trace: seq<seq<Desc>>)
      requires head < desc.Length
      modifies desc
      ensures desc[..] == old(desc[..])[head := d]
      ensures Published(trace, old(desc[..]), head, 1) && trace[|trace| - 1] == desc[..]
    {
      trace := [desc[..]];
      trace := Store(head, desc[head].(addr := d.addr), trace);
      trace := Store(head, desc[head].(len := d.len), trace);
      trace := Store(head, desc[head].(id := d.id), trace);
      trace := Store(head, desc[head].(flags := d.flags), trace);
    }

    method WriteTable(sg: seq<Sg>, out: nat, va: array<Desc>)
      requires |sg| <= va.Length
      modifies va
      ensures TableHolds(va[..], sg, out)
    {
      for i := 0 to |sg|
        invariant forall j :: 0 <= j < i ==>
          && va[j].addr == sg[j].addr && va[j].len == sg[j].len
          && va[j].flags == Flags(false, j >= out, false, false, false)
      {
        va[i] := va[i].(flags := Flags(false, i >= out, false, false, false), addr := sg[i].addr, len := sg[i].len);
      }
    }

    /** The bookkeeping of the indirect branch after its descriptor was published in slot head. */
    method AccountIndirect(head: nat, id: nat, token: Token)
      requires desc.Length == state.Length && head < desc.Length && id < desc.Length && numFree > 0
      modifies state
      modifies `availFlag, `usedFlag, `availWrapCounter, `numFree, `nextAvailIdx, `freeHead, `numAdded
      ensures nextAvailIdx == Forward(head, 1, desc.Length)
      ensures var wraps := head + 1 >= desc.Length;
        && availFlag == (old(availFlag) != wraps) && usedFlag == (old(usedFlag) != wraps)
        && availWrapCounter == (old(availWrapCounter) != wraps)
      ensures numFree == old(numFree) - 1 && numAdded == old(numAdded) + 1 && freeHead == old(state[..])[id].next
      ensures state[..] == old(state[..])[id := State(Some(token), 1, old(state[..])[id].next, id)]
    {
      var next := head + 1;
      if next >= desc.Length {
        next := 0;
        availWrapCounter := !availWrapCounter;
        availFlag, usedFlag := !availFlag, !usedFlag;
      }
      nextAvailIdx := next;
      numFree := numFree - 1;
      numAdded := numAdded + 1;
      freeHead := state[id].next;
      state[id] := State(Some(token), 1, state[id].next, id);
    }

    /** virtqueue_add_buf_packed, the indirect branch. */
    method AddIndirect(sg: seq<Sg>, out: nat, token: Token, va: array<Desc>, phys: nat, ghost b: Buf)
      returns (ghost trace: seq<seq<Desc>>)
      requires Valid() && numFree > 0 && va != desc && |sg| <= va.Length && Shaped(b)
      requires b.sg == sg && b.token == token && b.table == Some(phys) && b.slots[0] == freeHead
      modifies desc, state, va
      modifies `availFlag, `usedFlag, `availWrapCounter, `numFree, `nextAvailIdx, `freeHead, `numAdded
      ensures desc[..] == Overwrite(old(desc[..]), old(nextAvailIdx),
                                    Written(b, old(nextAvailIdx), old(availFlag), desc.Length))
      ensures state[..] == WithRecord(old(state[..]), b) && freeHead == Hop(old(state[..]), old(freeHead), |b.slots|)
      ensures numFree == old(numFree) - |b.slots| && numAdded == old(numAdded) + |b.slots|
      ensures nextAvailIdx == Forward(old(nextAvailIdx), |b.slots|, desc.Length)
      ensures var wraps := old(nextAvailIdx) + |b.slots| >= desc.Length;
        && availFlag == (old(availFlag) != wraps) && usedFlag == (old(usedFlag) != wraps)
        && availWrapCounter == (old(availWrapCounter) != wraps)
      ensures Published(trace, old(desc[..]), old(nextAvailIdx), 1) && trace[|trace| - 1] == desc[..]
      ensures desc[..] == old(desc[..])[old(nextAvailIdx) :=
        Desc(phys, |sg| * DESC_SIZE, old(freeHead), Flags(false, false, true, old(availFlag), !old(availFlag)))]
      ensures TableHolds(va[..], sg, out) && state[..][old(freeHead)].data == Some(token)
    {
      var head, id := nextAvailIdx, freeHead;
      assert Hop(state[..], id, 1) == state[..][id].next;
      WriteTable(sg, out, va);
      var d := Desc(phys, |sg| * DESC_SIZE, id, Flags(false, false, true, availFlag, usedFlag));
      ghost var ds := Written(b, head, availFlag, desc.Length);
      assert ds[0] == Part(b, 0, availFlag) == d;
      assert ds == [d];
      OverwriteOne(desc[..], head, d);
      trace := PublishOne(head, d);
      AccountIndirect(head, id, token);
    }

    /** The fields are those of v after b was added. */
    lemma IsAddSpec(v: Packed, b: Buf)
      requires InRange(v) && Shaped(b) && b.slots != [] && |b.slots| <= v.numFree && b.slots[0] < |v.desc|
      requires desc[..] == Overwrite(v.desc, v.nextAvailIdx, Written(b, v.nextAvailIdx, v.availFlag, |v.desc|))
      requires state[..] == WithRecord(v.state, b) && freeHead == Hop(v.state, v.freeHead, |b.slots|)
      requires numFree == v.numFree - |b.slots| && numAdded == v.numAdded + |b.slots|
      requires nextAvailIdx == Forward(v.nextAvailIdx, |b.slots|, |v.desc|)
      requires var wraps := v.nextAvailIdx + |b.slots| >= |v.desc|;
        && availFlag == (v.availFlag != wraps) && usedFlag == (v.usedFlag != wraps)
        && availWrapCounter
           == (v.availWrapCounter != if b.table.Some? then wraps else nextAvailIdx < v.nextAvailIdx)
      requires eventSuppression == v.eventSuppression && lastUsedIdx == v.lastUsedIdx
      requires usedWrapCounter == v.usedWrapCounter && eventFlagsShadow == v.eventFlagsShadow
      requires driverOffWrap == v.driverOffWrap && driverFlags == v.driverFlags
      requires deviceOffWrap == v.deviceOffWrap && deviceFlags == v.deviceFlags
      ensures Shows(AddSpec(v, b))
    {
    }

    /** virtqueue_add_buf_packed.  It succeeds iff the cost fits the free count.  On success trace shows
        the shared ring after each store: only the last one publishes the buffer. */
    method AddBuf(sg: seq<Sg>, out: nat, token: Token, va: array?<Desc>, phys: nat)
      returns (ok: bool, ghost trace: seq<seq<Desc>>)
      requires Valid() && 1 <= |sg| && out <= |sg|
      requires va != null ==> va != desc && |sg| <= va.Length
      modifies this, desc, state, if va == null then {} else {va}
      ensures ok <==> CostOf(|sg|, va != null, old(numFree)) <= old(numFree)
      ensures ok <==> (va != null && old(numFree) > 0) || |sg| <= old(numFree)
      ensures !ok ==> Shows(old(View()))
      ensures ok ==>
        var b := BufOf(old(View()), sg, out, token, if va != null then Some(phys) else None);
        && Shaped(b) && Shows(AddSpec(old(View()), b))
        && Published(trace, old(desc[..]), old(nextAvailIdx), |b.slots|) && trace[|trace| - 1] == desc[..]
      ensures ok ==> state[..][old(freeHead)].data == Some(token)
      ensures ok && (va == null || old(numFree) == 0) ==>
        ChainStands(old(desc[..]), desc[..], old(nextAvailIdx), old(freeHead), sg, out, old(availFlag))
      ensures ok && va != null && old(numFree) > 0 ==>
        && TableHolds(va[..], sg, out)
        && desc[..] == old(desc[..])[old(nextAvailIdx) :=
             Desc(phys, |sg| * DESC_SIZE, old(freeHead), Flags(false, false, true, old(availFlag), !old(availFlag)))]
    {
      hide Published, TableHolds, ChainStands, Overwrite, Written, WithRecord, Forward, AddSpec;
      trace := [];
      ghost var v := View();
      ghost var b := BufOf(View(), sg, out, token, if va != null then Some(phys) else None);
      if va != null && numFree > 0 {
        ok := true;
        trace := AddIndirect(sg, out, token, va, phys, b);
        IsAddSpec(v, b);
      } else if numFree < |sg| {
        ok := false;
      } else {
        ok := true;
        trace := AddDirect(sg, out, token, b);
        IsAddSpec(v, b);
      }
    }

    /** detach_buf_packed. */
    method DetachBuf(id: nat)
      requires Valid() && id < state.Length
      modifies state, `freeHead, `numFree
      ensures var w := DetachSpec(old(View()), id);
        state[..] == w.state && freeHead == w.freeHead && numFree == w.numFree
    {
      state[id] := state[id].(data := None);
      var last := state[id].last;
      state[last] := state[last].(next := freeHead);
      freeHead := id;
      numFree := numFree + state[id].num;
    }

    /** virtqueue_get_buf_packed. */
    method GetBuf() returns (r: Fetch)
      requires Valid()
      modifies state, `freeHead, `numFree, `lastUsedIdx, `usedWrapCounter, `driverOffWrap
      ensures r == GetResult(old(View()))
      ensures Shows(if r.Buffer? then GetSpec(old(View())) else old(View()))
    {
      hide IsUsed;
      var last := lastUsedIdx;
      if !IsUsed(desc[last], usedWrapCounter) {
        return Nothing;
      }
      var id, len := desc[last].id, desc[last].len;
      if id >= desc.Length || state[id].data.None? {
        return BadRing;
      }
      r := Buffer(state[id].data.value, len);
      DetachBuf(id);
      AdvanceRead(state[id].num);
    }

    method AdvanceRead(k: nat)
      requires lastUsedIdx < desc.Length && k <= desc.Length
      modifies `lastUsedIdx, `usedWrapCounter, `driverOffWrap
      ensures lastUsedIdx == Forward(old(lastUsedIdx), k, desc.Length)
      ensures usedWrapCounter == (old(usedWrapCounter) != (old(lastUsedIdx) + k >= desc.Length))
      ensures driverOffWrap
           == if eventFlagsShadow == DESC then OffWrap(lastUsedIdx, usedWrapCounter) else old(driverOffWrap)
    {
      lastUsedIdx := lastUsedIdx + k;
      if lastUsedIdx >= desc.Length {
        lastUsedIdx := lastUsedIdx - desc.Length;
        usedWrapCounter := !usedWrapCounter;
      }
      if eventFlagsShadow == DESC {
        driverOffWrap := OffWrap(lastUsedIdx, usedWrapCounter);
      }
    }

    /** virtqueue_detach_unused_buf_packed: detaches the buffer with the lowest head id. */
    method DetachUnusedBuf() returns (r: Option<Token>, ghost id: nat)
      requires Valid()
      modifies state, `freeHead, `numFree
      ensures r.None? ==> Shows(old(View())) && forall s :: 0 <= s < state.Length ==> state[s].data.None?
      ensures r.Some? ==>
        && id < state.Length && old(View()).state[id].data == r && Shows(DetachSpec(old(View()), id))
        && forall s :: 0 <= s < id ==> old(View()).state[s].data.None?
    {
      id := 0;
      for i := 0 to state.Length
        invariant state[..] == old(state[..]) && freeHead == old(freeHead) && numFree == old(numFree)
        invariant forall s :: 0 <= s < i ==> state[s].data.None?
      {
        if state[i].data.Some? {
          r, id := state[i].data, i;
          DetachBuf(i);
          return;
        }
      }
      r := None;
    }

    /** virtqueue_disable_cb_packed. */
    method DisableCb()
      modifies `eventFlagsShadow, `driverFlags
      ensures Shows(DisableSpec(old(View())))
      ensures eventFlagsShadow == DISABLE && (old(eventFlagsShadow) == old(driverFlags) ==> driverFlags == DISABLE)
    {
      if eventFlagsShadow != DISABLE {
        eventFlagsShadow := DISABLE;
        driverFlags := eventFlagsShadow;
      }
    }

    /** virtqueue_enable_cb_packed, with nothing happening between its steps: the event index goes out
        before the flags, and the answer is whether the next element to read is still not used. */
    method EnableCb() returns (quiet: bool, ghost between: Packed)
      requires Valid()
      modifies `driverOffWrap, `eventFlagsShadow, `driverFlags
      ensures between == EnableEvent(old(View())) && Shows(EnableFlags(between))
      ensures quiet <==> GetResult(old(View())).Nothing?
    {
      if eventSuppression {
        driverOffWrap := OffWrap(lastUsedIdx, usedWrapCounter);
      }
      between := View();
      if eventFlagsShadow == DISABLE {
        eventFlagsShadow := if eventSuppression then DESC else ENABLE;
        driverFlags := eventFlagsShadow;
      }
      var w := OffWrap(lastUsedIdx, usedWrapCounter);
      OffWrapRoundTrip(lastUsedIdx, usedWrapCounter);
      quiet := !IsUsed(desc[WordSlot(w)], WordWrap(w));
    }

    /** virtqueue_kick_prepare_packed. */
    method KickPrepare() returns (kick: bool)
      requires Valid()
      modifies `numAdded
      ensures Shows(KickSpec(old(View())).0) && kick == KickSpec(old(View())).1
      ensures numAdded == 0 && (deviceFlags == ENABLE ==> kick) && (deviceFlags == DISABLE ==> !kick)
    {
      var from, to := Mod16(nextAvailIdx - numAdded), nextAvailIdx;
      numAdded := 0;
      if deviceFlags != DESC {
        return deviceFlags != DISABLE;
      }
      var wrap, event := WordWrap(deviceOffWrap), WordSlot(deviceOffWrap) as int;
      if wrap != availWrapCounter {
        event := Mod16(event - desc.Length);
      }
      kick := NeedEvent(event, to, from);
    }

    /** vring_new_virtqueue_packed over zeroed ring memory. */
    constructor (num: nat, eventSuppression: bool)
      requires 1 <= num <= 0x8000
      ensures Valid() && Shows(InitSpec(num, eventSuppression))
      ensures fresh(desc) && fresh(state)
    {
      this.eventSuppression := eventSuppression;
      var zero := Desc(0, 0, 0, Flags(false, false, false, false, false));
      desc := new Desc[num](_ => zero);
      var st := new State[num](_ => State(None, 0, 0, 0));
      state := st;
      numFree, freeHead, numAdded := num, 0, 0;
      availWrapCounter, usedWrapCounter := true, true;
      lastUsedIdx, nextAvailIdx := 0, 0;
      availFlag, usedFlag := true, false;
      eventFlagsShadow := 0;
      driverOffWrap, driverFlags, deviceOffWrap, deviceFlags := 0, 0, 0, 0;
      new;
      LinkAll();
    }

    method LinkAll()
      requires forall s :: 0 <= s < state.Length ==> state[s] == State(None, 0, 0, 0)
      modifies state
      ensures forall s :: 0 <= s < state.Length ==>
        state[s] == State(None, 0, if s + 1 < state.Length then s + 1 else 0, 0)
    {
      for i := 0 to state.Length
        invariant forall s :: 0 <= s < state.Length ==>
          state[s] == State(None, 0, if s < i && s + 1 < state.Length then s + 1 else 0, 0)
      {
        if i < state.Length - 1 {
          state[i] := state[i].(next := i + 1);
        }
      }
    }
  }
}
