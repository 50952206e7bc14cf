/** What each operation of the split virtqueue of VirtIORing.c does to the driver's state, as functions
    of the state before (section 2.6 of VIRTIO 1.1). */
module SplitSpec {
  import opened Queues
  import opened Rings
  import opened DescriptorPool
  import opened EventIndex

  datatype Flags = Flags(next: bool, write: bool, indirect: bool)

  datatype Desc = Desc(addr: nat, len: nat, flags: Flags, next: nat)

  datatype UsedElem = UsedElem(id: nat, len: nat)

  const DESC_SIZE: nat := 16

  /** The fields of virtqueue_split, its arrays and the shared rings.  noInterrupt is
      VIRTQ_AVAIL_F_NO_INTERRUPT in the master copy of the flags, availNoInterrupt in the shared one. */
  datatype Split = Split(
    eventSuppression: bool,
    desc: seq<Desc>, availRing: seq<nat>, usedRing: seq<UsedElem>, opaques: seq<Option<Token>>,
    availIdx: nat, availNoInterrupt: bool, usedEvent: nat,
    usedIdx: nat, usedNoNotify: bool, availEvent: nat,
    masterIdx: nat, noInterrupt: bool,
    numUnused: nat, numAdded: nat, firstUnused: nat, lastUsed: nat)

  /** Lengths agree, the queue size divides 2^16, and every index the driver follows is in range. */
  ghost predicate InRange(v: Split) {
    var n := |v.desc|;
    && 0 < n <= 0x8000 && Slot(U16, n) == 0
    && |v.availRing| == |v.usedRing| == |v.opaques| == n
    && v.firstUnused < n && v.numUnused <= n
    && v.availIdx == v.masterIdx < U16 && v.usedIdx < U16 && v.lastUsed < U16
    && forall s :: 0 <= s < n ==> v.desc[s].next < n
  }

  /** A size that passes the driver's power-of-two test divides 2^16, so that masking a 16-bit index
      with num - 1 - DESC_INDEX, here Slot - picks the same entry as the unbounded index mod num. */
  lemma PowerOfTwoDivides(num: bv16)
    requires num != 0 && num & (num - 1) == 0
    ensures Slot(U16, num as int) == 0
  {
    assert 0x1_0000 % (num as int) == 0;
    SlotIsMod(U16, num as int);
  }

  /** Masking the 16-bit index picks the slot of the unbounded one. */
  lemma IndexSlot(count: nat, n: nat)
    requires n > 0 && Slot(U16, n) == 0
    ensures Slot(Mod16(count), n) == Slot(count, n)
  {
    SlotIsMod(count, U16);
    NestedSlots(count, U16, n);
  }

  function Nexts(desc: seq<Desc>): (r: seq<nat>)
    ensures |r| == |desc|
  {
    seq(|desc|, i requires 0 <= i < |desc| => desc[i].next)
  }

  /** The descriptor reached from h by following next k times. */
  function Hop(desc: seq<Desc>, h: nat, k: nat): (r: nat)
    requires h < |desc| && forall s :: 0 <= s < |desc| ==> desc[s].next < |desc|
    ensures r < |desc|
  {
    if k == 0 then h else desc[Hop(desc, h, k - 1)].next
  }

  function Hops(desc: seq<Desc>, h: nat, k: nat): (r: seq<nat>)
    requires h < |desc| && forall s :: 0 <= s < |desc| ==> desc[s].next < |desc|
    ensures |r| == k
  {
    seq(k, i requires 0 <= i < k => Hop(desc, h, i))
  }

  ghost predicate Shaped(b: Buf) {
    && b.sg != [] && b.out <= |b.sg|
    && (b.table.Some? ==> |b.slots| == 1 < |b.sg|)
    && (b.table.None? ==> |b.slots| == |b.sg|)
  }

  /** The i-th descriptor of a direct chain, linked on to `next`. */
  function Part(b: Buf, i: nat, more: bool, next: nat): Desc
    requires i < |b.sg|
  {
    Desc(b.sg[i].addr, b.sg[i].len, Flags(more, i >= b.out, false), next)
  }

  /** The descriptor table after k descriptors of the direct chain b were filled, all with NEXT set. */
  function Filled(desc: seq<Desc>, b: Buf, k: nat): (r: seq<Desc>)
    requires Shaped(b) && b.table.None? && k <= |b.slots|
    requires forall i :: 0 <= i < |b.slots| ==> b.slots[i] < |desc|
    ensures |r| == |desc| && forall s :: 0 <= s < |desc| ==> r[s].next == desc[s].next
  {
    if k == 0 then desc
    else Filled(desc, b, k - 1)[b.slots[k - 1] := Part(b, k - 1, true, desc[b.slots[k - 1]].next)]
  }

  /** The table with buffer b in it: its chain, or the one descriptor that names its indirect table. */
  function WithChain(desc: seq<Desc>, b: Buf): (r: seq<Desc>)
    requires Shaped(b) && forall i :: 0 <= i < |b.slots| ==> b.slots[i] < |desc|
    ensures |r| == |desc| && forall s :: 0 <= s < |desc| ==> r[s].next == desc[s].next
  {
    if b.table.Some? then
      var id := b.slots[0];
      desc[id := Desc(b.table.value, |b.sg| * DESC_SIZE, Flags(false, false, true), desc[id].next)]
    else
      var d, last := Filled(desc, b, |b.slots|), b.slots[|b.slots| - 1];
      d[last := d[last].(flags := d[last].flags.(next := false))]
  }

  lemma {:induction false} FilledAt(desc: seq<Desc>, b: Buf, k: nat)
    requires Shaped(b) && b.table.None? && k <= |b.slots| && Distinct(b.slots)
    requires forall i :: 0 <= i < |b.slots| ==> b.slots[i] < |desc|
    ensures forall i {:trigger b.slots[i]} :: 0 <= i < k ==>
      Filled(desc, b, k)[b.slots[i]] == Part(b, i, true, desc[b.slots[i]].next)
    ensures forall s :: 0 <= s < |desc| && s !in b.slots ==> Filled(desc, b, k)[s] == desc[s]
  {
    if k > 0 { FilledAt(desc, b, k - 1); }
  }

  /** d is the table d0 after a direct chain of the elements sg was put in the free list from `first` on: element
      i stands in the i-th descriptor of that list, WRITE is set from `out` on and NEXT in all but the last, which
      is how the device finds its way.  No other descriptor is touched. */
  ghost predicate ChainStands(d0: seq<Desc>, d: seq<Desc>, first: nat, sg: seq<Sg>, out: nat)
    requires first < |d0| && forall s :: 0 <= s < |d0| ==> d0[s].next < |d0|
  {
    && |d| == |d0|
    && (forall i {:trigger Hop(d0, first, i)} :: 0 <= i < |sg| ==>
          d[Hop(d0, first, i)]
          == Desc(sg[i].addr, sg[i].len, Flags(i + 1 < |sg|, i >= out, false), d0[Hop(d0, first, i)].next))
    && forall s :: 0 <= s < |d| && s !in Hops(d0, first, |sg|) ==> d[s] == d0[s]
  }

  lemma ChainThatWasFilledStands(d0: seq<Desc>, first: nat, b: Buf)
    requires first < |d0| && forall s :: 0 <= s < |d0| ==> d0[s].next < |d0|
    requires Shaped(b) && b.table.None? && b.slots == Hops(d0, first, |b.sg|) && Distinct(b.slots)
    ensures (forall i :: 0 <= i < |b.slots| ==> b.slots[i] < |d0|)
    ensures ChainStands(d0, WithChain(d0, b), first, b.sg, b.out)
  {
    hide Hop, Filled;
    FilledAt(d0, b, |b.slots|);
    assert b.slots[|b.slots| - 1] in b.slots;
    forall i | 0 <= i < |b.sg|
      ensures WithChain(d0, b)[Hop(d0, first, i)]
        == Desc(b.sg[i].addr, b.sg[i].len, Flags(i + 1 < |b.sg|, i >= b.out, false), d0[Hop(d0, first, i)].next)
    {
      assert b.slots[i] == Hop(d0, first, i);
    }
  }

  /** The buffer that add_buf makes of its arguments; an indirect page serves only two parts or more. */
  function BufOf(v: Split, sg: seq<Sg>, out: nat, token: Token, table: Option<nat>): Buf
    requires InRange(v)
  {
    var indirect := table.Some? && |sg| > 1 && v.numUnused > 0;
    Buf(Hops(v.desc, v.firstUnused, if indirect then 1 else |sg|), token, sg, out, if indirect then table else None)
  }

  /** An indirect table linked through `next` from its first entry on, NEXT clear only in the last. */
  ghost predicate TableHolds(table: seq<Desc>, sg: seq<Sg>, out: nat) {
    && |sg| <= |table|
    && forall i :: 0 <= i < |sg| ==>
         table[i] == Desc(sg[i].addr, sg[i].len, Flags(i + 1 < |sg|, i >= out, false), i + 1)
  }

  /** A successful add_buf: the chain is filled and its head is put in the next avail entry. */
  function AddSpec(v: Split, b: Buf): Split
    requires InRange(v) && Shaped(b) && |b.slots| <= v.numUnused
    requires forall i :: 0 <= i < |b.slots| ==> b.slots[i] < |v.desc|
  {
    var idx := Mod16(v.masterIdx + 1);
    v.(desc := WithChain(v.desc, b), opaques := v.opaques[b.slots[0] := Some(b.token)],
       firstUnused := Hop(v.desc, v.firstUnused, |b.slots|), numUnused := v.numUnused - |b.slots|,
       availRing := v.availRing[Slot(v.masterIdx, |v.desc|) := b.slots[0]],
       masterIdx := idx, availIdx := idx, numAdded := v.numAdded + 1)
  }

  /** c is the chain that starts at its first element: NEXT is set and leads on, up to its last. */
  ghost predicate IsChain(desc: seq<Desc>, c: seq<nat>) {
    && c != [] && (forall i :: 0 <= i < |c| ==> c[i] < |desc|)
    && !desc[c[|c| - 1]].flags.next
    && forall i {:trigger desc[c[i]].next} :: 0 <= i < |c| - 1 ==> desc[c[i]].flags.next && desc[c[i]].next == c[i + 1]
  }

  /** put_unused_desc_chain: the chain c goes to the front of the free list. */
  function PutSpec(v: Split, c: seq<nat>): Split
    requires c != [] && c[0] < |v.opaques| && c[|c| - 1] < |v.desc|
  {
    var last := c[|c| - 1];
    v.(opaques := v.opaques[c[0] := None],
       desc := v.desc[last := v.desc[last].(flags := Flags(true, false, false), next := v.firstUnused)],
       numUnused := v.numUnused + |c|, firstUnused := c[0])
  }

  /** What get_buf looks up: the head and length in the used entry it reads next, if there is one. */
  function NextUsed(v: Split): Option<UsedElem>
    requires InRange(v)
  {
    if v.lastUsed == v.usedIdx then None else Some(v.usedRing[Slot(v.lastUsed, |v.desc|)])
  }

  /** get_buf once a used entry is there, c being the chain it names. */
  function GetSpec(v: Split, c: seq<nat>): Split
    requires c != [] && c[0] < |v.opaques| && c[|c| - 1] < |v.desc|
  {
    var w := PutSpec(v, c).(lastUsed := Mod16(v.lastUsed + 1));
    if v.eventSuppression && !v.noInterrupt then w.(usedEvent := w.lastUsed) else w
  }

  /** detach_unused_buf, c being the chain of the lowest head: the avail index steps back. */
  function DetachSpec(v: Split, c: seq<nat>): Split
    requires c != [] && c[0] < |v.opaques| && c[|c| - 1] < |v.desc|
  {
    var idx := Mod16(v.masterIdx - 1);
    PutSpec(v, c).(masterIdx := idx, availIdx := idx)
  }

  function KickSpec(v: Split): (Split, bool) {
    (v.(numAdded := 0),
     if v.eventSuppression then SplitKick(v.availEvent, v.masterIdx, v.numAdded) else !v.usedNoNotify)
  }

  function DisableSpec(v: Split): Split {
    if v.noInterrupt then v
    else v.(noInterrupt := true, availNoInterrupt := if v.eventSuppression then v.availNoInterrupt else true)
  }

  /** The first store of enable_cb: the flag, if interrupts were disabled; with event suppression only
      in the driver's own copy. */
  function EnableFlag(v: Split): Split {
    if v.noInterrupt
    then v.(noInterrupt := false, availNoInterrupt := if v.eventSuppression then v.availNoInterrupt else false)
    else v
  }

  /** The second: the event index. */
  function EnableEvent(v: Split): Split {
    v.(usedEvent := v.lastUsed)
  }

  /** enable_cb up to its final test. */
  function EnableSpec(v: Split): Split {
    EnableEvent(EnableFlag(v))
  }

  /** A new queue over zeroed ring memory. */
  function InitSpec(n: nat, eventSuppression: bool): Split {
    Split(eventSuppression,
          seq(n, i requires 0 <= i < n => if i + 1 < n then Desc(0, 0, Flags(true, false, false), i + 1)
                                          else Desc(0, 0, Flags(false, false, false), 0)),
          seq(n, _ => 0), seq(n, _ => UsedElem(0, 0)), seq(n, _ => None),
          0, false, 0, 0, false, 0, 0, false, n, 0, 0, 0)
  }
}
