/** What each operation of the packed virtqueue of VirtIORing-Packed.c does to the driver's state, as
    functions of the state before. */
module PackedSpec {
  import opened Queues
  import opened Rings
  import opened DescriptorPool
  import opened PackedProtocol
  import opened EventIndex

  const ENABLE: nat := 0
  const DISABLE: nat := 1
  const DESC: nat := 2

  /** Per-descriptor driver state: token (NULL is None), length of the list, next and last. */
  datatype State = State(data: Option<Token>, num: nat, next: nat, last: nat)

  /** The fields of virtqueue_packed, its two arrays and the shared event structures. */
  datatype Packed = Packed(
    eventSuppression: bool,
    desc: seq<Desc>, state: seq<State>,
    numAdded: nat, freeHead: nat, numFree: nat,
    lastUsedIdx: nat, availFlag: bool, usedFlag: bool,
    availWrapCounter: bool, usedWrapCounter: bool, nextAvailIdx: nat, eventFlagsShadow: nat,
    driverOffWrap: nat, driverFlags: nat, deviceOffWrap: nat, deviceFlags: nat)

  /** Every index the driver follows is in range, so that no operation leaves its arrays. */
  ghost predicate InRange(v: Packed) {
    var n := |v.desc|;
    && 0 < n <= 0x8000 && |v.state| == n
    && v.nextAvailIdx < n && v.lastUsedIdx < n && v.freeHead < n && v.numFree <= n
    && v.usedFlag == !v.availFlag
    && forall s :: 0 <= s < n ==> v.state[s].next < n && v.state[s].last < n && v.state[s].num <= n
  }

  function Nexts(st: seq<State>): (r: seq<nat>)
    ensures |r| == |st|
  {
    seq(|st|, i requires 0 <= i < |st| => st[i].next)
  }

  /** The record reached from h by following next k times. */
  function Hop(st: seq<State>, h: nat, k: nat): nat
    requires h < |st| && forall s :: 0 <= s < |st| ==> st[s].next < |st|
    ensures Hop(st, h, k) < |st|
  {
    if k == 0 then h else st[Hop(st, h, k - 1)].next
  }

  function Hops(st: seq<State>, h: nat, k: nat): (r: seq<nat>)
    requires h < |st| && forall s :: 0 <= s < |st| ==> st[s].next < |st|
    ensures |r| == k
  {
    seq(k, i requires 0 <= i < k => Hop(st, h, i))
  }

  function WithRecord(st: seq<State>, b: Buf): seq<State>
    requires b.slots != [] && b.slots[0] < |st|
  {
    st[b.slots[0] := State(Some(b.token), |b.slots|, st[b.slots[0]].next, b.slots[|b.slots| - 1])]
  }

  /** The descriptors of b as add_buf writes them from slot head on, the flags flipping on a wrap. */
  function Written(b: Buf, head: nat, lap: bool, n: nat): (r: seq<Desc>)
    requires Shaped(b)
    ensures |r| == |b.slots|
  {
    seq(|b.slots|, i requires 0 <= i < |b.slots| => Part(b, i, if head + i < n then lap else !lap))
  }

  /** The buffer that add_buf makes of its arguments: its chain is the front of the free list. */
  function BufOf(v: Packed, sg: seq<Sg>, out: nat, token: Token, table: Option<nat>): Buf
    requires InRange(v)
  {
    var k := CostOf(|sg|, table.Some?, v.numFree);
    Buf(Hops(v.state, v.freeHead, k), token, sg, out, if v.numFree > 0 then table else None)
  }

  /** An indirect table: one entry per scatter element, in order, WRITE set from `out` on. */
  ghost predicate TableHolds(table: seq<Desc>, sg: seq<Sg>, out: nat) {
    && |sg| <= |table|
    && forall i :: 0 <= i < |sg| ==>
      && table[i].addr == sg[i].addr && table[i].len == sg[i].len
      && table[i].flags == Flags(false, i >= out, false, false, false)
  }

  /** A successful add_buf.  avail_wrap_counter flips when the head index wraps for one descriptor, but
      for a chain only if the index moved backwards. */
  function AddSpec(v: Packed, b: Buf): Packed
    requires InRange(v) && Shaped(b) && b.slots != [] && |b.slots| <= v.numFree && b.slots[0] < |v.desc|
  {
    var n, k, head := |v.desc|, |b.slots|, v.nextAvailIdx;
    var wraps := head + k >= n;
    var flips := if b.table.Some? then wraps else Forward(head, k, n) < head;
    v.(desc := Overwrite(v.desc, head, Written(b, head, v.availFlag, n)),
       state := WithRecord(v.state, b),
       freeHead := Hop(v.state, v.freeHead, k), numFree := v.numFree - k, numAdded := v.numAdded + k,
       nextAvailIdx := Forward(head, k, n),
       availFlag := v.availFlag != wraps, usedFlag := v.usedFlag != wraps,
       availWrapCounter := v.availWrapCounter != flips)
  }

  /** detach_buf_packed: the token is cleared and the chain goes to the front of the free list. */
  function Detached(st: seq<State>, id: nat, freeHead: nat): (r: seq<State>)
    requires id < |st| && st[id].last < |st|
    ensures |r| == |st|
  {
    var st1 := st[id := st[id].(data := None)];
    st1[st[id].last := st1[st[id].last].(next := freeHead)]
  }

  function DetachSpec(v: Packed, id: nat): Packed
    requires InRange(v) && id < |v.desc|
  {
    v.(state := Detached(v.state, id, v.freeHead), freeHead := id, numFree := v.numFree + v.state[id].num)
  }

  /** get_buf when the element at last_used_idx is used: the id's buffer is detached, the read index
      moves over its whole span, and with descriptor events on, the new index is published. */
  function GetSpec(v: Packed): Packed
    requires InRange(v) && v.desc[v.lastUsedIdx].id < |v.desc|
  {
    var n, id := |v.desc|, v.desc[v.lastUsedIdx].id;
    var k := v.state[id].num;
    var wraps := v.lastUsedIdx + k >= n;
    var last, wrap := Forward(v.lastUsedIdx, k, n), v.usedWrapCounter != wraps;
    var w := DetachSpec(v, id).(lastUsedIdx := last, usedWrapCounter := wrap);
    if v.eventFlagsShadow == DESC then w.(driverOffWrap := OffWrap(last, wrap)) else w
  }

  datatype Fetch = Nothing | BadRing | Buffer(token: Token, len: nat)

  /** get_buf's answer; BadRing is where the driver would stop the machine. */
  function GetResult(v: Packed): Fetch
    requires InRange(v)
  {
    var d := v.desc[v.lastUsedIdx];
    if !IsUsed(d, v.usedWrapCounter) then Nothing
    else if d.id >= |v.desc| || v.state[d.id].data.None? then BadRing
    else Buffer(v.state[d.id].data.value, d.len)
  }

  /** A new queue over a zeroed ring: the free list runs through all descriptors in order. */
  function InitSpec(n: nat, eventSuppression: bool): Packed {
    var zero := Desc(0, 0, 0, Flags(false, false, false, false, false));
    Packed(eventSuppression, seq(n, _ => zero),
           seq(n, i requires 0 <= i < n => State(None, 0, if i + 1 < n then i + 1 else 0, 0)),
           0, 0, n, 0, true, false, true, true, 0, 0, 0, 0, 0, 0)
  }

  function KickSpec(v: Packed): (Packed, bool)
    requires InRange(v)
  {
    (v.(numAdded := 0),
     if v.deviceFlags != DESC then v.deviceFlags != DISABLE
     else PackedKick(|v.desc|, v.nextAvailIdx, v.availWrapCounter, v.numAdded, v.deviceOffWrap))
  }

  function DisableSpec(v: Packed): Packed {
    if v.eventFlagsShadow != DISABLE then v.(eventFlagsShadow := DISABLE, driverFlags := DISABLE) else v
  }

  /** The first store of enable_cb: the event index, where it is in use. */
  function EnableEvent(v: Packed): Packed {
    if v.eventSuppression then v.(driverOffWrap := OffWrap(v.lastUsedIdx, v.usedWrapCounter)) else v
  }

  /** The second: the flags, if interrupts were disabled. */
  function EnableFlags(v: Packed): Packed {
    var f := if v.eventSuppression then DESC else ENABLE;
    if v.eventFlagsShadow == DISABLE then v.(eventFlagsShadow := f, driverFlags := f) else v
  }

  /** enable_cb up to its final test. */
  function EnableSpec(v: Packed): Packed {
    EnableFlags(EnableEvent(v))
  }
}
