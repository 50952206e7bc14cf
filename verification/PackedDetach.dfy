/** detach_unused_buf of the packed ring while the device is at work. */
module PackedDetach {
  import opened Queues
  import opened Rings
  import opened DescriptorPool
  import opened PackedProtocol
  import opened PackedSpec
  import opened PackedSystem

  /** The first unread return, by the records. */
  lemma FirstReturn(s: System)
    requires SystemInv(s) && s.g.positioned && s.g.ring.lens != []
    ensures var b := s.g.ring.queue[0];
      && b in s.g.pool && b.slots != [] && b.slots[0] < |s.v.desc| && s.g.owner[b.slots[0]] == Some(b)
      && s.v.state[b.slots[0]].data == Some(b.token)
      && var d := s.v.desc[s.v.lastUsedIdx];
         IsUsed(d, s.v.usedWrapCounter) && d.id == b.slots[0] && d.len == s.g.ring.lens[0]
  {
    GetIsExact(s);
    UsedTestIsExact(s.g.ring);
    var b := s.g.ring.queue[0];
    assert Holds(Nexts(s.v.state), s.g.owner, s.g.pool[IndexOf(s.g.pool, b)]);
    assert Recorded(s.v.state, s.g.pool[IndexOf(s.g.pool, b)]);
  }

  lemma AnswerAfterDetach(v: Packed, id: nat)
    requires InRange(v) && id < |v.desc| && v.state[id].data.Some? && InRange(DetachSpec(v, id))
    requires GetResult(v) != BadRing
    ensures GetResult(DetachSpec(v, id)) == BadRing <==> GetResult(v) != Nothing && v.desc[v.lastUsedIdx].id == id
  {
  }

  /** Nothing tells the ring that a buffer was detached: get_buf stops the machine exactly if the buffer
      that was detached is the one whose return it reads next. */
  lemma DetachedReturnStopsIff(s: System, id: nat)
    requires SystemInv(s) && s.g.positioned && id < |s.v.desc| && s.v.state[id].data.Some?
    ensures var v := AfterDetach(s, id).v;
      InRange(v) && (GetResult(v) == BadRing <==> s.g.ring.lens != [] && s.g.ring.queue[0].slots[0] == id)
  {
    DetachKeepsInv(s, id);
    GetIsExact(s);
    hide PoolInv, Inv, Encoded, TablesOk, Abstract, Hop, GetResult, DetachSpec, InRange;
    AnswerAfterDetach(s.v, id);
  }

  /** The system after the buffer that get_buf would read next was detached instead. */
  ghost function WithoutFirst(s: System): (s': System)
    requires SystemInv(s) && s.g.positioned && s.g.ring.lens != []
    ensures PoolOk(s') && !s'.g.positioned
  {
    FirstReturn(s);
    DetachKeepsInv(s, s.g.ring.queue[0].slots[0]);
    AfterDetach(s, s.g.ring.queue[0].slots[0])
  }

  /** An addition overwrites the descriptor it reads next exactly if it needs more than what is free. */
  lemma ReadSlotAfterAdd(s: System, ds: seq<Desc>)
    requires Inv(s.g.ring) && s.g.ring.mem == s.v.desc && Encoded(s) && s.g.ring.lens != [] && |ds| <= |s.v.desc|
    ensures s.v.lastUsedIdx < |s.v.desc| && s.v.nextAvailIdx < |s.v.desc|
    ensures Overwrite(s.v.desc, s.v.nextAvailIdx, ds)[s.v.lastUsedIdx]
         == if s.v.numFree < |ds| then ds[s.v.numFree] else s.v.desc[s.v.lastUsedIdx]
    ensures Lap(|s.g.ring.log| + s.v.numFree, |s.v.desc|) == !s.v.usedWrapCounter
    ensures s.v.numFree < |s.v.desc|
  {
    hide Inv, Mirrors;
    var n, a, u := |s.v.desc|, |s.g.ring.log|, s.g.ring.starts[0];
    assert u < a by { SpansAscend(s.g.ring, 0, |s.g.ring.queue|); LogEnds(s.g.ring); }
    OneLapBack(a, u, n);
    OverwriteAt(s.v.desc, s.v.nextAvailIdx, ds, u + n - a);
  }

  lemma LogEnds(r: Ring)
    requires Inv(r)
    ensures |r.starts| == |r.queue| + 1 && r.starts[|r.queue|] == |r.log|
  {
  }

  /** b can be added to v as the driver makes it. */
  ghost predicate Fits(v: Packed, b: Buf) {
    InRange(v) && Shaped(b) && |b.slots| <= v.numFree && b.slots == Hops(v.state, v.freeHead, |b.slots|)
  }

  lemma AddedRecord(v: Packed, b: Buf)
    requires Fits(v, b)
    ensures b.slots != [] && b.slots[0] == v.freeHead
    ensures AddSpec(v, b).state[v.freeHead].data == Some(b.token)
    ensures AddSpec(v, b).lastUsedIdx == v.lastUsedIdx && AddSpec(v, b).usedWrapCounter == v.usedWrapCounter
    ensures AddSpec(v, b).desc == Overwrite(v.desc, v.nextAvailIdx, Written(b, v.nextAvailIdx, v.availFlag, |v.desc|))
    ensures InRange(AddSpec(v, b))
  {
    AddKeepsRange(v, b);
  }

  lemma AnswerWith(v: Packed, stays: bool, id: nat, token: Token)
    requires InRange(v) && id < |v.desc| && v.state[id].data == Some(token)
    requires var d := v.desc[v.lastUsedIdx];
      if stays then IsUsed(d, v.usedWrapCounter) && d.id == id else d.flags.used != d.flags.avail
    ensures GetResult(v) == if stays then Buffer(token, v.desc[v.lastUsedIdx].len) else Nothing
  {
  }

  /** The next buffer that is added takes over the id: if the descriptors that were free before the detach
      are enough for it, get_buf answers the return of the detached buffer with the token of the new one,
      which the device has not touched; else the return is overwritten in the ring, and lost. */
  lemma DetachedReturnGoesToTheNext(s: System, b: Buf)
    requires SystemInv(s) && s.g.positioned && s.g.ring.lens != [] && PackedSystem.CanAdd(WithoutFirst(s), b)
    ensures var v := AfterAdd(WithoutFirst(s), b).v;
      InRange(v) && GetResult(v) == if |b.slots| <= s.v.numFree then Buffer(b.token, s.g.ring.lens[0]) else Nothing
  {
    FirstReturn(s);
    NextRecord(s, b);
    hide *;
    AnswerWith(AfterAdd(WithoutFirst(s), b).v, |b.slots| <= s.v.numFree, s.g.ring.queue[0].slots[0], b.token);
  }

  lemma WithoutFirstFields(s: System)
    requires SystemInv(s) && s.g.positioned && s.g.ring.lens != []
    ensures var id, w := s.g.ring.queue[0].slots[0], WithoutFirst(s).v;
      && w.freeHead == id && w.desc == s.v.desc && w.nextAvailIdx == s.v.nextAvailIdx && w.availFlag == s.v.availFlag
      && w.lastUsedIdx == s.v.lastUsedIdx && w.usedWrapCounter == s.v.usedWrapCounter
  {
    FirstReturn(s);
  }

  lemma WrittenIsNotUsed(b: Buf, head: nat, lap: bool, n: nat, i: nat)
    requires Shaped(b) && i < |b.slots|
    ensures Written(b, head, lap, n)[i].flags.used != Written(b, head, lap, n)[i].flags.avail
  {
    assert Written(b, head, lap, n)[i] == Part(b, i, if head + i < n then lap else !lap);
  }

  lemma NextRecord(s: System, b: Buf)
    requires SystemInv(s) && s.g.positioned && s.g.ring.lens != [] && PackedSystem.CanAdd(WithoutFirst(s), b)
    ensures s.g.ring.queue[0].slots != [] && s.v.lastUsedIdx < |s.v.desc|
    ensures var v, id := AfterAdd(WithoutFirst(s), b).v, s.g.ring.queue[0].slots[0];
      && InRange(v) && id < |v.desc| && v.state[id].data == Some(b.token)
      && v.lastUsedIdx == s.v.lastUsedIdx && v.usedWrapCounter == s.v.usedWrapCounter
      && var d := v.desc[v.lastUsedIdx];
         if |b.slots| <= s.v.numFree then d == s.v.desc[v.lastUsedIdx] else d.flags.used != d.flags.avail
  {
    FirstReturn(s);
    WithoutFirstFields(s);
    var w := WithoutFirst(s).v;
    var ds := Written(b, s.v.nextAvailIdx, s.v.availFlag, |s.v.desc|);
    assert Fits(w, b);
    assert AfterAdd(WithoutFirst(s), b).v == AddSpec(w, b);
    ReadSlotAfterAdd(s, ds);
    if |b.slots| > s.v.numFree { WrittenIsNotUsed(b, s.v.nextAvailIdx, s.v.availFlag, |s.v.desc|, s.v.numFree); }
    hide WithoutFirst, SystemInv, PoolOk, AfterAdd, AddSpec, Written, Overwrite, Hop, Hops, InRange;
    AddedRecord(w, b);
  }

  /** It makes no difference whether the device returns a buffer before a detach or after it. */
  lemma DetachCommutesWithCompletion(s: System, id: nat, i: nat, len: nat, write: bool)
    requires SystemInv(s) && s.g.positioned && id < |s.v.desc| && s.v.state[id].data.Some? && CanComplete(s, i)
    ensures var s' := AfterComplete(s, i, len, write);
      && PoolOk(s') && s'.v.state[id].data.Some?
      && AfterDetach(s', id).v == DetachSpec(s.v, id).(desc := s'.v.desc)
  {
    SamePool(s, AfterComplete(s, i, len, write));
  }
}
