/** The DMA memory of VirtIO/WDF/Dma.c: common buffers in a collection, and one of them cut into slices of
    equal size that a bitmap hands out. */
module DmaSlices {
  import opened Queues
  import opened Rings

  /** A common buffer; one that is marked waits for its deletion. */
  datatype Block = Block(va: nat, pa: nat, length: nat, marked: bool)

  predicate Contains(b: Block, va: nat) {
    b.va <= va < b.va + b.length
  }

  ghost predicate DisjointBlocks(bs: seq<Block>) {
    forall i, j :: 0 <= i < j < |bs| ==> bs[i].va + bs[i].length <= bs[j].va || bs[j].va + bs[j].length <= bs[i].va
  }

  /** The first block, not marked, that contains the address: its index, or the number of blocks. */
  function FirstWith(bs: seq<Block>, va: nat): (i: nat)
    ensures i <= |bs| && (i < |bs| ==> Contains(bs[i], va) && !bs[i].marked)
    ensures forall j :: 0 <= j < i ==> bs[j].marked || !Contains(bs[j], va)
  {
    if bs == [] || (Contains(bs[0], va) && !bs[0].marked) then 0 else 1 + FirstWith(bs[1..], va)
  }

  /** With disjoint buffers, the one that contains the address is found. */
  lemma FoundIsTheOne(bs: seq<Block>, va: nat, i: nat)
    requires DisjointBlocks(bs) && i < |bs| && Contains(bs[i], va) && !bs[i].marked
    ensures FirstWith(bs, va) == i
  {
    var j := FirstWith(bs, va);
    assert Contains(bs[j], va);
  }

  /** A buffer at va, pa with n whole slices.  bits is memory from the start of the bitmap on; the first `own` of
      them were allocated for the bitmap, which need not end at n. */
  datatype Sliced = Sliced(va: nat, pa: nat, size: nat, slice: nat, n: nat, own: nat, bits: seq<bool>)

  ghost predicate SlicedOk(s: Sliced) {
    s.slice > 0 && s.n == s.size / s.slice && s.n < s.own <= |s.bits|
  }

  /** RtlFindClearBitsAndSet for one bit: the first clear one. */
  function FirstClear(bits: seq<bool>, n: nat): (i: nat)
    requires n <= |bits|
    ensures i <= n && (i < n ==> !bits[i]) && forall j :: 0 <= j < i ==> bits[j]
  {
    if n == 0 || !bits[0] then 0 else 1 + FirstClear(bits[1..], n - 1)
  }

  /** AllocateSlice. */
  function Get(s: Sliced): (Sliced, Option<nat>)
    requires s.n <= |s.bits|
  {
    var i := FirstClear(s.bits, s.n);
    if i < s.n then (s.(bits := s.bits[i := true]), Some(i)) else (s, None)
  }

  function Va(s: Sliced, i: nat): nat { s.va + s.slice * i }

  function Pa(s: Sliced, i: nat): nat { s.pa + s.slice * i }

  /** FreeSlice: the buffer is looked up in the whole collection. */
  function Put(s: Sliced, bs: seq<Block>, va: nat): Sliced
    requires s.slice > 0
  {
    var i := FirstWith(bs, va);
    if i == |bs| then s
    else
      var offset := va - bs[i].va;
      if offset % s.slice != 0 || offset / s.slice >= |s.bits| || !s.bits[offset / s.slice] then s
      else s.(bits := s.bits[offset / s.slice := false])
  }

  // ----- addresses

  lemma Distribute(a: nat, b: nat, c: nat)
    ensures a * (b + c) == a * b + c * a
  {
  }

  lemma Whole(s: Sliced, i: nat)
    requires SlicedOk(s) && i < s.n
    ensures s.slice * i + s.slice <= s.size
  {
    assert s.size == s.slice * s.n + s.size % s.slice;
    Distribute(s.slice, i, s.n - i);
    MulAtLeast(s.n - i, s.slice);
  }

  /** Slices lie whole in the buffer, do not overlap, and keep the distance of the two address spaces. */
  lemma SlicesAreDisjoint(s: Sliced, i: nat, j: nat)
    requires SlicedOk(s) && i < j < s.n
    ensures s.va <= Va(s, i) && Va(s, i) + s.slice <= Va(s, j) && Va(s, j) + s.slice <= s.va + s.size
    ensures Pa(s, i) + s.slice <= Pa(s, j) && Pa(s, j) + s.slice <= s.pa + s.size
    ensures Pa(s, i) - s.pa == Va(s, i) - s.va
  {
    Whole(s, j);
    Distribute(s.slice, i, j - i);
    MulAtLeast(j - i, s.slice);
  }

  lemma IndexOfAddress(slice: nat, i: nat)
    requires slice > 0
    ensures (slice * i) % slice == 0 && (slice * i) / slice == i
  {
    DivModUnique(slice * i, i, 0, slice);
  }

  /** The collection holds the sliced buffer, in use, at index k. */
  ghost predicate InCollection(s: Sliced, bs: seq<Block>, k: nat) {
    && DisjointBlocks(bs) && k < |bs| && bs[k].va == s.va && bs[k].pa == s.pa && bs[k].length == s.size && !bs[k].marked
  }

  /** An address in the sliced buffer does what it should: a slice that is out comes back; anything else -
      an address inside a slice, a slice that is free, the rest of the buffer after the last slice - leaves
      every slice as it is. */
  lemma PutInOwnBuffer(s: Sliced, bs: seq<Block>, k: nat, va: nat)
    requires SlicedOk(s) && InCollection(s, bs, k) && s.va <= va < s.va + s.size
    ensures var s' := Put(s, bs, va);
      && SlicedOk(s') && s' == s.(bits := s'.bits) && |s'.bits| == |s.bits|
      && forall i :: 0 <= i < s.n ==> s'.bits[i] == (s.bits[i] && va != Va(s, i))
  {
    FoundIsTheOne(bs, va, k);
    var offset := va - s.va;
    forall i | 0 <= i < s.n ensures Put(s, bs, va).bits[i] == (s.bits[i] && va != Va(s, i)) {
      IndexOfAddress(s.slice, i);
      if offset % s.slice == 0 && offset / s.slice == i {
        assert offset == s.slice * i;
      }
    }
  }

  /** Returning the slice that was just handed out restores the bitmap. */
  lemma PutUndoesGet(s: Sliced, bs: seq<Block>, k: nat)
    requires SlicedOk(s) && InCollection(s, bs, k) && Get(s).1.Some?
    ensures Put(Get(s).0, bs, Va(s, Get(s).1.value)) == s
  {
    var i := Get(s).1.value;
    Whole(s, i);
    FoundIsTheOne(bs, Va(s, i), k);
    IndexOfAddress(s.slice, i);
    assert s.bits[i := true][i := false] == s.bits;
  }

  /** Nothing is handed out exactly if all slices are out - or were marked in the bitmap from the start. */
  lemma GetFailsIffFull(s: Sliced)
    requires SlicedOk(s)
    ensures Get(s).1.None? <==> forall i :: 0 <= i < s.n ==> s.bits[i]
  {
  }

  /** FreeSlice does with va what it should: the slice at va comes back if it is out, and no other. */
  ghost predicate PutIsRight(s: Sliced, bs: seq<Block>, va: nat)
    requires SlicedOk(s)
  {
    forall i :: 0 <= i < s.n ==> Put(s, bs, va).bits[i] == (s.bits[i] && va != Va(s, i))
  }

  /** The address lies in another common buffer, as far from its start as a slice that is out lies from the
      start of the sliced one, number k. */
  predicate Misplaced(s: Sliced, bs: seq<Block>, k: nat, va: nat)
    requires s.slice > 0 && s.n <= |s.bits|
  {
    var j := FirstWith(bs, va);
    j < |bs| && j != k && (va - bs[j].va) % s.slice == 0
    && (va - bs[j].va) / s.slice < s.n && s.bits[(va - bs[j].va) / s.slice]
  }

  /** Outside the sliced buffer there is no slice to come back. */
  lemma NoSliceElsewhere(s: Sliced, va: nat)
    requires SlicedOk(s) && !(s.va <= va < s.va + s.size)
    ensures forall i :: 0 <= i < s.n ==> va != Va(s, i)
  {
    forall i | 0 <= i < s.n ensures va != Va(s, i) { Whole(s, i); }
  }

  /** For every address: FreeSlice is right unless the lookup in the whole collection lands in another buffer
      at the offset of a slice that is out, which it then frees. */
  lemma PutIsRightIff(s: Sliced, bs: seq<Block>, k: nat, va: nat)
    requires SlicedOk(s) && InCollection(s, bs, k)
    ensures PutIsRight(s, bs, va) <==> !Misplaced(s, bs, k, va)
  {
    var j := FirstWith(bs, va);
    if s.va <= va < s.va + s.size {
      FoundIsTheOne(bs, va, k);
      PutInOwnBuffer(s, bs, k, va);
    } else {
      NoSliceElsewhere(s, va);
      if Misplaced(s, bs, k, va) {
        var i := (va - bs[j].va) / s.slice;
        assert s.bits[i] && !Put(s, bs, va).bits[i];
      }
    }
  }

  /** FreeSlice looks beyond the memory of the bitmap: the offset, in whole slices, is that far. */
  predicate ReadsBeyond(s: Sliced, bs: seq<Block>, va: nat)
    requires s.slice > 0
  {
    var j := FirstWith(bs, va);
    j < |bs| && (va - bs[j].va) % s.slice == 0 && (va - bs[j].va) / s.slice >= s.own
  }

  lemma BeyondIsFar(s: Sliced, bs: seq<Block>, k: nat, j: nat, va: nat)
    requires SlicedOk(s) && InCollection(s, bs, k) && j < |bs| && !bs[j].marked
    requires Contains(bs[j], va) && ReadsBeyond(s, bs, va)
    ensures j != k && s.slice * s.own < bs[j].length
  {
    hide FirstWith;
    FoundIsTheOne(bs, va, j);
    var offset := va - bs[j].va;
    WholeOffset(offset, s.slice, s.own);
    if j == k { TooFarForOwn(s, offset / s.slice); }
  }

  lemma WholeOffset(offset: nat, slice: nat, own: nat)
    requires slice > 0 && offset % slice == 0 && offset / slice >= own
    ensures slice * own <= offset && offset == slice * (offset / slice)
  {
    Ordered(slice, own, offset / slice);
  }

  lemma FarIsBeyond(s: Sliced, bs: seq<Block>, j: nat)
    requires s.slice > 0 && DisjointBlocks(bs) && j < |bs| && !bs[j].marked && s.slice * s.own < bs[j].length
    ensures var va := bs[j].va + s.slice * s.own; Contains(bs[j], va) && ReadsBeyond(s, bs, va)
  {
    var va := bs[j].va + s.slice * s.own;
    FoundIsTheOne(bs, va, j);
    IndexOfAddress(s.slice, s.own);
  }

  /** That takes an address in another buffer, longer than the slices that the bitmap's memory can mark; and
      in every such buffer there is one. */
  lemma ReadsBeyondIff(s: Sliced, bs: seq<Block>, k: nat, j: nat)
    requires SlicedOk(s) && InCollection(s, bs, k) && j < |bs| && !bs[j].marked
    ensures (exists va: nat :: Contains(bs[j], va) && ReadsBeyond(s, bs, va))
       <==> j != k && s.slice * s.own < bs[j].length
  {
    hide FirstWith;
    if j != k && s.slice * s.own < bs[j].length {
      FarIsBeyond(s, bs, j);
    }
    forall va: nat | Contains(bs[j], va) && ReadsBeyond(s, bs, va)
      ensures j != k && s.slice * s.own < bs[j].length
    {
      BeyondIsFar(s, bs, k, j, va);
    }
  }

  lemma Ordered(a: nat, b: nat, c: nat)
    requires b <= c
    ensures a * b <= a * c
  {
    Distribute(a, b, c - b);
  }

  /** And if the bit is set there, memory that is not the bitmap's is written. */
  lemma SpillsIff(s: Sliced, bs: seq<Block>, va: nat)
    requires SlicedOk(s)
    ensures (exists i :: s.own <= i < |s.bits| && Put(s, bs, va).bits[i] != s.bits[i])
       <==> ReadsBeyond(s, bs, va)
            && var i := (va - bs[FirstWith(bs, va)].va) / s.slice; i < |s.bits| && s.bits[i]
  {
    if ReadsBeyond(s, bs, va) {
      var i := (va - bs[FirstWith(bs, va)].va) / s.slice;
      if i < |s.bits| && s.bits[i] { assert Put(s, bs, va).bits[i] != s.bits[i]; }
    }
  }

  lemma TooFarForOwn(s: Sliced, q: nat)
    requires SlicedOk(s) && q > s.n
    ensures s.slice * q > s.size
  {
    assert s.size == s.slice * s.n + s.size % s.slice;
    Distribute(s.slice, s.n, q - s.n);
    MulAtLeast(q - s.n, s.slice);
  }

  // ----- runs

  datatype Step = GetSlice | ReturnSlice(va: nat)

  function Do(s: Sliced, bs: seq<Block>, t: Step): (s': Sliced)
    requires s.slice > 0 && s.n <= |s.bits|
    ensures s' == s.(bits := s'.bits) && |s'.bits| == |s.bits|
  {
    if t.GetSlice? then Get(s).0 else Put(s, bs, t.va)
  }

  /** No address is returned that FreeSlice would misplace. */
  predicate Proper(s: Sliced, bs: seq<Block>, k: nat, ts: seq<Step>)
    requires s.slice > 0 && s.n <= |s.bits|
    decreases |ts|
  {
    ts == [] || ((ts[0].ReturnSlice? ==> !Misplaced(s, bs, k, ts[0].va)) && Proper(Do(s, bs, ts[0]), bs, k, ts[1..]))
  }

  /** The slices that are out: handed out and not returned. */
  function LiveAfter(s: Sliced, t: Step, live: set<nat>): set<nat>
    requires s.n <= |s.bits|
  {
    if t.ReturnSlice? then set i | i in live && Va(s, i) != t.va
    else if Get(s).1.Some? then live + {Get(s).1.value} else live
  }

  ghost predicate LiveOk(s: Sliced, live: set<nat>) {
    SlicedOk(s) && forall i :: i in live ==> i < s.n && s.bits[i]
  }

  lemma StepKeepsLive(s: Sliced, bs: seq<Block>, k: nat, t: Step, live: set<nat>)
    requires LiveOk(s, live) && InCollection(s, bs, k) && (t.ReturnSlice? ==> !Misplaced(s, bs, k, t.va))
    ensures LiveOk(Do(s, bs, t), LiveAfter(s, t, live))
    ensures t.GetSlice? && Get(s).1.Some? ==> Get(s).1.value !in live
  {
    if t.ReturnSlice? { PutIsRightIff(s, bs, k, t.va); }
  }

  /** The slices handed out over a run, each with those that were out at the time. */
  ghost predicate NeverHandsOutTwice(s: Sliced, bs: seq<Block>, ts: seq<Step>, live: set<nat>)
    requires s.slice > 0 && s.n <= |s.bits|
    decreases |ts|
  {
    ts == [] || (
      && (ts[0].GetSlice? && Get(s).1.Some? ==> Get(s).1.value !in live && Get(s).1.value < s.n)
      && NeverHandsOutTwice(Do(s, bs, ts[0]), bs, ts[1..], LiveAfter(s, ts[0], live)))
  }

  /** From any bitmap, in every run of gets and of returns of any addresses that are not misplaced, no slice
      is handed out that is out already. */
  lemma {:induction false} LiveSlicesStayApart(s: Sliced, bs: seq<Block>, k: nat, ts: seq<Step>, live: set<nat>)
    requires LiveOk(s, live) && InCollection(s, bs, k) && Proper(s, bs, k, ts)
    ensures NeverHandsOutTwice(s, bs, ts, live)
    decreases |ts|
  {
    if ts != [] {
      StepKeepsLive(s, bs, k, ts[0], live);
      LiveSlicesStayApart(Do(s, bs, ts[0]), bs, k, ts[1..], LiveAfter(s, ts[0], live));
    }
  }

  /** One misplaced return of a slice that is out, and it is handed out twice: if it is the first that is
      not marked then, the very next get does so. */
  lemma MisplacedReturnHandsOutTwice(s: Sliced, bs: seq<Block>, k: nat, va: nat)
    requires SlicedOk(s) && InCollection(s, bs, k) && Misplaced(s, bs, k, va)
    requires var i := (va - bs[FirstWith(bs, va)].va) / s.slice; forall j :: 0 <= j < i ==> s.bits[j]
    ensures var i := (va - bs[FirstWith(bs, va)].va) / s.slice;
      s.bits[i] && Get(Put(s, bs, va)).1 == Some(i)
  {
    var i := (va - bs[FirstWith(bs, va)].va) / s.slice;
    FirstClearIs(Put(s, bs, va).bits, s.n, i);
  }

  // ----- in place

  class SlicedBuffer {
    const va: nat
    const pa: nat
    const size: nat
    const slice: nat
    const n: nat
    const own: nat
    const bits: array<bool>

    ghost function View(): Sliced
      reads bits
    {
      Sliced(va, pa, size, slice, n, own, bits[..])
    }

    ghost predicate Valid()
      reads bits
    {
      SlicedOk(View())
    }

    /** VirtIOWdfDeviceAllocDmaMemorySliced over a buffer that was allocated; memory is what the bitmap - its first
        `own` bits - and the memory after it hold by chance. */
    constructor (va: nat, pa: nat, size: nat, slice: nat, own: nat, memory: array<bool>)
      requires slice > 0 && size / slice < own <= memory.Length
      ensures Valid() && View() == Sliced(va, pa, size, slice, size / slice, own, memory[..])
    {
      this.va, this.pa, this.size, this.slice, this.n := va, pa, size, slice, size / slice;
      this.own, this.bits := own, memory;
    }

    /** AllocateSlice: the address in both spaces. */
    method AllocateSlice() returns (r: Option<(nat, nat)>)
      requires Valid()
      modifies bits
      ensures Valid() && View() == Get(old(View())).0
      ensures r == match Get(old(View())).1 case None => None case Some(i) => Some((Va(View(), i), Pa(View(), i)))
    {
      var i := 0;
      while i < n && bits[i]
        invariant 0 <= i <= n && forall j :: 0 <= j < i ==> bits[j]
      {
        i := i + 1;
      }
      FirstClearIs(bits[..], n, i);
      if i >= n {
        return None;
      }
      bits[i] := true;
      r := Some((va + slice * i, pa + slice * i));
    }

    /** FindCommonBuffer, to locate an address. */
    static method FindCommonBuffer(bs: seq<Block>, va: nat) returns (r: Option<(nat, nat)>)
      ensures var i := FirstWith(bs, va); r == if i == |bs| then None else Some((bs[i].pa, va - bs[i].va))
    {
      var i := 0;
      while i < |bs|
        invariant 0 <= i <= |bs| && forall j :: 0 <= j < i ==> bs[j].marked || !Contains(bs[j], va)
      {
        if !bs[i].marked && Contains(bs[i], va) {
          FirstWithIs(bs, va, i);
          return Some((bs[i].pa, va - bs[i].va));
        }
        i := i + 1;
      }
      FirstWithIs(bs, va, i);
      r := None;
    }

    /** FreeSlice; beyond says that it went past the memory of the bitmap. */
    method FreeSlice(bs: seq<Block>, address: nat) returns (beyond: bool)
      requires Valid()
      modifies bits
      ensures Valid() && View() == Put(old(View()), bs, address)
      ensures beyond <==> ReadsBeyond(old(View()), bs, address)
    {
      beyond := false;
      var found := FindCommonBuffer(bs, address);
      if found.None? {
        return;
      }
      var offset := found.value.1;
      if offset % slice != 0 {
        return;
      }
      var index := offset / slice;
      beyond := index >= own;
      if index >= bits.Length || !bits[index] {
        return;
      }
      bits[index] := false;
    }
  }

  lemma {:induction false} FirstClearIs(bits: seq<bool>, n: nat, i: nat)
    requires n <= |bits| && i <= n && (i < n ==> !bits[i]) && forall j :: 0 <= j < i ==> bits[j]
    ensures FirstClear(bits, n) == i
  {
    if i > 0 { FirstClearIs(bits[1..], n - 1, i - 1); }
  }

  lemma {:induction false} FirstWithIs(bs: seq<Block>, va: nat, i: nat)
    requires i <= |bs| && (i < |bs| ==> Contains(bs[i], va) && !bs[i].marked)
    requires forall j :: 0 <= j < i ==> bs[j].marked || !Contains(bs[j], va)
    ensures FirstWith(bs, va) == i
  {
    if i > 0 { FirstWithIs(bs[1..], va, i - 1); }
  }
}
