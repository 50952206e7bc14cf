/** The packed ring as a protocol between the driver and an honest device (section 2.7 of
    VIRTIO 1.1), over unbounded positions.  Positions start at the ring size, so that the zeroed
    ring of a new queue reads as the lap before the first. */
module PackedProtocol {
  import opened Queues
  import opened Rings
  import opened DescriptorPool

  datatype Flags = Flags(next: bool, write: bool, indirect: bool, avail: bool, used: bool)

  datatype Desc = Desc(addr: nat, len: nat, id: nat, flags: Flags)

  /** The 16-bit flags word: NEXT, WRITE and INDIRECT are its low bits, AVAIL is bit 7, USED bit 15. */
  function Word(f: Flags): bv16 {
    (if f.next then 1 else 0) | (if f.write then 2 else 0) | (if f.indirect then 4 else 0)
    | (if f.avail then 0x80 else 0) | (if f.used then 0x8000 else 0)
  }

  /** The bit tests and updates the driver makes on the word are those the model makes on the record. */
  lemma WordIsFaithful(f: Flags, g: Flags)
    ensures f.avail <==> Word(f) & (1 << 7) != 0
    ensures f.used <==> Word(f) & (1 << 15) != 0
    ensures f.next <==> Word(f) & 1 != 0
    ensures Word(f.(avail := !f.avail, used := !f.used)) == Word(f) ^ ((1 << 7) | (1 << 15))
    ensures Word(f) == Word(g) ==> f == g
  {
    assert Word(f) == Word(g) ==> f.write == g.write by {
      assert f.write <==> Word(f) & 2 != 0;
      assert g.write <==> Word(g) & 2 != 0;
    }
    assert Word(f) == Word(g) ==> f.indirect == g.indirect by {
      assert f.indirect <==> Word(f) & 4 != 0;
      assert g.indirect <==> Word(g) & 4 != 0;
    }
  }

  predicate IsUsed(d: Desc, wrap: bool) {
    d.flags.avail == d.flags.used && d.flags.used == wrap
  }

  predicate IsAvailable(d: Desc, wrap: bool) {
    d.flags.avail == wrap && d.flags.used != wrap
  }

  const DESC_SIZE: nat := 16

  ghost predicate Shaped(b: Buf) {
    && b.sg != [] && b.out <= |b.sg|
    && |b.slots| == if b.table.Some? then 1 else |b.sg|
  }

  /** The i-th descriptor of a buffer, for a lap of the given parity. */
  function Part(b: Buf, i: nat, lap: bool): Desc
    requires Shaped(b) && i < |b.slots|
  {
    if b.table.Some?
    then Desc(b.table.value, |b.sg| * DESC_SIZE, b.slots[0], Flags(false, false, true, lap, !lap))
    else Desc(b.sg[i].addr, b.sg[i].len, b.slots[0], Flags(i + 1 < |b.sg|, i >= b.out, false, lap, !lap))
  }

  function Parts(b: Buf, p: nat, n: nat): (r: seq<Desc>)
    requires Shaped(b) && n > 0
    ensures |r| == |b.slots|
  {
    seq(|b.slots|, i requires 0 <= i < |b.slots| => Part(b, i, Lap(p + i, n)))
  }

  /** mem: the shared ring.  log: every descriptor ever written, by position.  queue: the buffers in
      flight, first those returned by the device but not yet read (lens holds their lengths), then
      up to `fetched` those the device holds, then those it has not fetched.  The span of queue[j]
      is from position starts[j] to starts[j + 1]; the driver reads next at starts[0]. */
  datatype Ring = Ring(mem: seq<Desc>, log: seq<Desc>, queue: seq<Buf>, lens: seq<nat>, fetched: nat,
                       starts: seq<nat>)

  ghost predicate Spans(r: Ring) {
    && |r.starts| == |r.queue| + 1
    && forall j {:trigger r.queue[j]} :: 0 <= j < |r.queue| ==>
         Shaped(r.queue[j]) && r.starts[j + 1] == r.starts[j] + |r.queue[j].slots|
  }

  ghost predicate Ascending(starts: seq<nat>) {
    forall i, j :: 0 <= i < j < |starts| ==> starts[i] < starts[j]
  }

  ghost predicate Layout(r: Ring) {
    && Mirrors(r.mem, r.log) && Spans(r) && Ascending(r.starts)
    && |r.lens| <= r.fetched <= |r.queue|
    && |r.mem| <= r.starts[0] && r.starts[|r.queue|] == |r.log| <= r.starts[0] + |r.mem|
  }

  lemma {:induction false} SpansAscend(r: Ring, i: nat, j: nat)
    requires Spans(r) && i < j < |r.starts|
    ensures r.starts[i] < r.starts[j]
  {
    if i + 1 < j { SpansAscend(r, i, j - 1); }
    assert Shaped(r.queue[j - 1]);
  }

  /** Position p carries the parity of its lap in AVAIL; in USED it carries the opposite from where
      the device will write next onwards. */
  ghost predicate LapBits(r: Ring)
    requires Layout(r)
  {
    forall p {:trigger r.log[p]} :: 0 <= p < |r.log| ==>
      && r.log[p].flags.avail == Lap(p, |r.mem|)
      && (r.starts[|r.lens|] <= p ==> r.log[p].flags.used == !Lap(p, |r.mem|))
  }

  /** The j-th used descriptor reads as it should. */
  ghost predicate UsedAt(r: Ring, j: nat)
    requires Layout(r) && j < |r.lens|
  {
    var d := r.log[r.starts[j]];
    && r.queue[j].slots != [] && d.id == r.queue[j].slots[0] && d.len == r.lens[j]
    && d.flags.used == Lap(r.starts[j], |r.mem|)
  }

  ghost predicate UsedReadable(r: Ring)
    requires Layout(r)
  {
    forall j {:trigger r.queue[j]} :: 0 <= j < |r.lens| ==> UsedAt(r, j)
  }

  ghost predicate Readable(r: Ring)
    requires Layout(r)
  {
    forall j {:trigger r.queue[j]} :: r.fetched <= j < |r.queue| ==>
      r.log[r.starts[j]..r.starts[j + 1]] == Parts(r.queue[j], r.starts[j], |r.mem|)
  }

  ghost predicate Inv(r: Ring) {
    Layout(r) && LapBits(r) && UsedReadable(r) && Readable(r)
  }

  /** The driver's used test at the position it reads next holds exactly when the device returned a
      buffer there in this lap; it then finds that buffer's id and length.  Neither a descriptor
      that is only available nor one left from the previous lap passes. */
  lemma UsedTestIsExact(r: Ring)
    requires Inv(r)
    ensures var p := r.starts[0];
      var d := r.mem[Slot(p, |r.mem|)];
      && (IsUsed(d, Lap(p, |r.mem|)) <==> r.lens != [])
      && (r.lens != [] ==> d.id == r.queue[0].slots[0] && d.len == r.lens[0])
  {
    var n, p := |r.mem|, r.starts[0];
    if r.queue == [] {
      assert Slot(p, n) == Slot(p - n, n) && r.log[p - n].flags.avail == !Lap(p, n);
    } else {
      assert r.log[p].flags.avail == Lap(p, n) && Shaped(r.queue[0]);
    }
  }

  /** The device's test at the position it fetches next holds exactly when the driver made a buffer
      available there that the device has not fetched. */
  lemma AvailableTestIsExact(r: Ring)
    requires Inv(r)
    ensures var p := r.starts[r.fetched];
      IsAvailable(r.mem[Slot(p, |r.mem|)], Lap(p, |r.mem|)) <==> r.fetched < |r.queue|
  {
    var n, p := |r.mem|, r.starts[r.fetched];
    if r.fetched < |r.queue| {
      assert r.log[p].flags.avail == Lap(p, n);
    } else {
      assert Slot(p, n) == Slot(p - n, n) && r.log[p - n].flags.avail == !Lap(p, n);
    }
  }

  function Added(r: Ring, b: Buf): Ring
    requires 0 < |r.mem| && Shaped(b) && |b.slots| <= |r.mem|
  {
    var ds := Parts(b, |r.log|, |r.mem|);
    r.(mem := Overwrite(r.mem, Slot(|r.log|, |r.mem|), ds), log := r.log + ds,
       queue := r.queue + [b], starts := r.starts + [|r.log| + |ds|])
  }

  lemma AddKeepsLayout(r: Ring, b: Buf)
    requires Layout(r) && Shaped(b) && |r.log| + |b.slots| <= r.starts[0] + |r.mem|
    ensures Layout(Added(r, b))
  {
    MirrorsAppend(r.mem, r.log, Parts(b, |r.log|, |r.mem|));
  }

  lemma AddKeepsLapBits(r: Ring, b: Buf)
    requires Layout(r) && LapBits(r) && Shaped(b) && |b.slots| <= |r.mem| && Layout(Added(r, b))
    ensures LapBits(Added(r, b))
  {
    var r', n := Added(r, b), |r.mem|;
    forall p {:trigger r'.log[p]} | 0 <= p < |r'.log|
      ensures r'.log[p].flags.avail == Lap(p, n)
      ensures r.starts[|r.lens|] <= p ==> r'.log[p].flags.used == !Lap(p, n)
    {
      if p >= |r.log| { assert r'.log[p] == Part(b, p - |r.log|, Lap(p, n)); }
    }
  }

  lemma UsedStays(r: Ring, r': Ring, j: nat, j': nat)
    requires Layout(r) && Layout(r') && j < |r.lens| && j' < |r'.lens| && UsedAt(r, j)
    requires |r'.mem| == |r.mem| && r'.queue[j'] == r.queue[j] && r'.starts[j'] == r.starts[j]
    requires r'.lens[j'] == r.lens[j]
    requires r.log <= r'.log
    ensures UsedAt(r', j')
  {
  }

  lemma AddKeepsUsed(r: Ring, b: Buf)
    requires Layout(r) && UsedReadable(r) && Shaped(b) && |b.slots| <= |r.mem| && Layout(Added(r, b))
    ensures UsedReadable(Added(r, b))
  {
    hide UsedAt, Overwrite, Parts, Mirrors, Ascending;
    var r' := Added(r, b);
    forall j | 0 <= j < |r'.lens| ensures UsedAt(r', j) {
      assert r'.queue[j] == r.queue[j];
      UsedStays(r, r', j, j);
    }
  }

  lemma AddKeepsInv(r: Ring, b: Buf)
    requires Inv(r) && Shaped(b) && |r.log| + |b.slots| <= r.starts[0] + |r.mem|
    ensures Inv(Added(r, b))
  {
    hide LapBits, UsedReadable, Readable;
    AddKeepsLayout(r, b);
    AddKeepsLapBits(r, b);
    AddKeepsUsed(r, b);
    SameReadable(r, Added(r, b));
  }

  /** The descriptors of the buffers not yet fetched are as before in r', and so are the used ones. */
  lemma SameReadable(r: Ring, r': Ring)
    requires Layout(r) && Layout(r') && UsedReadable(r) && Readable(r)
    requires r'.mem != [] && |r'.mem| == |r.mem| && |r.queue| <= |r'.queue|
    requires r.fetched == r'.fetched
    requires |r.log| <= |r'.log|
    requires forall p :: r.starts[r.fetched] <= p < |r.log| ==> r'.log[p] == r.log[p]
    requires forall j {:trigger r'.queue[j]} :: r.fetched <= j < |r.queue| ==>
      r'.queue[j] == r.queue[j] && r'.starts[j] == r.starts[j]
    requires forall j {:trigger r'.queue[j]} :: |r.queue| <= j < |r'.queue| ==>
      r'.log[r'.starts[j]..r'.starts[j + 1]] == Parts(r'.queue[j], r'.starts[j], |r.mem|)
    ensures Readable(r')
  {
    forall j | r.fetched <= j < |r.queue|
      ensures r'.log[r'.starts[j]..r'.starts[j + 1]] == Parts(r'.queue[j], r'.starts[j], |r.mem|)
    {
      assert r'.log[r.starts[j]..r.starts[j + 1]] == r.log[r.starts[j]..r.starts[j + 1]];
    }
  }

  function Taken(r: Ring): Ring
    requires Layout(r) && r.lens != []
  {
    r.(queue := r.queue[1..], lens := r.lens[1..], fetched := r.fetched - 1, starts := r.starts[1..])
  }

  lemma TakeKeepsInv(r: Ring)
    requires Inv(r) && r.lens != []
    ensures Inv(Taken(r))
  {
    hide UsedAt, Mirrors;
    var r' := Taken(r);
    forall j | 0 <= j < |r'.lens| ensures UsedAt(r', j) {
      assert r'.queue[j] == r.queue[j + 1];
      UsedStays(r, r', j + 1, j);
    }
    forall j | r'.fetched <= j < |r'.queue|
      ensures r'.log[r'.starts[j]..r'.starts[j + 1]] == Parts(r'.queue[j], r'.starts[j], |r'.mem|)
    {
      assert r'.queue[j] == r.queue[j + 1];
    }
  }

  lemma FetchKeepsInv(r: Ring)
    requires Inv(r) && r.fetched < |r.queue|
    ensures Inv(r.(fetched := r.fetched + 1))
  {
    hide UsedAt, Mirrors;
    var r' := r.(fetched := r.fetched + 1);
    forall j | 0 <= j < |r'.lens| ensures UsedAt(r', j) {
      assert r'.queue[j] == r.queue[j];
      UsedStays(r, r', j, j);
    }
    forall j | r'.fetched <= j < |r'.queue|
      ensures r'.log[r'.starts[j]..r'.starts[j + 1]] == Parts(r'.queue[j], r'.starts[j], |r'.mem|)
    {
      assert r.queue[j] == r'.queue[j];
    }
  }

  /** The device returns the held buffer i: it writes one used descriptor where its used position
      is, with the id of the buffer, and skips as many descriptors as the buffer took. */
  function Completed(r: Ring, i: nat, len: nat, write: bool): Ring
    requires Layout(r) && |r.lens| <= i < r.fetched
  {
    var n, k, p := |r.mem|, |r.lens|, r.starts[|r.lens|];
    var d := Desc(r.log[p].addr, len, r.queue[i].slots[0], Flags(false, write, false, Lap(p, n), Lap(p, n)));
    r.(mem := r.mem[Slot(p, n) := d], log := r.log[p := d], lens := r.lens + [len],
       queue := Move(r.queue, i, k),
       starts := seq(|r.starts|, j requires 0 <= j < |r.starts| =>
         if k < j <= i then r.starts[j - 1] + |r.queue[i].slots| else r.starts[j]))
  }

  lemma CompleteSpans(r: Ring, i: nat, len: nat, write: bool)
    requires Layout(r) && |r.lens| <= i < r.fetched
    ensures Spans(Completed(r, i, len, write))
  {
    hide Lap, Slot, Mirrors, Ascending;
    var r', k := Completed(r, i, len, write), |r.lens|;
    forall j | 0 <= j < |r.queue|
      ensures Shaped(r'.queue[j]) && r'.starts[j + 1] == r'.starts[j] + |r'.queue[j].slots|
    {
      var j0 := if j < k || j > i then j else if j == k then i else j - 1;
      assert r'.queue[j] == r.queue[j0] && Shaped(r.queue[j0]);
    }
  }

  lemma CompleteKeepsLayout(r: Ring, i: nat, len: nat, write: bool)
    requires Layout(r) && |r.lens| <= i < r.fetched
    ensures Layout(Completed(r, i, len, write))
  {
    var r', p := Completed(r, i, len, write), r.starts[|r.lens|];
    MirrorsUpdate(r.mem, r.log, p, r'.log[p]);
    CompleteSpans(r, i, len, write);
    forall x, y | 0 <= x < y < |r'.starts| ensures r'.starts[x] < r'.starts[y] { SpansAscend(r', x, y); }
  }

  lemma CompleteKeepsLapBits(r: Ring, i: nat, len: nat, write: bool)
    requires Layout(r) && LapBits(r) && |r.lens| <= i < r.fetched && Layout(Completed(r, i, len, write))
    ensures LapBits(Completed(r, i, len, write))
  {
  }

  lemma CompleteKeepsUsedAt(r: Ring, i: nat, len: nat, write: bool, j: nat)
    requires Layout(r) && UsedReadable(r) && |r.lens| <= i < r.fetched && Layout(Completed(r, i, len, write))
    requires j <= |r.lens|
    ensures UsedAt(Completed(r, i, len, write), j)
  {
    hide Lap, Slot, Mirrors, Parts;
    var r', k := Completed(r, i, len, write), |r.lens|;
    if j < k {
      assert r'.queue[j] == r.queue[j] && r'.starts[j] == r.starts[j] != r.starts[k];
    } else {
      assert r'.queue[k] == r.queue[i] && r'.starts[k] == r.starts[k] && Shaped(r.queue[i]);
    }
  }

  lemma CompleteKeepsUsed(r: Ring, i: nat, len: nat, write: bool)
    requires Layout(r) && UsedReadable(r) && |r.lens| <= i < r.fetched && Layout(Completed(r, i, len, write))
    ensures UsedReadable(Completed(r, i, len, write))
  {
    hide Lap, Slot, Mirrors, Parts, Spans, Ascending;
    var r' := Completed(r, i, len, write);
    forall j | 0 <= j < |r'.lens| ensures UsedAt(r', j) {
      CompleteKeepsUsedAt(r, i, len, write, j);
    }
  }

  lemma CompleteKeepsInv(r: Ring, i: nat, len: nat, write: bool)
    requires Inv(r) && |r.lens| <= i < r.fetched
    ensures Inv(Completed(r, i, len, write))
  {
    CompleteKeepsLayout(r, i, len, write);
    CompleteKeepsLapBits(r, i, len, write);
    CompleteKeepsUsed(r, i, len, write);
    SameReadable(r, Completed(r, i, len, write));
  }

  /** A snapshot of the ring while k descriptors are being added at slot head: the head descriptor's
      flags, and everything outside those k slots, are as before. */
  ghost predicate Unpublished(m: seq<Desc>, before: seq<Desc>, head: nat, k: nat) {
    && head < |m| == |before|
    && m[head].flags == before[head].flags
    && forall s :: 0 <= s < |m| && Offset(s, head, |m|) >= k ==> m[s] == before[s]
  }

  /** Everything a polling device can see until the last store of an addition: no new buffer, and
      every descriptor in flight as it was. */
  lemma NothingVisibleBeforeTheLastStore(r: Ring, m: seq<Desc>, k: nat)
    requires Inv(r) && |r.log| + k <= r.starts[0] + |r.mem|
    requires Unpublished(m, r.mem, Slot(|r.log|, |r.mem|), k)
    ensures !IsAvailable(m[Slot(|r.log|, |r.mem|)], Lap(|r.log|, |r.mem|))
    ensures forall p :: r.starts[0] <= p < |r.log| ==> m[Slot(p, |r.mem|)] == r.log[p]
  {
    var n, a := |r.mem|, |r.log|;
    assert Slot(a, n) == Slot(a - n, n) && r.log[a - n].flags.avail == !Lap(a, n);
    forall p | r.starts[0] <= p < a ensures m[Slot(p, n)] == r.log[p] {
      OneLapBack(a, p, n);
      assert Offset(Slot(p, n), Slot(a, n), n) == p + n - a;
    }
  }
}
