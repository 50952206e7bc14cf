/** virtio_cread_many of VirtIOPCICommon.c: a configuration field read in several accesses, read again until
    the device's generation is the same before and after (section 2.4 of VIRTIO 1.1). */
module ConfigRead {

  type Bytes = seq<int>

  /** What the configuration held after 0, 1, 2, ... changes. */
  type History = seq<Bytes>

  /** The generation register of a modern device is one byte; a legacy device has none. */
  function Generation(changes: nat, modern: bool): nat {
    if modern then changes % 256 else 0
  }

  /** The first n fields take so many bytes. */
  function Span(n: nat, bytes: nat): nat {
    n * bytes
  }

  ghost predicate Fits(h: History, offset: nat, count: nat, bytes: nat) {
    h != [] && bytes > 0 && forall t :: 0 <= t < |h| ==> offset + Span(count, bytes) <= |h[t]|
  }

  lemma FieldFits(h: History, offset: nat, count: nat, bytes: nat, i: nat, t: nat)
    requires Fits(h, offset, count, bytes) && i < count && t < |h|
    ensures Span(i, bytes) + bytes <= Span(count, bytes) && offset + Span(i, bytes) + bytes <= |h[t]|
  {
    assert count * bytes == i * bytes + bytes + (count - i - 1) * bytes;
  }

  /** The i-th access, made after t changes. */
  function Field(h: History, offset: nat, bytes: nat, i: nat, t: nat): Bytes
    requires t < |h| && offset + Span(i, bytes) + bytes <= |h[t]|
  {
    h[t][offset + Span(i, bytes)..offset + Span(i, bytes) + bytes]
  }

  /** What the accesses of one pass put in the buffer, the i-th made after times[i] changes. */
  function Assembled(h: History, offset: nat, count: nat, bytes: nat, times: seq<nat>): Bytes
    requires Fits(h, offset, count, bytes) && |times| <= count && forall i :: 0 <= i < |times| ==> times[i] < |h|
    decreases |times|
  {
    if times == [] then []
    else
      var n := |times| - 1;
      FieldFits(h, offset, count, bytes, n, times[n]);
      Assembled(h, offset, count, bytes, times[..n]) + Field(h, offset, bytes, n, times[n])
  }

  ghost predicate Within(times: seq<nat>, from: nat, to: nat) {
    forall i :: 0 <= i < |times| ==> from <= times[i] <= to
  }

  /** The bytes as they were at one instant. */
  function At(h: History, offset: nat, length: nat, t: nat): Bytes
    requires t < |h| && offset + length <= |h[t]|
  {
    h[t][offset..offset + length]
  }

  lemma FieldStarts(h: History, offset: nat, count: nat, bytes: nat, t: nat)
    requires Fits(h, offset, count, bytes) && t < |h|
    ensures offset <= |h[t]|
  {
  }

  lemma NextMultiple(n: nat, bytes: nat)
    ensures Span(n + 1, bytes) == Span(n, bytes) + bytes && Span(0, bytes) == 0
  {
  }

  lemma {:induction false} OneInstant(h: History, offset: nat, count: nat, bytes: nat, times: seq<nat>, t: nat)
    requires Fits(h, offset, count, bytes) && |times| <= count && t < |h|
    requires forall i :: 0 <= i < |times| ==> times[i] == t
    ensures offset + Span(|times|, bytes) <= |h[t]|
    ensures Assembled(h, offset, count, bytes, times) == At(h, offset, Span(|times|, bytes), t)
    decreases |times|
  {
    hide Span, Fits;
    FieldStarts(h, offset, count, bytes, t);
    NextMultiple(if times == [] then 0 else |times| - 1, bytes);
    if times != [] {
      var n := |times| - 1;
      FieldFits(h, offset, count, bytes, n, t);
      OneInstant(h, offset, count, bytes, times[..n], t);
      Adjoin(h[t], offset, Span(n, bytes), bytes);
    }
  }

  lemma Adjoin(s: Bytes, offset: nat, a: nat, b: nat)
    requires offset + a + b <= |s|
    ensures s[offset..offset + a] + s[offset + a..offset + a + b] == s[offset..offset + (a + b)]
  {
  }

  /** A pass of a modern device that is accepted and saw fewer than 256 changes saw none: the buffer holds
      the configuration of one instant. */
  lemma AcceptedPassIsConsistent(h: History, offset: nat, count: nat, bytes: nat, times: seq<nat>, from: nat, to: nat)
    requires Fits(h, offset, count, bytes) && |times| == count && from <= to < |h| && Within(times, from, to)
    requires Generation(from, true) == Generation(to, true) && to - from < 256
    ensures from == to && Assembled(h, offset, count, bytes, times) == At(h, offset, Span(count, bytes), from)
  {
    OneInstant(h, offset, count, bytes, times, from);
  }

  /** The buffer holds what the configuration held at some instant from one count of changes to another. */
  ghost predicate OfOneInstant(h: History, offset: nat, length: nat, from: nat, to: nat, buf: Bytes) {
    exists t: nat :: from <= t <= to && t < |h| && offset + length <= |h[t]| && buf == At(h, offset, length, t)
  }

  /** What protects a pass of so many accesses that is accepted although there were so many changes. */
  predicate Protected(modern: bool, changes: nat, count: nat) {
    changes == 0 || count <= 1 || (modern && changes % 256 != 0)
  }

  predicate Ordered(times: seq<nat>) {
    forall i, j :: 0 <= i < j < |times| ==> times[i] <= times[j]
  }

  /** Every pass with this many changes that the test accepts gives the bytes of one instant. */
  ghost predicate Safe(modern: bool, changes: nat, offset: nat, count: nat, bytes: nat) {
    forall h: History, times: seq<nat>, from: nat, to: nat
      {:trigger Assembled(h, offset, count, bytes, times), Within(times, from, to)} ::
      Fits(h, offset, count, bytes) && |times| == count && to == from + changes < |h| && Within(times, from, to)
      && Ordered(times) && Generation(from, modern) == Generation(to, modern) ==>
        OfOneInstant(h, offset, Span(count, bytes), from, to, Assembled(h, offset, count, bytes, times))
  }

  lemma GenerationMoves(from: nat, changes: nat)
    requires changes % 256 != 0
    ensures Generation(from, true) != Generation(from + changes, true)
  {
  }

  lemma ProtectedPassIsConsistent(h: History, offset: nat, count: nat, bytes: nat, times: seq<nat>,
                                  from: nat, to: nat, modern: bool)
    requires Fits(h, offset, count, bytes) && |times| == count && from <= to < |h| && Within(times, from, to)
    requires Generation(from, modern) == Generation(to, modern) && Protected(modern, to - from, count)
    ensures OfOneInstant(h, offset, Span(count, bytes), from, to, Assembled(h, offset, count, bytes, times))
  {
    if modern && (to - from) % 256 != 0 {
      GenerationMoves(from, to - from);
    } else {
      OneInstant(h, offset, count, bytes, times, if times == [] then from else times[0]);
    }
  }

  /** The accesses of a pass stand in the buffer at their own places. */
  lemma {:induction false} AssembledAt(h: History, offset: nat, count: nat, bytes: nat, times: seq<nat>, i: nat)
    requires Fits(h, offset, count, bytes) && |times| <= count && i < |times|
    requires forall k :: 0 <= k < |times| ==> times[k] < |h|
    ensures Span(i, bytes) + bytes <= Span(|times|, bytes) == |Assembled(h, offset, count, bytes, times)|
    ensures offset + Span(i, bytes) + bytes <= |h[times[i]]|
    ensures Assembled(h, offset, count, bytes, times)[Span(i, bytes)..Span(i, bytes) + bytes]
         == Field(h, offset, bytes, i, times[i])
    decreases |times|
  {
    hide Span, Fits;
    var n := |times| - 1;
    FieldFits(h, offset, count, bytes, n, times[n]);
    FieldFits(h, offset, count, bytes, i, times[i]);
    NextMultiple(n, bytes);
    if n > 0 {
      AssembledAt(h, offset, count, bytes, times[..n], if i < n then i else 0);
    }
  }

  /** A history in which all bytes are equal at every instant. */
  function Twins(changes: nat, length: nat): (h: History)
    ensures |h| == changes + 1 && forall t :: 0 <= t <= changes ==> |h[t]| == length
    ensures forall t, i :: 0 <= t <= changes && 0 <= i < length ==> h[t][i] == if t == 0 then 0 else 1
  {
    seq(changes + 1, t => seq(length, i => if t == 0 then 0 else 1))
  }

  lemma TwinsAreEqual(changes: nat, offset: nat, length: nat, bytes: nat, buf: Bytes)
    requires 0 < bytes < length && OfOneInstant(Twins(changes, offset + length), offset, length, 0, changes, buf)
    ensures |buf| == length && buf[0] == buf[bytes]
  {
  }

  lemma TwinsFit(changes: nat, offset: nat, count: nat, bytes: nat)
    requires bytes > 0
    ensures Fits(Twins(changes, offset + Span(count, bytes)), offset, count, bytes)
  {
    hide Span;
  }

  /** Fields read on different sides of a change are not what the configuration held at any time. */
  lemma TornPass(changes: nat, offset: nat, count: nat, bytes: nat) returns (h: History, times: seq<nat>)
    requires changes > 0 && count > 1 && bytes > 0
    ensures Fits(h, offset, count, bytes) && |h| == changes + 1
    ensures |times| == count && Within(times, 0, changes) && Ordered(times)
    ensures !OfOneInstant(h, offset, Span(count, bytes), 0, changes, Assembled(h, offset, count, bytes, times))
  {
    hide Span, Fits, Assembled, OfOneInstant;
    h := Twins(changes, offset + Span(count, bytes));
    TwinsFit(changes, offset, count, bytes);
    times := seq(count, i => if i == 0 then 0 else changes);
    var buf := Assembled(h, offset, count, bytes, times);
    NextMultiple(0, bytes);
    AssembledAt(h, offset, count, bytes, times, 0);
    AssembledAt(h, offset, count, bytes, times, 1);
    assert buf[0] == buf[0..bytes][0] == 0;
    assert times[1] == changes && Field(h, offset, bytes, 1, changes)[0] == 1;
    assert buf[bytes] == buf[bytes..bytes + bytes][0] == 1;
    if OfOneInstant(h, offset, Span(count, bytes), 0, changes, buf) {
      TwinsAreEqual(changes, offset, Span(count, bytes), bytes, buf);
    }
  }

  /** A pass over any fields is safe exactly if the device changed nothing during it, or it is one access,
      or the device has a generation and the number of changes is not a multiple of 256, at which the 8-bit
      generation has come full circle. */
  lemma SafeIff(modern: bool, changes: nat, offset: nat, count: nat, bytes: nat)
    requires bytes > 0
    ensures Safe(modern, changes, offset, count, bytes) <==> Protected(modern, changes, count)
  {
    if Protected(modern, changes, count) {
      forall h: History, times: seq<nat>, from: nat, to: nat |
        Fits(h, offset, count, bytes) && |times| == count && to == from + changes < |h| && Within(times, from, to)
        && Generation(from, modern) == Generation(to, modern)
        ensures OfOneInstant(h, offset, Span(count, bytes), from, to, Assembled(h, offset, count, bytes, times))
      {
        ProtectedPassIsConsistent(h, offset, count, bytes, times, from, to, modern);
      }
    } else {
      var h, times := TornPass(changes, offset, count, bytes);
      assert Generation(0, modern) == Generation(changes, modern);
      assert Within(times, 0, changes) && !OfOneInstant(h, offset, Span(count, bytes), 0, changes,
                                                        Assembled(h, offset, count, bytes, times));
    }
  }

  class ConfigDevice {
    const modern: bool
    /** Everything the configuration will ever hold; the device changes it finitely often. */
    const history: History
    var changes: nat

    ghost predicate Valid()
      reads this
    {
      changes < |history|
    }

    /** The device may change its configuration before any access. */
    method Elapse()
      requires Valid()
      modifies `changes
      ensures Valid() && old(changes) <= changes
    {
      var k: int := *;
      if k >= 0 && changes + k < |history| {
        changes := changes + k;
      }
    }

    method GetConfig(offset: nat, length: nat) returns (r: Bytes)
      requires Valid() && forall t :: 0 <= t < |history| ==> offset + length <= |history[t]|
      modifies `changes
      ensures Valid() && old(changes) <= changes && r == history[changes][offset..offset + length]
    {
      Elapse();
      r := history[changes][offset..offset + length];
    }

    method GetGeneration() returns (g: nat)
      requires Valid()
      modifies `changes
      ensures Valid() && old(changes) <= changes && g == Generation(changes, modern)
    {
      Elapse();
      g := Generation(changes, modern);
    }

    /** One pass over the fields; times says when each was read. */
    method ReadFields(offset: nat, count: nat, bytes: nat) returns (buf: Bytes, ghost times: seq<nat>)
      requires Valid() && Fits(history, offset, count, bytes)
      modifies `changes
      ensures Valid() && old(changes) <= changes && |times| == count && Within(times, old(changes), changes)
      ensures buf == Assembled(history, offset, count, bytes, times)
    {
      buf, times := [], [];
      for i := 0 to count
        invariant Valid() && old(changes) <= changes && |times| == i && Within(times, old(changes), changes)
        invariant buf == Assembled(history, offset, count, bytes, times)
      {
        forall t | 0 <= t < |history| ensures offset + Span(i, bytes) + bytes <= |history[t]| {
          FieldFits(history, offset, count, bytes, i, t);
        }
        var r := GetConfig(offset + Span(i, bytes), bytes);
        assert (times + [changes])[..i] == times;
        buf, times := buf + r, times + [changes];
      }
    }

    /** virtio_cread_many.  It ends, since every pass that is repeated saw a change.  from and to count the
        changes around the last pass and times says when each field was read: unless there were 256, 512, ...
        changes, or any on a device without a generation, the result is of one instant. */
    method CreadMany(offset: nat, count: nat, bytes: nat)
      returns (buf: Bytes, ghost from: nat, ghost to: nat, ghost times: seq<nat>)
      requires Valid() && Fits(history, offset, count, bytes)
      modifies `changes
      ensures Valid() && old(changes) <= from <= to == changes && |times| == count && Within(times, from, to)
      ensures buf == Assembled(history, offset, count, bytes, times)
      ensures modern ==> (to - from) % 256 == 0
      ensures Protected(modern, to - from, count) ==>
        OfOneInstant(history, offset, Span(count, bytes), from, to, buf)
    {
      hide Span, Fits, Assembled, OfOneInstant, Protected, Generation;
      var gen := GetGeneration();
      while true
        invariant Valid() && old(changes) <= changes && gen == Generation(changes, modern)
        decreases |history| - changes
      {
        var old1 := gen;
        from := changes;
        buf, times := ReadFields(offset, count, bytes);
        gen := GetGeneration();
        to := changes;
        if gen == old1 {
          break;
        }
      }
      if modern && (to - from) % 256 != 0 {
        GenerationMoves(from, to - from);
      }
      if Protected(modern, to - from, count) {
        ProtectedPassIsConsistent(history, offset, count, bytes, times, from, to, modern);
      }
    }

    /** virtio_get_config: one access where the device supports one, else several. */
    method ReadConfig(offset: nat, length: nat) returns (buf: Bytes, ghost from: nat, ghost to: nat)
      requires Valid() && forall t :: 0 <= t < |history| ==> offset + length <= |history[t]|
      modifies `changes
      ensures Valid() && old(changes) <= from <= to <= changes
      ensures modern ==> (to - from) % 256 == 0
      ensures Protected(modern, to - from, Accesses(length)) ==>
        OfOneInstant(history, offset, length, from, to, buf)
    {
      if length == 1 || length == 2 || length == 4 {
        buf := GetConfig(offset, length);
        from, to := changes, changes;
        assert buf == At(history, offset, length, from);
      } else if length == 8 {
        ghost var times;
        buf, from, to, times := CreadMany(offset, 2, 4);
      } else {
        ghost var times;
        buf, from, to, times := CreadMany(offset, length, 1);
      }
    }
  }

  /** In so many accesses virtio_get_config reads a field of this length. */
  function Accesses(length: nat): nat {
    if length == 1 || length == 2 || length == 4 then 1 else if length == 8 then 2 else length
  }
}
