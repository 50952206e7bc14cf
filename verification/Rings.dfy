/** Arithmetic of positions in a ring of n slots.  A position is unbounded and never wraps; the
    driver only keeps its slot (position mod n) and the parity of its lap. */
module Rings {

  /** The slot of position p: p mod n, by SlotIsMod. */
  function Slot(p: nat, n: nat): (r: nat)
    requires n > 0
    ensures r < n
  {
    if p < n then p else Slot(p - n, n)
  }

  /** Parity of the lap that position p falls in: whether p / n is odd, by SlotIsMod. */
  predicate Lap(p: nat, n: nat)
    requires n > 0
  {
    p >= n && !Lap(p - n, n)
  }

  /** The slot reached from slot i by going k <= n slots forward, written without division. */
  function Forward(i: nat, k: nat, n: nat): (r: nat)
    requires i < n && k <= n
    ensures r < n
  {
    if i + k < n then i + k else i + k - n
  }

  /** How far slot s lies ahead of slot head, going around the ring. */
  function Offset(s: nat, head: nat, n: nat): (r: nat)
    requires s < n && head < n
    ensures r < n && Forward(head, r, n) == s
  {
    if s >= head then s - head else s + n - head
  }

  /** The recursive forms are the division forms. */
  lemma {:induction false} SlotIsMod(p: nat, n: nat)
    requires n > 0
    ensures Slot(p, n) == p % n && (Lap(p, n) <==> (p / n) % 2 == 1)
  {
    if p < n {
      DivModUnique(p, 0, p, n);
    } else {
      SlotIsMod(p - n, n);
      var q, r := (p - n) / n, (p - n) % n;
      assert p == (q + 1) * n + r by {
        assert p - n == q * n + r;
        assert (q + 1) * n == q * n + n;
      }
      DivModUnique(p, q + 1, r, n);
    }
  }

  lemma DivModUnique(x: nat, q: nat, r: nat, n: nat)
    requires n > 0 && r < n && x == q * n + r
    ensures x / n == q && x % n == r
  {
    var d := x / n - q;
    assert d * n == r - x % n;
    if d != 0 {
      MulAtLeast(if d > 0 then d else -d, n);
    }
  }

  lemma MulAtLeast(k: nat, n: nat)
    requires k >= 1
    ensures k * n >= n
  {
    assert k * n == (k - 1) * n + n;
  }

  /** Slot i of a memory of n slots of this size lies in it. */
  lemma SlotFits(i: nat, n: nat, size: nat)
    requires i < n
    ensures 0 <= i * size && i * size + size <= n * size
  {
    assert n * size == i * size + size + (n - i - 1) * size;
  }

  /** Stepping k positions forward moves the slot by Forward and flips the lap exactly on a wrap. */
  lemma {:induction false} Advance(p: nat, k: nat, n: nat)
    requires n > 0 && k <= n
    ensures Slot(p + k, n) == Forward(Slot(p, n), k, n)
    ensures Lap(p + k, n) == (if Slot(p, n) + k < n then Lap(p, n) else !Lap(p, n))
  {
    if p >= n {
      Advance(p - n, k, n);
    } else if p + k >= n {
      assert Slot(p + k - n, n) == p + k - n;
    }
  }

  /** Two positions less than one lap apart lie in different slots. */
  lemma SlotsDiffer(p: nat, q: nat, n: nat)
    requires n > 0 && p < q < p + n
    ensures Slot(p, n) != Slot(q, n)
  {
    Advance(p, q - p, n);
  }

  lemma {:induction false} WholeLaps(p: nat, q: nat, n: nat)
    requires n > 0 && Slot(q, n) == 0
    ensures Slot(p + q, n) == Slot(p, n)
  {
    if q >= n {
      WholeLaps(p, q - n, n);
      assert Slot(p + q, n) == Slot(p + q - n, n);
    }
  }

  /** A counter that wraps at w still picks the right slot, if n divides w. */
  lemma {:induction false} NestedSlots(p: nat, w: nat, n: nat)
    requires n > 0 && w > 0 && Slot(w, n) == 0
    ensures Slot(Slot(p, w), n) == Slot(p, n)
  {
    if p >= w {
      NestedSlots(p - w, w, n);
      WholeLaps(p - w, w, n);
    }
  }

  /** A position of the lap before a, seen from a. */
  lemma OneLapBack(a: nat, p: nat, n: nat)
    requires 0 < n && a - n <= p < a
    ensures Slot(p, n) == Forward(Slot(a, n), p + n - a, n)
    ensures Lap(p + n, n) == !Lap(p, n)
  {
    Advance(a, p + n - a, n);
    assert Slot(p + n, n) == Slot(p, n);
  }

  /** mem is what a ring of |mem| slots holds after the entries of log were written to it in turn:
      slot by slot the newest entry. */
  ghost predicate Mirrors<T>(mem: seq<T>, log: seq<T>) {
    && 0 < |mem| <= |log|
    && forall p {:trigger log[p]} :: |log| - |mem| <= p < |log| ==> mem[Slot(p, |mem|)] == log[p]
  }

  /** The ring after the entries ds were written from slot head onwards. */
  function Overwrite<T>(mem: seq<T>, head: nat, ds: seq<T>): (r: seq<T>)
    requires head < |mem| && |ds| <= |mem|
    ensures |r| == |mem|
  {
    seq(|mem|, s requires 0 <= s < |mem| =>
      if Offset(s, head, |mem|) < |ds| then ds[Offset(s, head, |mem|)] else mem[s])
  }

  lemma OverwriteAt<T>(mem: seq<T>, head: nat, ds: seq<T>, k: nat)
    requires head < |mem| && |ds| <= |mem| && k < |mem|
    ensures var s := Forward(head, k, |mem|);
      Overwrite(mem, head, ds)[s] == if k < |ds| then ds[k] else mem[s]
  {
    assert Offset(Forward(head, k, |mem|), head, |mem|) == k;
  }

  lemma OverwriteNext<T>(mem: seq<T>, head: nat, ds: seq<T>, k: nat)
    requires head < |mem| && k < |ds| <= |mem|
    ensures Overwrite(mem, head, ds[..k + 1]) == Overwrite(mem, head, ds[..k])[Forward(head, k, |mem|) := ds[k]]
  {
    var a, b := Overwrite(mem, head, ds[..k + 1]), Overwrite(mem, head, ds[..k])[Forward(head, k, |mem|) := ds[k]];
    forall s | 0 <= s < |mem| ensures a[s] == b[s] {
      OverwriteAt(mem, head, ds[..k + 1], Offset(s, head, |mem|));
      OverwriteAt(mem, head, ds[..k], Offset(s, head, |mem|));
    }
  }

  lemma OverwriteOne<T>(mem: seq<T>, head: nat, d: T)
    requires head < |mem|
    ensures Overwrite(mem, head, [d]) == mem[head := d]
  {
    OverwriteNext(mem, head, [d], 0);
    assert Overwrite(mem, head, [d][..0]) == mem && [d][..1] == [d];
  }

  lemma OldEntriesStay<T>(mem: seq<T>, log: seq<T>, ds: seq<T>, p: nat)
    requires Mirrors(mem, log) && |ds| <= |mem| && |log| + |ds| - |mem| <= p < |log|
    ensures Overwrite(mem, Slot(|log|, |mem|), ds)[Slot(p, |mem|)] == log[p]
  {
    OneLapBack(|log|, p, |mem|);
    OverwriteAt(mem, Slot(|log|, |mem|), ds, p + |mem| - |log|);
    assert log[p] == mem[Slot(p, |mem|)];
  }

  lemma MirrorsAppend<T>(mem: seq<T>, log: seq<T>, ds: seq<T>)
    requires Mirrors(mem, log) && |ds| <= |mem|
    ensures Mirrors(Overwrite(mem, Slot(|log|, |mem|), ds), log + ds)
  {
    var n, a := |mem|, |log|;
    var h := Slot(a, n);
    var mem' := Overwrite(mem, h, ds);
    forall p | a + |ds| - n <= p < a + |ds| ensures mem'[Slot(p, n)] == (log + ds)[p] {
      if p < a {
        OldEntriesStay(mem, log, ds, p);
      } else {
        Advance(a, p - a, n);
        OverwriteAt(mem, h, ds, p - a);
      }
    }
  }

  /** Replacing the entry at a position still in the ring is one store to its slot. */
  lemma MirrorsUpdate<T>(mem: seq<T>, log: seq<T>, p: nat, x: T)
    requires Mirrors(mem, log) && |log| - |mem| <= p < |log|
    ensures Mirrors(mem[Slot(p, |mem|) := x], log[p := x])
  {
    forall q | |log| - |mem| <= q < |log| ensures mem[Slot(p, |mem|) := x][Slot(q, |mem|)] == log[p := x][q] {
      if q < p {
        SlotsDiffer(q, p, |mem|);
      } else if p < q {
        SlotsDiffer(p, q, |mem|);
      }
    }
  }
}
