/** Where vring_init puts the three parts of a split ring in its memory, against vring_size_split (section
    2.6 of VIRTIO 1.1). */
module SplitLayout {
  import opened Rings

  const DESC_SIZE: nat := 16
  const USED_ELEM_SIZE: nat := 8

  /** x & ~mask, bit by bit.  The mask is as wide as x: for an address the source widens it to a ULONG_PTR, and
      a ring's size has no more bits than an unsigned long. */
  function Clear(x: nat, mask: nat): nat {
    if x == 0 then 0 else 2 * Clear(x / 2, mask / 2) + if x % 2 == 1 && mask % 2 == 0 then 1 else 0
  }

  function Pow2(k: nat): (p: nat)
    ensures p > 0
  {
    if k == 0 then 1 else 2 * Pow2(k - 1)
  }

  /** Clearing the low k bits rounds down to the multiple of a power of two. */
  lemma {:induction false} ClearRoundsDown(x: nat, k: nat)
    ensures Clear(x, Pow2(k) - 1) == x - x % Pow2(k)
  {
    hide Clear;
    if k == 0 {
      ClearNothing(x);
    } else {
      ClearRoundsDown(x / 2, k - 1);
      ClearTwice(x, Pow2(k - 1));
    }
  }

  lemma ClearTwice(x: nat, p: nat)
    requires p > 0 && Clear(x / 2, p - 1) == x / 2 - x / 2 % p
    ensures Clear(x, 2 * p - 1) == x - x % (2 * p)
  {
    hide Clear;
    ClearStep(x, p);
    ModTwice(x, p);
    assert x == 2 * (x / 2) + x % 2;
  }

  lemma ClearStep(x: nat, p: nat)
    requires p > 0
    ensures Clear(x, 2 * p - 1) == 2 * Clear(x / 2, p - 1)
  {
    assert (2 * p - 1) % 2 == 1 && (2 * p - 1) / 2 == p - 1;
  }

  lemma ModTwice(x: nat, p: nat)
    requires p > 0
    ensures x % (2 * p) == 2 * (x / 2 % p) + x % 2
  {
    var h := x / 2;
    var q, r := h / p, h % p;
    assert h == q * p + r;
    DivModUnique(x, q, 2 * r + x % 2, 2 * p);
  }

  lemma {:induction false} ClearNothing(x: nat)
    ensures Clear(x, 0) == x
  {
    if x != 0 { ClearNothing(x / 2); }
  }

  /** vring_init and vring_size_split round up to a multiple of align with a mask. */
  function AlignUp(x: nat, align: nat): nat
    requires align > 0
  {
    Clear(x + align - 1, align - 1)
  }

  ghost predicate IsPow2(align: nat) {
    exists k: nat :: align == Pow2(k)
  }

  lemma AlignUpIs(x: nat, align: nat)
    requires IsPow2(align)
    ensures align > 0 && AlignUp(x, align) == x + align - 1 - (x + align - 1) % align
  {
    var k: nat :| align == Pow2(k);
    ClearRoundsDown(x + align - 1, k);
  }

  /** The parts in bytes: [from, to). */
  datatype Part = Part(from: nat, to: nat)

  datatype Layout = Layout(desc: Part, avail: Part, usedEvent: Part, used: Part, availEvent: Part)

  /** vring_init at address base; the event words are the ring entries number num. */
  function Init(num: nat, base: nat, align: nat): Layout
    requires align > 0
  {
    var avail := base + num * DESC_SIZE;
    var availEnd := avail + 4 + 2 * num;
    var used := AlignUp(availEnd + 2, align);
    var usedEnd := used + 4 + num * USED_ELEM_SIZE;
    Layout(Part(base, avail), Part(avail, availEnd), Part(availEnd, availEnd + 2),
           Part(used, usedEnd), Part(usedEnd, usedEnd + 2))
  }

  /** vring_size_split. */
  function Size(num: nat, align: nat): nat
    requires align > 0
  {
    AlignUp(DESC_SIZE * num + 2 * (3 + num), align) + 2 * 3 + USED_ELEM_SIZE * num
  }

  lemma ModShift(x: nat, base: nat, align: nat)
    requires align > 0 && base % align == 0
    ensures (x + base) % align == x % align
  {
    var k := base / align;
    assert base == k * align;
    var q, r := x / align, x % align;
    assert x + base == (q + k) * align + r;
    DivModUnique(x + base, q + k, r, align);
  }

  lemma AlignUpShift(x: nat, base: nat, align: nat)
    requires IsPow2(align) && align > 0 && base % align == 0
    ensures AlignUp(base + x, align) == base + AlignUp(x, align) && x <= AlignUp(x, align)
  {
    hide Clear;
    AlignUpIs(x, align);
    AlignUpIs(base + x, align);
    ModShift(x + align - 1, base, align);
  }

  /** The parts follow one another: descriptors, avail ring with used_event right behind it, and - from the next
      multiple of the alignment on - used ring with avail_event right behind it.  Its last byte is the last byte of
      the size that the driver allocates - for every queue size and power of two to align to. */
  lemma LayoutFitsExactly(num: nat, base: nat, align: nat)
    requires align > 0 && IsPow2(align) && base % align == 0
    ensures var l := Init(num, base, align);
      && l.desc == Part(base, base + 16 * num)
      && l.avail == Part(l.desc.to, l.desc.to + 4 + 2 * num) && l.usedEvent == Part(l.avail.to, l.avail.to + 2)
      && l.usedEvent.to <= l.used.from < l.usedEvent.to + align && l.used.from % align == 0
      && l.used.to == l.used.from + 4 + 8 * num && l.availEvent == Part(l.used.to, l.used.to + 2)
      && l.availEvent.to == base + Size(num, align)
  {
    hide AlignUp;
    var x := num * DESC_SIZE + 4 + 2 * num + 2;
    assert x == DESC_SIZE * num + 2 * (3 + num);
    assert Init(num, base, align).used.from == AlignUp(base + x, align);
    AlignUpShift(x, base, align);
    AlignUpIs(base + x, align);
    Aligned(base + x, align);
  }

  lemma Aligned(x: nat, align: nat)
    requires align > 0 && IsPow2(align)
    ensures AlignUp(x, align) % align == 0
  {
    hide Clear;
    AlignUpIs(x, align);
    var y := x + align - 1;
    var q := y / align;
    assert y - y % align == q * align;
    DivModUnique(q * align, q, 0, align);
  }
}
