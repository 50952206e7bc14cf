/** The 32-bit packet numbers of the sound streams in ViosndWaveRT.cpp. */
module PacketNumbers {
  import opened Rings

  const U32: nat := 0x1_0000_0000
  const MAXULONG: nat := 0xFFFF_FFFF

  function Mod32(x: int): (r: nat)
    ensures r < U32
  {
    x % 0x1_0000_0000
  }

  /** Stepping the 32-bit number on is stepping the count on. */
  lemma NextNumber(number: nat, count: nat, k: nat)
    requires number == Mod32(count)
    ensures Mod32(number + k) == Mod32(count + k)
  {
    var q := (count + k) / 0x1_0000_0000;
    Residue32(number + k, q - count / 0x1_0000_0000, Mod32(count + k));
  }

  /** The 32-bit difference of two numbers is that of their counts. */
  lemma NumberDifference(a: nat, b: nat)
    requires b <= a < b + U32
    ensures Mod32(Mod32(a) - Mod32(b)) == a - b
  {
    Residue32(Mod32(a) - Mod32(b), b / 0x1_0000_0000 - a / 0x1_0000_0000, a - b);
  }

  lemma Residue32(x: int, q: int, r: nat)
    requires x == q * 0x1_0000_0000 + r && r < U32
    ensures Mod32(x) == r
  {
  }

  /** ViosndPacketNumberLessOrEqual: the 32-bit difference, read as a signed number, is not positive. */
  predicate PacketLessOrEqual(left: nat, right: nat) {
    var d := Mod32(left - right);
    d == 0 || d >= 0x8000_0000
  }

  /** It compares the unbounded counts right as long as they are less than 2^31 apart. */
  lemma PacketOrderIsExact(a: nat, b: nat)
    requires -0x8000_0000 <= a - b < 0x8000_0000
    ensures PacketLessOrEqual(Mod32(a), Mod32(b)) <==> a <= b
  {
    var d := a - b;
    assert Mod32(a) - Mod32(b) == d + (b / 0x1_0000_0000 - a / 0x1_0000_0000) * 0x1_0000_0000;
    var q := b / 0x1_0000_0000 - a / 0x1_0000_0000;
    Residue32(Mod32(a) - Mod32(b), if d >= 0 then q else q - 1, if d >= 0 then d else d + U32);
  }

  /** The slot of packet k in a ring of n slots, from the 32-bit number that the driver has. */
  function PacketSlot(k: nat, n: nat): (r: nat)
    requires n > 0
    ensures r < n
  {
    Slot(Mod32(k), n)
  }

  lemma PacketSlotIsSlot(k: nat, n: nat)
    requires n > 0 && (Slot(U32, n) == 0 || k < U32)
    ensures PacketSlot(k, n) == Slot(k, n)
  {
    if k < U32 {
      Residue32(k, 0, k);
    } else {
      SlotIsMod(k, U32);
      NestedSlots(k, U32, n);
    }
  }

  /** Any n packets in a row have slots of their own. */
  ghost predicate SlotsNeverCollide(n: nat)
    requires n > 0
  {
    forall j: nat, k: nat {:trigger PacketSlot(j, n), PacketSlot(k, n)} ::
      j < k < j + n ==> PacketSlot(j, n) != PacketSlot(k, n)
  }

  lemma {:induction false} LastMultiple(p: nat, n: nat)
    requires n > 0
    ensures Slot(p, n) <= p && Slot(p - Slot(p, n), n) == 0
  {
    if p >= n { LastMultiple(p - n, n); }
  }

  /** That is so exactly when the number of slots divides 2^32: otherwise the slots jump when the packet
      number wraps, and packet 2^32 falls on one that came less than n packets before. */
  lemma CollisionFreeIffDivides(n: nat)
    requires n > 0
    ensures SlotsNeverCollide(n) <==> Slot(U32, n) == 0
  {
    if Slot(U32, n) == 0 {
      forall j: nat, k: nat | j < k < j + n ensures PacketSlot(j, n) != PacketSlot(k, n) {
        PacketSlotIsSlot(j, n);
        PacketSlotIsSlot(k, n);
        SlotsDiffer(j, k, n);
      }
    } else {
      LastMultiple(U32, n);
      var j := U32 - Slot(U32, n);
      Residue32(j, 0, j);
      Residue32(U32, 1, 0);
      assert PacketSlot(j, n) == PacketSlot(U32, n) && j < U32 < j + n;
    }
  }
}
