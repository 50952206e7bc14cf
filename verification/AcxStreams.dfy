/** The streams of ViosndAcxCircuit.cpp: a ring of packets ready for rendering, and periods of DMA memory
    that are in flight in a transmit or receive queue. */
module AcxStreams {
  import opened Queues
  import opened Rings

  // ----- the ready ring

  /** Queueing a packet in a queue of at most cap: the oldest makes way. */
  function Queued(s: seq<nat>, packet: nat, cap: nat): seq<nat> {
    Newest(cap, s + [packet])
  }

  function QueuedAll(s: seq<nat>, packets: seq<nat>, cap: nat): seq<nat> {
    if packets == [] then s else Queued(QueuedAll(s, packets[..|packets| - 1], cap), packets[|packets| - 1], cap)
  }

  lemma NewestNext(n: nat, s: seq<nat>, packet: nat)
    ensures Queued(Newest(n, s), packet, n) == Newest(n, s + [packet])
  {
  }

  /** Whatever is queued, the newest packets stay. */
  lemma {:induction false} QueuedAllIsNewest(s: seq<nat>, packets: seq<nat>, cap: nat)
    requires |s| <= cap
    ensures QueuedAll(s, packets, cap) == Newest(cap, s + packets)
  {
    if packets == [] {
      assert s + packets == s;
    } else {
      var n := |packets| - 1;
      hide Newest, Queued;
      QueuedAllIsNewest(s, packets[..n], cap);
      NewestNext(cap, s + packets[..n], packets[n]);
      assert s + packets == s + packets[..n] + [packets[n]];
    }
  }

  /** The pump peeks at a packet, submits it and pops in a critical section of its own.  The pop removes
      that very packet exactly if the packets queued meanwhile fitted: after an overflow it removes one
      that was not submitted. */
  lemma PopTakesThePeekedIff(s: seq<nat>, meanwhile: seq<nat>, cap: nat)
    requires 0 < |s| <= cap
    ensures QueuedAll(s, meanwhile, cap) != []
    ensures QueuedAll(s, meanwhile, cap)[1..] == (s + meanwhile)[1..] <==> |s| + |meanwhile| <= cap
  {
    QueuedAllIsNewest(s, meanwhile, cap);
  }

  /** The ring of n slots holds s from slot head on. */
  ghost predicate RingHolds(mem: seq<nat>, head: nat, s: seq<nat>) {
    && head < |mem| && |s| <= |mem|
    && forall i {:trigger s[i]} :: 0 <= i < |s| ==> mem[Forward(head, i, |mem|)] == s[i]
  }

  lemma RingAppends(mem: seq<nat>, head: nat, s: seq<nat>, packet: nat)
    requires RingHolds(mem, head, s) && |s| < |mem|
    ensures var tail := Forward(head, |s|, |mem|);
      tail < |mem| && RingHolds(mem[tail := packet], head, s + [packet])
      && Forward(tail, 1, |mem|) == Forward(head, |s| + 1, |mem|)
  {
  }

  class ReadyRing {
    const queue: array<nat>
    var head: nat
    var tail: nat
    var count: nat
    var xruns: nat
    ghost var contents: seq<nat>

    ghost predicate Valid()
      reads this, queue
    {
      && queue.Length > 0 && count == |contents| && RingHolds(queue[..], head, contents)
      && tail == Forward(head, count, queue.Length)
    }

    constructor (capacity: nat)
      requires capacity > 0
      ensures Valid() && contents == [] && queue.Length == capacity && fresh(queue)
    {
      queue := new nat[capacity];
      head, tail, count, xruns, contents := 0, 0, 0, 0, [];
    }

    method DropOldest()
      requires Valid() && count != 0
      modifies `head, `count, `contents
      ensures Valid() && contents == old(contents)[1..]
    {
      head := Forward(head, 1, queue.Length);
      count := count - 1;
      contents := contents[1..];
      assert forall i :: 0 <= i < |contents| ==> contents[i] == old(contents)[i + 1];
    }

    /** ViosndQueueRenderPacket; a packet that it drops counts as an overrun. */
    method QueueRenderPacket(packet: nat)
      requires Valid()
      modifies this, queue
      ensures Valid() && contents == Queued(old(contents), packet, queue.Length)
      ensures contents == (if old(|contents|) == queue.Length then old(contents)[1..] else old(contents)) + [packet]
      ensures xruns == old(xruns) + |old(contents)| + 1 - |contents|
    {
      if count >= queue.Length {
        DropOldest();
        xruns := xruns + 1;
      }
      hide RingHolds, Forward;
      RingAppends(queue[..], head, contents, packet);
      queue[tail] := packet;
      tail := Forward(tail, 1, queue.Length);
      count := count + 1;
      contents := contents + [packet];
    }

    method PeekRenderPacket() returns (packet: Option<nat>)
      requires Valid()
      ensures packet == if contents == [] then None else Some(contents[0])
    {
      packet := if count != 0 then Some(queue[head]) else None;
      assert contents != [] ==> queue[..][Forward(head, 0, queue.Length)] == contents[0];
    }

    method PopRenderPacket()
      requires Valid()
      modifies `head, `count, `contents
      ensures Valid() && contents == if old(contents) == [] then [] else old(contents)[1..]
    {
      if count != 0 {
        DropOldest();
      }
    }

    method ClearRenderQueue()
      requires Valid()
      modifies `head, `tail, `count, `contents
      ensures Valid() && contents == []
    {
      head, tail, count, contents := 0, 0, 0, [];
    }
  }

  // ----- the periods

  datatype Period = Period(packetNumber: nat, inFlight: bool)

  /** The flag of a period is set exactly if the queue holds it, and the queue holds nothing twice. */
  ghost predicate FlagsExact(ps: seq<Period>, v: Vq, cost: nat) {
    && VqOk(v)
    && (forall e :: e in v.queue.inFlight ==> e == Entry(e.token, cost) && e.token < |ps|)
    && (forall i :: 0 <= i < |ps| ==> v.queue.inFlight[Entry(i, cost)] == if ps[i].inFlight then 1 else 0)
  }

  lemma SubmitSets(ps: seq<Period>, v: Vq, cost: nat, i: nat, packet: nat)
    requires FlagsExact(ps, v, cost) && i < |ps| && !ps[i].inFlight && CanAdd(v, cost)
    ensures FlagsExact(ps[i := Period(packet, true)], AddBuf(v, Entry(i, cost)), cost)
  {
    VqSteps(v, i, cost);
  }

  lemma ReturnClears(ps: seq<Period>, v: Vq, cost: nat)
    requires FlagsExact(ps, v, cost) && v.returned != []
    ensures var i := v.returned[0].token;
      && i < |ps| && ps[i].inFlight && v.returned[0] == Entry(i, cost)
      && FlagsExact(ps[i := ps[i].(inFlight := false)], GetBuf(v), cost)
  {
    var e := v.returned[0];
    VqSteps(v, e.token, cost);
    assert e in multiset(v.returned) && e in v.queue.inFlight;
  }

  /** The first period that is not in flight, or the number of periods. */
  function FirstIdle(ps: seq<Period>): (i: nat)
    ensures i <= |ps| && (i < |ps| ==> !ps[i].inFlight)
    ensures forall j :: 0 <= j < i ==> ps[j].inFlight
  {
    if ps == [] || !ps[0].inFlight then 0 else 1 + FirstIdle(ps[1..])
  }

  lemma {:induction false} FirstIdleIs(ps: seq<Period>, i: nat)
    requires i <= |ps| && (i < |ps| ==> !ps[i].inFlight) && forall j :: 0 <= j < i ==> ps[j].inFlight
    ensures FirstIdle(ps) == i
  {
    if i > 0 { FirstIdleIs(ps[1..], i - 1); }
  }

  /** The count of completed packets after one of this number. */
  function CountedUp(completed: nat, number: nat): nat {
    if number + 1 > completed then number + 1 else completed
  }

  function Highest(completed: nat, numbers: seq<nat>): nat {
    if numbers == [] then completed
    else CountedUp(Highest(completed, numbers[..|numbers| - 1]), numbers[|numbers| - 1])
  }

  /** It is the maximum: no number counted is above it, and one of them attains it if any raised it. */
  lemma {:induction false} HighestIsMaximum(completed: nat, numbers: seq<nat>)
    ensures Highest(completed, numbers) >= completed
    ensures forall k :: 0 <= k < |numbers| ==> numbers[k] < Highest(completed, numbers)
    ensures Highest(completed, numbers) == completed
         || exists k :: 0 <= k < |numbers| && Highest(completed, numbers) == numbers[k] + 1
  {
    if numbers != [] {
      var n := |numbers| - 1;
      HighestIsMaximum(completed, numbers[..n]);
      forall k | 0 <= k < |numbers| ensures numbers[k] < Highest(completed, numbers) {
        if k < n { assert numbers[k] == numbers[..n][k]; }
      }
      if Highest(completed, numbers) != completed && Highest(completed, numbers) != numbers[n] + 1 {
        var k :| 0 <= k < n && Highest(completed, numbers[..n]) == numbers[..n][k] + 1;
        assert numbers[k] == numbers[..n][k];
      }
    }
  }

  lemma HighestNext(completed: nat, numbers: seq<nat>, number: nat)
    ensures Highest(completed, numbers + [number]) == CountedUp(Highest(completed, numbers), number)
  {
    assert (numbers + [number])[..|numbers|] == numbers;
  }

  // ----- submissions between the return of a period and its count

  /** ViosndSubmitRenderPacket: in the first idle period - which gets the number even if the queue is full. */
  function Submitted(ps: seq<Period>, v: Vq, cost: nat, packet: nat): (r: (seq<Period>, Vq))
    ensures |r.0| == |ps| && r.1.returned == v.returned
  {
    var i := FirstIdle(ps);
    if i == |ps| then (ps, v)
    else if CanAdd(v, cost) then (ps[i := Period(packet, true)], AddBuf(v, Entry(i, cost)))
    else (ps[i := Period(packet, false)], v)
  }

  function SubmittedAll(ps: seq<Period>, v: Vq, cost: nat, packets: seq<nat>): (r: (seq<Period>, Vq))
    ensures |r.0| == |ps| && r.1.returned == v.returned
    decreases |packets|
  {
    if packets == [] then (ps, v)
    else
      var (ps1, v1) := Submitted(ps, v, cost, packets[0]);
      SubmittedAll(ps1, v1, cost, packets[1..])
  }

  /** How many periods below i are idle. */
  function IdleBelow(ps: seq<Period>, i: nat): nat
    requires i <= |ps|
  {
    if i == 0 then 0 else IdleBelow(ps, i - 1) + if ps[i - 1].inFlight then 0 else 1
  }

  lemma {:induction false} NoneBelow(ps: seq<Period>, i: nat)
    requires i < |ps| && !ps[i].inFlight
    ensures FirstIdle(ps) <= i && (IdleBelow(ps, i) == 0 <==> FirstIdle(ps) == i)
  {
    SomeBelow(ps, i);
    if FirstIdle(ps) < i { SomeBelow(ps, FirstIdle(ps) + 1); BelowGrows(ps, FirstIdle(ps) + 1, i); }
  }

  lemma {:induction false} SomeBelow(ps: seq<Period>, i: nat)
    requires i <= |ps|
    ensures (forall j :: 0 <= j < i ==> ps[j].inFlight) ==> IdleBelow(ps, i) == 0
    ensures i > 0 && !ps[i - 1].inFlight ==> IdleBelow(ps, i) > 0
  {
    if i > 0 { SomeBelow(ps, i - 1); }
  }

  lemma {:induction false} BelowGrows(ps: seq<Period>, i: nat, j: nat)
    requires i <= j <= |ps|
    ensures IdleBelow(ps, i) <= IdleBelow(ps, j)
  {
    if i < j { BelowGrows(ps, i, j - 1); }
  }

  lemma {:induction false} OneTaken(ps: seq<Period>, f: nat, packet: nat, inFlight: bool, i: nat)
    requires f < |ps| && i <= |ps| && !ps[f].inFlight
    ensures IdleBelow(ps[f := Period(packet, inFlight)], i) == IdleBelow(ps, i) - if inFlight && f < i then 1 else 0
  {
    if i > 0 { OneTaken(ps, f, packet, inFlight, i - 1); }
  }

  /** The descriptors that so many periods take. */
  function Room(periods: nat, cost: nat): nat {
    periods * cost
  }

  /** The submissions stay below period i: there are no more of them than idle periods there, or the queue is
      full before. */
  predicate StayBelow(ps: seq<Period>, v: Vq, cost: nat, packets: seq<nat>, i: nat)
    requires i <= |ps|
  {
    |packets| <= IdleBelow(ps, i) || v.queue.free < Room(IdleBelow(ps, i), cost)
  }

  lemma OneFewerTimes(n: nat, cost: nat)
    requires n > 0
    ensures Room(n, cost) == Room(n - 1, cost) + cost
  {
  }

  lemma FirstStaysBelow(ps: seq<Period>, v: Vq, cost: nat, packets: seq<nat>, i: nat)
    requires i < |ps| && !ps[i].inFlight && packets != [] && IdleBelow(ps, i) > 0
    ensures var (ps1, v1) := Submitted(ps, v, cost, packets[0]);
      ps1[i] == ps[i] && (StayBelow(ps1, v1, cost, packets[1..], i) <==> StayBelow(ps, v, cost, packets, i))
  {
    hide Room, IdleBelow;
    NoneBelow(ps, i);
    OneTaken(ps, FirstIdle(ps), packets[0], CanAdd(v, cost), i);
    OneFewerTimes(IdleBelow(ps, i), cost);
  }

  lemma {:induction false} PeriodStays(ps: seq<Period>, v: Vq, cost: nat, packets: seq<nat>, i: nat)
    requires i < |ps| && !ps[i].inFlight && StayBelow(ps, v, cost, packets, i)
    ensures SubmittedAll(ps, v, cost, packets).0[i] == ps[i]
    decreases |packets|
  {
    if packets != [] {
      FirstStaysBelow(ps, v, cost, packets, i);
      var (ps1, v1) := Submitted(ps, v, cost, packets[0]);
      PeriodStays(ps1, v1, cost, packets[1..], i);
    }
  }

  /** Once it has the number of one of them, it never gets back its own. */
  lemma {:induction false} NumberIsTheirs(ps: seq<Period>, v: Vq, cost: nat, packets: seq<nat>, i: nat,
                                          theirs: seq<nat>)
    requires i < |ps| && ps[i].packetNumber in theirs && forall p :: p in packets ==> p in theirs
    ensures SubmittedAll(ps, v, cost, packets).0[i].packetNumber in theirs
    decreases |packets|
  {
    if packets != [] {
      var (ps1, v1) := Submitted(ps, v, cost, packets[0]);
      NumberIsTheirs(ps1, v1, cost, packets[1..], i, theirs);
    }
  }

  lemma {:induction false} PeriodIsOvertaken(ps: seq<Period>, v: Vq, cost: nat, packets: seq<nat>, i: nat)
    requires i < |ps| && !ps[i].inFlight && !StayBelow(ps, v, cost, packets, i)
    ensures SubmittedAll(ps, v, cost, packets).0[i].packetNumber in packets
    decreases |packets|
  {
    var (ps1, v1) := Submitted(ps, v, cost, packets[0]);
    if IdleBelow(ps, i) == 0 {
      NoneBelow(ps, i);
      NumberIsTheirs(ps1, v1, cost, packets[1..], i, packets);
    } else {
      FirstStaysBelow(ps, v, cost, packets, i);
      PeriodIsOvertaken(ps1, v1, cost, packets[1..], i);
    }
  }

  /** Period i was returned and is idle again.  After submissions of other packets it still has its number if
      and only if they stay below it, by the periods that were idle and the room that was in the queue. */
  lemma NumberStaysIff(ps: seq<Period>, v: Vq, cost: nat, packets: seq<nat>, i: nat)
    requires i < |ps| && !ps[i].inFlight && ps[i].packetNumber !in packets
    ensures SubmittedAll(ps, v, cost, packets).0[i].packetNumber == ps[i].packetNumber
       <==> StayBelow(ps, v, cost, packets, i)
  {
    if StayBelow(ps, v, cost, packets, i) {
      PeriodStays(ps, v, cost, packets, i);
    } else {
      PeriodIsOvertaken(ps, v, cost, packets, i);
    }
  }

  /** A period that the drain took from the queue: the state just after, and the packets that were submitted
      before it was counted. */
  datatype Round = Round(i: nat, ps: seq<Period>, v: Vq, packets: seq<nat>)

  /** The number that is counted for it. */
  function NumberRead(r: Round, cost: nat): nat
    requires r.i < |r.ps|
  {
    SubmittedAll(r.ps, r.v, cost, r.packets).0[r.i].packetNumber
  }

  function NumbersRead(rs: seq<Round>, cost: nat): seq<nat>
    requires forall k :: 0 <= k < |rs| ==> rs[k].i < |rs[k].ps|
  {
    seq(|rs|, k requires 0 <= k < |rs| => NumberRead(rs[k], cost))
  }

  /** Periods and queue after the rounds rs. */
  function EndOf(ps: seq<Period>, q: Queue, rs: seq<Round>, cost: nat): (seq<Period>, Queue) {
    if rs == [] then (ps, q)
    else
      var r := rs[|rs| - 1];
      var x := SubmittedAll(r.ps, r.v, cost, r.packets);
      (x.0, x.1.queue)
  }

  /** Each round starts where the one before it ended, and takes one period out of the queue. */
  ghost predicate Follow(ps: seq<Period>, q: Queue, rs: seq<Round>, cost: nat) {
    rs == [] || (
      var r, n := rs[|rs| - 1], |rs| - 1;
      && Follow(ps, q, rs[..n], cost)
      && var (ps1, q1) := EndOf(ps, q, rs[..n], cost);
      && r.i < |ps1| && ps1[r.i].inFlight && r.ps == ps1[r.i := ps1[r.i].(inFlight := false)]
      && Entry(r.i, cost) in q1.inFlight && r.v.queue == Remove(q1, Entry(r.i, cost)))
  }

  lemma RoundFollows(ps: seq<Period>, q: Queue, rs: seq<Round>, r: Round, cost: nat)
    requires Follow(ps, q, rs, cost)
    requires var (ps1, q1) := EndOf(ps, q, rs, cost);
      && r.i < |ps1| && ps1[r.i].inFlight && r.ps == ps1[r.i := ps1[r.i].(inFlight := false)]
      && Entry(r.i, cost) in q1.inFlight && r.v.queue == Remove(q1, Entry(r.i, cost))
    ensures Follow(ps, q, rs + [r], cost)
    ensures var x := SubmittedAll(r.ps, r.v, cost, r.packets); EndOf(ps, q, rs + [r], cost) == (x.0, x.1.queue)
  {
    assert (rs + [r])[..|rs|] == rs;
  }

  /** What should be counted. */
  function NumbersTaken(rs: seq<Round>): seq<nat>
    requires forall k :: 0 <= k < |rs| ==> rs[k].i < |rs[k].ps|
  {
    seq(|rs|, k requires 0 <= k < |rs| => rs[k].ps[rs[k].i].packetNumber)
  }

  /** So a drain counts the packets that came back, if in every round the submissions stay below. */
  lemma DrainIsRight(rs: seq<Round>, cost: nat)
    requires forall k :: 0 <= k < |rs| ==>
      var r := rs[k]; r.i < |r.ps| && !r.ps[r.i].inFlight && StayBelow(r.ps, r.v, cost, r.packets, r.i)
    ensures NumbersRead(rs, cost) == NumbersTaken(rs)
  {
    forall k | 0 <= k < |rs| ensures NumbersRead(rs, cost)[k] == NumbersTaken(rs)[k] {
      PeriodStays(rs[k].ps, rs[k].v, cost, rs[k].packets, rs[k].i);
    }
  }

  /** A run in which the count is wrong: the one period comes back with packet 5, packet 9 is submitted in it,
      and then packet 9 is counted as completed, while the queue holds it. */
  lemma OvertakenIsCounted(free: nat, completed: nat)
    requires free >= 2 && completed <= 5
    ensures var r := Round(0, [Period(5, false)], Vq(Queue(free, multiset{}), []), [9]);
      && FlagsExact(r.ps, r.v, 2) && Highest(completed, NumbersRead([r], 2)) == 10
      && SubmittedAll(r.ps, r.v, 2, r.packets)
         == ([Period(9, true)], Vq(Queue(free - 2, multiset{Entry(0, 2)}), []))
  {
    var ps, v := [Period(5, false)], Vq(Queue(free, multiset{}), []);
    assert ps[0 := Period(9, true)] == [Period(9, true)] && [9][1..] == [];
    assert Submitted(ps, v, 2, 9) == ([Period(9, true)], AddBuf(v, Entry(0, 2)));
    assert AddBuf(v, Entry(0, 2)).queue.inFlight == multiset{Entry(0, 2)};
    assert SubmittedAll(ps, v, 2, [9]) == SubmittedAll([Period(9, true)], AddBuf(v, Entry(0, 2)), 2, []);
    assert NumbersRead([Round(0, ps, v, [9])], 2) == [9];
    HighestNext(completed, [], 9);
  }

  // ----- the capture side

  /** The number that period t carries after the first k of the periods es were queued again for the packets
      from `next` on. */
  function Carries(ps: seq<Period>, es: seq<Entry>, k: nat, next: nat, t: nat): nat
    requires k <= |es| && t < |ps|
  {
    if k == 0 then ps[t].packetNumber
    else if es[k - 1].token == t then next + k - 1
    else Carries(ps, es, k - 1, next, t)
  }

  /** A period carries the number of the packet that it was queued for last: the j-th that came back is queued for
      packet next + j. */
  lemma {:induction false} LastTurnCounts(ps: seq<Period>, es: seq<Entry>, k: nat, next: nat, j: nat)
    requires j < k <= |es| && es[j].token < |ps|
    requires forall l :: j < l < k ==> es[l].token != es[j].token
    ensures Carries(ps, es, k, next, es[j].token) == next + j
  {
    if j < k - 1 { LastTurnCounts(ps, es, k - 1, next, j); }
  }

  lemma {:induction false} CarriesPrefix(ps: seq<Period>, es: seq<Entry>, more: seq<Entry>, k: nat, next: nat, t: nat)
    requires k <= |es| && t < |ps|
    ensures Carries(ps, es + more, k, next, t) == Carries(ps, es, k, next, t)
  {
    if k > 0 { CarriesPrefix(ps, es, more, k - 1, next, t); }
  }

  /** What the periods carry after the first k of es came back, and went to the queue again if the stream runs. */
  ghost predicate CarriesAll(ps: seq<Period>, ps0: seq<Period>, es: seq<Entry>, k: nat, next: nat, running: bool) {
    && |ps| == |ps0| && k <= |es|
    && forall t :: 0 <= t < |ps| ==> ps[t].packetNumber == Carries(ps0, es, if running then k else 0, next, t)
  }

  /** The numbers of the first k of the periods es when they came back. */
  function Carried(ps: seq<Period>, es: seq<Entry>, k: nat, next: nat, running: bool): seq<nat>
    requires k <= |es| && forall j :: 0 <= j < |es| ==> es[j].token < |ps|
  {
    seq(k, j requires 0 <= j < k => Carries(ps, es, if running then j else 0, next, es[j].token))
  }

  /** The queue after the first k of es came back. */
  ghost predicate QueueAfter(q0: Queue, q: Queue, es: seq<Entry>, k: nat, running: bool)
    requires k <= |es|
  {
    if running then q == q0 else q0.inFlight == q.inFlight + multiset(es[..k])
  }

  lemma QueueNext(q0: Queue, v: Vq, es: seq<Entry>, k: nat)
    requires VqOk(v) && v.returned != [] && k < |es| && v.returned == es[k..]
    requires QueueAfter(q0, v.queue, es, k, false)
    ensures QueueAfter(q0, GetBuf(v).queue, es, k + 1, false)
  {
    var e := v.returned[0];
    assert e in multiset(v.returned);
    assert v.queue.inFlight == GetBuf(v).queue.inFlight + multiset{e};
    assert es[..k + 1] == es[..k] + [e];
  }

  lemma CarriesNothing(ps: seq<Period>, q: Queue, es: seq<Entry>, next: nat, completed: nat, running: bool)
    requires forall j :: 0 <= j < |es| ==> es[j].token < |ps|
    ensures CarriesAll(ps, ps, es, 0, next, running) && QueueAfter(q, q, es, 0, running)
    ensures Highest(completed, Carried(ps, es, 0, next, running)) == completed
  {
  }

  lemma CarriesNext(ps: seq<Period>, ps0: seq<Period>, es: seq<Entry>, k: nat, next: nat, completed: nat, running: bool)
    requires k < |es| && CarriesAll(ps, ps0, es, k, next, running)
    requires forall j :: 0 <= j < |es| ==> es[j].token < |ps0|
    ensures var i := es[k].token;
      && CarriesAll(ps[i := if running then Period(next + k, true) else ps[i].(inFlight := false)],
                    ps0, es, k + 1, next, running)
      && Highest(completed, Carried(ps0, es, k + 1, next, running))
         == CountedUp(Highest(completed, Carried(ps0, es, k, next, running)), ps[i].packetNumber)
  {
    var n := ps[es[k].token].packetNumber;
    assert Carried(ps0, es, k + 1, next, running) == Carried(ps0, es, k, next, running) + [n];
    HighestNext(completed, Carried(ps0, es, k, next, running), n);
  }

  lemma CarriesMore(ps: seq<Period>, ps0: seq<Period>, q0: Queue, q: Queue, es: seq<Entry>, more: seq<Entry>, k: nat,
                    next: nat, running: bool)
    requires k <= |es| && (forall j :: 0 <= j < |es| ==> es[j].token < |ps0|)
    requires forall j :: 0 <= j < |more| ==> more[j].token < |ps0|
    requires CarriesAll(ps, ps0, es, k, next, running) && QueueAfter(q0, q, es, k, running)
    ensures forall j :: 0 <= j < |es + more| ==> (es + more)[j].token < |ps0|
    ensures CarriesAll(ps, ps0, es + more, k, next, running) && QueueAfter(q0, q, es + more, k, running)
    ensures Carried(ps0, es + more, k, next, running) == Carried(ps0, es, k, next, running)
    ensures (es + more)[k..] == es[k..] + more
  {
    assert (es + more)[..k] == es[..k];
    forall t, j | 0 <= t < |ps0| && 0 <= j <= k
      ensures Carries(ps0, es + more, j, next, t) == Carries(ps0, es, j, next, t)
    {
      CarriesPrefix(ps0, es, more, j, next, t);
    }
  }

  /** The period of es[j] does not come back again. */
  ghost predicate LastReturn(es: seq<Entry>, j: nat)
    requires j < |es|
  {
    forall l :: j < l < |es| ==> es[l].token != es[j].token
  }

  lemma InTurn(ps: seq<Period>, ps0: seq<Period>, es: seq<Entry>, next: nat)
    requires CarriesAll(ps, ps0, es, |es|, next, true) && forall j :: 0 <= j < |es| ==> es[j].token < |ps0|
    ensures forall j :: 0 <= j < |es| && LastReturn(es, j) ==> ps[es[j].token].packetNumber == next + j
  {
    forall j | 0 <= j < |es| && LastReturn(es, j)
      ensures ps[es[j].token].packetNumber == next + j
    {
      LastTurnCounts(ps0, es, |es|, next, j);
    }
  }

  lemma ReturnedIsHeld(ps: seq<Period>, v: Vq, cost: nat)
    requires FlagsExact(ps, v, cost) && v.returned != []
    ensures v.returned[0] in v.queue.inFlight
  {
    assert v.returned[0] in multiset(v.returned);
  }

  lemma NothingReturned(ps: seq<Period>, v: Vq, cost: nat)
    requires FlagsExact(ps, v, cost)
    ensures VqOk(v) && DeviceReturns(v, v)
  {
  }

  class AcxStream {
    const periods: array<Period>
    /** Two elements for a transmit buffer, three for a receive buffer. */
    const cost: nat
    var vq: Vq
    var packetsCompleted: nat
    var xruns: nat
    var running: bool
    var nextCapturePacket: nat

    ghost predicate Valid()
      reads this, periods
    {
      FlagsExact(periods[..], vq, cost)
    }

    /** ViosndSubmitRenderPacket: in the first idle period. */
    method SubmitRenderPacket(packet: nat) returns (ok: bool)
      requires Valid()
      modifies periods, `vq
      ensures Valid() && (ok <==> FirstIdle(old(periods[..])) < periods.Length && CanAdd(old(vq), cost))
      ensures (periods[..], vq) == Submitted(old(periods[..]), old(vq), cost, packet)
    {
      var i := 0;
      while i < periods.Length && periods[i].inFlight
        invariant 0 <= i <= periods.Length && forall j :: 0 <= j < i ==> periods[j].inFlight
      {
        i := i + 1;
      }
      FirstIdleIs(periods[..], i);
      if i == periods.Length {
        return false;
      }
      ok := SubmitPeriod(i, packet);
    }

    /** The part of a submission that both directions share: the period is prepared, and in flight if the
        queue takes it. */
    method SubmitPeriod(i: nat, packet: nat) returns (ok: bool)
      requires Valid() && i < periods.Length && !periods[i].inFlight
      modifies periods, `vq
      ensures Valid() && (ok <==> CanAdd(old(vq), cost))
      ensures periods[..] == old(periods[..])[i := Period(packet, ok)]
      ensures vq == if ok then AddBuf(old(vq), Entry(i, cost)) else old(vq)
    {
      periods[i] := periods[i].(packetNumber := packet);
      ok := CanAdd(vq, cost);
      if ok {
        SubmitSets(periods[..], vq, cost, i, packet);
        vq := AddBuf(vq, Entry(i, cost));
        periods[i] := periods[i].(inFlight := true);
      }
    }

    /** ViosndSubmitCapturePeriod: no period is queued twice. */
    method SubmitCapturePeriod(i: nat, packet: nat) returns (ok: bool)
      requires Valid() && i < periods.Length
      modifies periods, `vq
      ensures Valid() && (ok <==> !old(periods[i].inFlight) && CanAdd(old(vq), cost))
      ensures periods[..]
           == if old(periods[i].inFlight) then old(periods[..]) else old(periods[..])[i := Period(packet, ok)]
      ensures vq == if ok then AddBuf(old(vq), Entry(i, cost)) else old(vq)
    {
      if periods[i].inFlight {
        return false;
      }
      ok := SubmitPeriod(i, packet);
    }

    /** The locked part of the drain: one buffer from the queue, whose period is idle again. */
    method Take() returns (i: nat)
      requires Valid() && vq.returned != []
      modifies periods, `vq
      ensures Valid() && i == old(vq.returned[0].token) < periods.Length && old(periods[i].inFlight)
      ensures old(vq.returned[0]) == Entry(i, cost) && VqOk(old(vq))
      ensures vq == GetBuf(old(vq)) && periods[..] == old(periods[..])[i := Period(old(periods[i].packetNumber), false)]
    {
      ReturnClears(periods[..], vq, cost);
      i := vq.returned[0].token;
      ghost var ps := periods[..];
      vq := GetBuf(vq);
      periods[i] := periods[i].(inFlight := false);
      assert periods[..] == ps[i := ps[i].(inFlight := false)];
    }

    /** The part after it, without the lock: the period counts as completed by the number it has now. */
    method Count(i: nat, statusOk: bool)
      requires i < periods.Length
      modifies `packetsCompleted, `xruns
      ensures packetsCompleted == CountedUp(old(packetsCompleted), periods[i].packetNumber)
      ensures xruns == old(xruns) + if statusOk then 0 else 1
    {
      if !statusOk {
        xruns := xruns + 1;
      }
      if periods[i].packetNumber + 1 > packetsCompleted {
        packetsCompleted := periods[i].packetNumber + 1;
      }
    }

    /** The packets that another processor submits meanwhile. */
    method Pump(packets: seq<nat>)
      requires Valid()
      modifies periods, `vq
      ensures Valid() && (periods[..], vq) == SubmittedAll(old(periods[..]), old(vq), cost, packets)
    {
      hide FlagsExact, Submitted;
      for k := 0 to |packets|
        invariant Valid()
        invariant SubmittedAll(periods[..], vq, cost, packets[k..])
               == SubmittedAll(old(periods[..]), old(vq), cost, packets)
      {
        assert packets[k..][1..] == packets[k + 1..];
        var ok := SubmitRenderPacket(packets[k]);
      }
    }

    lemma MoreReturned(v: Vq)
      requires Valid() && DeviceReturns(vq, v)
      ensures FlagsExact(periods[..], v, cost)
    {
    }

    /** An honest device returns some of the buffers that it holds, at most so many, and may return `left`
        more later. */
    method DeviceRuns(most: nat) returns (left: nat)
      requires Valid()
      modifies `vq
      ensures Valid() && DeviceReturns(old(vq), vq) && |vq.returned| + left == |old(vq.returned)| + most
    {
      hide FlagsExact, DeviceReturns;
      NothingReturned(periods[..], vq, cost);
      left := most;
      while left > 0
        invariant Valid() && DeviceReturns(old(vq), vq) && |vq.returned| + left == |old(vq.returned)| + most
      {
        var e: Entry := *;
        if e !in vq.queue.inFlight - multiset(vq.returned) { break; }
        DeviceReturnsOneMore(old(vq), vq, e);
        MoreReturned(vq.(returned := vq.returned + [e]));
        vq := vq.(returned := vq.returned + [e]);
        left := left - 1;
      }
    }

    /** The drain of the render queue that began with the periods ps0, the queue q0 and the count completed0
        has found the returned periods es, and made the rounds rs for the first of them. */
    ghost predicate Draining(ps0: seq<Period>, q0: Queue, completed0: nat, es: seq<Entry>, rs: seq<Round>)
      reads this, periods
    {
      && |rs| <= |es| && vq.returned == es[|rs|..]
      && (forall k :: 0 <= k < |rs| ==> rs[k].i < |rs[k].ps| && rs[k].i == es[k].token)
      && packetsCompleted == Highest(completed0, NumbersRead(rs, cost))
      && Follow(ps0, q0, rs, cost) && (periods[..], vq.queue) == EndOf(ps0, q0, rs, cost)
    }

    /** One round of it. */
    method DrainOne(packets: seq<nat>, ghost ps0: seq<Period>, ghost q0: Queue, ghost completed0: nat,
                    ghost es: seq<Entry>, ghost rs: seq<Round>)
      returns (ghost r: Round)
      requires Valid() && vq.returned != [] && Draining(ps0, q0, completed0, es, rs)
      modifies periods, `vq, `packetsCompleted, `xruns
      ensures Valid() && Draining(ps0, q0, completed0, es, rs + [r]) && r.packets == packets
      ensures |vq.returned| == |old(vq.returned)| - 1
    {
      hide FlagsExact, SubmittedAll, Highest, Follow, EndOf, NumbersRead;
      ReturnedIsHeld(periods[..], vq, cost);
      var statusOk: bool := *;
      var i := Take();
      r := Round(i, periods[..], vq, packets);
      ReadNext(completed0, rs, r, cost);
      RoundFollows(ps0, q0, rs, r, cost);
      Pump(packets);
      assert periods[i] == periods[..][i];
      Count(i, statusOk);
    }

    /** The loop of ViosndDrainRenderQueue, with the device returning up to `most` buffers and another
        processor submitting packets meanwhile: es are the periods found, first those already returned, and
        rs the rounds. */
    method DrainRenderQueue(most: nat) returns (ghost es: seq<Entry>, ghost rs: seq<Round>)
      requires Valid()
      modifies periods, `vq, `packetsCompleted, `xruns
      ensures Valid() && vq.returned == [] && old(vq.returned) <= es && |rs| == |es| <= |old(vq.returned)| + most
      ensures Draining(old(periods[..]), old(vq.queue), old(packetsCompleted), es, rs)
    {
      hide FlagsExact, SubmittedAll, Highest, Follow, EndOf, NumbersRead;
      var left := most;
      es, rs := vq.returned, [];
      ghost var ps0, q0, completed0 := periods[..], vq.queue, packetsCompleted;
      NoRounds(packetsCompleted, ps0, q0, cost);
      while vq.returned != []
        invariant Valid() && Draining(ps0, q0, completed0, es, rs)
        invariant old(vq.returned) <= es && |es| + left == |old(vq.returned)| + most
        decreases |vq.returned| + left
      {
        var packets: seq<nat> := *;
        ghost var r := DrainOne(packets, ps0, q0, completed0, es, rs);
        rs := rs + [r];
        ghost var found := vq.returned;
        left := DeviceRuns(left);
        es := es + vq.returned[|found|..];
      }
    }

    /** The drain of the capture queue that began with the periods ps0, the queue q0 and the counts next and
        completed0 has found the returned periods es, and dealt with the first k of them. */
    ghost predicate Recycling(ps0: seq<Period>, q0: Queue, es: seq<Entry>, k: nat, next: nat, completed0: nat)
      reads this, periods
    {
      && k <= |es| && vq.returned == es[k..] && (forall j :: 0 <= j < |es| ==> es[j].token < |ps0|)
      && CarriesAll(periods[..], ps0, es, k, next, running) && QueueAfter(q0, vq.queue, es, k, running)
      && packetsCompleted == Highest(completed0, Carried(ps0, es, k, next, running))
      && nextCapturePacket == next + if running then k else 0
    }

    /** ViosndDrainCaptureQueue, with the device returning up to `most` buffers meanwhile: while the stream
        runs, every period that is returned goes back to the queue, for the next packets in turn.  es are
        the periods found. */
    method DrainCaptureQueue(most: nat) returns (ghost es: seq<Entry>)
      requires Valid()
      modifies periods, `vq, `packetsCompleted, `xruns, `nextCapturePacket
      ensures Valid() && vq.returned == [] && old(vq.returned) <= es && |es| <= |old(vq.returned)| + most
      ensures Recycling(old(periods[..]), old(vq.queue), es, |es|, old(nextCapturePacket), old(packetsCompleted))
      ensures nextCapturePacket == old(nextCapturePacket) + if running then |es| else 0
      ensures running ==> forall j :: 0 <= j < |es| && LastReturn(es, j) ==>
        es[j].token < periods.Length && periods[es[j].token].packetNumber == old(nextCapturePacket) + j
    {
      hide Valid, Highest, CarriesAll, Carried, QueueAfter, LastReturn;
      es := RecycleReturned(most);
      if running { InTurn(periods[..], old(periods[..]), es, old(nextCapturePacket)); }
    }

    method RecycleReturned(most: nat) returns (ghost es: seq<Entry>)
      requires Valid()
      modifies periods, `vq, `packetsCompleted, `xruns, `nextCapturePacket
      ensures Valid() && vq.returned == [] && old(vq.returned) <= es && |es| <= |old(vq.returned)| + most
      ensures Recycling(old(periods[..]), old(vq.queue), es, |es|, old(nextCapturePacket), old(packetsCompleted))
    {
      es := vq.returned;
      var left := most;
      ghost var ps0, q0, next, completed0, k := periods[..], vq.queue, nextCapturePacket, packetsCompleted, 0;
      AllInRange(ps0, vq, cost);
      CarriesNothing(ps0, q0, es, next, completed0, running);
      hide FlagsExact, Highest, CarriesAll, Carried, QueueAfter;
      while vq.returned != []
        invariant Valid() && running == old(running) && periods.Length == |ps0| && old(vq.returned) <= es
        invariant Recycling(ps0, q0, es, k, next, completed0) && |es| + left == |old(vq.returned)| + most
        decreases |vq.returned| + left
      {
        RecycleFirst(ps0, q0, es, k, next, completed0);
        k := k + 1;
        left, es := MoreToRecycle(left, ps0, q0, es, k, next, completed0);
      }
      assert k == |es|;
    }

    /** The device returns some buffers in between. */
    method MoreToRecycle(most: nat, ghost ps0: seq<Period>, ghost q0: Queue, ghost es: seq<Entry>, ghost k: nat,
                         ghost next: nat, ghost completed0: nat)
      returns (left: nat, ghost es': seq<Entry>)
      requires Valid() && periods.Length == |ps0| && Recycling(ps0, q0, es, k, next, completed0)
      modifies `vq
      ensures Valid() && Recycling(ps0, q0, es', k, next, completed0)
      ensures es <= es' && |es'| + left == |es| + most
    {
      hide FlagsExact, Highest, CarriesAll, Carried, Carries, QueueAfter;
      ghost var found := vq.returned;
      left := DeviceRuns(most);
      ghost var more := vq.returned[|found|..];
      AllInRange(periods[..], vq, cost);
      CarriesMore(periods[..], ps0, q0, vq.queue, es, more, k, next, running);
      es' := es + more;
    }

    /** One round of it. */
    method RecycleFirst(ghost ps0: seq<Period>, ghost q0: Queue, ghost es: seq<Entry>, ghost k: nat, ghost next: nat,
                        ghost completed0: nat)
      requires Valid() && vq.returned != [] && periods.Length == |ps0| && Recycling(ps0, q0, es, k, next, completed0)
      modifies periods, `vq, `packetsCompleted, `xruns, `nextCapturePacket
      ensures Valid() && Recycling(ps0, q0, es, k + 1, next, completed0)
      ensures |vq.returned| == |old(vq.returned)| - 1
    {
      hide FlagsExact, Highest, CarriesAll, Carried;
      ghost var v, ps := vq, periods[..];
      var statusOk: bool := *;
      NothingReturned(ps, v, cost);
      CarriesNext(ps, ps0, es, k, next, completed0, running);
      if !running { QueueNext(q0, v, es, k); }
      var i := Take();
      assert periods[i] == periods[..][i];
      Count(i, statusOk);
      if running {
        RoundTrip(v, Entry(i, cost));
        var ok := SubmitCapturePeriod(i, nextCapturePacket);
        assert periods[..] == ps[i := Period(next + k, true)];
        if ok {
          nextCapturePacket := nextCapturePacket + 1;
        }
      }
    }

    lemma RoundTrip(v: Vq, e: Entry)
      requires v.returned != [] && v.returned[0] == e && VqOk(v)
      ensures CanAdd(GetBuf(v), e.cost) && AddBuf(GetBuf(v), e).queue == v.queue
    {
      assert e in multiset(v.returned);
      assert v.queue.inFlight == GetBuf(v).queue.inFlight + multiset{e};
    }
  }

  lemma NoRounds(completed: nat, ps: seq<Period>, q: Queue, cost: nat)
    ensures Highest(completed, NumbersRead([], cost)) == completed
    ensures Follow(ps, q, [], cost) && EndOf(ps, q, [], cost) == (ps, q)
  {
  }

  lemma ReadNext(completed: nat, rs: seq<Round>, r: Round, cost: nat)
    requires (forall k :: 0 <= k < |rs| ==> rs[k].i < |rs[k].ps|) && r.i < |r.ps|
    ensures Highest(completed, NumbersRead(rs + [r], cost))
         == CountedUp(Highest(completed, NumbersRead(rs, cost)), NumberRead(r, cost))
  {
    assert NumbersRead(rs + [r], cost) == NumbersRead(rs, cost) + [NumberRead(r, cost)];
    HighestNext(completed, NumbersRead(rs, cost), NumberRead(r, cost));
  }

  lemma AllInRange(ps: seq<Period>, v: Vq, cost: nat)
    requires FlagsExact(ps, v, cost)
    ensures forall k :: 0 <= k < |v.returned| ==> v.returned[k].token < |ps|
  {
    forall k | 0 <= k < |v.returned| ensures v.returned[k].token < |ps| {
      assert v.returned[k] in multiset(v.returned);
    }
  }
}
