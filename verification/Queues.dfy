/** The virtqueue as its users see it: buffers go in under a token, cost descriptors while they are
    in flight, and come back once.  Both ring layouts are proved to be this queue. */
module Queues {
  ghost predicate Distinct<T(!new)>(c: seq<T>) {
    forall i, j :: 0 <= i < j < |c| ==> c[i] != c[j]
  }

  datatype Option<+T> = None | Some(value: T)

  /** What is left of s in a queue of n that drops the oldest. */
  function Newest<T>(n: nat, s: seq<T>): seq<T> {
    if |s| <= n then s else s[|s| - n..]
  }

  /** The opaque pointer a client passes to add_buf; NULL is modelled by None where it matters. */
  type Token = nat

  datatype Entry = Entry(token: Token, cost: nat)

  datatype Queue = Queue(free: nat, inFlight: multiset<Entry>)

  /** Descriptors a buffer of `parts` elements takes when `free` are free. */
  function CostOf(parts: nat, page: bool, free: nat): nat {
    if page && free > 0 then 1 else parts
  }

  function Add(q: Queue, e: Entry): Queue
    requires e.cost <= q.free
  {
    Queue(q.free - e.cost, q.inFlight + multiset{e})
  }

  function Remove(q: Queue, e: Entry): Queue {
    Queue(q.free + e.cost, q.inFlight - multiset{e})
  }

  /** A client request, or the return of one buffer by get_buf or detach_unused_buf. */
  datatype Op = Submit(token: Token, parts: nat, page: bool) | Return(entry: Entry)

  ghost predicate Enabled(q: Queue, op: Op) {
    op.Return? ==> op.entry in q.inFlight
  }

  function Step(q: Queue, op: Op): Queue {
    match op
    case Submit(t, parts, page) =>
      var e := Entry(t, CostOf(parts, page, q.free));
      if e.cost <= q.free then Add(q, e) else q
    case Return(e) => Remove(q, e)
  }

  ghost predicate Possible(q: Queue, ops: seq<Op>)
    decreases |ops|
  {
    ops == [] || (Enabled(q, ops[0]) && Possible(Step(q, ops[0]), ops[1..]))
  }

  function Run(q: Queue, ops: seq<Op>): Queue
    decreases |ops|
  {
    if ops == [] then q else Run(Step(q, ops[0]), ops[1..])
  }

  lemma RunOne(q: Queue, op: Op)
    ensures Run(q, [op]) == Step(q, op) && (Possible(q, [op]) <==> Enabled(q, op))
  {
    assert [op][1..] == [];
  }

  lemma {:induction false} RunConcat(q: Queue, a: seq<Op>, b: seq<Op>)
    requires Possible(q, a) && Possible(Run(q, a), b)
    ensures Possible(q, a + b) && Run(q, a + b) == Run(Run(q, a), b)
    decreases |a|
  {
    if a == [] {
      assert a + b == b;
    } else {
      assert (a + b)[1..] == a[1..] + b;
      RunConcat(Step(q, a[0]), a[1..], b);
    }
  }

  /** The entries of the submissions that succeeded. */
  function Accepted(q: Queue, ops: seq<Op>): seq<Entry>
    decreases |ops|
  {
    if ops == [] then []
    else
      var rest := Accepted(Step(q, ops[0]), ops[1..]);
      if ops[0].Submit? && CostOf(ops[0].parts, ops[0].page, q.free) <= q.free
      then [Entry(ops[0].token, CostOf(ops[0].parts, ops[0].page, q.free))] + rest
      else rest
  }

  function Returned(ops: seq<Op>): seq<Entry> {
    if ops == [] then []
    else if ops[0].Return? then [ops[0].entry] + Returned(ops[1..]) else Returned(ops[1..])
  }

  function Total(es: seq<Entry>): nat {
    if es == [] then 0 else es[0].cost + Total(es[1..])
  }

  lemma Balance(m: multiset<Entry>, e: Entry, a: multiset<Entry>, r: multiset<Entry>, f: multiset<Entry>)
    ensures (m + multiset{e}) + a == r + f ==> m + (multiset{e} + a) == r + f
    ensures m + a == r + f ==> (m + multiset{e}) + a == (multiset{e} + r) + f
  {
    assert (m + multiset{e}) + a == m + (multiset{e} + a);
    assert (m + multiset{e}) + a == multiset{e} + (m + a);
    assert (multiset{e} + r) + f == multiset{e} + (r + f);
  }

  /** Over every run nothing is lost, duplicated or invented: what was in flight plus what was
      accepted is what was returned plus what is in flight, and descriptors balance likewise. */
  lemma {:induction false} Conservation(q: Queue, ops: seq<Op>)
    requires Possible(q, ops)
    ensures q.inFlight + multiset(Accepted(q, ops)) == multiset(Returned(ops)) + Run(q, ops).inFlight
    ensures Run(q, ops).free + Total(Accepted(q, ops)) == q.free + Total(Returned(ops))
    decreases |ops|
  {
    if ops != [] {
      var q' := Step(q, ops[0]);
      Conservation(q', ops[1..]);
      var a, r := Accepted(q', ops[1..]), Returned(ops[1..]);
      match ops[0]
      case Submit(t, parts, page) =>
        var e := Entry(t, CostOf(parts, page, q.free));
        if e.cost <= q.free {
          Balance(q.inFlight, e, multiset(a), multiset(r), Run(q', ops[1..]).inFlight);
          assert multiset([e] + a) == multiset{e} + multiset(a);
        }
      case Return(e) =>
        Balance(q'.inFlight, e, multiset(a), multiset(r), Run(q', ops[1..]).inFlight);
        assert q.inFlight == q'.inFlight + multiset{e};
        assert multiset([e] + r) == multiset{e} + multiset(r);
    }
  }

  /** From an empty queue no entry is returned more often than it was accepted. */
  lemma ReturnedAtMostOnce(n: nat, ops: seq<Op>, e: Entry)
    requires Possible(Queue(n, multiset{}), ops)
    ensures multiset(Returned(ops))[e] <= multiset(Accepted(Queue(n, multiset{}), ops))[e]
    ensures Run(Queue(n, multiset{}), ops).inFlight[e]
         == multiset(Accepted(Queue(n, multiset{}), ops))[e] - multiset(Returned(ops))[e]
  {
    var q := Queue(n, multiset{});
    Conservation(q, ops);
    var a, r, f := multiset(Accepted(q, ops)), multiset(Returned(ops)), Run(q, ops).inFlight;
    assert (q.inFlight + a)[e] == a[e] && (r + f)[e] == r[e] + f[e];
  }

  // ----- the queue as a driver above it sees it

  /** The abstract queue with the entries that the device has returned and get_buf has not, in the order
      of their return. */
  datatype Vq = Vq(queue: Queue, returned: seq<Entry>)

  ghost predicate VqOk(v: Vq) {
    multiset(v.returned) <= v.queue.inFlight
  }

  /** add_buf without an indirect page fits. */
  predicate CanAdd(v: Vq, cost: nat) {
    cost <= v.queue.free
  }

  function AddBuf(v: Vq, e: Entry): Vq
    requires CanAdd(v, e.cost)
  {
    v.(queue := Add(v.queue, e))
  }

  /** get_buf: the entry returned first. */
  function GetBuf(v: Vq): Vq
    requires v.returned != []
  {
    Vq(Remove(v.queue, v.returned[0]), v.returned[1..])
  }

  /** The device returns some more of the entries it holds. */
  ghost predicate DeviceReturns(v: Vq, v': Vq) {
    v'.queue == v.queue && v.returned <= v'.returned && VqOk(v')
  }

  /** What a step of client, driver or device does to the queue: nothing, or one of the three. */
  ghost predicate VqStep(v: Vq, v': Vq) {
    || v' == v
    || (exists e: Entry :: CanAdd(v, e.cost) && v' == AddBuf(v, e))
    || (v.returned != [] && v' == GetBuf(v))
    || DeviceReturns(v, v')
  }

  lemma VqSteps(v: Vq, t: Token, parts: nat)
    requires VqOk(v)
    ensures CanAdd(v, parts) ==> VqOk(AddBuf(v, Entry(t, parts)))
    ensures CanAdd(v, parts) ==> AddBuf(v, Entry(t, parts)).queue == Step(v.queue, Submit(t, parts, false))
    ensures v.returned != [] ==> VqOk(GetBuf(v)) && Enabled(v.queue, Return(v.returned[0]))
    ensures v.returned != [] ==> GetBuf(v).queue == Step(v.queue, Return(v.returned[0]))
  {
    if v.returned != [] {
      assert v.returned == [v.returned[0]] + v.returned[1..];
      assert v.returned[0] in multiset(v.returned);
    }
  }

  lemma DeviceReturnsOneMore(v0: Vq, v: Vq, e: Entry)
    requires DeviceReturns(v0, v) && e in v.queue.inFlight - multiset(v.returned)
    ensures var v' := v.(returned := v.returned + [e]);
      && DeviceReturns(v0, v') && DeviceReturns(v, v')
      && |v'.queue.inFlight - multiset(v'.returned)| < |v.queue.inFlight - multiset(v.returned)|
  {
    assert v.queue.inFlight - multiset(v.returned + [e]) == v.queue.inFlight - multiset(v.returned) - multiset{e};
  }
}
