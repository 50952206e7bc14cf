/** The synchronous control command of ViosndVirtio.cpp: one request at a time is put in the control
    queue and polled for until a timeout; a message whose command timed out belongs to the queue until the
    device returns it during a later command. */
module ControlCommand {
  import opened Queues

  const TIMEOUT_US: nat := 5_000_000
  const POLL_DELAY_US: nat := 1_000
  const RENOTIFY_US: nat := 100_000

  type Bytes = seq<bv8>

  /** A control message in memory; its token is its address. */
  datatype Message = Message(request: Bytes, response: Bytes)

  datatype Outcome = NotReady | InsufficientResources | Busy | TimedOut | Success(response: Bytes)

  /** Request and response: two elements in the queue. */
  function Held(t: Token): Entry {
    Entry(t, 2)
  }

  /** The queue holds exactly the messages of ts, each once. */
  ghost predicate Holds(v: Vq, ts: set<Token>) {
    && VqOk(v)
    && (forall e :: e in v.queue.inFlight ==> e == Held(e.token) && e.token in ts)
    && (forall t :: t in ts ==> v.queue.inFlight[Held(t)] == 1)
  }

  lemma AddedIsHeld(v: Vq, ts: set<Token>, t: Token)
    requires Holds(v, ts) && t !in ts && CanAdd(v, 2)
    ensures Holds(AddBuf(v, Held(t)), ts + {t})
  {
    VqSteps(v, t, 2);
    assert Held(t) !in v.queue.inFlight;
  }

  lemma ReturnedIsHeld(v: Vq, ts: set<Token>, e: Entry)
    requires Holds(v, ts) && e in v.returned
    ensures e in v.queue.inFlight && v.queue.inFlight[e] == 1 && e == Held(e.token) && e.token in ts
  {
    assert e in multiset(v.returned);
  }

  lemma GotIsNotHeld(v: Vq, ts: set<Token>)
    requires Holds(v, ts) && v.returned != []
    ensures var t := v.returned[0].token;
      && v.returned[0] == Held(t) && t in ts && Holds(GetBuf(v), ts - {t})
      && |GetBuf(v).queue.inFlight| < |v.queue.inFlight|
      && forall e :: e in GetBuf(v).returned ==> e in v.returned && e.token != t
  {
    hide VqOk;
    var e := v.returned[0];
    VqSteps(v, e.token, 2);
    ReturnedIsHeld(v, ts, e);
    assert v.queue.inFlight == GetBuf(v).queue.inFlight + multiset{e};
    forall x | x in GetBuf(v).returned ensures x in v.returned && x.token != e.token {
      ReturnedIsHeld(GetBuf(v), ts - {e.token}, x);
    }
  }

  /** What the device was asked in a message and what it answered. */
  datatype Exchange = Exchange(request: Bytes, response: Bytes)

  lemma {:induction false} AddressesAreBounded(ts: set<Token>) returns (bound: Token)
    ensures bound !in ts && forall t :: t in ts ==> t < bound
  {
    bound := 0;
    if ts != {} {
      var t :| t in ts;
      var below := AddressesAreBounded(ts - {t});
      assert forall x :: x in ts ==> x == t || x in ts - {t};
      bound := if below <= t then t + 1 else below;
    }
  }

  /** The control queue, the messages in memory - allocated and not freed - and, by message, what the
      device made of those that it has returned. */
  datatype Channel = Channel(vq: Vq, messages: map<Token, Message>, exchanges: map<Token, Exchange>,
                             allocations: nat, frees: nat)

  /** For what the device has returned, memory holds its answers. */
  ghost predicate Answered(c: Channel) {
    forall e {:trigger e.token in c.exchanges} :: e in c.vq.returned ==>
      e.token in c.messages && e.token in c.exchanges
      && c.exchanges[e.token] == Exchange(c.messages[e.token].request, c.messages[e.token].response)
  }

  /** Every message in memory is held by the queue, except those of `mine`, and every message ever
      allocated was freed once or is still in memory. */
  ghost predicate Owns(c: Channel, mine: set<Token>) {
    && mine <= c.messages.Keys && Holds(c.vq, c.messages.Keys - mine) && Answered(c)
    && c.allocations == c.frees + |c.messages|
  }

  function Allocated(c: Channel, t: Token, request: Bytes, responseLength: nat): Channel {
    c.(messages := c.messages[t := Message(request, seq(responseLength, _ => 0))],
       exchanges := c.exchanges - {t}, allocations := c.allocations + 1)
  }

  function Freed(c: Channel, t: Token): Channel {
    c.(messages := c.messages - {t}, frees := c.frees + 1)
  }

  function Posted(c: Channel, t: Token): Channel
    requires CanAdd(c.vq, 2)
  {
    c.(vq := AddBuf(c.vq, Held(t)))
  }

  function Fetched(c: Channel): Channel
    requires c.vq.returned != []
  {
    c.(vq := GetBuf(c.vq))
  }

  /** The device writes its answer to one of the messages that it holds, and returns it. */
  function Completed(c: Channel, e: Entry, answer: Bytes): Channel
    requires e.token in c.messages
  {
    var request := c.messages[e.token].request;
    c.(vq := c.vq.(returned := c.vq.returned + [e]),
       messages := c.messages[e.token := Message(request, answer)],
       exchanges := c.exchanges[e.token := Exchange(request, answer)])
  }

  lemma ReturnedIsInMemory(c: Channel, mine: set<Token>)
    requires Owns(c, mine)
    ensures forall e :: e in c.vq.returned ==> e == Held(e.token) && e.token in c.messages && e.token !in mine
  {
    forall e | e in c.vq.returned ensures e == Held(e.token) && e.token in c.messages && e.token !in mine {
      assert e in multiset(c.vq.returned);
    }
  }

  lemma AllocatedIsMine(c: Channel, t: Token, request: Bytes, responseLength: nat)
    requires Owns(c, {}) && t !in c.messages
    ensures Owns(Allocated(c, t, request, responseLength), {t})
  {
    ReturnedIsInMemory(c, {});
    assert c.messages.Keys + {t} - {t} == c.messages.Keys - {};
  }

  /** Freeing needs a message that is in memory and that the queue does not hold. */
  lemma FreedOnce(c: Channel, mine: set<Token>, t: Token)
    requires Owns(c, mine) && t in mine
    ensures Held(t) !in c.vq.queue.inFlight && Owns(Freed(c, t), mine - {t})
  {
    ReturnedIsInMemory(c, mine);
    assert (c.messages - {t}).Keys - (mine - {t}) == c.messages.Keys - mine;
    assert c.messages == (c.messages - {t})[t := c.messages[t]];
  }

  lemma StillHeld(c: Channel, t: Token)
    requires Owns(c, {}) && t in c.messages
    ensures c.vq.queue.inFlight[Held(t)] == 1
  {
    assert t in c.messages.Keys - {};
  }

  lemma FreeUndoesAllocate(c: Channel, t: Token, request: Bytes, responseLength: nat)
    requires t !in c.messages
    ensures Freed(Allocated(c, t, request, responseLength), t).messages == c.messages
  {
  }

  lemma PostedIsHeld(c: Channel, t: Token)
    requires Owns(c, {t}) && CanAdd(c.vq, 2)
    ensures Owns(Posted(c, t), {})
  {
    AddedIsHeld(c.vq, c.messages.Keys - {t}, t);
    assert c.messages.Keys - {t} + {t} == c.messages.Keys - {};
  }

  lemma FetchedIsMine(c: Channel)
    requires Owns(c, {}) && c.vq.returned != []
    ensures var t := c.vq.returned[0].token;
      && t in c.messages && Owns(Fetched(c), {t}) && |Fetched(c).vq.queue.inFlight| < |c.vq.queue.inFlight|
      && t in c.exchanges && c.exchanges[t] == Exchange(c.messages[t].request, c.messages[t].response)
  {
    hide Holds;
    assert c.vq.returned[0] in c.vq.returned;
    assert c.messages.Keys - {} == c.messages.Keys;
    GotIsNotHeld(c.vq, c.messages.Keys);
    forall e | e in Fetched(c).vq.returned
      ensures e.token in c.exchanges && e.token in c.messages
      ensures c.exchanges[e.token] == Exchange(c.messages[e.token].request, c.messages[e.token].response)
    {
      assert e in c.vq.returned;
    }
  }

  /** Only responses changed in memory, and only of messages that the device has returned. */
  ghost predicate DeviceWorked(c: Channel, c': Channel) {
    && DeviceReturns(c.vq, c'.vq) && c'.messages.Keys == c.messages.Keys
    && (forall t :: t in c.messages ==> c'.messages[t].request == c.messages[t].request)
    && (forall t :: t in c'.exchanges ==> t in c.exchanges || Held(t) in c'.vq.returned)
    && c'.allocations == c.allocations && c'.frees == c.frees
  }

  lemma CompletedStaysOwned(c: Channel, e: Entry, answer: Bytes)
    requires Owns(c, {}) && e in c.vq.queue.inFlight - multiset(c.vq.returned)
    ensures e.token in c.messages && Owns(Completed(c, e, answer), {}) && DeviceWorked(c, Completed(c, e, answer))
  {
    assert e in c.vq.queue.inFlight && e == Held(e.token) && c.vq.queue.inFlight[e] == 1;
    ReturnedIsInMemory(c, {});
    var c' := Completed(c, e, answer);
    assert c'.messages.Keys == c.messages.Keys;
    assert multiset(c'.vq.returned) == multiset(c.vq.returned) + multiset{e};
    assert e !in c.vq.returned by { assert multiset(c.vq.returned)[e] == 0; }
    forall x | x in c'.vq.returned
      ensures x.token in c'.exchanges && x.token in c'.messages
      ensures c'.exchanges[x.token] == Exchange(c'.messages[x.token].request, c'.messages[x.token].response)
    {
      assert x == e || x in c.vq.returned;
    }
  }

  lemma DeviceWorkedOn(c: Channel, c1: Channel, c': Channel)
    requires DeviceWorked(c, c1) && DeviceWorked(c1, c')
    ensures DeviceWorked(c, c')
  {
    assert forall e :: e in c1.vq.returned ==> e in c'.vq.returned;
  }

  lemma Smaller(m: multiset<Entry>, returned: seq<Entry>, e: Entry)
    requires multiset(returned) <= m && e in m - multiset(returned)
    ensures |m - multiset(returned + [e])| < |m - multiset(returned)|
  {
    assert m - multiset(returned + [e]) == m - multiset(returned) - multiset{e};
  }

  class ControlChannel {
    /** Whether the control queue was set up. */
    const present: bool

    var vq: Vq
    var messages: map<Token, Message>
    var kicks: nat
    ghost var exchanges: map<Token, Exchange>
    ghost var allocations: nat
    ghost var frees: nat
    /** How often a look at the queue found nothing. */
    ghost var idleLooks: nat

    ghost function View(): Channel
      reads this
    {
      Channel(vq, messages, exchanges, allocations, frees)
    }

    /** Between commands the messages in memory are those that the queue holds. */
    ghost predicate Valid()
      reads this
    {
      Owns(View(), {})
    }

    /** The allocator returns an address that is not in use; it may have been in use before. */
    method Allocate(request: Bytes, responseLength: nat) returns (t: Token)
      requires Valid()
      modifies `messages, `allocations, `exchanges
      ensures t !in old(messages) && View() == Allocated(old(View()), t, request, responseLength)
      ensures Owns(View(), {t})
    {
      ghost var bound := AddressesAreBounded(messages.Keys);
      t :| t !in messages;
      AllocatedIsMine(View(), t, request, responseLength);
      messages := messages[t := Message(request, seq(responseLength, _ => 0))];
      allocations := allocations + 1;
      exchanges := exchanges - {t};
    }

    /** ViosndFreeControlMessage.  What it requires is the point: the message is in memory, and the queue
        does not hold it. */
    method FreeControlMessage(t: Token)
      requires Owns(View(), {t})
      modifies `messages, `frees
      ensures View() == Freed(old(View()), t) && Valid()
    {
      FreedOnce(View(), {t}, t);
      assert {t} - {t} == {};
      messages := messages - {t};
      frees := frees + 1;
    }

    /** The device returns a message that it holds. */
    method DeviceReturnsOne(e: Entry, answer: Bytes)
      requires e.token in messages
      modifies `vq, `messages, `exchanges
      ensures View() == Completed(old(View()), e, answer)
    {
      exchanges := exchanges[e.token := Exchange(messages[e.token].request, answer)];
      messages := messages[e.token := Message(messages[e.token].request, answer)];
      vq := vq.(returned := vq.returned + [e]);
    }

    /** An honest device returns some of the messages that it holds, in any order. */
    method DeviceRuns()
      requires Valid()
      modifies `vq, `messages, `exchanges
      ensures Valid() && DeviceWorked(old(View()), View())
    {
      while *
        invariant Valid() && DeviceWorked(old(View()), View())
        decreases |vq.queue.inFlight - multiset(vq.returned)|
      {
        var e: Entry := *;
        var answer: Bytes := *;
        if e !in vq.queue.inFlight - multiset(vq.returned) { break; }
        CompletedStaysOwned(View(), e, answer);
        DeviceWorkedOn(old(View()), View(), Completed(View(), e, answer));
        Smaller(vq.queue.inFlight, vq.returned, e);
        DeviceReturnsOne(e, answer);
      }
    }

    /** What the polling loop does with a returned message: the one waited for gives its response, any
        other timed out earlier; both are freed. */
    method TakeReturned(message: Token) returns (response: Option<Bytes>)
      requires Valid() && vq.returned != []
      modifies `vq, `messages, `frees
      ensures Valid() && messages == old(messages) - {old(vq.returned[0].token)}
      ensures |vq.queue.inFlight| < |old(vq.queue.inFlight)|
      ensures response.Some? <==> old(vq.returned[0].token) == message
      ensures response.Some? ==> message in old(messages) && message in exchanges
      ensures response.Some? ==> exchanges[message] == Exchange(old(messages)[message].request, response.value)
    {
      FetchedIsMine(View());
      var completed := vq.returned[0].token;
      vq := GetBuf(vq);
      response := if completed == message then Some(messages[message].response) else None;
      FreeControlMessage(completed);
    }

    /** The command's own message is in memory; nothing else was added. */
    ghost predicate Polling(t: Token, request: Bytes, before: set<Token>)
      reads this
    {
      Valid() && t in messages && messages[t].request == request && messages.Keys <= before
    }

    /** One look at the queue, after the device had its chance. */
    method Look(message: Token, ghost request: Bytes, ghost before: set<Token>)
      returns (empty: bool, response: Option<Bytes>)
      requires Polling(message, request, before)
      modifies `vq, `messages, `frees, `exchanges, `idleLooks
      ensures idleLooks == old(idleLooks) + if empty then 1 else 0
      ensures empty ==> response.None? && vq.returned == [] && |vq.queue.inFlight| == |old(vq.queue.inFlight)|
      ensures !empty ==> |vq.queue.inFlight| < |old(vq.queue.inFlight)|
      ensures response.None? ==> Polling(message, request, before)
      ensures response.Some? ==> Valid() && messages.Keys <= before && message !in messages
      ensures response.Some? ==> message in exchanges && exchanges[message] == Exchange(request, response.value)
    {
      hide Owns;
      DeviceRuns();
      empty := vq.returned == [];
      response := None;
      if !empty {
        response := TakeReturned(message);
      } else {
        idleLooks := idleLooks + 1;
      }
    }

    /** One delay; the device is notified again after every hundredth. */
    method Delay(elapsed: nat, ghost delays: nat) returns (later: nat)
      requires elapsed == delays * POLL_DELAY_US
      modifies `kicks
      ensures later == (delays + 1) * POLL_DELAY_US && kicks == old(kicks) - delays / 100 + (delays + 1) / 100
    {
      later := elapsed + POLL_DELAY_US;
      if later % RENOTIFY_US == 0 {
        kicks := kicks + 1;
      }
    }

    /** The polling loop, until the message comes back or the time is up.  Time passes only between looks that
        find nothing, so that the loop gives up only when it has looked once per delay, the last look found
        nothing returned and the device still has the message.  It ends although time stands still while late
        messages come back: those are used up. */
    method Poll(message: Token, ghost request: Bytes) returns (response: Option<Bytes>)
      requires Polling(message, request, messages.Keys)
      modifies `vq, `messages, `kicks, `frees, `exchanges, `idleLooks
      ensures Valid() && messages.Keys <= old(messages.Keys)
      ensures response.None? ==> vq.returned == [] && vq.queue.inFlight[Held(message)] == 1
      ensures response.None? ==> idleLooks == old(idleLooks) + TIMEOUT_US / POLL_DELAY_US
      ensures response.None? ==> message in messages && messages[message].request == request
      ensures response.None? ==> kicks == old(kicks) + TIMEOUT_US / RENOTIFY_US
      ensures response.Some? ==> message !in messages && message in exchanges
      ensures response.Some? ==> exchanges[message] == Exchange(request, response.value)
    {
      hide Owns;
      var elapsed := 0;
      ghost var delays := 0;
      while elapsed < TIMEOUT_US
        invariant Polling(message, request, old(messages.Keys))
        invariant elapsed == delays * POLL_DELAY_US <= TIMEOUT_US && kicks == old(kicks) + delays / 100
        invariant idleLooks == old(idleLooks) + delays && (elapsed >= TIMEOUT_US ==> vq.returned == [])
        decreases TIMEOUT_US - elapsed, |vq.queue.inFlight|
      {
        var empty;
        empty, response := Look(message, request, old(messages.Keys));
        if response.Some? { return; }
        if empty {
          elapsed := Delay(elapsed, delays);
          delays := delays + 1;
        }
      }
      response := None;
      StillHeld(View(), message);
    }

    /** The part of a command up to its first notification.  The three flags say whether the allocations
        succeed. */
    method Post(request: Bytes, responseLength: nat, messageFits: bool, requestFits: bool, responseFits: bool)
      returns (refusal: Option<Outcome>, t: Token)
      requires Valid()
      modifies `vq, `messages, `kicks, `allocations, `frees, `exchanges
      ensures Valid()
      ensures refusal == if !present then Some(NotReady)
                         else if !(messageFits && requestFits && responseFits) then Some(InsufficientResources)
                         else if old(vq.queue.free) < 2 then Some(Busy) else None
      ensures refusal.Some? ==> vq == old(vq) && messages == old(messages) && kicks == old(kicks)
      ensures refusal.None? ==> t !in old(messages) && kicks == old(kicks) + 1
      ensures refusal.None? ==> messages == old(messages)[t := Message(request, seq(responseLength, _ => 0))]
    {
      hide Owns;
      t := 0;
      if !present { return Some(NotReady), t; }
      if !messageFits { return Some(InsufficientResources), t; }
      t := Allocate(request, responseLength);
      if !(requestFits && responseFits) || !CanAdd(vq, 2) {
        FreeControlMessage(t);
        FreeUndoesAllocate(old(View()), t, request, responseLength);
        return Some(if requestFits && responseFits then Busy else InsufficientResources), t;
      }
      PostedIsHeld(View(), t);
      vq := AddBuf(vq, Held(t));
      kicks := kicks + 1;
      refusal := None;
    }

    /** ViosndControlCommand; t is the message.  A success hands out the device's answer to this request.  A
        command times out only if the device has not returned the message after the whole time; the message
        stays in memory and in the queue, and whatever is returned late meanwhile is freed. */
    method Command(request: Bytes, responseLength: nat, messageFits: bool, requestFits: bool, responseFits: bool)
      returns (outcome: Outcome, ghost t: Token)
      requires Valid()
      modifies `vq, `messages, `kicks, `allocations, `frees, `exchanges, `idleLooks
      ensures Valid()
      ensures outcome.NotReady? <==> !present
      ensures outcome.InsufficientResources? <==> present && !(messageFits && requestFits && responseFits)
      ensures outcome.Busy? <==> present && messageFits && requestFits && responseFits && old(vq.queue.free) < 2
      ensures !outcome.TimedOut? && !outcome.Success? ==>
        vq == old(vq) && messages == old(messages) && kicks == old(kicks)
      ensures outcome.TimedOut? || outcome.Success? ==>
        t !in old(messages) && messages.Keys <= old(messages.Keys) + {t}
      ensures outcome.TimedOut? ==> t in messages && messages[t].request == request
      ensures outcome.TimedOut? ==> vq.returned == [] && vq.queue.inFlight[Held(t)] == 1
      ensures outcome.TimedOut? ==> idleLooks == old(idleLooks) + TIMEOUT_US / POLL_DELAY_US
      ensures outcome.TimedOut? ==> kicks == old(kicks) + 1 + TIMEOUT_US / RENOTIFY_US
      ensures outcome.Success? ==> t !in messages && t in exchanges
      ensures outcome.Success? ==> exchanges[t] == Exchange(request, outcome.response)
    {
      hide Owns;
      var refusal, message := Post(request, responseLength, messageFits, requestFits, responseFits);
      t := message;
      if refusal.Some? { return refusal.value, t; }
      var response := Poll(message, request);
      outcome := if response.Some? then Success(response.value) else TimedOut;
    }
  }
}
