/** What goes through a ring in the order of the ring: the requests that the device has still to fetch and the
    answers that the driver has still to read. */
module Delivery {
  import opened Queues
  import opened DescriptorPool

  /** A token with the scatter list that belongs to it, and with the length that the device answered. */
  datatype Request = Request(token: Option<Token>, list: seq<Element>)
  datatype Answer = Answer(token: Option<Token>, len: nat)

  function RequestOf(b: Buf): Request {
    Request(Some(b.token), ListOf(b))
  }

  /** The requests of the buffers behind the first `fetched` ones. */
  function Pending(queue: seq<Buf>, fetched: nat): seq<Request> {
    if fetched > |queue| then []
    else seq(|queue| - fetched, i requires 0 <= i < |queue| - fetched => RequestOf(queue[fetched + i]))
  }

  /** The answers of the first buffers, those returned with these lengths. */
  function Unread(queue: seq<Buf>, lens: seq<nat>): seq<Answer> {
    if |lens| > |queue| then []
    else seq(|lens|, i requires 0 <= i < |lens| => Answer(Some(queue[i].token), lens[i]))
  }

  lemma AppendPends(queue: seq<Buf>, fetched: nat, lens: seq<nat>, b: Buf)
    requires |lens| <= fetched <= |queue|
    ensures Pending(queue + [b], fetched) == Pending(queue, fetched) + [RequestOf(b)]
    ensures Unread(queue + [b], lens) == Unread(queue, lens)
  {
  }

  lemma FetchTakesTheFirst(queue: seq<Buf>, fetched: nat)
    requires fetched < |queue|
    ensures Pending(queue, fetched) == [RequestOf(queue[fetched])] + Pending(queue, fetched + 1)
  {
  }

  lemma ReadTakesTheFirst(queue: seq<Buf>, fetched: nat, lens: seq<nat>)
    requires 1 <= |lens| <= fetched <= |queue|
    ensures Pending(queue[1..], fetched - 1) == Pending(queue, fetched)
    ensures Unread(queue, lens) == [Answer(Some(queue[0].token), lens[0])] + Unread(queue[1..], lens[1..])
  {
  }

  lemma ReturnAppends(queue: seq<Buf>, fetched: nat, lens: seq<nat>, i: nat, len: nat)
    requires |lens| <= i < fetched <= |queue|
    ensures Pending(Move(queue, i, |lens|), fetched) == Pending(queue, fetched)
    ensures Unread(Move(queue, i, |lens|), lens + [len]) == Unread(queue, lens) + [Answer(Some(queue[i].token), len)]
  {
  }

  /** What holds of each of two parts of a run holds of both: before and in is out and after. */
  lemma Chained<T>(p: seq<T>, a: seq<T>, f: seq<T>, q: seq<T>, a': seq<T>, f': seq<T>, r: seq<T>)
    requires p + a == f + q && q + a' == f' + r
    ensures p + (a + a') == (f + f') + r
  {
    assert p + (a + a') == (p + a) + a' == f + (q + a') == f + (f' + r);
  }
}
