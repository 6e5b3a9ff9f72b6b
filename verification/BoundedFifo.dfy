/**
 The queue both the shared-memory ring and the in-process channel implement: bounded, closable, first in
 first out. Its behaviour is the sequence of events it allows; the results below are about whole runs.
 */
module BoundedFifo {
  import opened Bytes

  datatype Fifo<T> = Fifo(capacity: nat, queue: seq<T>, closed: bool)

  datatype Event<T> =
    | Accepted(item: T)
    | Delivered(item: T)
    | Ended               // the reader is told that nothing more will come
    | Closed
    | Discarded(items: seq<T>)  // recovery from a dead peer: closes and drops what is queued
    | Quiet

  ghost predicate Enabled<T>(a: Fifo<T>, ev: Event<T>) {
    match ev
    case Accepted(_) => !a.closed && |a.queue| < a.capacity
    case Delivered(x) => a.queue != [] && x == a.queue[0]
    case Ended => a.queue == []
    case Discarded(items) => items == a.queue
    case _ => true
  }

  function After<T>(a: Fifo<T>, ev: Event<T>): Fifo<T> {
    match ev
    case Accepted(x) => a.(queue := a.queue + [x])
    case Delivered(_) => if a.queue == [] then a else a.(queue := a.queue[1..])
    case Ended => a.(closed := true)
    case Closed => a.(closed := true)
    case Discarded(_) => a.(queue := [], closed := true)
    case Quiet => a
  }

  function Final<T>(a: Fifo<T>, trace: seq<Event<T>>): Fifo<T> {
    if trace == [] then a else After(Final(a, trace[..|trace| - 1]), trace[|trace| - 1])
  }

  /** Every event of the trace was possible when it happened. */
  ghost predicate Legal<T>(a: Fifo<T>, trace: seq<Event<T>>) {
    trace == [] ||
    (Legal(a, trace[..|trace| - 1]) && Enabled(Final(a, trace[..|trace| - 1]), trace[|trace| - 1]))
  }

  function Accepts<T>(trace: seq<Event<T>>): seq<T> {
    if trace == [] then []
    else
      var rest := Accepts(trace[..|trace| - 1]);
      match trace[|trace| - 1] case Accepted(x) => rest + [x] case _ => rest
  }

  function Deliveries<T>(trace: seq<Event<T>>): seq<T> {
    if trace == [] then []
    else
      var rest := Deliveries(trace[..|trace| - 1]);
      match trace[|trace| - 1] case Delivered(x) => rest + [x] case _ => rest
  }

  function Discards<T>(trace: seq<Event<T>>): seq<T> {
    if trace == [] then []
    else
      var rest := Discards(trace[..|trace| - 1]);
      match trace[|trace| - 1] case Discarded(xs) => rest + xs case _ => rest
  }

  predicate Closing<T>(ev: Event<T>) {
    ev.Closed? || ev.Ended? || ev.Discarded?
  }

  function Empty<T>(capacity: nat): Fifo<T> {
    Fifo(capacity, [], false)
  }

  /** What is accepted is what was delivered, then what is still queued, then what recovery dropped. */
  lemma {:induction false} Conservation<T>(capacity: nat, trace: seq<Event<T>>)
    requires Legal(Empty(capacity), trace)
    ensures var b := Final(Empty(capacity), trace);
      && b.capacity == capacity && |b.queue| <= capacity
      && Accepts(trace) == Deliveries(trace) + (b.queue + Discards(trace))
      && (Discards(trace) != [] ==> b.closed && b.queue == [])
  {
    if trace != [] {
      var front, last := trace[..|trace| - 1], trace[|trace| - 1];
      Conservation(capacity, front);
      var q, d, x := Final(Empty(capacity), front).queue, Deliveries(front), Discards(front);
      if last.Accepted? {
        assert x == [];
        assert (d + (q + x)) + [last.item] == d + ((q + [last.item]) + x);
      } else if last.Delivered? {
        assert q == [last.item] + q[1..];
        Associative([last.item], q[1..], x);
        Associative(d, [last.item], q[1..] + x);
      } else if last.Discarded? {
        if x == [] {
          assert q + x == [] + (x + q);
        } else {
          assert x + q == x;
        }
      }
    }
  }

  /** Deliveries follow the order of acceptance, and at most `capacity` items are outstanding. */
  lemma DeliveredIsPrefix<T>(capacity: nat, trace: seq<Event<T>>)
    requires Legal(Empty(capacity), trace)
    ensures Deliveries(trace) <= Accepts(trace)
    ensures Discards(trace) == [] ==> |Accepts(trace)| - |Deliveries(trace)| <= capacity
  {
    Conservation(capacity, trace);
  }

  /** Once closed, always closed, and nothing more is accepted. */
  lemma {:induction false} ClosedStaysClosed<T>(a: Fifo<T>, trace: seq<Event<T>>, i: nat)
    requires Legal(a, trace)
    requires i < |trace| && Closing(trace[i])
    ensures Final(a, trace).closed
    ensures forall j :: i < j < |trace| ==> !trace[j].Accepted?
  {
    var front := trace[..|trace| - 1];
    if i < |front| {
      ClosedStaysClosed(a, front, i);
    }
    forall j | i < j < |trace| ensures !trace[j].Accepted? {
      if j < |front| {
        assert trace[j] == front[j];
      }
    }
  }

  /** An end of stream without recovery means that everything accepted has been delivered. */
  lemma EndMeansDrained<T>(capacity: nat, trace: seq<Event<T>>)
    requires Legal(Empty(capacity), trace)
    requires trace != [] && trace[|trace| - 1].Ended?
    ensures Discards(trace) == [] ==> Deliveries(trace) == Accepts(trace)
  {
    Conservation(capacity, trace);
  }

  /** After recovery nothing queued survives and nothing is accepted or delivered any more. */
  lemma {:induction false} NothingAfterDiscard<T>(a: Fifo<T>, trace: seq<Event<T>>, i: nat)
    requires Legal(a, trace)
    requires i < |trace| && trace[i].Discarded?
    ensures Final(a, trace).closed && Final(a, trace).queue == []
    ensures forall j :: i < j < |trace| ==> !trace[j].Accepted? && !trace[j].Delivered?
  {
    var front := trace[..|trace| - 1];
    if i < |front| {
      NothingAfterDiscard(a, front, i);
    }
    forall j | i < j < |trace| ensures !trace[j].Accepted? && !trace[j].Delivered? {
      if j < |front| {
        assert trace[j] == front[j];
      }
    }
  }

  /** A closed and empty queue delivers nothing any more. */
  lemma {:induction false} NothingFromEmptyClosed<T>(a: Fifo<T>, trace: seq<Event<T>>)
    requires Legal(a, trace) && a.closed && a.queue == []
    ensures Deliveries(trace) == [] && Final(a, trace).closed && Final(a, trace).queue == []
  {
    if trace != [] {
      NothingFromEmptyClosed(a, trace[..|trace| - 1]);
    }
  }

  lemma {:induction false} DeliveriesConcat<T>(first: seq<Event<T>>, second: seq<Event<T>>)
    ensures Deliveries(first + second) == Deliveries(first) + Deliveries(second)
  {
    if second == [] {
      assert first + second == first;
    } else {
      var front, last := second[..|second| - 1], second[|second| - 1];
      DeliveriesConcat(first, front);
      assert (first + second)[..|first + second| - 1] == first + front;
      if last.Delivered? {
        Associative(Deliveries(first), Deliveries(front), [last.item]);
      }
    }
  }
}
