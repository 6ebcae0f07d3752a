/** The linked queue: a chain from `first`, the oldest value first. The
    model keeps the values met walking from `first`. */
module Queues {
  import opened Wrappers

  datatype Queue<T> = Queue(items: seq<T>)

  /** `newQueue`: a queue with no node. */
  function Empty<T>(): (r: Queue<T>)
    ensures Pick(r).None?
  {
    Queue([])
  }

  /** The oldest value, or `None` for an empty queue; the queue is not changed. */
  function Pick<T>(q: Queue<T>): (r: Option<T>)
    ensures r.None? <==> |q.items| == 0
    ensures r.Some? ==> r.value == q.items[0]
  {
    if |q.items| > 0 then Some(q.items[0]) else None
  }

  /** A new node after the last one, found by walking the chain: every value
      already queued keeps its place and the new one comes after them all. */
  function Enqueue<T>(q: Queue<T>, v: T): (r: Queue<T>)
    ensures |r.items| == |q.items| + 1
    ensures forall i :: 0 <= i < |q.items| ==> r.items[i] == q.items[i]
    ensures r.items[|q.items|] == v
  {
    Queue(q.items + [v])
  }

  /** Takes the first node off. An empty queue gives `None` and stays empty;
      otherwise the value returned followed by the remaining queue is the
      queue dequeued. */
  function Dequeue<T>(q: Queue<T>): (r: (Option<T>, Queue<T>))
    ensures r.0 == Pick(q)
    ensures r.0.None? ==> r.1 == q
    ensures r.0.Some? ==> q.items == [r.0.value] + r.1.items
  {
    if |q.items| > 0 then (Some(q.items[0]), Queue(q.items[1..])) else (None, q)
  }

  /** The algebraic law of a first-in first-out queue: a value enqueued on
      an empty queue is the next out; on a non-empty queue the head comes
      out first and the new value queues behind the rest. */
  lemma EnqueueThenDequeue<T>(q: Queue<T>, v: T)
    ensures Dequeue(Enqueue(q, v)) ==
      if Pick(q).None? then (Some(v), q)
      else (Pick(q), Enqueue(Dequeue(q).1, v))
  {
    if |q.items| > 0 {
      assert Enqueue(q, v).items[1..] == Enqueue(Dequeue(q).1, v).items;
    }
  }

  /** The queue after enqueueing each of `vs` in turn, first to last. */
  function EnqueueAll<T>(q: Queue<T>, vs: seq<T>): (r: Queue<T>)
    ensures |r.items| == |q.items| + |vs|
  {
    if |vs| == 0 then q else Enqueue(EnqueueAll(q, vs[..|vs| - 1]), vs[|vs| - 1])
  }

  /** Dequeues `n` times, or until the queue is empty: the values in the
      order they came out, and the queue left. */
  function DequeueMany<T>(q: Queue<T>, n: nat): (r: (seq<T>, Queue<T>))
    ensures |r.0| <= n
    decreases n
  {
    if n == 0 then ([], q)
    else
      match Dequeue(q)
      case (None, _) => ([], q)
      case (Some(v), rest) =>
        var more := DequeueMany(rest, n - 1);
        ([v] + more.0, more.1)
  }

  /** Enqueueing appends: the values already queued come first. */
  lemma {:induction false} EnqueueAllAppends<T>(q: Queue<T>, vs: seq<T>)
    ensures EnqueueAll(q, vs).items == q.items + vs
  {
    if |vs| > 0 {
      EnqueueAllAppends(q, vs[..|vs| - 1]);
      assert vs == vs[..|vs| - 1] + [vs[|vs| - 1]];
    }
  }

  /** Dequeueing as many times as there are values empties the queue in order. */
  lemma {:induction false} DequeueManyDrains<T>(q: Queue<T>)
    ensures DequeueMany(q, |q.items|) == (q.items, Queue([]))
    decreases |q.items|
  {
    if |q.items| > 0 {
      DequeueManyDrains(Queue(q.items[1..]));
    }
  }

  /** First in, first out: values enqueued on an empty queue come back out
      in the order they went in. */
  lemma {:induction false} FirstInFirstOut<T>(vs: seq<T>)
    ensures DequeueMany(EnqueueAll(Empty(), vs), |vs|) == (vs, Empty())
  {
    var q := EnqueueAll(Empty(), vs);
    EnqueueAllAppends(Empty(), vs);
    assert q == Queue(vs) by { assert [] + vs == vs; }
    DequeueManyDrains(q);
  }
}
