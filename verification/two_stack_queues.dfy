/** A queue kept in two stacks: new values are pushed on `newest`; values
    leave from the top of `oldest`, which is refilled from `newest`, turning
    it over, only once it has run empty. */
module TwoStackQueues {
  import opened Wrappers
  import opened Seqs
  import Stacks

  datatype TwoStackQueue<T> = TwoStackQueue(newest: Stacks.Stack<T>, oldest: Stacks.Stack<T>)

  /** The values in the order they leave: the `oldest` stack from its top,
      then the `newest` stack from its bottom. */
  function Contents<T>(q: TwoStackQueue<T>): seq<T> {
    q.oldest.items + Reverse(q.newest.items)
  }

  /** `newQueueOnTwoStacks`: two empty stacks, an empty queue. */
  function New<T>(): (r: TwoStackQueue<T>)
    ensures Contents(r) == []
  {
    TwoStackQueue(Stacks.Empty(), Stacks.Empty())
  }

  /** `shiftStacks`: when `to` is empty, pops every value of `from` and
      pushes it on `to`; otherwise leaves both alone. Either way the values
      read from `to`'s top and then from `from`'s bottom are the same, and
      afterwards `to` is empty only if both were. */
  method ShiftStacks<T>(from: Stacks.Stack<T>, to: Stacks.Stack<T>) returns (from': Stacks.Stack<T>, to': Stacks.Stack<T>)
    ensures to'.items + Reverse(from'.items) == to.items + Reverse(from.items)
    ensures !Stacks.IsEmpty(to) ==> from' == from && to' == to
    ensures Stacks.IsEmpty(to) ==> Stacks.IsEmpty(from')
  {
    from', to' := from, to;
    if !Stacks.IsEmpty(to) {
      return;
    }
    var element := Stacks.Pop(from');
    while element.0.Some?
      invariant element == Stacks.Pop(from')
      invariant Reverse(from'.items) + to'.items == Reverse(from.items)
      decreases |from'.items|
    {
      ghost var before := from';
      from' := element.1;
      MoveTop(before.items, element.0.value, from'.items, to'.items);
      to' := Stacks.Push(to', element.0.value);
      element := Stacks.Pop(from');
    }
    assert Reverse(from'.items) == [];
  }

  /** Moving the top of `from` onto `to` keeps `from` read backwards
      followed by `to`. */
  lemma MoveTop<T>(from: seq<T>, top: T, rest: seq<T>, to: seq<T>)
    requires from == [top] + rest
    ensures Reverse(rest) + ([top] + to) == Reverse(from) + to
  {
    ReverseConcat([top], rest);
    assert Reverse([top]) == [top];
    AppendAssoc(Reverse(rest), [top], to);
  }

  /** Pushes on `newest`: the value joins the back of the queue. */
  function Enqueue<T>(q: TwoStackQueue<T>, v: T): (r: TwoStackQueue<T>)
    ensures Contents(r) == Contents(q) + [v]
  {
    var newest := Stacks.Push(q.newest, v);
    ReverseConcat([v], q.newest.items);
    assert Reverse([v]) == [v];
    TwoStackQueue(newest, q.oldest)
  }

  /** Shifts, then pops `oldest`: the front of the queue comes out, or
      `None` when the queue is empty. */
  method Dequeue<T>(q: TwoStackQueue<T>) returns (value: Option<T>, q': TwoStackQueue<T>)
    ensures |Contents(q)| == 0 ==> value.None? && Contents(q') == []
    ensures |Contents(q)| > 0 ==> value == Some(Contents(q)[0]) && Contents(q') == Contents(q)[1..]
  {
    var newest, oldest := ShiftStacks(q.newest, q.oldest);
    var popped := Stacks.Pop(oldest);
    value := popped.0;
    q' := TwoStackQueue(newest, popped.1);
    assert Contents(TwoStackQueue(newest, oldest)) == Contents(q);
  }

  /** Shifts, then reads the top of `oldest`: the front of the queue, or
      `None` when the queue is empty. The shift may move values between the
      stacks but leaves the queue's contents as they were. */
  method Pick<T>(q: TwoStackQueue<T>) returns (value: Option<T>, q': TwoStackQueue<T>)
    ensures Contents(q') == Contents(q)
    ensures |Contents(q)| == 0 ==> value.None?
    ensures |Contents(q)| > 0 ==> value == Some(Contents(q)[0])
  {
    var newest, oldest := ShiftStacks(q.newest, q.oldest);
    value := Stacks.Pick(oldest);
    q' := TwoStackQueue(newest, oldest);
  }
}
