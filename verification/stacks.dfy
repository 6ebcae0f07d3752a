/** The linked stack: a chain of nodes reached from `last`, the most
    recently pushed value first. The model keeps the values met walking
    from `last`, so the top of the stack is the first element. */
module Stacks {
  import opened Wrappers
  import opened Seqs

  datatype Stack<T> = Stack(items: seq<T>)

  /** `newStack`: a stack with no node. */
  function Empty<T>(): (r: Stack<T>)
    ensures IsEmpty(r)
  {
    Stack([])
  }

  /** A new node in front of the old top. What is pushed is the next thing
      popped, and popping it gives back the stack as it was. */
  function Push<T>(s: Stack<T>, v: T): (r: Stack<T>)
    ensures |r.items| == |s.items| + 1
    ensures Pick(r) == Some(v)
    ensures Pop(r) == (Some(v), s)
  {
    Stack([v] + s.items)
  }

  /** The top value, or `None` for an empty stack; the stack is not changed. */
  function Pick<T>(s: Stack<T>): (r: Option<T>)
    ensures r.None? <==> |s.items| == 0
    ensures r.Some? ==> r.value == s.items[0]
  {
    if |s.items| > 0 then Some(s.items[0]) else None
  }

  /** Takes the top node off. An empty stack gives `None` and stays empty;
      otherwise the value returned followed by the remaining stack is the
      stack popped. */
  function Pop<T>(s: Stack<T>): (r: (Option<T>, Stack<T>))
    ensures r.0 == Pick(s)
    ensures r.0.None? ==> r.1 == s
    ensures r.0.Some? ==> s.items == [r.0.value] + r.1.items
  {
    if |s.items| > 0 then (Some(s.items[0]), Stack(s.items[1..])) else (None, s)
  }

  /** A stack is empty when picking its top finds nothing. */
  predicate IsEmpty<T>(s: Stack<T>)
    ensures IsEmpty(s) <==> |s.items| == 0
  {
    Pick(s).None?
  }

  /** The stack after pushing each of `vs` in turn, first to last. */
  function PushAll<T>(s: Stack<T>, vs: seq<T>): (r: Stack<T>)
    ensures |r.items| == |s.items| + |vs|
  {
    if |vs| == 0 then s else Push(PushAll(s, vs[..|vs| - 1]), vs[|vs| - 1])
  }

  /** Pops `n` times, or until the stack is empty: the values in the order
      they came out, and the stack left. */
  function PopMany<T>(s: Stack<T>, n: nat): (r: (seq<T>, Stack<T>))
    ensures |r.0| <= n
    decreases n
  {
    if n == 0 then ([], s)
    else
      match Pop(s)
      case (None, _) => ([], s)
      case (Some(v), rest) =>
        var more := PopMany(rest, n - 1);
        ([v] + more.0, more.1)
  }

  /** Last in, first out: values pushed one after another come back off in
      the reverse order, and the stack below them is as it was. */
  lemma {:induction false} LastInFirstOut<T>(s: Stack<T>, vs: seq<T>)
    ensures PopMany(PushAll(s, vs), |vs|) == (Reverse(vs), s)
  {
    if |vs| > 0 {
      var init, last := vs[..|vs| - 1], vs[|vs| - 1];
      LastInFirstOut(s, init);
      assert vs == init + [last];
      ReverseConcat(init, [last]);
      assert Reverse([last]) == [last];
    }
  }
}
