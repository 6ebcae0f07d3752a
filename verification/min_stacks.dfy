/** The stack that also answers its minimum: a stack of values and a stack
    of the minima met so far. A value goes onto the minimum stack when it
    is a new minimum; popping a value equal to the top minimum pops that
    minimum too. */
module MinStacks {
  import opened Wrappers
  import opened Seqs
  import Stacks

  datatype MinStack = MinStack(values: Stacks.Stack<int>, minima: Stacks.Stack<int>)

  /** The least element of a non-empty sequence. */
  function MinOf(s: seq<int>): (r: int)
    requires |s| > 0
    ensures r in s
    ensures forall i :: 0 <= i < |s| ==> r <= s[i]
  {
    if |s| == 1 then s[0]
    else
      var m := MinOf(s[1..]);
      if s[0] <= m then s[0] else m
  }

  /** The minima the minimum stack has to hold for `values` (top first) so
      that popping keeps it right: top first, every value that is no larger
      than all the values below it. */
  function RunningMinima(values: seq<int>): seq<int> {
    if |values| == 0 then []
    else if |values| == 1 || values[0] <= MinOf(values[1..]) then [values[0]] + RunningMinima(values[1..])
    else RunningMinima(values[1..])
  }

  /** The minima the minimum stack holds when a value counts only if it is
      strictly smaller than all the values below it. */
  function StrictMinima(values: seq<int>): seq<int> {
    if |values| == 0 then []
    else if |values| == 1 || values[0] < MinOf(values[1..]) then [values[0]] + StrictMinima(values[1..])
    else StrictMinima(values[1..])
  }

  /** Both kinds of minima are empty exactly for an empty stack, and the
      first of them is the least value. */
  lemma MinimaHead(values: seq<int>)
    ensures |RunningMinima(values)| > 0 <==> |values| > 0
    ensures |StrictMinima(values)| > 0 <==> |values| > 0
    ensures |values| > 0 ==> RunningMinima(values)[0] == MinOf(values)
    ensures |values| > 0 ==> StrictMinima(values)[0] == MinOf(values)
  {
  }

  /** `newMinStack`: both stacks empty, which keeps either invariant. */
  function New(): (r: MinStack)
    ensures r.minima.items == RunningMinima(r.values.items)
    ensures r.minima.items == StrictMinima(r.values.items)
    ensures Min(r).None?
  {
    MinStack(Stacks.Empty(), Stacks.Empty())
  }

  /** `Push` as written: the value is pushed on the minimum stack only when
      the current minimum is strictly greater. This keeps the strict minima,
      in which a repeated minimum is recorded once. */
  function Push(m: MinStack, v: int): (r: MinStack)
    ensures r.values == Stacks.Push(m.values, v)
    ensures m.minima.items == StrictMinima(m.values.items) ==>
      r.minima.items == StrictMinima(r.values.items)
  {
    var values := Stacks.Push(m.values, v);
    var current := Stacks.Pick(m.minima);
    MinimaHead(m.values.items);
    assert values.items[1..] == m.values.items;
    if current.None? || current.value > v then MinStack(values, Stacks.Push(m.minima, v))
    else MinStack(values, m.minima)
  }

  /** `Push` with the comparison made `>=`, so that a repeated minimum is
      recorded each time: it keeps the running minima. */
  function PushCorrected(m: MinStack, v: int): (r: MinStack)
    ensures r.values == Stacks.Push(m.values, v)
    ensures m.minima.items == RunningMinima(m.values.items) ==>
      r.minima.items == RunningMinima(r.values.items)
  {
    var values := Stacks.Push(m.values, v);
    var current := Stacks.Pick(m.minima);
    MinimaHead(m.values.items);
    assert values.items[1..] == m.values.items;
    if current.None? || current.value >= v then MinStack(values, Stacks.Push(m.minima, v))
    else MinStack(values, m.minima)
  }

  /** The top value, or `None` for an empty stack. */
  function Pick(m: MinStack): (r: Option<int>)
    ensures r.None? <==> |m.values.items| == 0
    ensures r.Some? ==> r.value == m.values.items[0]
  {
    Stacks.Pick(m.values)
  }

  /** Pops the value stack and, when the value popped equals the top
      minimum, the minimum stack too. Both stacks must be non-empty: the
      source dereferences both tops. Popping keeps the running minima, and
      keeps the strict minima unless the value popped is a repeat of the
      minimum below it. */
  function Pop(m: MinStack): (r: (int, MinStack))
    requires |m.values.items| > 0 && |m.minima.items| > 0
    ensures [r.0] + r.1.values.items == m.values.items
    ensures m.minima.items == RunningMinima(m.values.items) ==>
      r.1.minima.items == RunningMinima(r.1.values.items)
    ensures (&& m.minima.items == StrictMinima(m.values.items)
             && (|m.values.items| == 1 || m.values.items[0] != MinOf(m.values.items[1..]))) ==>
      r.1.minima.items == StrictMinima(r.1.values.items)
  {
    var (top, values) := Stacks.Pop(m.values);
    var minimum := Stacks.Pick(m.minima);
    MinimaHead(m.values.items[1..]);
    if top.value == minimum.value then (top.value, MinStack(values, Stacks.Pop(m.minima).1))
    else (top.value, MinStack(values, m.minima))
  }

  /** The top of the minimum stack, `None` when it is empty. Under either
      invariant this is the least value on the stack. */
  function Min(m: MinStack): (r: Option<int>)
    ensures m.minima.items == RunningMinima(m.values.items) || m.minima.items == StrictMinima(m.values.items) ==>
      (r.None? <==> |m.values.items| == 0) && (r.Some? ==> r.value == MinOf(m.values.items))
  {
    MinimaHead(m.values.items);
    Stacks.Pick(m.minima)
  }

  /** With no value pushed twice the two kinds of minima agree, so the
      strict comparison is enough for distinct values. */
  lemma {:induction false} DistinctMinimaAgree(values: seq<int>)
    requires AllDistinct(values)
    ensures StrictMinima(values) == RunningMinima(values)
  {
    if |values| > 1 {
      var rest := values[1..];
      assert AllDistinct(rest) by {
        forall a, b | 0 <= a < b < |rest| ensures rest[a] != rest[b] {
          assert rest[a] == values[a + 1] && rest[b] == values[b + 1];
        }
      }
      DistinctMinimaAgree(rest);
      var k :| 0 <= k < |rest| && rest[k] == MinOf(rest);
      assert values[0] != values[k + 1];
    }
  }

  /** Pushing 5 twice and popping once leaves a 5 on the stack but no
      minimum: the second 5 was not recorded, and the pop removed the first. */
  lemma RepeatedMinimumLost()
    ensures var m := Push(Push(New(), 5), 5);
      && m.minima.items == StrictMinima(m.values.items)
      && Pop(m).1.values.items == [5]
      && Min(Pop(m).1) == None
  {
    var m := Push(Push(New(), 5), 5);
    assert m.values.items == [5, 5] && m.minima.items == [5];
  }

  /** With the corrected push the same sequence keeps 5 as the minimum. */
  lemma RepeatedMinimumKept()
    ensures var m := PushCorrected(PushCorrected(New(), 5), 5);
      && Pop(m).1.values.items == [5]
      && Min(Pop(m).1) == Some(5)
  {
    var m := PushCorrected(PushCorrected(New(), 5), 5);
    assert m.values.items == [5, 5] && m.minima.items == [5, 5];
  }
}
