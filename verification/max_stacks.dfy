/** The stack that always gives back its largest value: the chain is kept
    in non-increasing order from the top, each new value being linked in
    before the first node whose value is no larger than it. */
module MaxStacks {
  import opened Wrappers

  datatype MaxStack = MaxStack(items: seq<int>)

  /** Non-increasing from the top. */
  predicate Sorted(s: seq<int>) {
    forall i, j :: 0 <= i < j < |s| ==> s[i] >= s[j]
  }

  /** `newMaxStack`: no node. */
  function New(): (r: MaxStack)
    ensures IsEmpty(r) && Sorted(r.items)
  {
    MaxStack([])
  }

  /** The first position whose value is no larger than `v`, or the length
      when every value is larger: where `v` is to be linked in. */
  function FirstAtMost(s: seq<int>, v: int): (r: nat)
    ensures r <= |s|
    ensures forall k :: 0 <= k < r ==> s[k] > v
    ensures r < |s| ==> s[r] <= v
  {
    if |s| == 0 || s[0] <= v then 0 else 1 + FirstAtMost(s[1..], v)
  }

  /** `Push`: a value no smaller than the top goes on top; otherwise the
      chain is walked from the top while the next value is larger, and the
      new node is linked in after the last larger one. The result is the old
      chain with `v` inserted before its first value no larger than `v`, so
      it holds one more `v`, and a sorted stack stays sorted. */
  method Push(s: MaxStack, v: int) returns (r: MaxStack)
    ensures r.items == s.items[..FirstAtMost(s.items, v)] + [v] + s.items[FirstAtMost(s.items, v)..]
    ensures multiset(r.items) == multiset(s.items) + multiset{v}
    ensures Sorted(s.items) ==> Sorted(r.items)
  {
    var position;
    if |s.items| == 0 || v >= s.items[0] {
      position := 0;
    } else {
      var previous := 0;
      var current := 1;
      while current < |s.items| && s.items[current] > v
        invariant 1 <= current <= |s.items|
        invariant previous == current - 1
        invariant forall k :: 0 <= k < current ==> s.items[k] > v
      {
        previous := current;
        current := previous + 1;
      }
      position := current;
    }
    FirstAtMostUnique(s.items, v, position);
    r := MaxStack(s.items[..position] + [v] + s.items[position..]);
    InsertKeepsValues(s.items, v, position);
    if Sorted(s.items) {
      InsertKeepsOrder(s.items, v, position);
    }
  }

  /** The first position with a value no larger than `v` is the only
      position with all the values before it larger and its own no larger. */
  lemma {:induction false} FirstAtMostUnique(s: seq<int>, v: int, i: int)
    requires 0 <= i <= |s|
    requires forall k :: 0 <= k < i ==> s[k] > v
    requires i < |s| ==> s[i] <= v
    ensures i == FirstAtMost(s, v)
  {
    if i > 0 {
      FirstAtMostUnique(s[1..], v, i - 1);
    }
  }

  /** Inserting adds exactly one `v`. */
  lemma InsertKeepsValues(s: seq<int>, v: int, i: int)
    requires 0 <= i <= |s|
    ensures multiset(s[..i] + [v] + s[i..]) == multiset(s) + multiset{v}
  {
    assert s == s[..i] + s[i..];
  }

  /** Inserting `v` after the values larger than it and before the rest
      keeps a sorted chain sorted. */
  lemma InsertKeepsOrder(s: seq<int>, v: int, i: int)
    requires 0 <= i <= |s|
    requires forall k :: 0 <= k < i ==> s[k] > v
    requires i < |s| ==> s[i] <= v
    requires Sorted(s)
    ensures Sorted(s[..i] + [v] + s[i..])
  {
    var r := s[..i] + [v] + s[i..];
    forall a, b | 0 <= a < b < |r| ensures r[a] >= r[b] {
      if a < i && b == i {
      } else if a == i && b > i {
        assert r[b] == s[b - 1];
      } else if a < i && b > i {
        assert r[b] == s[b - 1];
      } else if a > i {
        assert r[a] == s[a - 1] && r[b] == s[b - 1];
      }
    }
  }

  /** The top value, `None` for an empty stack; on a sorted stack it is the
      largest value. */
  function Pick(s: MaxStack): (r: Option<int>)
    ensures r.None? <==> |s.items| == 0
    ensures r.Some? ==> r.value == s.items[0]
    ensures r.Some? && Sorted(s.items) ==> forall k :: 0 <= k < |s.items| ==> s.items[k] <= r.value
  {
    if |s.items| > 0 then Some(s.items[0]) else None
  }

  /** Takes the top node off: the largest value of a sorted stack, which
      stays sorted, or `None` for an empty stack, which stays empty. */
  function Pop(s: MaxStack): (r: (Option<int>, MaxStack))
    ensures r.0 == Pick(s)
    ensures r.0.None? ==> r.1 == s
    ensures r.0.Some? ==> s.items == [r.0.value] + r.1.items
    ensures Sorted(s.items) ==> Sorted(r.1.items)
  {
    if |s.items| > 0 then (Some(s.items[0]), MaxStack(s.items[1..])) else (None, s)
  }

  /** A stack is empty when picking its top finds nothing. */
  predicate IsEmpty(s: MaxStack)
    ensures IsEmpty(s) <==> |s.items| == 0
  {
    Pick(s).None?
  }

  /** Pops the stack until it is empty, collecting the values popped. */
  function Drain(s: MaxStack): (r: seq<int>)
    ensures |r| == |s.items|
    decreases |s.items|
  {
    match Pop(s)
    case (None, _) => []
    case (Some(v), rest) => [v] + Drain(rest)
  }

  /** Values come off a stack built by `Push` largest first: draining a
      sorted stack gives a non-increasing sequence of its values. */
  lemma {:induction false} DrainDescends(s: MaxStack)
    requires Sorted(s.items)
    ensures Drain(s) == s.items
    ensures Sorted(Drain(s))
    decreases |s.items|
  {
    if |s.items| > 0 {
      DrainDescends(Pop(s).1);
    }
  }
}
