/** The list algorithms whose effect depends on which node is which: the
    in-place reversal, the two callers that reverse their own input
    (`sum` and `isPalindrom`) and the cycle search. Nodes live in a finite
    heap from ids to cells; a chain is the sequence of ids met walking
    from its head. */
module Chains {
  import opened Wrappers
  import opened Seqs
  import LinkedLists

  /** A node: its value and the id of its successor, `None` for nil. */
  datatype Node<T> = Node(value: T, next: Option<nat>)

  type Heap<T> = map<nat, Node<T>>

  /** The link that follows position `i` of the chain `ids`. */
  function Successor(ids: seq<nat>, i: int): Option<nat> {
    if 0 <= i && i + 1 < |ids| then Some(ids[i + 1]) else None
  }

  /** Walking from `head` meets the nodes `ids`, each once, and then nil. */
  predicate IsChain<T>(h: Heap<T>, head: Option<nat>, ids: seq<nat>) {
    && head == (if |ids| == 0 then None else Some(ids[0]))
    && (forall i :: 0 <= i < |ids| ==> ids[i] in h && h[ids[i]].next == Successor(ids, i))
    && AllDistinct(ids)
  }

  /** The values held by the nodes `ids`, in order. */
  function Values<T>(h: Heap<T>, ids: seq<nat>): (r: seq<T>)
    requires forall i :: 0 <= i < |ids| ==> ids[i] in h
    ensures |r| == |ids|
    ensures forall i :: 0 <= i < |ids| ==> r[i] == h[ids[i]].value
  {
    if |ids| == 0 then [] else [h[ids[0]].value] + Values(h, ids[1..])
  }

  /** Walks a chain from its head and collects the values met, as the
      value-level algorithms read their inputs. */
  method ReadChain<T>(h: Heap<T>, head: Option<nat>, ghost ids: seq<nat>) returns (r: seq<T>)
    requires IsChain(h, head, ids)
    ensures r == Values(h, ids)
  {
    r := [];
    var current := head;
    while current.Some?
      invariant |r| <= |ids|
      invariant current == (if |r| < |ids| then Some(ids[|r|]) else None)
      invariant forall i :: 0 <= i < |r| ==> r[i] == h[ids[i]].value
      decreases |ids| - |r|
    {
      r := r + [h[current.value].value];
      current := h[current.value].next;
    }
  }

  // ---------------------------------------------------------------------
  // reverseLinkedList
  // ---------------------------------------------------------------------

  /** Turns every link of the chain around. The returned head walks the
      nodes backwards; the old head is now the last node, so a caller still
      holding it sees a one-node chain. No node is added or removed and no
      other node changes. */
  method ReverseLinkedList<T>(h: Heap<T>, head: Option<nat>, ghost ids: seq<nat>)
    returns (h': Heap<T>, reversed: Option<nat>)
    requires IsChain(h, head, ids)
    ensures IsChain(h', reversed, Reverse(ids))
    ensures Values(h', Reverse(ids)) == Reverse(Values(h, ids))
    ensures |ids| > 0 ==> IsChain(h', head, ids[..1])
    ensures forall x :: x in h ==> x in h' && h'[x].value == h[x].value
    ensures forall x :: x in h && x !in ids ==> h'[x] == h[x]
    ensures h'.Keys == h.Keys
  {
    h' := h;
    var previous: Option<nat> := None;
    var current := head;
    var following := head;
    ghost var k := 0;
    while current.Some?
      invariant 0 <= k <= |ids|
      invariant current == following == (if k < |ids| then Some(ids[k]) else None)
      invariant previous == Predecessor(ids, k)
      invariant ReversedUpTo(h, h', ids, k)
      invariant h'.Keys == h.Keys
      decreases |ids| - k
    {
      following := h'[following.value].next;
      ghost var before := h';
      h' := h'[current.value := h'[current.value].(next := previous)];
      ReverseStep(h, before, ids, k, h');
      previous := current;
      current := following;
      k := k + 1;
    }
    reversed := previous;
    ReversalDone(h, h', head, ids);
  }

  /** With every link turned around, the heap holds the reversed chain and
      the old head ends it. */
  lemma ReversalDone<T>(h: Heap<T>, h': Heap<T>, head: Option<nat>, ids: seq<nat>)
    requires IsChain(h, head, ids) && ReversedUpTo(h, h', ids, |ids|)
    ensures IsChain(h', Predecessor(ids, |ids|), Reverse(ids))
    ensures Values(h', Reverse(ids)) == Reverse(Values(h, ids))
    ensures |ids| > 0 ==> IsChain(h', head, ids[..1])
  {
    ReversedLinks(h, h', ids);
    if |ids| > 0 {
      assert ids[..1] == [ids[0]];
    }
  }

  /** The heap part way through the reversal: the first `k` nodes of the
      chain point backwards, the rest are untouched, and every value stays. */
  ghost predicate ReversedUpTo<T>(h: Heap<T>, h': Heap<T>, ids: seq<nat>, k: int) {
    && (forall x :: x in h ==> x in h' && h'[x].value == h[x].value)
    && (forall x :: x in h && x !in ids ==> h'[x] == h[x])
    && (forall i :: 0 <= i < |ids| && k <= i ==> ids[i] in h && ids[i] in h' && h'[ids[i]] == h[ids[i]])
    && (forall i :: 0 <= i < k && i < |ids| ==>
          ids[i] in h && ids[i] in h' && h'[ids[i]].value == h[ids[i]].value && h'[ids[i]].next == Predecessor(ids, i))
  }

  /** Turning the `k`-th link around extends the reversed prefix by one. */
  lemma ReverseStep<T>(h: Heap<T>, h': Heap<T>, ids: seq<nat>, k: int, next: Heap<T>)
    requires AllDistinct(ids) && forall i :: 0 <= i < |ids| ==> ids[i] in h
    requires 0 <= k < |ids| && ReversedUpTo(h, h', ids, k)
    requires next == h'[ids[k] := h'[ids[k]].(next := Predecessor(ids, k))]
    ensures ReversedUpTo(h, next, ids, k + 1)
  {
    forall i | 0 <= i < |ids| && i != k ensures ids[i] != ids[k] {
      assert ids[i] != ids[k];
    }
  }

  /** The link that precedes position `i` of the chain `ids`. */
  function Predecessor(ids: seq<nat>, i: int): Option<nat> {
    if 0 < i <= |ids| then Some(ids[i - 1]) else None
  }

  /** Read backwards, a chain's predecessors are its successors. */
  lemma ReverseSuccessor(ids: seq<nat>, i: int)
    requires 0 <= i < |ids|
    ensures Reverse(ids)[i] == ids[|ids| - 1 - i]
    ensures Successor(Reverse(ids), i) == Predecessor(ids, |ids| - 1 - i)
  {
  }

  /** Once every link is turned around, the nodes form the reversed chain. */
  lemma ReversedLinks<T>(h: Heap<T>, h': Heap<T>, ids: seq<nat>)
    requires AllDistinct(ids)
    requires forall i :: 0 <= i < |ids| ==> ids[i] in h
    requires forall i :: 0 <= i < |ids| ==>
      ids[i] in h' && h'[ids[i]].value == h[ids[i]].value && h'[ids[i]].next == Predecessor(ids, i)
    ensures IsChain(h', if |ids| == 0 then None else Some(ids[|ids| - 1]), Reverse(ids))
    ensures Values(h', Reverse(ids)) == Reverse(Values(h, ids))
  {
    ReversedNext(h', ids);
    ReverseDistinct(ids);
    ReversedValues(h, h', ids);
  }

  lemma ReversedNext<T>(h': Heap<T>, ids: seq<nat>)
    requires forall i :: 0 <= i < |ids| ==> ids[i] in h' && h'[ids[i]].next == Predecessor(ids, i)
    ensures forall i :: 0 <= i < |ids| ==> Reverse(ids)[i] in h' && h'[Reverse(ids)[i]].next == Successor(Reverse(ids), i)
  {
    forall i | 0 <= i < |ids| ensures Reverse(ids)[i] in h' && h'[Reverse(ids)[i]].next == Successor(Reverse(ids), i) {
      ReverseSuccessor(ids, i);
    }
  }

  lemma ReverseAt<T>(s: seq<T>, i: int)
    requires 0 <= i < |s|
    ensures Reverse(s)[i] == s[|s| - 1 - i]
  {
  }

  lemma ReverseDistinct(ids: seq<nat>)
    requires AllDistinct(ids)
    ensures AllDistinct(Reverse(ids))
  {
    forall a, b | 0 <= a < b < |ids| ensures Reverse(ids)[a] != Reverse(ids)[b] {
      ReverseSuccessor(ids, a);
      ReverseSuccessor(ids, b);
    }
  }

  lemma ReversedValues<T>(h: Heap<T>, h': Heap<T>, ids: seq<nat>)
    requires forall i :: 0 <= i < |ids| ==> ids[i] in h && ids[i] in h' && h'[ids[i]].value == h[ids[i]].value
    ensures forall i :: 0 <= i < |ids| ==> Reverse(ids)[i] in h'
    ensures Values(h', Reverse(ids)) == Reverse(Values(h, ids))
  {
    forall i | 0 <= i < |ids| ensures Reverse(ids)[i] in h && Reverse(ids)[i] in h'
      && h'[Reverse(ids)[i]].value == h[Reverse(ids)[i]].value {
      ReverseAt(ids, i);
    }
    SameValues(h, h', Reverse(ids));
    ValuesReverse(h, ids);
  }

  /** Nodes holding the same values in two heaps read the same. */
  lemma SameValues<T>(h: Heap<T>, h': Heap<T>, ids: seq<nat>)
    requires forall i :: 0 <= i < |ids| ==> ids[i] in h && ids[i] in h' && h'[ids[i]].value == h[ids[i]].value
    ensures Values(h', ids) == Values(h, ids)
  {
  }

  /** Reading the nodes backwards reads the values backwards. */
  lemma {:induction false} ValuesReverse<T>(h: Heap<T>, ids: seq<nat>)
    requires forall i :: 0 <= i < |ids| ==> ids[i] in h
    ensures forall i :: 0 <= i < |ids| ==> Reverse(ids)[i] in h
    ensures Values(h, Reverse(ids)) == Reverse(Values(h, ids))
  {
    forall i | 0 <= i < |ids| ensures Reverse(ids)[i] in h {
      ReverseAt(ids, i);
    }
    if |ids| > 0 {
      var rest := ids[1..];
      ValuesReverse(h, rest);
      ValuesConcat(h, Reverse(rest), [ids[0]]);
      var vs := Values(h, ids);
      assert vs[1..] == Values(h, rest);
    }
  }

  lemma {:induction false} ValuesConcat<T>(h: Heap<T>, a: seq<nat>, b: seq<nat>)
    requires forall i :: 0 <= i < |a| ==> a[i] in h
    requires forall i :: 0 <= i < |b| ==> b[i] in h
    ensures Values(h, a + b) == Values(h, a) + Values(h, b)
  {
    if |a| > 0 {
      ValuesConcat(h, a[1..], b);
      assert (a + b)[1..] == a[1..] + b;
    } else {
      assert a + b == b;
    }
  }

  // ---------------------------------------------------------------------
  // isPalindrom
  // ---------------------------------------------------------------------

  /** The comparison loop of `isPalindrom`: walks two chains side by side
      while the first lasts and reports whether every pair of values agreed. */
  method CompareWalk<T(==)>(h: Heap<T>, a: Option<nat>, ghost aIds: seq<nat>, b: Option<nat>, ghost bIds: seq<nat>)
    returns (r: bool)
    requires IsChain(h, a, aIds) && IsChain(h, b, bIds)
    requires |aIds| <= |bIds|
    ensures r <==> Values(h, aIds) == Values(h, bIds)[..|aIds|]
  {
    var current := a;
    var other := b;
    ghost var k := 0;
    while current.Some?
      invariant 0 <= k <= |aIds|
      invariant current == (if k < |aIds| then Some(aIds[k]) else None)
      invariant other == (if k < |bIds| then Some(bIds[k]) else None)
      invariant forall i :: 0 <= i < k ==> h[aIds[i]].value == h[bIds[i]].value
      decreases |aIds| - k
    {
      if h[current.value].value != h[other.value].value {
        assert Values(h, aIds)[k] != Values(h, bIds)[..|aIds|][k];
        return false;
      }
      current := h[current.value].next;
      other := h[other.value].next;
      k := k + 1;
    }
    return true;
  }

  /** `isPalindrom` as written: it reverses its own input, after which the
      head it goes on walking from is a one-node chain, so it compares only
      the first value with the last. The chain is left reversed in the
      heap; no other node changes. */
  method IsPalindrom<T(==)>(h: Heap<T>, head: Option<nat>, ghost ids: seq<nat>)
    returns (h': Heap<T>, r: bool)
    requires IsChain(h, head, ids)
    ensures r <==> LinkedLists.FirstMatchesLast(Values(h, ids))
    ensures IsChain(h', if |ids| == 0 then None else Some(ids[|ids| - 1]), Reverse(ids))
    ensures Values(h', Reverse(ids)) == Reverse(Values(h, ids))
    ensures h'.Keys == h.Keys
    ensures forall x :: x in h && x !in ids ==> h'[x] == h[x]
  {
    var reversedList;
    h', reversedList := ReverseLinkedList(h, head, ids);
    ghost var walked := if |ids| == 0 then [] else ids[..1];
    r := CompareWalk(h', head, walked, reversedList, Reverse(ids));
    if |ids| > 0 {
      assert Values(h', walked)[0] == Values(h, ids)[0];
      assert Values(h', Reverse(ids))[0] == Values(h, ids)[|ids| - 1];
      assert Values(h', walked) == [Values(h', walked)[0]];
    }
  }

  // ---------------------------------------------------------------------
  // sum
  // ---------------------------------------------------------------------

  /** `sum` reverses both input chains in place, adds them least significant
      digit first and returns the reversed result (built from fresh nodes,
      modelled by its digits). Both input chains are left reversed in the
      heap, so the caller's heads afterwards see one node each; no other
      node changes. */
  method Sum(h: Heap<int>, a: Option<nat>, ghost aIds: seq<nat>, b: Option<nat>, ghost bIds: seq<nat>)
    returns (h': Heap<int>, r: seq<int>)
    requires IsChain(h, a, aIds) && IsChain(h, b, bIds)
    requires Disjoint(aIds, bIds)
    ensures r == LinkedLists.Sum(Values(h, aIds), Values(h, bIds))
    ensures |aIds| > 0 ==> IsChain(h', a, aIds[..1])
    ensures |bIds| > 0 ==> IsChain(h', b, bIds[..1])
    ensures |aIds| > 0 ==> IsChain(h', Some(aIds[|aIds| - 1]), Reverse(aIds))
    ensures |bIds| > 0 ==> IsChain(h', Some(bIds[|bIds| - 1]), Reverse(bIds))
    ensures Values(h', Reverse(aIds)) == Reverse(Values(h, aIds))
    ensures Values(h', Reverse(bIds)) == Reverse(Values(h, bIds))
    ensures h'.Keys == h.Keys
    ensures forall x :: x in h && x !in aIds && x !in bIds ==> h'[x] == h[x]
  {
    var h1, reversedA := ReverseLinkedList(h, a, aIds);
    Untouched(h, h1, aIds, b, bIds);
    var reversedB;
    h', reversedB := ReverseLinkedList(h1, b, bIds);
    DisjointReverse(aIds, bIds);
    Untouched(h1, h', bIds, reversedA, Reverse(aIds));
    if |aIds| > 0 {
      Untouched(h1, h', bIds, a, aIds[..1]);
    }
    var digitsA := ReadChain(h', reversedA, Reverse(aIds));
    var digitsB := ReadChain(h', reversedB, Reverse(bIds));
    r := Reverse(LinkedLists.SumReversed(digitsA, digitsB));
    if |aIds| > 0 {
      ReverseAt(aIds, 0);
    }
    if |bIds| > 0 {
      ReverseAt(bIds, 0);
    }
  }

  /** No node belongs to both chains. */
  predicate Disjoint(a: seq<nat>, b: seq<nat>) {
    forall i, j :: 0 <= i < |a| && 0 <= j < |b| ==> a[i] != b[j]
  }

  lemma DisjointReverse(a: seq<nat>, b: seq<nat>)
    requires Disjoint(a, b)
    ensures Disjoint(b, Reverse(a)) && (|a| > 0 ==> Disjoint(b, a[..1]))
  {
    forall i, j | 0 <= i < |b| && 0 <= j < |a| ensures b[i] != Reverse(a)[j] {
      assert Reverse(a)[j] == a[|a| - 1 - j];
    }
  }

  /** A chain none of whose nodes a reversal touched is still there, with its
      values. */
  lemma Untouched<T>(h: Heap<T>, h': Heap<T>, changed: seq<nat>, head: Option<nat>, other: seq<nat>)
    requires forall x :: x in h ==> x in h'
    requires forall x :: x in h && x !in changed ==> h'[x] == h[x]
    requires IsChain(h, head, other) && Disjoint(changed, other)
    ensures IsChain(h', head, other) && Values(h', other) == Values(h, other)
  {
    forall i | 0 <= i < |other| ensures h'[other[i]] == h[other[i]] {
      assert other[i] !in changed;
    }
  }

  // ---------------------------------------------------------------------
  // findLoop
  // ---------------------------------------------------------------------

  /** Every link of the heap, and the start, names a node of the heap. */
  predicate Closed<T>(h: Heap<T>, start: Option<nat>) {
    && (start.Some? ==> start.value in h)
    && forall x :: x in h && h[x].next.Some? ==> h[x].next.value in h
  }

  /** Where a walk from `start` is after `k` steps; nil stays nil. */
  function Walk<T>(h: Heap<T>, start: Option<nat>, k: nat): Option<nat> {
    if k == 0 then start
    else
      var before := Walk(h, start, k - 1);
      if before.Some? && before.value in h then h[before.value].next else None
  }

  /** Step `j` of the walk is the first to reach a node met before. */
  predicate FirstRepeat<T>(h: Heap<T>, start: Option<nat>, i: nat, j: nat) {
    && i < j
    && Walk(h, start, j).Some? && Walk(h, start, i) == Walk(h, start, j)
    && forall a, b :: 0 <= a < b < j ==> Walk(h, start, a) != Walk(h, start, b)
  }

  /** Remembers every node it has passed and returns the first node it
      reaches a second time, or nil when the walk reaches nil. */
  method FindLoop<T>(h: Heap<T>, head: Option<nat>) returns (r: Option<nat>)
    requires Closed(h, head)
    ensures r.None? ==> exists n :: Walk(h, head, n).None?
    ensures r.Some? ==> exists i, j :: FirstRepeat(h, head, i, j) && r == Walk(h, head, i)
  {
    var visited: set<nat> := {};
    var current := head;
    ghost var path: seq<nat> := [];
    while current.Some?
      invariant current == Walk(h, head, |path|)
      invariant current.Some? ==> current.value in h
      invariant visited == Elements(path) && visited <= h.Keys
      invariant forall a :: 0 <= a < |path| ==> Walk(h, head, a) == Some(path[a])
      invariant AllDistinct(path)
      decreases h.Keys - visited
    {
      if current.value in visited {
        ghost var i :| 0 <= i < |path| && path[i] == current.value;
        assert FirstRepeat(h, head, i, |path|);
        return current;
      }
      visited := visited + {current.value};
      path := path + [current.value];
      current := h[current.value].next;
    }
    return None;
  }

  /** A walk still on a node at step `n` was on a node at every step before. */
  lemma {:induction false} OnNodeBefore<T>(h: Heap<T>, start: Option<nat>, k: nat, n: nat)
    requires Walk(h, start, n).Some? && k <= n
    ensures Walk(h, start, k).Some?
    decreases n - k
  {
    if k < n {
      OnNodeBefore(h, start, k + 1, n);
    }
  }

  /** Two steps at the same node stay together from then on. */
  lemma {:induction false} SameNodeSameFuture<T>(h: Heap<T>, start: Option<nat>, i: nat, j: nat, t: nat)
    requires Walk(h, start, i) == Walk(h, start, j)
    ensures Walk(h, start, i + t) == Walk(h, start, j + t)
  {
    if t > 0 {
      SameNodeSameFuture(h, start, i, j, t - 1);
    }
  }

  /** When `findLoop` reports a node, the walk never reaches nil: it is a
      cycle, possibly behind a tail. */
  lemma {:induction false} RepeatNeverEnds<T>(h: Heap<T>, start: Option<nat>, i: nat, j: nat, n: nat)
    requires i < j && Walk(h, start, j).Some? && Walk(h, start, i) == Walk(h, start, j)
    ensures Walk(h, start, n).Some?
    decreases n
  {
    if n < j {
      OnNodeBefore(h, start, n, j);
    } else {
      RepeatNeverEnds(h, start, i, j, n - (j - i));
      SameNodeSameFuture(h, start, i, j, n - j);
      assert Walk(h, start, n - (j - i)) == Walk(h, start, i + (n - j));
    }
  }

  /** The reported node is where the tail joins the cycle: unless the walk
      starts on the cycle, the node is entered from two different nodes, the
      last one of the tail and the last one of the cycle. */
  lemma RepeatIsEntry<T>(h: Heap<T>, start: Option<nat>, i: nat, j: nat)
    requires FirstRepeat(h, start, i, j) && i > 0
    ensures Walk(h, start, i - 1) != Walk(h, start, j - 1)
    ensures Walk(h, start, i - 1).Some? && Walk(h, start, j - 1).Some?
  {
    OnNodeBefore(h, start, i - 1, j);
    OnNodeBefore(h, start, j - 1, j);
  }
}
