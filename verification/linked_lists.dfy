/** The list algorithms that read their input chains and build fresh ones:
    de-duplication, k-th from the end, partition and digit-wise addition.
    A chain is modelled by the values met walking from its head; the empty
    sequence is a nil head. The algorithms whose effect depends on which
    node is which (in-place reversal, palindrome check, cycle detection) are
    in module `Chains`. */
module LinkedLists {
  import opened Seqs

  // ---------------------------------------------------------------------
  // removeDuplicates
  // ---------------------------------------------------------------------

  /** `t` with every occurrence of `x` unlinked, the rest in order. */
  function Without<T(==)>(t: seq<T>, x: T): (r: seq<T>)
    ensures |r| <= |t|
    ensures forall i :: 0 <= i < |r| ==> r[i] in t && r[i] != x
    ensures forall i :: 0 <= i < |t| && t[i] != x ==> t[i] in r
  {
    if |t| == 0 then [] else (if t[0] == x then [] else [t[0]]) + Without(t[1..], x)
  }

  /** What the two nested loops leave behind: the first node, then the rest
      of the chain with every copy of the first value unlinked, treated the
      same way. */
  function Dedup<T(==)>(s: seq<T>): seq<T>
    decreases |s|
  {
    if |s| == 0 then [] else [s[0]] + Dedup(Without(s[1..], s[0]))
  }

  /** Reference definition: walking left to right, keep each value that has
      not been seen before. */
  function KeepUnseen<T(==)>(seen: set<T>, s: seq<T>): seq<T>
    decreases |s|
  {
    if |s| == 0 then [] else (if s[0] in seen then [] else [s[0]]) + KeepUnseen(seen + {s[0]}, s[1..])
  }

  /** The first occurrence of every value, in the order of the input. */
  function FirstOccurrences<T(==)>(s: seq<T>): seq<T> {
    KeepUnseen({}, s)
  }

  /** A walk on the chain that repeats nothing already seen; the nodes
      `removeDuplicates` unlinks hold values the walk has seen. */
  method RemoveDuplicates<T(==)>(s: seq<T>) returns (r: seq<T>)
    ensures r == FirstOccurrences(s)
    ensures AllDistinct(r)
    ensures Elements(r) == Elements(s)
  {
    var list := s;
    var first := 0;
    while first < |list|
      invariant 0 <= first <= |list|
      invariant Dedup(s) == list[..first] + Dedup(list[first..])
      decreases |list| - first
    {
      var x := list[first];
      var tail := list[first + 1..];
      var kept: seq<T> := [];
      var j := 0;
      while j < |tail|
        invariant 0 <= j <= |tail|
        invariant kept + Without(tail[j..], x) == Without(tail, x)
      {
        var piece := if tail[j] == x then [] else [tail[j]];
        WithoutStep(tail, j, x, kept, piece);
        kept := kept + piece;
        j := j + 1;
      }
      assert tail[j..] == [];
      var next := list[..first + 1] + kept;
      DedupStep(s, list, first, kept, next);
      list := next;
      first := first + 1;
    }
    r := list;
    assert list[first..] == [];
    DedupKeepsFirst({}, s);
    KeepUnseenFacts({}, s);
  }

  lemma WithoutStep<T>(t: seq<T>, j: int, x: T, kept: seq<T>, piece: seq<T>)
    requires 0 <= j < |t|
    requires piece == if t[j] == x then [] else [t[j]]
    ensures (kept + piece) + Without(t[j + 1..], x) == kept + Without(t[j..], x)
  {
    assert t[j..][1..] == t[j + 1..];
    assert Without(t[j..], x) == piece + Without(t[j + 1..], x);
    AppendAssoc(kept, piece, Without(t[j + 1..], x));
  }

  lemma DedupStep<T>(s: seq<T>, list: seq<T>, first: int, kept: seq<T>, next: seq<T>)
    requires 0 <= first < |list|
    requires kept == Without(list[first + 1..], list[first])
    requires Dedup(s) == list[..first] + Dedup(list[first..])
    requires next == list[..first + 1] + kept
    ensures Dedup(s) == next[..first + 1] + Dedup(next[first + 1..])
  {
    var rest := list[first..];
    assert rest[1..] == list[first + 1..];
    assert Dedup(rest) == [rest[0]] + Dedup(kept);
    assert next[..first + 1] == list[..first] + [list[first]];
    assert next[first + 1..] == kept;
    AppendAssoc(list[..first], [list[first]], Dedup(kept));
  }

  /** Values already seen may be unlinked before the walk without changing
      what it keeps. */
  lemma {:induction false} KeepWithout<T>(seen: set<T>, t: seq<T>, x: T)
    decreases |t|
    requires x in seen
    ensures KeepUnseen(seen, Without(t, x)) == KeepUnseen(seen, t)
  {
    if |t| > 0 {
      if t[0] == x {
        assert seen + {t[0]} == seen;
        assert Without(t, x) == Without(t[1..], x);
        KeepWithout(seen, t[1..], x);
      } else {
        KeepWithout(seen + {t[0]}, t[1..], x);
        var w := Without(t[1..], x);
        assert Without(t, x) == [t[0]] + w;
        assert ([t[0]] + w)[1..] == w;
      }
    }
  }

  /** The nested loops keep exactly the first occurrences. */
  lemma {:induction false} DedupKeepsFirst<T>(seen: set<T>, s: seq<T>)
    requires forall y :: y in s ==> y !in seen
    ensures Dedup(s) == KeepUnseen(seen, s)
    decreases |s|
  {
    if |s| > 0 {
      var rest := Without(s[1..], s[0]);
      DedupKeepsFirst(seen + {s[0]}, rest);
      KeepWithout(seen + {s[0]}, s[1..], s[0]);
    }
  }

  /** The walk keeps each unseen value exactly once. */
  lemma {:induction false} KeepUnseenFacts<T>(seen: set<T>, s: seq<T>)
    decreases |s|
    ensures forall y :: y in KeepUnseen(seen, s) <==> y in s && y !in seen
    ensures AllDistinct(KeepUnseen(seen, s))
  {
    if |s| > 0 {
      KeepUnseenFacts(seen + {s[0]}, s[1..]);
      var rest := KeepUnseen(seen + {s[0]}, s[1..]);
      var head: seq<T> := if s[0] in seen then [] else [s[0]];
      assert KeepUnseen(seen, s) == head + rest;
      forall y ensures y in head + rest <==> y in s && y !in seen {
        assert y in s <==> y == s[0] || y in s[1..];
      }
      forall a, b | 0 <= a < b < |head + rest| ensures (head + rest)[a] != (head + rest)[b] {
        if |head| == 1 && a == 0 {
          assert (head + rest)[b] == rest[b - 1];
        } else {
          assert (head + rest)[a] == rest[a - |head|] && (head + rest)[b] == rest[b - |head|];
        }
      }
    }
  }

  // ---------------------------------------------------------------------
  // findLast
  // ---------------------------------------------------------------------

  /** The node `indexFromEnd` places before the last, given as the chain
      from that node on; 0 is the last node and an index past the head
      stops at the head. With `indexFromEnd == -1` the walk ends on nil. */
  method FindLast<T>(s: seq<T>, indexFromEnd: int) returns (r: seq<T>)
    requires indexFromEnd >= -1
    ensures |r| == if indexFromEnd + 1 < |s| then indexFromEnd + 1 else |s|
    ensures r == s[|s| - |r|..]
  {
    var count := 0;
    var counted := s;
    while |counted| > 0
      invariant 0 <= count <= |s| && counted == s[count..]
    {
      counted := counted[1..];
      count := count + 1;
    }
    r := s;
    var i := 0;
    while i < count - indexFromEnd - 1
      invariant 0 <= i <= count
      invariant i == 0 || i <= count - indexFromEnd - 1
      invariant r == s[i..]
    {
      r := r[1..];
      i := i + 1;
    }
  }

  // ---------------------------------------------------------------------
  // partition
  // ---------------------------------------------------------------------

  /** The values below `p`, in order. */
  function Below(s: seq<int>, p: int): (r: seq<int>)
    ensures forall i :: 0 <= i < |r| ==> r[i] < p
  {
    if |s| == 0 then [] else Below(s[..|s| - 1], p) + (if s[|s| - 1] < p then [s[|s| - 1]] else [])
  }

  /** The values at least `p`, in order. */
  function AtLeast(s: seq<int>, p: int): (r: seq<int>)
    ensures forall i :: 0 <= i < |r| ==> r[i] >= p
  {
    if |s| == 0 then [] else AtLeast(s[..|s| - 1], p) + (if s[|s| - 1] >= p then [s[|s| - 1]] else [])
  }

  /** Copies the chain into two fresh chains, the values below `p` and the
      rest, each in input order, and links the first to the second. */
  method Partition(s: seq<int>, p: int) returns (r: seq<int>)
    ensures r == Below(s, p) + AtLeast(s, p)
    ensures multiset(r) == multiset(s)
    ensures forall i :: 0 <= i < |r| ==> (r[i] < p <==> i < |Below(s, p)|)
  {
    var smaller: seq<int> := [];
    var bigger: seq<int> := [];
    var i := 0;
    while i < |s|
      invariant 0 <= i <= |s|
      invariant smaller == Below(s[..i], p) && bigger == AtLeast(s[..i], p)
    {
      assert s[..i + 1][..i] == s[..i];
      if s[i] < p {
        smaller := smaller + [s[i]];
      } else {
        bigger := bigger + [s[i]];
      }
      i := i + 1;
    }
    assert s[..i] == s;
    r := smaller + bigger;
    PartsPermute(s, p);
  }

  /** The two parts together hold the input's values, with multiplicity. */
  lemma {:induction false} PartsPermute(s: seq<int>, p: int)
    ensures multiset(Below(s, p) + AtLeast(s, p)) == multiset(s)
  {
    if |s| > 0 {
      var init, last := s[..|s| - 1], s[|s| - 1];
      PartsPermute(init, p);
      assert s == init + [last];
      PartsStep(init, last, p);
    }
  }

  /** One more value lands in exactly one of the parts. */
  lemma PartsStep(init: seq<int>, last: int, p: int)
    ensures multiset(Below(init + [last], p) + AtLeast(init + [last], p))
         == multiset(Below(init, p) + AtLeast(init, p)) + multiset{last}
  {
    var s := init + [last];
    assert s[..|s| - 1] == init;
    var below, atLeast := Below(init, p), AtLeast(init, p);
    assert multiset(Below(s, p) + AtLeast(s, p)) == multiset(Below(s, p)) + multiset(AtLeast(s, p));
    assert multiset(below + atLeast) == multiset(below) + multiset(atLeast);
    if last < p {
      assert Below(s, p) == below + [last] && AtLeast(s, p) == atLeast;
    } else {
      assert Below(s, p) == below && AtLeast(s, p) == atLeast + [last];
    }
  }

  // ---------------------------------------------------------------------
  // calculateSum, sumReversed, sum
  // ---------------------------------------------------------------------

  /** One column of the addition: the digit written and the carry out. */
  function CalculateSum(a: int, b: int, previousCarry: bool): (r: (int, bool))
    ensures r.0 + (if r.1 then 10 else 0) == a + b + (if previousCarry then 1 else 0)
    ensures 0 <= a <= 9 && 0 <= b <= 9 ==> 0 <= r.0 <= 9
  {
    var sum := a + b + (if previousCarry then 1 else 0);
    if sum >= 10 then (sum - 10, true) else (sum, false)
  }

  function Pow10(n: nat): (r: nat)
    ensures r >= 1
  {
    if n == 0 then 1 else 10 * Pow10(n - 1)
  }

  /** `v` cut down to its lowest `n` decimal digits. */
  function Truncate(v: int, n: nat): int {
    v % Pow10(n)
  }

  predicate Digits(s: seq<int>) {
    forall i :: 0 <= i < |s| ==> 0 <= s[i] <= 9
  }

  /** The number a chain of digits denotes, least significant digit first. */
  function Value(s: seq<int>): int {
    if |s| == 0 then 0 else s[0] + 10 * Value(s[1..])
  }

  function Max(a: int, b: int): int {
    if a >= b then a else b
  }

  /** The digit a walk reads from a chain: its first, or 0 once it has ended. */
  function Head(s: seq<int>): int {
    if |s| > 0 then s[0] else 0
  }

  /** The chain a walk moves on to: all but the first, or nothing once it has ended. */
  function Tail(s: seq<int>): seq<int> {
    if |s| > 0 then s[1..] else []
  }

  /** The digit-by-digit walk of `sumReversed`, a missing digit read as 0:
      the digits written and the carry left at the end. */
  function AddDigits(a: seq<int>, b: seq<int>, carry: bool): (r: (seq<int>, bool))
    ensures |r.0| == Max(|a|, |b|)
    ensures Value(r.0) + (if r.1 then Pow10(|r.0|) else 0) == Value(a) + Value(b) + (if carry then 1 else 0)
    ensures Digits(a) && Digits(b) ==> Digits(r.0)
    decreases |a| + |b|
  {
    if |a| == 0 && |b| == 0 then ([], carry)
    else
      var column := CalculateSum(Head(a), Head(b), carry);
      var rest := AddDigits(Tail(a), Tail(b), column.1);
      AddColumn(a, b, carry, column.0, column.1, rest.0, rest.1);
      ([column.0] + rest.0, rest.1)
  }

  /** One column written in front of the columns after it keeps the sum. */
  lemma AddColumn(a: seq<int>, b: seq<int>, carry: bool, d: int, c: bool, digits: seq<int>, out: bool)
    requires |a| > 0 || |b| > 0
    requires d + (if c then 10 else 0) == Head(a) + Head(b) + (if carry then 1 else 0)
    requires Digits(a) && Digits(b) ==> 0 <= d <= 9
    requires |digits| == Max(|Tail(a)|, |Tail(b)|)
    requires Value(digits) + (if out then Pow10(|digits|) else 0) == Value(Tail(a)) + Value(Tail(b)) + (if c then 1 else 0)
    requires Digits(Tail(a)) && Digits(Tail(b)) ==> Digits(digits)
    ensures |[d] + digits| == Max(|a|, |b|)
    ensures Value([d] + digits) + (if out then Pow10(|[d] + digits|) else 0) == Value(a) + Value(b) + (if carry then 1 else 0)
    ensures Digits(a) && Digits(b) ==> Digits([d] + digits)
  {
    assert ([d] + digits)[1..] == digits;
    HeadTail(a);
    HeadTail(b);
  }

  /** A chain is its head digit plus ten times its tail. */
  lemma HeadTail(s: seq<int>)
    ensures |Tail(s)| == if |s| > 0 then |s| - 1 else 0
    ensures Value(s) == Head(s) + 10 * Value(Tail(s))
    ensures Digits(s) ==> Digits(Tail(s)) && 0 <= Head(s) <= 9
  {
  }

  /** `sumReversed` as written: the carry out of the last column is dropped,
      so the result is the sum modulo 10 to the number of columns. */
  function SumReversed(a: seq<int>, b: seq<int>): (r: seq<int>)
    ensures |r| == Max(|a|, |b|)
    ensures Digits(a) && Digits(b) ==> Digits(r) && Value(r) == Truncate(Value(a) + Value(b), |r|)
  {
    var (digits, carry) := AddDigits(a, b, false);
    if Digits(a) && Digits(b) then
      ValueBound(digits);
      DropCarry(Value(digits), if carry then 1 else 0, Pow10(|digits|));
      digits
    else
      digits
  }

  /** `sumReversed` with the final carry written as one more digit: the
      digits of the full sum. */
  function SumReversedFull(a: seq<int>, b: seq<int>): (r: seq<int>)
    ensures Digits(a) && Digits(b) ==> Digits(r) && Value(r) == Value(a) + Value(b)
  {
    var (digits, carry) := AddDigits(a, b, false);
    if carry then
      ValueSnoc(digits, 1);
      digits + [1]
    else
      digits
  }

  /** A digit chain denotes a number below 10 to its length. */
  lemma {:induction false} ValueBound(s: seq<int>)
    requires Digits(s)
    ensures 0 <= Value(s) < Pow10(|s|)
  {
    if |s| > 0 {
      ValueBound(s[1..]);
    }
  }

  /** Appending a digit adds it at the next power of ten. */
  lemma {:induction false} ValueSnoc(s: seq<int>, d: int)
    ensures Value(s + [d]) == Value(s) + d * Pow10(|s|)
  {
    if |s| > 0 {
      ValueSnoc(s[1..], d);
      assert (s + [d])[1..] == s[1..] + [d];
    } else {
      assert [d][1..] == [];
    }
  }

  lemma DropCarry(v: int, c: int, m: int)
    requires 0 <= v < m && 0 <= c <= 1
    ensures (v + c * m) % m == v
  {
    if c == 1 {
      assert v + c * m == v + m;
    }
  }

  /** `sum` on most-significant-first chains: reverse both, add, reverse the
      result. */
  function Sum(a: seq<int>, b: seq<int>): (r: seq<int>)
    ensures |r| == Max(|a|, |b|)
    ensures Digits(a) && Digits(b) ==>
      Digits(r) && Value(Reverse(r)) == Truncate(Value(Reverse(a)) + Value(Reverse(b)), |r|)
  {
    SumFacts(a, b);
    Reverse(SumReversed(Reverse(a), Reverse(b)))
  }

  lemma SumFacts(a: seq<int>, b: seq<int>)
    ensures Digits(a) && Digits(b) ==> Digits(Reverse(SumReversed(Reverse(a), Reverse(b))))
    ensures Digits(a) && Digits(b) ==>
      Value(Reverse(Reverse(SumReversed(Reverse(a), Reverse(b))))) ==
      Truncate(Value(Reverse(a)) + Value(Reverse(b)), |SumReversed(Reverse(a), Reverse(b))|)
  {
    if Digits(a) && Digits(b) {
      ReverseDigits(a);
      ReverseDigits(b);
      ReverseDigits(SumReversed(Reverse(a), Reverse(b)));
      ValueReverseReverse(SumReversed(Reverse(a), Reverse(b)));
    }
  }

  lemma ValueReverseReverse(s: seq<int>)
    ensures Value(Reverse(Reverse(s))) == Value(s)
  {
    ReverseReverse(s);
  }

  lemma ReverseDigits(s: seq<int>)
    requires Digits(s)
    ensures Digits(Reverse(s))
  {
  }

  /** With the carry dropped, 5 + 5 comes out as 0. */
  lemma SumReversedDropsCarry()
    ensures SumReversed([5], [5]) == [0]
    ensures Value([5]) + Value([5]) == 10
  {
    assert AddDigits([], [], true) == ([], true);
  }

  // ---------------------------------------------------------------------
  // Palindromes
  // ---------------------------------------------------------------------

  /** A chain that reads the same both ways. */
  predicate IsPalindrome<T(==)>(s: seq<T>) {
    s == Reverse(s)
  }

  /** What `isPalindrom` compares once it has reversed its own input:
      the first value against the last. */
  predicate FirstMatchesLast<T(==)>(s: seq<T>) {
    |s| == 0 || s[0] == s[|s| - 1]
  }

  /** A four-letter chain whose ends agree but which is no palindrome. */
  lemma EndsAgreeIsNotEnough()
    ensures FirstMatchesLast("abca") && !IsPalindrome("abca")
  {
    assert Reverse("abca")[1] == 'c';
  }

  /** The palindrome check comparing the chain with a reversed copy, so the
      chain itself is left intact. */
  method IsPalindromeCorrected<T(==)>(s: seq<T>) returns (r: bool)
    ensures r <==> IsPalindrome(s)
  {
    var reversed := Reverse(s);
    var i := 0;
    while i < |s|
      invariant 0 <= i <= |s|
      invariant forall k :: 0 <= k < i ==> s[k] == reversed[k]
    {
      if s[i] != reversed[i] {
        return false;
      }
      i := i + 1;
    }
    return true;
  }
}
