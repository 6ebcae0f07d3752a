/** Sequence notions shared by the string utilities, the list algorithms and
    the stack/queue models: reversal, pairwise distinctness, element sets and
    substring containment. */
module Seqs {

  /** `s` in reverse order. Both the string `reverse` and the in-place
      `reverseLinkedList` are modelled in terms of this one function. */
  function Reverse<T>(s: seq<T>): (r: seq<T>)
    ensures |r| == |s|
    ensures forall i :: 0 <= i < |s| ==> r[i] == s[|s| - 1 - i]
  {
    if |s| == 0 then [] else Reverse(s[1..]) + [s[0]]
  }

  /** Reversal is an involution. */
  lemma ReverseReverse<T>(s: seq<T>)
    ensures Reverse(Reverse(s)) == s
  {
  }

  /** Reversal turns concatenation around. */
  lemma ReverseConcat<T>(a: seq<T>, b: seq<T>)
    ensures Reverse(a + b) == Reverse(b) + Reverse(a)
  {
  }

  /** Reversal keeps the multiset of elements. */
  lemma {:induction false} ReverseMultiset<T>(s: seq<T>)
    ensures multiset(Reverse(s)) == multiset(s)
  {
    if |s| > 0 {
      ReverseMultiset(s[1..]);
      assert s == [s[0]] + s[1..];
    }
  }

  /** No two positions of `s` hold equal elements. */
  predicate AllDistinct<T(==)>(s: seq<T>) {
    forall a, b :: 0 <= a < b < |s| ==> s[a] != s[b]
  }

  /** The set of elements occurring in `s`. */
  function Elements<T>(s: seq<T>): set<T> {
    set x | x in s
  }

  /** A sequence has pairwise distinct elements exactly when its element set is
      as large as the sequence is long. */
  lemma {:induction false} DistinctIffElementsFull<T>(s: seq<T>)
    ensures AllDistinct(s) <==> |Elements(s)| == |s|
  {
    if |s| == 0 {
      assert Elements(s) == {};
    } else {
      var t := s[1..];
      DistinctIffElementsFull(t);
      ElementsBound(t);
      assert Elements(s) == {s[0]} + Elements(t);
      if s[0] in t {
        assert Elements(s) == Elements(t);
        var b :| 0 <= b < |t| && t[b] == s[0];
        assert s[0] == s[b + 1];
        assert !AllDistinct(s);
      } else {
        assert |Elements(s)| == 1 + |Elements(t)|;
        if AllDistinct(t) {
          forall a, b | 0 <= a < b < |s| ensures s[a] != s[b] {
            if a > 0 {
              assert s[a] == t[a - 1] && s[b] == t[b - 1];
            } else {
              assert s[b] == t[b - 1];
              assert s[b] in t;
            }
          }
        } else {
          var a, b :| 0 <= a < b < |t| && t[a] == t[b];
          assert s[a + 1] == s[b + 1];
        }
      }
    }
  }

  /** The element set is never larger than the sequence. */
  lemma {:induction false} ElementsBound<T>(s: seq<T>)
    ensures |Elements(s)| <= |s|
  {
    if |s| > 0 {
      ElementsBound(s[1..]);
      assert Elements(s) == {s[0]} + Elements(s[1..]);
    } else {
      assert Elements(s) == {};
    }
  }

  /** `p` occurs as a contiguous block of `t` starting at offset `k`. */
  predicate OccursAt<T(==)>(p: seq<T>, t: seq<T>, k: int) {
    0 <= k <= |t| - |p| && t[k..k + |p|] == p
  }

  /** `p` occurs as a contiguous block of `t`, at some offset. */
  predicate IsSubstring<T(==)>(p: seq<T>, t: seq<T>) {
    exists k :: 0 <= k <= |t| - |p| && OccursAt(p, t, k)
  }

  /** The concatenation of all pieces, in order (Go's `strings.Join(pieces, "")`). */
  function Flatten<T>(pieces: seq<seq<T>>): seq<T> {
    if |pieces| == 0 then [] else pieces[0] + Flatten(pieces[1..])
  }

  /** Flattening distributes over concatenation of the piece lists. */
  lemma {:induction false} FlattenConcat<T>(a: seq<seq<T>>, b: seq<seq<T>>)
    ensures Flatten(a + b) == Flatten(a) + Flatten(b)
  {
    if |a| > 0 {
      FlattenConcat(a[1..], b);
      assert (a + b)[1..] == a[1..] + b;
    } else {
      assert a + b == b;
    }
  }

  /** Concatenation is associative. */
  lemma AppendAssoc<T>(a: seq<T>, b: seq<T>, c: seq<T>)
    ensures (a + b) + c == a + (b + c)
  {
  }

  /** Appending one piece appends its elements. */
  lemma FlattenSnoc<T>(pieces: seq<seq<T>>, piece: seq<T>)
    ensures Flatten(pieces + [piece]) == Flatten(pieces) + piece
  {
    FlattenConcat(pieces, [piece]);
    assert Flatten([piece]) == piece by {
      assert [piece][1..] == [];
    }
  }
}
