/** The animal shelter: one first-in first-out chain of cats and dogs.
    Adopters take the oldest animal, or the oldest of the kind they ask
    for. Its `Pick`, `Enqueue` and `DequeueAny` are the linked queue's
    operations on animals. */
module Shelters {
  import opened Wrappers
  import Queues

  datatype Animal = Cat(name: string) | Dog(name: string)

  type Shelter = Queues.Queue<Animal>

  /** The kind an adopter asks for: the type `DequeueSpecific` asserts to. */
  datatype Kind = CatKind | DogKind

  predicate IsKind(a: Animal, kind: Kind) {
    match kind
    case CatKind => a.Cat?
    case DogKind => a.Dog?
  }

  /** `newShelter`: no animal. */
  function New(): (r: Shelter)
    ensures Queues.Pick(r).None?
  {
    Queues.Empty()
  }

  /** The kind an animal is of. */
  function KindOf(a: Animal): (r: Kind)
    ensures IsKind(a, r) && !IsKind(a, Other(r))
  {
    if a.Cat? then CatKind else DogKind
  }

  /** `Pick`: the oldest animal, `None` for an empty shelter. The oldest
      animal is also the oldest of its own kind. */
  function Pick(s: Shelter): (r: Option<Animal>)
    ensures r.None? <==> |s.items| == 0
    ensures r.Some? ==> r.value == s.items[0] && FirstOfKind(s.items, KindOf(r.value)) == 0
  {
    Queues.Pick(s)
  }

  /** `Enqueue`: the animal joins the back of the shelter, and so the back
      of its own kind's animals; the other kind's animals are unchanged. */
  function Enqueue(s: Shelter, a: Animal): (r: Shelter)
    ensures r.items == s.items + [a]
    ensures OfKind(r.items, KindOf(a)) == OfKind(s.items, KindOf(a)) + [a]
    ensures OfKind(r.items, Other(KindOf(a))) == OfKind(s.items, Other(KindOf(a)))
  {
    var r := Queues.Enqueue(s, a);
    assert r.items == s.items + [a];
    OfKindConcat(s.items, [a], KindOf(a));
    OfKindConcat(s.items, [a], Other(KindOf(a)));
    r
  }

  /** `DequeueAny`: takes out the oldest animal whatever its kind, or
      returns `None` for an empty shelter. The animal leaves the front of
      its kind's animals; the other kind's animals are unchanged. */
  function DequeueAny(s: Shelter): (r: (Option<Animal>, Shelter))
    ensures r.0 == Pick(s)
    ensures r.0.None? ==> r.1 == s
    ensures r.0.Some? ==> s.items == [r.0.value] + r.1.items
    ensures r.0.Some? ==> [r.0.value] + OfKind(r.1.items, KindOf(r.0.value)) == OfKind(s.items, KindOf(r.0.value))
    ensures r.0.Some? ==> OfKind(r.1.items, Other(KindOf(r.0.value))) == OfKind(s.items, Other(KindOf(r.0.value)))
  {
    var r := Queues.Dequeue(s);
    if r.0.Some? then
      assert s.items[1..] == r.1.items;
      (r.0, r.1)
    else
      r
  }

  /** The animals of one kind, in the order they arrived. */
  function OfKind(s: seq<Animal>, kind: Kind): (r: seq<Animal>)
    ensures |r| <= |s|
  {
    if |s| == 0 then []
    else if IsKind(s[0], kind) then [s[0]] + OfKind(s[1..], kind)
    else OfKind(s[1..], kind)
  }

  /** The position of the oldest animal of a kind, or the length when there
      is none. */
  function FirstOfKind(s: seq<Animal>, kind: Kind): (r: nat)
    ensures r <= |s|
    ensures forall k :: 0 <= k < r ==> !IsKind(s[k], kind)
    ensures r < |s| ==> IsKind(s[r], kind)
  {
    if |s| == 0 || IsKind(s[0], kind) then 0 else 1 + FirstOfKind(s[1..], kind)
  }

  /** `DequeueSpecific`: walks the chain from the oldest animal and unlinks
      the first one of the kind asked for, or returns `None` and leaves the
      shelter alone when there is none. The animals of the kind lose their
      oldest member and those of the other kind keep their order. The
      shelter must not be empty: the source reads the first node's value. */
  method DequeueSpecific(s: Shelter, kind: Kind) returns (animal: Option<Animal>, s': Shelter)
    requires |s.items| > 0
    ensures animal.None? <==> FirstOfKind(s.items, kind) == |s.items|
    ensures animal.None? ==> s' == s
    ensures animal.Some? ==>
      var i := FirstOfKind(s.items, kind);
      animal.value == s.items[i] && s'.items == s.items[..i] + s.items[i + 1..]
    ensures animal.Some? ==> [animal.value] + OfKind(s'.items, kind) == OfKind(s.items, kind)
    ensures OfKind(s'.items, Other(kind)) == OfKind(s.items, Other(kind))
  {
    if IsKind(s.items[0], kind) {
      animal, s' := Some(s.items[0]), Queues.Queue(s.items[1..]);
      Unlinked(s.items, kind, 0);
      return;
    }
    var previous := 0;
    var current := 1;
    while current < |s.items|
      invariant 1 <= current <= |s.items|
      invariant previous == current - 1
      invariant forall k :: 0 <= k < current ==> !IsKind(s.items[k], kind)
    {
      if IsKind(s.items[current], kind) {
        animal, s' := Some(s.items[current]), Queues.Queue(s.items[..current] + s.items[current + 1..]);
        Unlinked(s.items, kind, current);
        return;
      }
      previous := current;
      current := previous + 1;
    }
    animal, s' := None, s;
    FirstOfKindUnique(s.items, kind, current);
  }

  /** The kind that is not `kind`. */
  function Other(kind: Kind): (r: Kind)
    ensures r != kind
  {
    match kind
    case CatKind => DogKind
    case DogKind => CatKind
  }

  /** Every animal is of exactly one of a kind and its other. */
  lemma OneKind(a: Animal, kind: Kind)
    ensures IsKind(a, Other(kind)) <==> !IsKind(a, kind)
  {
  }

  /** The first position of a kind is the only position with none of the
      kind before it and one of the kind at it. */
  lemma {:induction false} FirstOfKindUnique(s: seq<Animal>, kind: Kind, i: int)
    requires 0 <= i <= |s|
    requires forall k :: 0 <= k < i ==> !IsKind(s[k], kind)
    requires i < |s| ==> IsKind(s[i], kind)
    ensures i == FirstOfKind(s, kind)
  {
    if i > 0 {
      FirstOfKindUnique(s[1..], kind, i - 1);
    }
  }

  /** Unlinking the first animal of a kind takes it off the front of that
      kind's animals and leaves the other kind's as they were. */
  lemma {:induction false} Unlinked(s: seq<Animal>, kind: Kind, i: int)
    requires 0 <= i < |s|
    requires forall k :: 0 <= k < i ==> !IsKind(s[k], kind)
    requires IsKind(s[i], kind)
    ensures i == FirstOfKind(s, kind)
    ensures [s[i]] + OfKind(s[..i] + s[i + 1..], kind) == OfKind(s, kind)
    ensures OfKind(s[..i] + s[i + 1..], Other(kind)) == OfKind(s, Other(kind))
  {
    FirstOfKindUnique(s, kind, i);
    var before, x, after := s[..i], s[i], s[i + 1..];
    assert s == before + [x] + after;
    NoneOfKind(before, kind);
    OneKind(x, kind);
    SplitAt(before, x, after, kind);
    SplitAt(before, x, after, Other(kind));
  }

  /** Selecting a kind from a sequence with one element singled out. */
  lemma SplitAt(before: seq<Animal>, x: Animal, after: seq<Animal>, kind: Kind)
    ensures OfKind(before + [x] + after, kind) == OfKind(before, kind) + OfKind([x], kind) + OfKind(after, kind)
    ensures OfKind(before + after, kind) == OfKind(before, kind) + OfKind(after, kind)
  {
    OfKindConcat(before + [x], after, kind);
    OfKindConcat(before, [x], kind);
    OfKindConcat(before, after, kind);
  }

  /** Selecting a kind distributes over concatenation. */
  lemma {:induction false} OfKindConcat(a: seq<Animal>, b: seq<Animal>, kind: Kind)
    ensures OfKind(a + b, kind) == OfKind(a, kind) + OfKind(b, kind)
  {
    if |a| > 0 {
      OfKindConcat(a[1..], b, kind);
      assert (a + b)[1..] == a[1..] + b;
    } else {
      assert a + b == b;
    }
  }

  /** A stretch with no animal of a kind has none to select, and all of it
      is of the other kind. */
  lemma {:induction false} NoneOfKind(s: seq<Animal>, kind: Kind)
    requires forall k :: 0 <= k < |s| ==> !IsKind(s[k], kind)
    ensures OfKind(s, kind) == []
    ensures OfKind(s, Other(kind)) == s
  {
    if |s| > 0 {
      NoneOfKind(s[1..], kind);
      OneKind(s[0], kind);
    }
  }

  /** `DequeueDog`: the oldest dog, taken out of the shelter, or `None`. */
  method DequeueDog(s: Shelter) returns (dog: Option<Animal>, s': Shelter)
    requires |s.items| > 0
    ensures dog.None? <==> OfKind(s.items, DogKind) == []
    ensures dog.None? ==> s' == s
    ensures dog.None? <==> FirstOfKind(s.items, DogKind) == |s.items|
    ensures dog.Some? ==>
      var i := FirstOfKind(s.items, DogKind);
      dog.value == s.items[i] && s'.items == s.items[..i] + s.items[i + 1..]
    ensures dog.Some? ==> dog.value.Dog? && [dog.value] + OfKind(s'.items, DogKind) == OfKind(s.items, DogKind)
    ensures OfKind(s'.items, CatKind) == OfKind(s.items, CatKind)
  {
    dog, s' := DequeueSpecific(s, DogKind);
    NoneFound(s.items, DogKind);
  }

  /** `DequeueCat`: the oldest cat, taken out of the shelter, or `None`. */
  method DequeueCat(s: Shelter) returns (cat: Option<Animal>, s': Shelter)
    requires |s.items| > 0
    ensures cat.None? <==> OfKind(s.items, CatKind) == []
    ensures cat.None? ==> s' == s
    ensures cat.None? <==> FirstOfKind(s.items, CatKind) == |s.items|
    ensures cat.Some? ==>
      var i := FirstOfKind(s.items, CatKind);
      cat.value == s.items[i] && s'.items == s.items[..i] + s.items[i + 1..]
    ensures cat.Some? ==> cat.value.Cat? && [cat.value] + OfKind(s'.items, CatKind) == OfKind(s.items, CatKind)
    ensures OfKind(s'.items, DogKind) == OfKind(s.items, DogKind)
  {
    cat, s' := DequeueSpecific(s, CatKind);
    NoneFound(s.items, CatKind);
  }

  /** A kind has no first position exactly when it has no animals. */
  lemma NoneFound(s: seq<Animal>, kind: Kind)
    ensures FirstOfKind(s, kind) == |s| <==> OfKind(s, kind) == []
  {
    if FirstOfKind(s, kind) == |s| {
      NoneOfKind(s, kind);
    } else {
      var i := FirstOfKind(s, kind);
      Unlinked(s, kind, i);
    }
  }
}
