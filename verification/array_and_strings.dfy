/** The string and array exercises of `1_array_and_strings.go`, strings being
    sequences of characters (ASCII, so a byte index and a character index
    coincide). Matrix rotation lives in module `MatrixRotation`. */
module ArrayAndStrings {
  import Seqs
  import Decimal

  // ---------------------------------------------------------------------
  // hasOnlyUniqueChars
  // ---------------------------------------------------------------------

  /** Pairwise scan: every later position is compared with every earlier one.
      Comparison is on characters as they are, so "Dd" is unique. */
  method HasOnlyUniqueChars(s: string) returns (r: bool)
    ensures r <==> Seqs.AllDistinct(s)
    ensures r <==> |Seqs.Elements(s)| == |s|
  {
    Seqs.DistinctIffElementsFull(s);
    var i := 0;
    while i < |s|
      invariant 0 <= i <= |s|
      invariant forall a, b :: 0 <= a < i && a < b < |s| ==> s[a] != s[b]
    {
      var j := i + 1;
      while j < |s|
        invariant i + 1 <= j <= |s|
        invariant forall b :: i < b < j ==> s[i] != s[b]
      {
        if s[i] == s[j] {
          return false;
        }
        j := j + 1;
      }
      i := i + 1;
    }
    return true;
  }

  // ---------------------------------------------------------------------
  // reverse
  // ---------------------------------------------------------------------

  /** Fills a buffer of the input's length back to front. The empty string is
      returned as it is. */
  method Reverse(s: string) returns (r: string)
    ensures |r| == |s|
    ensures forall i :: 0 <= i < |s| ==> r[i] == s[|s| - 1 - i]
    ensures r == Seqs.Reverse(s)
  {
    var n := |s|;
    if n == 0 {
      return s;
    }
    var buffer: string := seq(n, _ => '\0');
    var index := 0;
    while index < n
      invariant 0 <= index <= n
      invariant |buffer| == n
      invariant forall k :: 0 <= k < index ==> buffer[n - 1 - k] == s[k]
    {
      buffer := buffer[n - index - 1 := s[index]];
      index := index + 1;
    }
    r := buffer;
    forall i | 0 <= i < n ensures r[i] == s[n - 1 - i] {
      var k := n - 1 - i;
      assert buffer[n - 1 - k] == s[k];
    }
  }

  // ---------------------------------------------------------------------
  // isPermutation / isPermutationOf
  // ---------------------------------------------------------------------

  /** Every element of `other` occurs somewhere in `input`. */
  predicate ContainsAll<K(==)>(input: seq<K>, other: seq<K>) {
    forall x :: x in other ==> x in input
  }

  /** Records the elements of `input` in a set, then looks every element of
      `other` up in it. Multiplicities and the extra elements of `input` play
      no part. */
  method IsPermutationOf<K(==)>(input: seq<K>, other: seq<K>) returns (r: bool)
    ensures r <==> ContainsAll(input, other)
  {
    var existing: set<K> := {};
    var i := 0;
    while i < |input|
      invariant 0 <= i <= |input|
      invariant existing == Seqs.Elements(input[..i])
    {
      existing := existing + {input[i]};
      assert input[..i + 1] == input[..i] + [input[i]];
      i := i + 1;
    }
    assert input[..i] == input;
    var j := 0;
    while j < |other|
      invariant 0 <= j <= |other|
      invariant forall k :: 0 <= k < j ==> other[k] in input
    {
      if other[j] !in existing {
        return false;
      }
      j := j + 1;
    }
    return true;
  }

  /** The string entry point: characters compared case-sensitively. */
  method IsPermutation(input: string, other: string) returns (r: bool)
    ensures r <==> forall c :: c in other ==> c in input
  {
    r := IsPermutationOf(input, other);
  }

  /** The containment test accepts any genuine permutation ... */
  lemma PermutationIsContained<K>(input: seq<K>, other: seq<K>)
    requires multiset(input) == multiset(other)
    ensures ContainsAll(input, other)
  {
    forall x | x in other ensures x in input {
      assert x in multiset(other);
    }
  }

  /** ... but also pairs that are not permutations of each other. */
  lemma ContainmentIsNotPermutation()
    ensures ContainsAll("ab", "a")
    ensures multiset("ab") != multiset("a")
  {
    assert "ab"[0] == 'a';
    assert 'b' in multiset("ab");
  }

  /** The count of each element in `m`, zero when absent. */
  function Tally<K>(m: map<K, int>, x: K): int {
    if x in m then m[x] else 0
  }

  /** What the permutation test evidently meant: the two sequences hold the
      same elements with the same multiplicities. Counts up for `input`,
      down for `other`, and accepts when every count is back to zero. */
  method IsPermutationByCount<K(==)>(input: seq<K>, other: seq<K>) returns (r: bool)
    ensures r <==> multiset(input) == multiset(other)
  {
    var counts: map<K, int> := map[];
    var i := 0;
    while i < |input|
      invariant 0 <= i <= |input|
      invariant forall x :: Tally(counts, x) == multiset(input[..i])[x]
      invariant forall x :: x in counts ==> x in input
    {
      assert input[..i + 1] == input[..i] + [input[i]];
      counts := counts[input[i] := Tally(counts, input[i]) + 1];
      i := i + 1;
    }
    assert input[..i] == input;
    var j := 0;
    while j < |other|
      invariant 0 <= j <= |other|
      invariant forall x :: Tally(counts, x) == multiset(input)[x] as int - multiset(other[..j])[x] as int
      invariant forall x :: x in counts ==> x in input || x in other
    {
      assert other[..j + 1] == other[..j] + [other[j]];
      counts := counts[other[j] := Tally(counts, other[j]) - 1];
      j := j + 1;
    }
    assert other[..j] == other;
    var keys := counts.Keys;
    while keys != {}
      invariant keys <= counts.Keys
      invariant forall x :: x in counts && x !in keys ==> counts[x] == 0
      decreases keys
    {
      var k :| k in keys;
      if counts[k] != 0 {
        assert multiset(input)[k] != multiset(other)[k];
        return false;
      }
      keys := keys - {k};
    }
    assert forall x :: multiset(input)[x] == multiset(other)[x] by {
      forall x ensures multiset(input)[x] == multiset(other)[x] {
        assert Tally(counts, x) == 0;
      }
    }
    return true;
  }

  // ---------------------------------------------------------------------
  // encodeSpaces
  // ---------------------------------------------------------------------

  /** The replacement text of one character. */
  function EncodeChar(c: char): string {
    if c == ' ' then "%20" else [c]
  }

  /** Reference definition: each space of `s` written as "%20". */
  function SpacesEncoded(s: string): string {
    if |s| == 0 then "" else EncodeChar(s[0]) + SpacesEncoded(s[1..])
  }

  /** The number of spaces in `s`. */
  function SpaceCount(s: string): nat {
    if |s| == 0 then 0 else (if s[0] == ' ' then 1 else 0) + SpaceCount(s[1..])
  }

  /** A negative length counts as zero. */
  function ClampLength(length: int): nat {
    if length < 0 then 0 else length
  }

  /** Replaces each space among the first `length` characters with "%20" and
      drops the rest of the input (its reserved padding). The source slices
      the input at `length`, so a longer length is outside its domain. */
  method EncodeSpaces(s: string, length: int) returns (r: string)
    requires ClampLength(length) <= |s|
    ensures r == SpacesEncoded(s[..ClampLength(length)])
    ensures |r| == ClampLength(length) + 2 * SpaceCount(s[..ClampLength(length)])
    ensures ' ' !in r
  {
    var n := ClampLength(length);
    var runes := s[..n];
    var output: seq<string> := [];
    var index := 0;
    while index < n
      invariant 0 <= index <= n
      invariant |output| == index
      invariant Seqs.Flatten(output) + SpacesEncoded(runes[index..]) == SpacesEncoded(runes)
    {
      var piece := if runes[index] == ' ' then "%20" else [runes[index]];
      EncodeStep(runes, output, index, piece);
      output := output + [piece];
      index := index + 1;
    }
    r := Seqs.Flatten(output);
    SpacesEncodedShape(runes);
  }

  /** One turn of the loop of `encodeSpaces`: the pieces so far followed by
      the encoding of what is left is still the encoding of the whole. */
  lemma EncodeStep(s: string, output: seq<string>, index: nat, piece: string)
    requires index < |s| && piece == EncodeChar(s[index])
    requires Seqs.Flatten(output) + SpacesEncoded(s[index..]) == SpacesEncoded(s)
    ensures Seqs.Flatten(output + [piece]) + SpacesEncoded(s[index + 1..]) == SpacesEncoded(s)
  {
    var rest := SpacesEncoded(s[index + 1..]);
    assert SpacesEncoded(s[index..]) == piece + rest by {
      assert s[index..][1..] == s[index + 1..];
    }
    calc {
      Seqs.Flatten(output + [piece]) + rest;
    == { Seqs.FlattenSnoc(output, piece); }
      (Seqs.Flatten(output) + piece) + rest;
    == { Seqs.AppendAssoc(Seqs.Flatten(output), piece, rest); }
      Seqs.Flatten(output) + (piece + rest);
    }
  }

  /** The encoding grows by two characters per space and leaves no space. */
  lemma {:induction false} SpacesEncodedShape(s: string)
    ensures |SpacesEncoded(s)| == |s| + 2 * SpaceCount(s)
    ensures ' ' !in SpacesEncoded(s)
  {
    if |s| > 0 {
      SpacesEncodedShape(s[1..]);
    }
  }

  /** Turns every "%20" back into a space. */
  function SpacesDecoded(t: string): string {
    if |t| == 0 then ""
    else if |t| >= 3 && t[..3] == "%20" then " " + SpacesDecoded(t[3..])
    else [t[0]] + SpacesDecoded(t[1..])
  }

  /** Decoding undoes the encoding of any text that has no '%' of its own. */
  lemma {:induction false} SpacesRoundTrip(s: string)
    requires '%' !in s
    ensures SpacesDecoded(SpacesEncoded(s)) == s
  {
    if |s| > 0 {
      SpacesRoundTrip(s[1..]);
      var rest := SpacesEncoded(s[1..]);
      if s[0] == ' ' {
        assert SpacesEncoded(s) == "%20" + rest;
        assert ("%20" + rest)[3..] == rest;
      } else {
        assert SpacesEncoded(s) == [s[0]] + rest;
        assert ([s[0]] + rest)[1..] == rest;
      }
    }
  }

  // ---------------------------------------------------------------------
  // compres, compressEntry, Map
  // ---------------------------------------------------------------------

  /** One run of equal characters. */
  datatype CompressEntry = CompressEntry(count: int, symbol: char)

  /** `compressEntry.toString`: the character followed by its count as `%d`
      prints it. */
  function EntryText(entry: CompressEntry): (r: string)
    ensures |r| >= 2 && r[0] == entry.symbol
    ensures entry.count >= 0 ==> Decimal.AllDigits(r[1..])
  {
    var count := Decimal.IntToDecimal(entry.count);
    assert ([entry.symbol] + count)[1..] == count;
    [entry.symbol] + count
  }

  /** An entry's text is its character and then a numeral that reads back
      as its count. */
  lemma EntryTextReadsBack(entry: CompressEntry)
    requires entry.count >= 0
    ensures |EntryText(entry)| >= 2 && EntryText(entry)[0] == entry.symbol
    ensures Decimal.AllDigits(EntryText(entry)[1..])
    ensures Decimal.ParseDecimal(EntryText(entry)[1..]) == entry.count
  {
    assert EntryText(entry)[1..] == Decimal.IntToDecimal(entry.count);
    Decimal.IntToDecimalReadsBack(entry.count);
  }

  /** `n` copies of `c`. */
  function Repeat(c: char, n: int): string {
    if n <= 0 then "" else seq(n, _ => c)
  }

  /** The text a run list stands for. */
  function Expand(entries: seq<CompressEntry>): string {
    if |entries| == 0 then ""
    else Expand(entries[..|entries| - 1]) + Repeat(entries[|entries| - 1].symbol, entries[|entries| - 1].count)
  }

  /** `entries` is the run-length encoding of `s`: every count positive,
      neighbouring runs of different characters, and expanding gives `s`. */
  predicate IsRunEncoding(entries: seq<CompressEntry>, s: string) {
    PositiveCounts(entries) && DistinctNeighbours(entries) && Expand(entries) == s
  }

  predicate PositiveCounts(entries: seq<CompressEntry>) {
    forall k :: 0 <= k < |entries| ==> entries[k].count > 0
  }

  predicate DistinctNeighbours(entries: seq<CompressEntry>) {
    forall k :: 0 < k < |entries| ==> entries[k - 1].symbol != entries[k].symbol
  }

  /** The loop of `compres`: extends the current run while the character
      repeats and closes it when a different one starts. */
  method CollectRuns(s: string) returns (entries: seq<CompressEntry>)
    requires |s| > 0
    ensures IsRunEncoding(entries, s)
  {
    entries := [];
    var current := CompressEntry(0, s[0]);
    var i := 0;
    while i < |s|
      invariant 0 <= i <= |s|
      invariant i == 0 ==> entries == [] && current == CompressEntry(0, s[0])
      invariant i > 0 ==> IsRunEncoding(entries + [current], s[..i])
    {
      var c := s[i];
      if current.symbol == c {
        if i > 0 {
          GrowRun(entries, current, s, i);
        } else {
          assert Repeat(c, 1) == [c] == s[..1];
          assert ([] + [current.(count := 1)])[..0] == [];
        }
        current := current.(count := current.count + 1);
      } else {
        NewRun(entries, current, s, i);
        entries := entries + [current];
        current := CompressEntry(1, c);
      }
      i := i + 1;
    }
    entries := entries + [current];
    assert s[..i] == s;
  }

  /** Expanding a run list with one more run at the end. */
  lemma ExpandSnoc(entries: seq<CompressEntry>, e: CompressEntry)
    ensures Expand(entries + [e]) == Expand(entries) + Repeat(e.symbol, e.count)
  {
    assert (entries + [e])[..|entries|] == entries;
  }

  /** Another copy of the current run's character lengthens that run. */
  lemma GrowRun(entries: seq<CompressEntry>, current: CompressEntry, s: string, i: nat)
    requires i < |s| && current.symbol == s[i]
    requires IsRunEncoding(entries + [current], s[..i])
    ensures IsRunEncoding(entries + [current.(count := current.count + 1)], s[..i + 1])
  {
    var before, after := entries + [current], entries + [current.(count := current.count + 1)];
    assert current == before[|entries|];
    var c := s[i];
    var k := current.count;
    ExpandSnoc(entries, current);
    ExpandSnoc(entries, current.(count := k + 1));
    assert Repeat(c, k + 1) == Repeat(c, k) + [c];
    Seqs.AppendAssoc(Expand(entries), Repeat(c, k), [c]);
    assert s[..i + 1] == s[..i] + [c];
    assert forall j :: 0 <= j < |after| ==> after[j].symbol == before[j].symbol;
  }

  /** A different character closes the current run and opens a run of one. */
  lemma NewRun(entries: seq<CompressEntry>, current: CompressEntry, s: string, i: nat)
    requires 0 < i < |s| && current.symbol != s[i]
    requires IsRunEncoding(entries + [current], s[..i])
    ensures IsRunEncoding(entries + [current] + [CompressEntry(1, s[i])], s[..i + 1])
  {
    var closed := entries + [current];
    assert current == closed[|entries|];
    ExpandSnoc(closed, CompressEntry(1, s[i]));
    assert Repeat(s[i], 1) == [s[i]];
    assert s[..i + 1] == s[..i] + [s[i]];
  }

  /** Go's generic `Map`: applies `transform` to every element, in order. */
  method Map<A, B>(input: seq<A>, transform: A -> B) returns (output: seq<B>)
    ensures |output| == |input|
    ensures forall i :: 0 <= i < |input| ==> output[i] == transform(input[i])
  {
    output := [];
    var index := 0;
    while index < |input|
      invariant 0 <= index <= |input|
      invariant |output| == index
      invariant forall i :: 0 <= i < index ==> output[i] == transform(input[i])
    {
      output := output + [transform(input[index])];
      index := index + 1;
    }
  }

  /** Length of the block of copies of `s[0]` that `s` starts with. */
  function LeadingRun(s: string): (k: nat)
    requires |s| > 0
    ensures 1 <= k <= |s|
    ensures forall i :: 0 <= i < k ==> s[i] == s[0]
    ensures k < |s| ==> s[k] != s[0]
  {
    if |s| == 1 || s[1] != s[0] then 1 else 1 + LeadingRun(s[1..])
  }

  /** Reference definition of the runs of `s`, peeling maximal leading blocks. */
  function Runs(s: string): seq<CompressEntry>
    decreases |s|
  {
    if |s| == 0 then [] else
      var k := LeadingRun(s);
      [CompressEntry(k, s[0])] + Runs(s[k..])
  }

  /** The text `compres` builds from a run list. */
  function RunsText(entries: seq<CompressEntry>): string {
    Seqs.Flatten(seq(|entries|, i requires 0 <= i < |entries| => EntryText(entries[i])))
  }

  /** Encodes `s` run by run, and keeps the encoding only when it is strictly
      shorter than `s`; otherwise (in particular for "" and for strings
      without repeats) `s` itself comes back. */
  method Compress(s: string) returns (r: string)
    ensures |r| <= |s|
    ensures IsRunEncoding(Runs(s), s)
    ensures |RunsText(Runs(s))| < |s| ==> r == RunsText(Runs(s))
    ensures |RunsText(Runs(s))| >= |s| ==> r == s
  {
    RunsAreRunEncoding(s);
    if |s| == 0 {
      return s;
    }
    var entries := CollectRuns(s);
    RunEncodingUnique(entries, Runs(s), s);
    var converted := Map(entries, EntryText);
    assert converted == seq(|entries|, i requires 0 <= i < |entries| => EntryText(entries[i]));
    var compressed := Seqs.Flatten(converted);
    if |s| > |compressed| {
      r := compressed;
    } else {
      r := s;
    }
  }

  /** Expanding a run list whose first run is peeled off. */
  lemma {:induction false} ExpandCons(e: CompressEntry, entries: seq<CompressEntry>)
    ensures Expand([e] + entries) == Repeat(e.symbol, e.count) + Expand(entries)
    decreases |entries|
  {
    if |entries| > 0 {
      var init := entries[..|entries| - 1];
      ExpandCons(e, init);
      assert ([e] + entries)[..|entries|] == [e] + init;
    } else {
      assert [e] + entries == [e];
      assert ([e] + entries)[..0] == [];
    }
  }

  /** A block of `k` copies of one character in front of an encoding of the
      rest, whose first run is of another character, is an encoding. */
  lemma ConsRunEncoding(e: CompressEntry, rest: seq<CompressEntry>, s: string)
    requires 0 < e.count <= |s| && s[..e.count] == Repeat(e.symbol, e.count)
    requires IsRunEncoding(rest, s[e.count..])
    requires |rest| > 0 ==> rest[0].symbol != e.symbol
    ensures IsRunEncoding([e] + rest, s)
  {
    var all := [e] + rest;
    ExpandCons(e, rest);
    assert Expand(all) == s[..e.count] + s[e.count..] == s;
    assert PositiveCounts(all) by {
      forall j | 0 < j < |all| ensures all[j].count > 0 {
        assert all[j] == rest[j - 1];
      }
    }
    assert DistinctNeighbours(all) by {
      forall j | 1 < j < |all| ensures all[j - 1].symbol != all[j].symbol {
        assert all[j - 1] == rest[j - 2] && all[j] == rest[j - 1];
      }
    }
  }

  /** The reference runs are a run-length encoding. */
  lemma {:induction false} RunsAreRunEncoding(s: string)
    ensures IsRunEncoding(Runs(s), s)
    decreases |s|
  {
    if |s| > 0 {
      var k := LeadingRun(s);
      var rest := Runs(s[k..]);
      RunsAreRunEncoding(s[k..]);
      var e := CompressEntry(k, s[0]);
      assert Runs(s) == [e] + rest;
      assert Repeat(s[0], k) == s[..k];
      if |rest| > 0 {
        FirstRun(rest, s[k..]);
        assert rest[0].symbol == s[k];
      }
      ConsRunEncoding(e, rest, s);
    }
  }

  /** A non-empty encoding starts with a run of the text's first character. */
  lemma FirstRun(entries: seq<CompressEntry>, s: string)
    requires IsRunEncoding(entries, s)
    requires |entries| > 0
    ensures |s| >= entries[0].count > 0
    ensures s[..entries[0].count] == Repeat(entries[0].symbol, entries[0].count)
    ensures s[entries[0].count..] == Expand(entries[1..])
    ensures IsRunEncoding(entries[1..], s[entries[0].count..])
  {
    var head, tail := entries[0], entries[1..];
    ExpandCons(head, tail);
    assert entries == [head] + tail;
    assert DistinctNeighbours(tail) by {
      forall k | 0 < k < |tail| ensures tail[k - 1].symbol != tail[k].symbol {
        assert tail[k - 1] == entries[k] && tail[k] == entries[k + 1];
      }
    }
    var n := head.count;
    assert |Repeat(head.symbol, n)| == n;
    assert s == Repeat(head.symbol, n) + Expand(tail);
    assert s[..n] == Repeat(head.symbol, n);
    assert s[n..] == Expand(tail);
  }

  /** A string has only one run-length encoding. */
  lemma {:induction false} RunEncodingUnique(a: seq<CompressEntry>, b: seq<CompressEntry>, s: string)
    requires IsRunEncoding(a, s) && IsRunEncoding(b, s)
    ensures a == b
    decreases |s|
  {
    if |a| == 0 || |b| == 0 {
      if |a| > 0 { FirstRun(a, s); }
      if |b| > 0 { FirstRun(b, s); }
    } else {
      FirstRun(a, s);
      FirstRun(b, s);
      var ka, kb := a[0].count, b[0].count;
      assert a[0].symbol == s[0] == b[0].symbol by {
        assert s[..ka][0] == s[0] && s[..kb][0] == s[0];
      }
      if ka < kb {
        ShorterFirstRunImpossible(a, b, s);
      } else if kb < ka {
        ShorterFirstRunImpossible(b, a, s);
      }
      assert a[0] == b[0];
      RunEncodingUnique(a[1..], b[1..], s[ka..]);
      assert a == [a[0]] + a[1..] && b == [b[0]] + b[1..];
    }
  }

  /** Two encodings of one text cannot start with runs of different lengths:
      the shorter run would be followed by a run of the same character. */
  lemma ShorterFirstRunImpossible(a: seq<CompressEntry>, b: seq<CompressEntry>, s: string)
    requires IsRunEncoding(a, s) && IsRunEncoding(b, s)
    requires |a| > 0 && |b| > 0 && a[0].symbol == b[0].symbol
    ensures a[0].count >= b[0].count
  {
    FirstRun(a, s);
    FirstRun(b, s);
    var ka, kb := a[0].count, b[0].count;
    if ka < kb {
      assert s[ka] == b[0].symbol by {
        assert s[..kb][ka] == b[0].symbol;
      }
      var rest := a[1..];
      assert |Expand(rest)| > 0;
      FirstRun(rest, s[ka..]);
      assert false;
    }
  }

  // ---------------------------------------------------------------------
  // zeroColumnsAndRows
  // ---------------------------------------------------------------------

  /** Row `i` has a zero among the first `|m|` columns. */
  predicate ZeroInRow(m: seq<seq<int>>, i: int)
    requires forall r :: 0 <= r < |m| ==> |m[r]| >= |m|
  {
    exists c :: 0 <= c < |m| && 0 <= i < |m| && m[i][c] == 0
  }

  /** Column `j` has a zero in some row. */
  predicate ZeroInColumn(m: seq<seq<int>>, j: int)
    requires forall r :: 0 <= r < |m| ==> |m[r]| >= |m|
  {
    exists r :: 0 <= r < |m| && 0 <= j < |m| && m[r][j] == 0
  }

  /** A zero at (r, c) that a row-major scan stopped before (row, column) has seen. */
  predicate ZeroSeen(m: seq<seq<int>>, r: int, c: int, row: int, column: int)
    requires forall i :: 0 <= i < |m| ==> |m[i]| >= |m|
  {
    0 <= r < |m| && 0 <= c < |m| && (r < row || (r == row && c < column)) && m[r][c] == 0
  }

  /** First pass of `zeroColumnsAndRows`: the indices of the rows and of the
      columns holding a zero in the leading `|m|` x `|m|` square. */
  method FindZeroLines(m: seq<seq<int>>) returns (zeroRows: set<int>, zeroColumns: set<int>)
    requires forall i :: 0 <= i < |m| ==> |m[i]| >= |m|
    ensures forall i :: i in zeroRows <==> ZeroInRow(m, i)
    ensures forall j :: j in zeroColumns <==> ZeroInColumn(m, j)
  {
    var size := |m|;
    zeroRows, zeroColumns := {}, {};
    var row := 0;
    while row < size
      invariant 0 <= row <= size
      invariant forall i :: i in zeroRows ==> ZeroInRow(m, i)
      invariant forall j :: j in zeroColumns ==> ZeroInColumn(m, j)
      invariant forall i, c :: ZeroSeen(m, i, c, row, 0) ==> i in zeroRows && c in zeroColumns
    {
      var column := 0;
      while column < size
        invariant 0 <= column <= size
        invariant forall i :: i in zeroRows ==> ZeroInRow(m, i)
        invariant forall j :: j in zeroColumns ==> ZeroInColumn(m, j)
        invariant forall i, c :: ZeroSeen(m, i, c, row, column) ==> i in zeroRows && c in zeroColumns
      {
        var before := column;
        if m[row][column] == 0 {
          zeroRows := zeroRows + {row};
          zeroColumns := zeroColumns + {column};
        }
        column := column + 1;
        forall i, c | ZeroSeen(m, i, c, row, column)
          ensures i in zeroRows && c in zeroColumns
        {
          if !(i == row && c == before) {
            assert ZeroSeen(m, i, c, row, before);
          }
        }
      }
      row := row + 1;
      forall i, c | ZeroSeen(m, i, c, row, 0)
        ensures i in zeroRows && c in zeroColumns
      {
        assert ZeroSeen(m, i, c, row - 1, size);
      }
    }
    forall i | ZeroInRow(m, i) ensures i in zeroRows {
      var c :| 0 <= c < |m| && 0 <= i < |m| && m[i][c] == 0;
      assert ZeroSeen(m, i, c, size, 0);
    }
    forall j | ZeroInColumn(m, j) ensures j in zeroColumns {
      var i :| 0 <= i < |m| && 0 <= j < |m| && m[i][j] == 0;
      assert ZeroSeen(m, i, j, size, 0);
    }
  }

  /** Sets every cell of the listed rows and columns (within the leading
      square) to zero and leaves every other cell as it was. */
  method ClearLines(m: seq<seq<int>>, zeroRows: set<int>, zeroColumns: set<int>) returns (r: seq<seq<int>>)
    requires forall i :: 0 <= i < |m| ==> |m[i]| >= |m|
    ensures |r| == |m|
    ensures forall i :: 0 <= i < |m| ==> |r[i]| == |m[i]|
    ensures forall i, j {:trigger r[i][j]} :: 0 <= i < |m| && 0 <= j < |m[i]| ==>
      r[i][j] == (if j < |m| && (i in zeroRows || j in zeroColumns) then 0 else m[i][j])
  {
    var size := |m|;
    r := m;
    var row := 0;
    while row < size
      invariant 0 <= row <= size
      invariant |r| == size
      invariant forall i :: 0 <= i < size ==> |r[i]| == |m[i]|
      invariant forall i, j {:trigger r[i][j]} :: 0 <= i < size && 0 <= j < |m[i]| ==>
        r[i][j] == (if i < row && j < size && (i in zeroRows || j in zeroColumns) then 0 else m[i][j])
    {
      var isZeroRow := row in zeroRows;
      var line := r[row];
      var column := 0;
      while column < size
        invariant 0 <= column <= size
        invariant |line| == |m[row]|
        invariant forall j :: 0 <= j < |line| ==>
          line[j] == (if j < column && (isZeroRow || j in zeroColumns) then 0 else m[row][j])
      {
        var isZeroColumn := column in zeroColumns;
        if isZeroRow || isZeroColumn {
          line := line[column := 0];
        }
        column := column + 1;
      }
      r := r[row := line];
      row := row + 1;
    }
  }

  /** `zeroColumnsAndRows`: a first pass records the rows and columns holding
      a zero, a second pass clears them. The decision looks only at the
      original grid, so zeros written by the second pass do not spread. Each of
      the `n` rows must be at least `n` long; columns past `n` are never looked
      at. */
  method ZeroColumnsAndRows(m: seq<seq<int>>) returns (r: seq<seq<int>>)
    requires forall i :: 0 <= i < |m| ==> |m[i]| >= |m|
    ensures |r| == |m|
    ensures forall i :: 0 <= i < |m| ==> |r[i]| == |m[i]|
    ensures forall i, j :: 0 <= i < |m| && 0 <= j < |m| ==>
      r[i][j] == (if ZeroInRow(m, i) || ZeroInColumn(m, j) then 0 else m[i][j])
    ensures forall i, j :: 0 <= i < |m| && |m| <= j < |m[i]| ==> r[i][j] == m[i][j]
  {
    var zeroRows, zeroColumns := FindZeroLines(m);
    r := ClearLines(m, zeroRows, zeroColumns);
  }

  // ---------------------------------------------------------------------
  // isRotated
  // ---------------------------------------------------------------------

  /** `s` rotated left by `k` positions. */
  function RotatedBy<T>(s: seq<T>, k: int): seq<T>
    requires 0 <= k <= |s|
  {
    s[k..] + s[..k]
  }

  /** `candidate` is a cyclic rotation of `source`. */
  predicate IsRotation<T(==)>(source: seq<T>, candidate: seq<T>) {
    exists k :: 0 <= k <= |source| && RotatedBy(source, k) == candidate
  }

  /** `strings.Contains`: tries every offset. */
  method Contains<T(==)>(text: seq<T>, pattern: seq<T>) returns (found: bool)
    ensures found <==> Seqs.IsSubstring(pattern, text)
  {
    var k := 0;
    while k <= |text| - |pattern|
      invariant 0 <= k
      invariant forall i :: 0 <= i < k ==> !Seqs.OccursAt(pattern, text, i)
      decreases |text| - |pattern| - k
    {
      if text[k..k + |pattern|] == pattern {
        assert Seqs.OccursAt(pattern, text, k);
        return true;
      }
      k := k + 1;
    }
    return false;
  }

  /** Equal length and a substring of `source + source`. */
  method IsRotated(source: string, candidate: string) returns (r: bool)
    ensures r <==> IsRotation(source, candidate)
    ensures |source| != |candidate| ==> !r
  {
    if |source| != |candidate| {
      return false;
    }
    r := Contains(source + source, candidate);
    DoubledContainsRotations(source, candidate);
  }

  /** For equal lengths, the blocks of `s + s` of length `|s|` are exactly the
      rotations of `s`. */
  lemma DoubledContainsRotations<T>(s: seq<T>, c: seq<T>)
    requires |s| == |c|
    ensures Seqs.IsSubstring(c, s + s) <==> IsRotation(s, c)
  {
    var n := |s|;
    forall k | 0 <= k <= n ensures (s + s)[k..k + n] == RotatedBy(s, k) {
      assert forall i :: 0 <= i < n ==> (s + s)[k..k + n][i] == RotatedBy(s, k)[i] by {
        forall i | 0 <= i < n ensures (s + s)[k..k + n][i] == RotatedBy(s, k)[i] {
          if i < n - k {
            assert RotatedBy(s, k)[i] == s[k + i];
          } else {
            assert RotatedBy(s, k)[i] == s[i - (n - k)];
          }
        }
      }
    }
    if Seqs.IsSubstring(c, s + s) {
      var k :| 0 <= k <= |s + s| - |c| && Seqs.OccursAt(c, s + s, k);
      assert RotatedBy(s, k) == c;
    }
    if IsRotation(s, c) {
      var k :| 0 <= k <= n && RotatedBy(s, k) == c;
      assert Seqs.OccursAt(c, s + s, k);
    }
  }
}
