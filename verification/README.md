# Cracking the Coding Interview exercises in Go, modelled in Dafny

This project models three chapters of a Go repository of classic interview exercises:

- **Arrays and strings.** These cover:
  - the uniqueness check and the string reversal;
  - the permutation test, which is really a containment test;
  - space encoding and run-length compression, together with Go's generic `Map`;
  - the in-place quarter-turn of a square pixel grid;
  - zeroing the rows and columns that contain a zero;
  - the rotation test.
- **Singly linked lists.** These cover:
  - duplicate removal, the k-th node from the end, and partitioning around a pivot;
  - digit-chain addition, least significant digit first (`sumReversed`) and most significant first (`sum`);
  - in-place reversal, cycle detection, and the palindrome check.
- **Stacks and queues.** These cover:
  - the linked stack and the tail-append queue;
  - the min-stack and the queue kept in two stacks;
  - the sorted "max stack";
  - the Towers of Hanoi mover;
  - the cat-and-dog shelter queue.

Where the result does not depend on node identity, a chain is modelled as the sequence of values met walking from its head (`seq<T>`).

Where identity does matter, the `Chains` module keeps nodes in a finite heap, `map<nat, Node<T>>`, from ids to cells. A chain is then the sequence of ids met from its head. This applies to:
- the in-place reversal;
- its callers `sum` and `isPalindrom`, which reverse their own inputs;
- `findLoop`.

Stacks are sequences with the top first, and queues are sequences with the oldest value first. Go's nil results are `Option.None`. Go's `(value, error)` return is a `Result`.

Module layout:

| Module | What it holds |
|---|---|
| `Wrappers` | `Option` and `Result` |
| `Seqs` | reversal, distinctness, substrings and flattening |
| `Decimal` | `%d` formatting |
| `ArrayAndStrings` | the array and string exercises |
| `Grids` | grid cells and the four-way cycle |
| `MatrixRotation` | the quarter-turn |
| `LinkedLists` | the value-level list algorithms |
| `Chains` | the heap-level list algorithms |
| `Stacks`, `Queues`, `MinStacks`, `Hanoi`, `TwoStackQueues`, `MaxStacks`, `Shelters` | one module per stack or queue type |

Where the repository's prose description and its code disagree, the model follows the code:

- `findLast` with an index at or beyond the length returns the whole chain. It does not fail. Only an index below -1 walks off the end.
- `sumReversed` never adds a digit for a final carry.
- `isPalindrom` reverses its input in place rather than a copy. It then compares only the first and last values.
- `MinStack.Push` records a value only when it is strictly smaller than the current minimum. It does not record a value that is merely no larger.

## Model

| member | source | states |
|---|---|---|
| ArrayAndStrings.HasOnlyUniqueChars | 1_array_and_strings.go:10-19 | true exactly when no two positions hold the same character, equivalently when the string has as many distinct characters as positions |
| Seqs.DistinctIffElementsFull | 1_array_and_strings.go:10-19 | a sequence has pairwise distinct elements exactly when its element set is as large as the sequence |
| ArrayAndStrings.Reverse | 1_array_and_strings.go:21-34 | the result has the input's length and position i holds the input's character at the mirrored position; it is the reference reversal |
| ArrayAndStrings.IsPermutationOf | 1_array_and_strings.go:40-53 | true exactly when every element of `other` occurs somewhere in `input` (set containment) |
| ArrayAndStrings.IsPermutation | 1_array_and_strings.go:36-38 | true exactly when every character of `other` occurs in `input`, compared case-sensitively |
| ArrayAndStrings.PermutationIsContained | 1_array_and_strings.go:40-53 | every genuine permutation passes the containment test |
| ArrayAndStrings.ContainmentIsNotPermutation | 1_array_and_strings.go:40-53 | "ab" against "a" passes the test although the two are not permutations of each other |
| ArrayAndStrings.IsPermutationByCount | 1_array_and_strings.go:40-53 | the corrected test: true exactly when both sequences hold the same multiset of elements |
| ArrayAndStrings.EncodeSpaces | 1_array_and_strings.go:55-72 | a negative length counts as 0; the result is the first `length` characters with each space written as "%20", two characters longer per space, and contains no space |
| ArrayAndStrings.EncodeStep | 1_array_and_strings.go:63-69 | appending one character's replacement keeps the joined output a prefix of the full encoding |
| ArrayAndStrings.SpacesEncodedShape | 1_array_and_strings.go:55-72 | the encoding is the input length plus two per space, and holds no space |
| ArrayAndStrings.SpacesRoundTrip | 1_array_and_strings.go:55-72 | for text without '%', turning every "%20" back into a space recovers the input |
| ArrayAndStrings.CollectRuns | 1_array_and_strings.go:89-107 | the run list of a non-empty string has positive counts and different characters in neighbouring runs, and it expands back to the string |
| ArrayAndStrings.ExpandSnoc | 1_array_and_strings.go:100-107 | expanding a run list with one more run at the end appends that run's characters |
| ArrayAndStrings.GrowRun | 1_array_and_strings.go:97-98 | another copy of the current character extends the current run and keeps the encoding valid |
| ArrayAndStrings.NewRun | 1_array_and_strings.go:99-105 | a different character closes the current run and opens a run of one, keeping the encoding valid |
| ArrayAndStrings.Map | 1_array_and_strings.go:121-136 | the output has the input's length and holds the transform of each element at the same position |
| ArrayAndStrings.Compress | 1_array_and_strings.go:83-119 | the result is never longer than the input; it is the run-length text when that is strictly shorter and the input otherwise |
| ArrayAndStrings.ExpandCons | 1_array_and_strings.go:89-107 | expanding a run list with its first run peeled off |
| ArrayAndStrings.ConsRunEncoding | 1_array_and_strings.go:89-107 | a maximal block of one character in front of an encoding of the rest encodes the whole |
| ArrayAndStrings.RunsAreRunEncoding | 1_array_and_strings.go:89-107 | the reference runs of any string are a run-length encoding of it |
| ArrayAndStrings.FirstRun | 1_array_and_strings.go:89-107 | a non-empty encoding starts with a block of its first run's character and encodes the rest after it |
| ArrayAndStrings.RunEncodingUnique | 1_array_and_strings.go:89-107 | a string has exactly one run-length encoding, so the loop's runs are the reference runs |
| ArrayAndStrings.ShorterFirstRunImpossible | 1_array_and_strings.go:89-107 | two encodings of one text start with runs of the same length |
| ArrayAndStrings.FindZeroLines | 1_array_and_strings.go:164-177 | the recorded rows and columns are exactly those holding a zero within the leading square |
| ArrayAndStrings.ClearLines | 1_array_and_strings.go:179-188 | a cell of the leading square becomes 0 when its row or column is recorded; every other cell is unchanged |
| ArrayAndStrings.ZeroColumnsAndRows | 1_array_and_strings.go:164-189 | a cell becomes 0 exactly when the input has a zero in its row or column; cells beyond the square are untouched |
| ArrayAndStrings.Contains | 1_array_and_strings.go:195 | true exactly when the pattern occurs as a contiguous block of the text |
| ArrayAndStrings.IsRotated | 1_array_and_strings.go:191-196 | true exactly when the candidate is a cyclic rotation of the source; false whenever the lengths differ |
| ArrayAndStrings.DoubledContainsRotations | 1_array_and_strings.go:191-196 | for equal lengths, occurring in the source doubled is the same as being a rotation |
| Decimal.NatToDecimal | 1_array_and_strings.go:79-81 | the numeral of a count is a non-empty string of digits without a leading zero |
| Decimal.ParseNatToDecimal | 1_array_and_strings.go:79-81 | reading the numeral back gives the count again |
| Decimal.IntToDecimal | 1_array_and_strings.go:79-81 | `%d` of any integer: a leading '-' exactly for negative values, followed by (or otherwise consisting of) decimal digits |
| Decimal.IntToDecimalReadsBack | 1_array_and_strings.go:79-81 | reading back the digits `%d` printed, after the sign if any, gives the integer's magnitude |
| ArrayAndStrings.EntryText | 1_array_and_strings.go:79-81 | an entry's text is its character followed by at least one character of count, all digits for a non-negative count |
| ArrayAndStrings.EntryTextReadsBack | 1_array_and_strings.go:79-81 | for a non-negative count, the text after the character reads back as exactly the count |
| MatrixRotation.RotateMatrix90Degrees | 1_array_and_strings.go:142-162 | the loops as written, for the sizes they do not index out of (at most 5); up to size 3 the result is the quarter turn |
| MatrixRotation.AsWrittenMisrotates | 1_array_and_strings.go:149 | on a 4 x 4 grid with one marked inner cell the loops as written leave the grid unchanged, although its quarter turn differs |
| MatrixRotation.RotateMatrix90DegreesCorrected | 1_array_and_strings.go:142-162 | with the partner row `last - index + first`, every square grid comes out turned a quarter clockwise |
| MatrixRotation.SingleLayerFormulasAgree | 1_array_and_strings.go:145-160 | up to size 3 the two partner-row formulas give the same grid |
| MatrixRotation.RotateFrom | 1_array_and_strings.go:145-161 | the two loops from a given layer and inner index on, with the as-written or the corrected partner row; the grid stays square of the same size (the quarter turn it reaches is stated by RotateFromRotates) |
| MatrixRotation.RotateFromRotates | 1_array_and_strings.go:145-161 | from any point of the loops with the cells so far placed, the remaining steps finish the quarter turn |
| MatrixRotation.RotateFromStepRotates | 1_array_and_strings.go:148-160 | the induction step inside a layer |
| MatrixRotation.RotateFromNextLayerRotates | 1_array_and_strings.go:145-147 | the induction step from one layer to the next |
| MatrixRotation.StartUnmoved | 1_array_and_strings.go:143-145 | before the first step nothing has moved |
| MatrixRotation.MovedCells | 1_array_and_strings.go:150-159 | the four cells a step moves take their rotated values |
| MatrixRotation.StillCell | 1_array_and_strings.go:150-159 | a cell the step does not move keeps its value and its placed status |
| MatrixRotation.StepCell | 1_array_and_strings.go:150-159 | after a step every cell holds its rotated value when placed and its original value otherwise |
| MatrixRotation.StepKeepsProgress | 1_array_and_strings.go:150-159 | one correct four-cycle moves the progress marker one step |
| MatrixRotation.Advance | 1_array_and_strings.go:148-160 | taking one step keeps the progress invariant and the remaining rotation |
| MatrixRotation.NextLayerSameProgress | 1_array_and_strings.go:145-148 | finishing a layer and starting the next marks the same cells |
| MatrixRotation.DoneIsRotated | 1_array_and_strings.go:145 | once the layers run out, every cell is in its rotated place |
| MatrixRotation.RotateFromStep | 1_array_and_strings.go:148-160 | one unfolding of the loops at a step inside a layer |
| MatrixRotation.RotateFromNextLayer | 1_array_and_strings.go:145-148 | one unfolding of the loops at the end of a layer |
| MatrixRotation.ZeroCycleKeepsGrid | 1_array_and_strings.go:150-159 | a four-cycle over four distinct cells holding equal values changes nothing |
| Grids.CycleStep | 1_array_and_strings.go:150-159 | one pass of the inner loop, each write reading the writes before it; the grid stays square and the saved top value always ends in the right cell (the full cyclic swap is stated by CycleStepMoves) |
| Grids.CycleStepMoves | 1_array_and_strings.go:150-159 | over four distinct cells a step is a cyclic swap: left to top, bottom to left, right to bottom, top to right; every other cell keeps its value |
| Grids.CycleCells | 1_array_and_strings.go:146-159 | the four cells of a step are distinct, and each belongs to that step's layer and position |
| Grids.OutsideCycle | 1_array_and_strings.go:146-159 | no other cell belongs to that step |
| Grids.PositionRange | 1_array_and_strings.go:148 | a non-centre cell's position lies in its layer's index range |
| LinkedLists.RemoveDuplicates | 2_linked_lists.go:9-41 | the result keeps the first occurrence of each value in order, has pairwise distinct values, and holds the same set of values |
| LinkedLists.Without | 2_linked_lists.go:19-31 | the inner loop's unlinking keeps exactly the values different from the current one |
| LinkedLists.WithoutStep | 2_linked_lists.go:19-31 | one turn of the inner loop extends the kept prefix |
| LinkedLists.DedupStep | 2_linked_lists.go:33-39 | one turn of the outer loop keeps the chain on course to the deduplicated list |
| LinkedLists.KeepWithout | 2_linked_lists.go:9-41 | dropping a value already seen does not change which first occurrences remain |
| LinkedLists.DedupKeepsFirst | 2_linked_lists.go:9-41 | the nested-loop removal equals keeping first occurrences |
| LinkedLists.KeepUnseenFacts | 2_linked_lists.go:9-41 | first occurrences are distinct and are exactly the values of the chain |
| LinkedLists.FindLast | 2_linked_lists.go:44-59 | for k at least -1, the result is the chain's last k+1 nodes, or the whole chain when it is shorter |
| LinkedLists.Partition | 2_linked_lists.go:61-103 | the smaller values in order, then the others in order; a permutation of the input; a position holds a value below the pivot exactly when it lies in the first part |
| LinkedLists.PartsPermute | 2_linked_lists.go:61-103 | the two parts together hold the input's values |
| LinkedLists.PartsStep | 2_linked_lists.go:67-95 | each value lands in exactly one of the parts |
| LinkedLists.CalculateSum | 2_linked_lists.go:148-162 | digit plus ten for a carry equals the column sum; digits 0-9 give a digit 0-9 |
| LinkedLists.AddDigits | 2_linked_lists.go:111-143 | the digits written, plus the final carry at the next power of ten, denote the sum of the two numbers and the incoming carry; digits stay digits |
| LinkedLists.AddColumn | 2_linked_lists.go:115-135 | one column written in front of the later columns keeps the sum |
| LinkedLists.HeadTail | 2_linked_lists.go:112-120 | a chain denotes its first digit plus ten times its rest, a missing digit counting as 0 |
| LinkedLists.SumReversed | 2_linked_lists.go:105-146 | as written: as many digits as the longer input, denoting the sum modulo ten to that many digits |
| LinkedLists.SumReversedDropsCarry | 2_linked_lists.go:143-145 | 5 + 5 comes out as the single digit 0 |
| LinkedLists.SumReversedFull | 2_linked_lists.go:105-146 | with the final carry written as one more digit, the result denotes the full sum |
| LinkedLists.ValueBound | 2_linked_lists.go:105-146 | a digit chain denotes a number below ten to its length |
| LinkedLists.ValueSnoc | 2_linked_lists.go:131-134 | appending a digit adds it at the next power of ten |
| LinkedLists.Sum | 2_linked_lists.go:164-171 | most significant digit first: as many digits as the longer input, denoting the sum truncated to that many digits |
| LinkedLists.SumFacts | 2_linked_lists.go:164-171 | reversing, adding and reversing back yields digits denoting the truncated sum |
| LinkedLists.EndsAgreeIsNotEnough | 2_linked_lists.go:204-216 | "abca" has matching ends but is no palindrome |
| LinkedLists.IsPalindromeCorrected | 2_linked_lists.go:204-216 | comparing with a reversed copy: true exactly when the chain reads the same both ways |
| Chains.ReverseLinkedList | 2_linked_lists.go:173-186 | the returned head walks the same nodes backwards with the same values; the old head becomes a one-node chain; no node is added or removed, and nodes outside the chain are untouched |
| Chains.ReverseStep | 2_linked_lists.go:178-183 | turning one more link around extends the reversed prefix and leaves the rest |
| Chains.ReversalDone | 2_linked_lists.go:184-185 | with every link turned, the heap holds the reversed chain ending at the old head |
| Chains.ReversedLinks | 2_linked_lists.go:173-186 | links pointing to predecessors form the reversed chain with the reversed values |
| Chains.ReverseDistinct | 2_linked_lists.go:173-186 | the reversed chain meets each node once |
| Chains.ValuesReverse | 2_linked_lists.go:173-186 | the values of the reversed ids are the reversed values |
| Chains.ValuesConcat | 2_linked_lists.go:173-186 | the values of joined id lists are the joined values |
| Chains.ReadChain | 2_linked_lists.go:111-143 | walking a chain from its head collects its values in order |
| Chains.CompareWalk | 2_linked_lists.go:206-214 | the lock-step walk answers true exactly when the shorter chain's values match the other's prefix |
| Chains.IsPalindrom | 2_linked_lists.go:204-216 | as written: true exactly when the first and last values agree; the input is left reversed in the heap, and no other node changes |
| Chains.Sum | 2_linked_lists.go:164-171 | for disjoint chains, the returned digits are the value-level sum of the two inputs; both inputs are left reversed in the heap with their values, each caller's head is left as a one-node chain, and no other node changes |
| Chains.Untouched | 2_linked_lists.go:164-171 | reversing one chain leaves a disjoint chain and its values intact |
| Chains.DisjointReverse | 2_linked_lists.go:164-171 | disjointness survives reversal and taking the head node |
| Chains.FindLoop | 2_linked_lists.go:188-202 | nil only when the walk reaches nil; otherwise the first node met twice |
| Chains.OnNodeBefore | 2_linked_lists.go:193-199 | a walk that is on a node after n steps was on a node at every earlier step |
| Chains.SameNodeSameFuture | 2_linked_lists.go:193-199 | two walks at the same node go on alike |
| Chains.RepeatNeverEnds | 2_linked_lists.go:188-202 | a walk that meets a node twice never reaches nil |
| Chains.RepeatIsEntry | 2_linked_lists.go:188-202 | the first repeated node is the loop's entry: the nodes before its two visits differ |
| Stacks.Empty | 3_stacks_and_queues.go:12-14 | a new stack is empty |
| Stacks.Push | 3_stacks_and_queues.go:16-27 | one value more; it is the new top, and popping it returns it and the stack as it was |
| Stacks.Pick | 3_stacks_and_queues.go:29-34 | `None` exactly for an empty stack, otherwise the top value |
| Stacks.Pop | 3_stacks_and_queues.go:36-43 | returns what `Pick` sees; an empty stack stays as it is; otherwise the value followed by the remaining stack is the old stack |
| Stacks.IsEmpty | 3_stacks_and_queues.go:45-48 | true exactly when the stack holds no value |
| Stacks.LastInFirstOut | 3_stacks_and_queues.go:16-43 | values pushed in turn pop off in reverse order, and the stack beneath them is restored |
| Queues.Empty | 3_stacks_and_queues.go:54-56 | a new queue is empty |
| Queues.Pick | 3_stacks_and_queues.go:58-63 | `None` exactly for an empty queue, otherwise the oldest value |
| Queues.Enqueue | 3_stacks_and_queues.go:65-79 | every queued value keeps its place and the new value comes last |
| Queues.Dequeue | 3_stacks_and_queues.go:81-88 | returns what `Pick` sees; an empty queue stays as it is; otherwise the value followed by the rest is the old queue |
| Queues.EnqueueThenDequeue | 3_stacks_and_queues.go:65-88 | the FIFO law: on an empty queue the new value is next out; otherwise the head comes out and the new value queues behind the rest |
| Queues.EnqueueAllAppends | 3_stacks_and_queues.go:65-79 | enqueueing values in turn appends them |
| Queues.DequeueManyDrains | 3_stacks_and_queues.go:81-88 | dequeueing as often as there are values empties the queue in order |
| Queues.FirstInFirstOut | 3_stacks_and_queues.go:65-88 | values enqueued on an empty queue come out in the order they went in |
| MinStacks.New | 3_stacks_and_queues.go:95-100 | a new min-stack satisfies both minimum invariants and has no minimum |
| MinStacks.MinimaHead | 3_stacks_and_queues.go:102-125 | either kind of minima is empty exactly for an empty stack, and its first entry is the least value |
| MinStacks.Push | 3_stacks_and_queues.go:102-107 | as written, with strict `>`: the value is pushed, and the strict minima, where a repeated minimum is recorded once, are kept |
| MinStacks.PushCorrected | 3_stacks_and_queues.go:102-107 | with `>=`: the value is pushed and the running minima, with repeats recorded, are kept |
| MinStacks.Pick | 3_stacks_and_queues.go:109-111 | the top value, `None` exactly when empty |
| MinStacks.Pop | 3_stacks_and_queues.go:113-121 | needs both stacks non-empty; returns the top and the rest; keeps the running minima, and keeps the strict minima unless the popped value repeats the minimum below it |
| MinStacks.Min | 3_stacks_and_queues.go:123-125 | under either invariant, `None` exactly when empty and otherwise the least value on the stack |
| MinStacks.DistinctMinimaAgree | 3_stacks_and_queues.go:102-107 | when values are pairwise distinct, the strict and running minima coincide |
| MinStacks.RepeatedMinimumLost | 3_stacks_and_queues.go:104 | pushing 5 twice and popping once leaves [5] with no minimum |
| MinStacks.RepeatedMinimumKept | 3_stacks_and_queues.go:104 | with the corrected push, the same sequence keeps 5 as the minimum |
| Hanoi.NewHanoiGame | 3_stacks_and_queues.go:134-150 | a height below 1 is an error; otherwise the source rod holds disks 1 to height with 1 on top, and the other rods are empty |
| Hanoi.Swap | 3_stacks_and_queues.go:166-169 | needs a disk on the source; its top disk becomes the destination's top, and both rods are otherwise unchanged |
| Hanoi.Move | 3_stacks_and_queues.go:156-164 | for 1 to the source's height disks, the top n disks arrive on the destination in the same order, the rest of the source is untouched, and the spare ends as it started |
| Hanoi.Solve | 3_stacks_and_queues.go:152-154 | the whole tower moves; on a fresh game the source and spare end empty and the destination holds disks 1 to height |
| TwoStackQueues.New | 3_stacks_and_queues.go:176-181 | a new queue has no contents |
| TwoStackQueues.ShiftStacks | 3_stacks_and_queues.go:197-205 | the queue contents are unchanged; nothing moves unless `to` is empty, in which case `from` ends empty |
| TwoStackQueues.MoveTop | 3_stacks_and_queues.go:202-204 | moving one value from one stack to the other keeps the contents |
| TwoStackQueues.Enqueue | 3_stacks_and_queues.go:188-190 | the value joins the back of the contents |
| TwoStackQueues.Dequeue | 3_stacks_and_queues.go:192-195 | `None` on empty contents; otherwise the front value comes out and the rest remains |
| TwoStackQueues.Pick | 3_stacks_and_queues.go:183-186 | the front value, or `None`; the contents are unchanged |
| MaxStacks.New | 3_stacks_and_queues.go:211-213 | a new max-stack is empty and sorted |
| MaxStacks.FirstAtMost | 3_stacks_and_queues.go:221-227 | the first position holding a value no larger than `v`, or the length if there is none |
| MaxStacks.Push | 3_stacks_and_queues.go:215-235 | `v` is inserted before the first value no larger than it; this adds exactly one `v` and keeps a sorted stack sorted |
| MaxStacks.FirstAtMostUnique | 3_stacks_and_queues.go:221-227 | the walk's stopping point is the first position holding a value no larger than `v` |
| MaxStacks.InsertKeepsValues | 3_stacks_and_queues.go:229-233 | insertion adds exactly one `v` to the multiset |
| MaxStacks.InsertKeepsOrder | 3_stacks_and_queues.go:229-233 | insertion after the larger values keeps the chain non-increasing |
| MaxStacks.Pick | 3_stacks_and_queues.go:237-242 | `None` exactly when empty, otherwise the top value; on a sorted stack, the largest value |
| MaxStacks.Pop | 3_stacks_and_queues.go:244-251 | returns what `Pick` sees; the value followed by the rest is the old stack; sortedness is kept |
| MaxStacks.IsEmpty | 3_stacks_and_queues.go:253-256 | true exactly when the stack holds no value |
| MaxStacks.DrainDescends | 3_stacks_and_queues.go:244-251 | popping a sorted stack until empty yields its values in non-increasing order |
| Shelters.New | 3_stacks_and_queues.go:298-300 | a new shelter has no animal |
| Shelters.Pick | 3_stacks_and_queues.go:302-307 | the oldest animal, `None` exactly when the shelter is empty; it is also the oldest of its own kind |
| Shelters.Enqueue | 3_stacks_and_queues.go:309-324 | the animal joins the back of the shelter and of its own kind's animals; the other kind's animals are unchanged |
| Shelters.DequeueAny | 3_stacks_and_queues.go:326-333 | returns what `Pick` sees; an empty shelter stays as it is; otherwise the animal leaves the front of the shelter and of its kind's animals, and the other kind's animals are unchanged |
| Shelters.FirstOfKind | 3_stacks_and_queues.go:355-367 | the position of the oldest animal of a kind, or the length if there is none |
| Shelters.DequeueSpecific | 3_stacks_and_queues.go:349-370 | needs a non-empty shelter; unlinks and returns the oldest animal of the kind, or returns `None` and leaves the shelter unchanged; the other kind keeps its animals in order |
| Shelters.FirstOfKindUnique | 3_stacks_and_queues.go:358-367 | the walk's stopping point is the oldest animal of the kind |
| Shelters.Unlinked | 3_stacks_and_queues.go:360-363 | unlinking takes the oldest of the kind off that kind's list and leaves the other kind's list intact |
| Shelters.OfKindConcat | 3_stacks_and_queues.go:349-370 | selecting one kind distributes over concatenation |
| Shelters.NoneOfKind | 3_stacks_and_queues.go:358-369 | a stretch with no animal of a kind selects nothing of that kind and everything of the other |
| Shelters.NoneFound | 3_stacks_and_queues.go:349-370 | a kind has no oldest animal exactly when the shelter has none of that kind |
| Shelters.DequeueDog | 3_stacks_and_queues.go:335-340 | the oldest dog is unlinked and returned, the other animals keeping their order, or `None` when there is no dog and the shelter is unchanged; the cats are untouched |
| Shelters.DequeueCat | 3_stacks_and_queues.go:342-347 | the oldest cat is unlinked and returned, the other animals keeping their order, or `None` when there is no cat and the shelter is unchanged; the dogs are untouched |

## Left out

- Strings are sequences of Unicode code points (`char`). Go indexes strings by byte, and `reverse` fills its rune buffer at byte offsets. For text outside ASCII, the Go results can therefore differ from the model.
- The pixel record's four byte channels are not modelled; a grid cell is any value.
- `Map`'s two error results, for a nil slice and a nil function, have no counterpart: Dafny has no nil sequences or functions.
- `zeroColumnsAndRows` reads only the leading n x n square of an n-row matrix, so the model requires every row to be at least n long.
- Go panics are modelled as preconditions:
  - `encodeSpaces` with a length beyond the input's rune count: Go panics or pads with NUL characters depending on the conversion's capacity; the model excludes it;
  - `findLast` with an index below -1;
  - `rotateMatrix90Degrees` as written on a size of 6 or more;
  - `MinStack.Pop` on an empty value stack, or on an empty minimum stack under a non-empty value stack (the state the as-written `Push` reaches after push 5, push 5, pop);
  - Hanoi `Swap` from an empty rod;
  - `Move` with fewer disks on the source than it is asked to move;
  - `DequeueSpecific` on an empty shelter.
- Hanoi.Move: requires at least one disk, because Go's `Move` with 0 disks recurses without end. The model also does not check that each single move puts a smaller disk on a larger one.
- Hanoi.NewHanoiGame: the error is returned as Go's message text, which says the minimum height is 3 although the check is against 1. The text is carried along but nothing is stated about it.
- Chains.Sum: requires the two input chains to share no node. Go's `sum` on two heads reaching common nodes reverses the shared nodes twice; that case is not modelled.
- The nodes that `partition`, `sumReversed` and `sum` allocate are modelled by their values, as value-level chains, not as fresh heap cells.
- Chains.FindLoop: Go keys its visited set by node pointer. The model uses node ids in a finite heap and requires the walk to stay within the heap (`Closed`).
- The stack and queue types are generic over `constraints.Ordered` in Go. The plain stack, queue and two-stack queue are modelled generically. The min-stack and the max-stack are specialised to `int`.
- The shelter's `IAnimal` interface and `GetName` are a datatype with a `name` field. The runtime type switch is a `Kind` argument. Only `*Cat` and `*Dog` animals are modelled: in Go, `IAnimal` is open, and a third implementation, or a `Cat` or `Dog` stored by value, matches neither type assertion.
- `Pick` on the stack, queue, min-stack and max-stack returns a pointer into the top node in Go, through which a caller could overwrite the stored value. The model returns the value itself; this aliasing is not modelled, and nothing in the modelled code writes through it.
- Amortised cost and time complexity are not modelled.

## Findings

| source | as written | input that shows it | evidently intended | confidence | as-written member | corrected member |
|---|---|---|---|---|---|---|
| 2_linked_lists.go:111-145 | the carry out of the last column is dropped | 5 + 5 gives the chain [0] | a final carry adds a digit 1 | not executed | LinkedLists.SumReversed, LinkedLists.SumReversedDropsCarry | LinkedLists.SumReversedFull |
| 2_linked_lists.go:204-216 | the list is reversed in place, so `current` starts at the old head, now the last node; only the first and last values are compared | "abca" is reported a palindrome | compare the chain with a reversed copy | not executed | Chains.IsPalindrom, LinkedLists.EndsAgreeIsNotEnough | LinkedLists.IsPalindromeCorrected |
| 3_stacks_and_queues.go:104 | a value equal to the current minimum is not recorded on the minimum stack | push 5, push 5, pop: 5 remains but `Min` is nil | record a value no larger than the minimum (`>=`) | not executed | MinStacks.Push, MinStacks.RepeatedMinimumLost | MinStacks.PushCorrected, MinStacks.RepeatedMinimumKept |
| 1_array_and_strings.go:149 | the partner row is `last - index - first`, which is only right on layer 0 | a 4 x 4 grid with a mark at (2, 2) is returned unchanged | partner row `last - index + first` | not executed | MatrixRotation.RotateMatrix90Degrees, MatrixRotation.AsWrittenMisrotates | MatrixRotation.RotateMatrix90DegreesCorrected |
| 1_array_and_strings.go:40-53 | only checks that every element of `other` occurs in `input` | "ab" and "a" are reported permutations | equal element counts | not executed | ArrayAndStrings.IsPermutationOf, ArrayAndStrings.ContainmentIsNotPermutation | ArrayAndStrings.IsPermutationByCount |
