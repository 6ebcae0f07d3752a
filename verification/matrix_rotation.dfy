/** `rotateMatrix90Degrees` of `1_array_and_strings.go`: an in-place,
    layer-by-layer rotation of a square grid by four-way cyclic swaps. Pixels
    are an opaque element type `T`. The source computes the partner row of
    each swap as `last - index - first`, which is right only on the outermost
    layer; `RotateMatrix90Degrees` keeps that formula, and
    `RotateMatrix90DegreesCorrected` uses `last - index + first`. */
module MatrixRotation {
  import opened Grids

  /** How the partner row of a swap is computed. */
  datatype IndexFormula = AsWritten | Corrected

  function ElementIndex(formula: IndexFormula, first: int, last: int, index: int): int {
    match formula
    case AsWritten => last - index - first
    case Corrected => last - index + first
  }

  /** The two loops of `rotateMatrix90Degrees` from layer `layer`, inner index
      `index` on. With the source's formula every index stays in range only
      up to size 5: from size 6 the third layer reads row -1 and Go panics. */
  function RotateFrom<T>(m: seq<seq<T>>, layer: int, index: int, formula: IndexFormula): (r: seq<seq<T>>)
    requires IsSquare(m)
    requires 0 <= layer <= index
    requires formula == AsWritten ==> |m| <= 5
    ensures IsSquare(r) && |r| == |m|
    decreases |m| / 2 - layer, |m| - index
  {
    var size := |m|;
    if layer >= size / 2 then m
    else
      var first, last := layer, size - 1 - layer;
      if index >= last then RotateFrom(m, layer + 1, layer + 1, formula)
      else
        var e := ElementIndex(formula, first, last, index);
        RotateFrom(CycleStep(m, first, last, index, e), layer, index + 1, formula)
  }

  /** The source as written. Sizes up to 3 have a single layer, where the
      formula is right, so they are rotated; empty and 1 x 1 grids come back
      unchanged. */
  function RotateMatrix90Degrees<T>(m: seq<seq<T>>): (r: seq<seq<T>>)
    requires IsSquare(m) && |m| <= 5
    ensures IsSquare(r) && |r| == |m|
    ensures |m| <= 3 ==> r == Rotated(m)
    ensures |m| <= 1 ==> r == m
  {
    SingleLayerFormulasAgree(m, 0, 0);
    if |m| <= 3 then
      StartUnmoved(m);
      RotateFromRotates(m, m, 0, 0);
      RotateFrom(m, 0, 0, AsWritten)
    else
      RotateFrom(m, 0, 0, AsWritten)
  }

  /** The rotation with the partner row `last - index + first`: every square
      grid comes out turned a quarter clockwise. */
  function RotateMatrix90DegreesCorrected<T>(m: seq<seq<T>>): (r: seq<seq<T>>)
    requires IsSquare(m)
    ensures r == Rotated(m)
  {
    StartUnmoved(m);
    RotateFromRotates(m, m, 0, 0);
    RotateFrom(m, 0, 0, Corrected)
  }

  /** Before the first four-cycle nothing has moved. */
  lemma StartUnmoved<T>(orig: seq<seq<T>>)
    requires IsSquare(orig)
    ensures Progress(orig, orig, 0, 0)
  {
    var n := |orig|;
    forall i, j | 0 <= i < n && 0 <= j < n ensures !Placed(n, i, j, 0, 0) {
      if LayerOf(n, i, j) < n - 1 - LayerOf(n, i, j) {
        PositionRange(n, i, j);
      }
    }
  }

  /** The value that cell (i, j) holds once the steps before (layer, index)
      have run. */
  function Expected<T>(orig: seq<seq<T>>, i: int, j: int, layer: int, index: int): T
    requires IsSquare(orig) && 0 <= i < |orig| && 0 <= j < |orig|
  {
    var n := |orig|;
    if Placed(n, i, j, layer, index) then orig[n - 1 - j][i] else orig[i][j]
  }

  /** The four cells the step (first, index) moves take their rotated values. */
  lemma MovedCells<T>(orig: seq<seq<T>>, cur: seq<seq<T>>, first: int, index: int)
    requires IsSquare(orig) && Progress(orig, cur, first, index)
    requires 0 <= first <= index < |orig| - 1 - first
    ensures var n := |orig|;
      var last, e := n - 1 - first, n - 1 - index;
      var next := CycleStep(cur, first, last, index, e);
      && next[first][index] == Expected(orig, first, index, first, index + 1)
      && next[e][first] == Expected(orig, e, first, first, index + 1)
      && next[last][e] == Expected(orig, last, e, first, index + 1)
      && next[index][last] == Expected(orig, index, last, first, index + 1)
  {
    var n := |orig|;
    var last, e := n - 1 - first, n - 1 - index;
    CycleCells(n, first, index);
    CycleStepMoves(cur, first, last, index, e);
    assert Tracked(cur, e, first) == cur[e][first] && Tracked(cur, last, e) == cur[last][e];
    assert Tracked(cur, index, last) == cur[index][last] && Tracked(cur, first, index) == cur[first][index];
  }

  /** A cell the step (first, index) does not move keeps its value and its
      status. */
  lemma StillCell<T>(orig: seq<seq<T>>, cur: seq<seq<T>>, first: int, index: int, i: int, j: int)
    requires IsSquare(orig) && Progress(orig, cur, first, index)
    requires 0 <= first <= index < |orig| - 1 - first
    requires 0 <= i < |orig| && 0 <= j < |orig|
    requires var n := |orig|;
      (i, j) != (first, index) && (i, j) != (n - 1 - index, first) &&
      (i, j) != (n - 1 - first, n - 1 - index) && (i, j) != (index, n - 1 - first)
    ensures var n := |orig|;
      CycleStep(cur, first, n - 1 - first, index, n - 1 - index)[i][j] == Expected(orig, i, j, first, index + 1)
  {
    var n := |orig|;
    var last, e := n - 1 - first, n - 1 - index;
    CycleCells(n, first, index);
    CycleStepMoves(cur, first, last, index, e);
    OutsideCycle(n, first, index, i, j);
    assert Tracked(cur, i, j) == cur[i][j];
    assert Placed(n, i, j, first, index + 1) == Placed(n, i, j, first, index);
  }

  /** A cell after the step (first, index): one of the four it moves now holds
      its rotated value, any other cell is as before. */
  lemma StepCell<T>(orig: seq<seq<T>>, cur: seq<seq<T>>, first: int, index: int, i: int, j: int)
    requires IsSquare(orig) && Progress(orig, cur, first, index)
    requires 0 <= first <= index < |orig| - 1 - first
    requires 0 <= i < |orig| && 0 <= j < |orig|
    ensures var n := |orig|;
      CycleStep(cur, first, n - 1 - first, index, n - 1 - index)[i][j] == Expected(orig, i, j, first, index + 1)
  {
    var n := |orig|;
    var last, e := n - 1 - first, n - 1 - index;
    if (i, j) == (first, index) || (i, j) == (e, first) || (i, j) == (last, e) || (i, j) == (index, last) {
      MovedCells(orig, cur, first, index);
    } else {
      StillCell(orig, cur, first, index, i, j);
    }
  }

  /** One correct four-cycle moves the progress marker one step. */
  lemma StepKeepsProgress<T>(orig: seq<seq<T>>, cur: seq<seq<T>>, first: int, index: int)
    requires IsSquare(orig) && Progress(orig, cur, first, index)
    requires 0 <= first <= index < |orig| - 1 - first
    ensures Progress(orig, CycleStep(cur, first, |orig| - 1 - first, index, |orig| - 1 - index), first, index + 1)
  {
    var n := |orig|;
    var next := CycleStep(cur, first, n - 1 - first, index, n - 1 - index);
    forall i, j | 0 <= i < n && 0 <= j < n
      ensures Tracked(next, i, j) == if Placed(n, i, j, first, index + 1) then orig[n - 1 - j][i] else orig[i][j]
    {
      StepCell(orig, cur, first, index, i, j);
      assert Tracked(next, i, j) == next[i][j];
    }
  }

  /** The step (first, index) as the loops take it: `next` is the grid after
      it, from which they carry on at the following index. */
  lemma Advance<T>(orig: seq<seq<T>>, cur: seq<seq<T>>, first: int, index: int) returns (next: seq<seq<T>>)
    requires IsSquare(orig) && Progress(orig, cur, first, index)
    requires 0 <= first <= index < |orig| - 1 - first
    ensures Progress(orig, next, first, index + 1)
    ensures RotateFrom(cur, first, index, Corrected) == RotateFrom(next, first, index + 1, Corrected)
  {
    assert |cur| == |orig|;
    next := CycleStep(cur, first, |cur| - 1 - first, index, |cur| - 1 - index);
    RotateFromStep(cur, first, index, next);
    StepKeepsProgress(orig, cur, first, index);
  }

  /** Finishing a layer and starting the next one marks the same cells. */
  lemma NextLayerSameProgress<T>(orig: seq<seq<T>>, cur: seq<seq<T>>, layer: int)
    requires IsSquare(orig) && Progress(orig, cur, layer, |orig| - 1 - layer)
    requires 0 <= layer < |orig| / 2
    ensures Progress(orig, cur, layer + 1, layer + 1)
    ensures RotateFrom(cur, layer, |orig| - 1 - layer, Corrected) == RotateFrom(cur, layer + 1, layer + 1, Corrected)
  {
    var n := |orig|;
    forall i, j | 0 <= i < n && 0 <= j < n
      ensures Tracked(cur, i, j) == if Placed(n, i, j, layer + 1, layer + 1) then orig[n - 1 - j][i] else orig[i][j]
    {
      if LayerOf(n, i, j) < n - 1 - LayerOf(n, i, j) {
        PositionRange(n, i, j);
      }
      assert Placed(n, i, j, layer, n - 1 - layer) == Placed(n, i, j, layer + 1, layer + 1);
    }
    RotateFromNextLayer(cur, layer, n - 1 - layer);
  }

  /** When the layers run out, every cell is in its rotated place: the only
      cell never moved is the centre of an odd grid, which stays put. */
  lemma DoneIsRotated<T>(orig: seq<seq<T>>, cur: seq<seq<T>>, layer: int, index: int)
    requires IsSquare(orig) && Progress(orig, cur, layer, index)
    requires |orig| / 2 <= layer <= index
    ensures RotateFrom(cur, layer, index, Corrected) == Rotated(orig)
  {
    var n := |orig|;
    var rot := Rotated(orig);
    forall i, j | 0 <= i < n && 0 <= j < n ensures cur[i][j] == rot[i][j] {
      assert Tracked(cur, i, j) == cur[i][j];
      if !Placed(n, i, j, layer, index) {
        assert i == j == n - 1 - i;
      }
    }
    GridEquality(cur, rot);
  }

  /** One unfolding of `RotateFrom` at a step inside a layer. */
  lemma RotateFromStep<T>(m: seq<seq<T>>, layer: int, index: int, next: seq<seq<T>>)
    requires IsSquare(m) && 0 <= layer <= index < |m| - 1 - layer
    requires next == CycleStep(m, layer, |m| - 1 - layer, index, |m| - 1 - index)
    ensures RotateFrom(m, layer, index, Corrected) == RotateFrom(next, layer, index + 1, Corrected)
  {
  }

  /** One unfolding of `RotateFrom` at the end of a layer. */
  lemma RotateFromNextLayer<T>(m: seq<seq<T>>, layer: int, index: int)
    requires IsSquare(m) && 0 <= layer <= index && layer < |m| / 2 && |m| - 1 - layer <= index
    ensures RotateFrom(m, layer, index, Corrected) == RotateFrom(m, layer + 1, layer + 1, Corrected)
  {
  }

  /** Equality of grids chains. */
  lemma Chain<T>(a: seq<seq<T>>, b: seq<seq<T>>, c: seq<seq<T>>)
    requires a == b && b == c
    ensures a == c
  {
  }

  /** With the corrected formula the loops finish the rotation from any
      intermediate state. */
  lemma {:induction false} RotateFromRotates<T>(orig: seq<seq<T>>, cur: seq<seq<T>>, layer: int, index: int)
    requires IsSquare(orig) && Progress(orig, cur, layer, index)
    requires 0 <= layer <= index
    requires layer < |orig| / 2 ==> index <= |orig| - 1 - layer
    ensures RotateFrom(cur, layer, index, Corrected) == Rotated(orig)
    decreases |orig| / 2 - layer, |orig| - index, 1
  {
    var n := |orig|;
    if layer >= n / 2 {
      DoneIsRotated(orig, cur, layer, index);
    } else if index >= n - 1 - layer {
      RotateFromNextLayerRotates(orig, cur, layer);
    } else {
      RotateFromStepRotates(orig, cur, layer, index);
    }
  }

  /** The induction step at the end of a layer. */
  lemma {:induction false} RotateFromNextLayerRotates<T>(orig: seq<seq<T>>, cur: seq<seq<T>>, layer: int)
    requires IsSquare(orig) && 0 <= layer < |orig| / 2
    requires Progress(orig, cur, layer, |orig| - 1 - layer)
    ensures RotateFrom(cur, layer, |orig| - 1 - layer, Corrected) == Rotated(orig)
    decreases |orig| / 2 - layer, |orig| - (|orig| - 1 - layer), 0
  {
    NextLayerSameProgress(orig, cur, layer);
    RotateFromRotates(orig, cur, layer + 1, layer + 1);
    Chain(RotateFrom(cur, layer, |orig| - 1 - layer, Corrected), RotateFrom(cur, layer + 1, layer + 1, Corrected), Rotated(orig));
  }

  /** The induction step inside a layer. */
  lemma {:induction false} RotateFromStepRotates<T>(orig: seq<seq<T>>, cur: seq<seq<T>>, layer: int, index: int)
    requires IsSquare(orig) && Progress(orig, cur, layer, index)
    requires 0 <= layer <= index < |orig| - 1 - layer
    ensures RotateFrom(cur, layer, index, Corrected) == Rotated(orig)
    decreases |orig| / 2 - layer, |orig| - index, 0
  {
    var next := Advance(orig, cur, layer, index);
    RotateFromRotates(orig, next, layer, index + 1);
    Chain(RotateFrom(cur, layer, index, Corrected), RotateFrom(next, layer, index + 1, Corrected), Rotated(orig));
  }

  /** On a grid of size at most 3 only layer 0 runs, where both formulas give
      the same partner row. */
  lemma {:induction false} SingleLayerFormulasAgree<T>(m: seq<seq<T>>, layer: int, index: int)
    requires IsSquare(m) && 0 <= layer <= index
    ensures |m| <= 3 ==> RotateFrom(m, layer, index, AsWritten) == RotateFrom(m, layer, index, Corrected)
    decreases |m| / 2 - layer, |m| - index
  {
    var size := |m|;
    if size <= 3 && layer < size / 2 {
      var last := size - 1 - layer;
      if index >= last {
        SingleLayerFormulasAgree(m, layer + 1, layer + 1);
      } else {
        assert ElementIndex(AsWritten, layer, last, index) == ElementIndex(Corrected, layer, last, index);
        SingleLayerFormulasAgree(CycleStep(m, layer, last, index, last - index), layer, index + 1);
      }
    }
  }

  /** A four-cycle over four distinct cells holding equal values changes nothing. */
  lemma ZeroCycleKeepsGrid(m: seq<seq<int>>, first: int, last: int, index: int, e: int)
    requires IsSquare(m)
    requires 0 <= first < |m| && 0 <= last < |m| && 0 <= index < |m| && 0 <= e < |m|
    requires FourDistinct((first, index), (e, first), (last, e), (index, last))
    requires m[first][index] == m[e][first] == m[last][e] == m[index][last]
    ensures CycleStep(m, first, last, index, e) == m
  {
    CycleStepMoves(m, first, last, index, e);
    GridEquality(CycleStep(m, first, last, index, e), m);
  }

  /** A 4 x 4 grid with one marked cell in the inner layer. */
  function MarkedGrid(): seq<seq<int>> {
    [[0, 0, 0, 0], [0, 0, 0, 0], [0, 0, 1, 0], [0, 0, 0, 0]]
  }

  /** The source's inner-layer step uses row `last - index - first` = 0 and
      never reaches cell (2, 2): the marked grid comes back unchanged although
      a quarter turn moves the mark to (2, 1). */
  lemma AsWrittenMisrotates()
    ensures RotateMatrix90Degrees(MarkedGrid()) == MarkedGrid()
    ensures Rotated(MarkedGrid()) != MarkedGrid()
  {
    var m := MarkedGrid();
    assert IsSquare(m);
    ZeroCycleKeepsGrid(m, 0, 3, 0, 3);
    ZeroCycleKeepsGrid(m, 0, 3, 1, 2);
    ZeroCycleKeepsGrid(m, 0, 3, 2, 1);
    ZeroCycleKeepsGrid(m, 1, 2, 1, 0);
    assert RotateFrom(m, 1, 2, AsWritten) == m;
    assert RotateFrom(m, 1, 1, AsWritten) == m;
    assert RotateFrom(m, 0, 3, AsWritten) == m;
    assert RotateFrom(m, 0, 2, AsWritten) == m;
    assert RotateFrom(m, 0, 1, AsWritten) == m;
    assert RotateFrom(m, 0, 0, AsWritten) == m;
    assert Rotated(m)[2][1] == m[2][2];
  }
}
