/** Square grids of an opaque cell type `T`, the quarter turn they should
    undergo, single-cell updates, the four-way cyclic swap the in-place
    rotation is built from, and the bookkeeping of which cells a partial
    rotation has already placed. */
module Grids {

  predicate IsSquare<T>(m: seq<seq<T>>) {
    forall i :: 0 <= i < |m| ==> |m[i]| == |m|
  }

  /** The grid turned a quarter clockwise: row `i` of the result is column `i`
      of the input read bottom to top. */
  function Rotated<T>(m: seq<seq<T>>): (r: seq<seq<T>>)
    requires IsSquare(m)
    ensures IsSquare(r) && |r| == |m|
  {
    seq(|m|, i requires 0 <= i < |m| => seq(|m|, j requires 0 <= j < |m| => m[|m| - 1 - j][i]))
  }

  /** `m` with cell (i, j) replaced by `v`. */
  function SetCell<T>(m: seq<seq<T>>, i: int, j: int, v: T): (r: seq<seq<T>>)
    requires IsSquare(m) && 0 <= i < |m| && 0 <= j < |m|
    ensures IsSquare(r) && |r| == |m|
  {
    m[i := m[i][j := v]]
  }

  /** `SetCell` changes the one cell it names and no other. */
  lemma SetCellEffect<T>(m: seq<seq<T>>, i: int, j: int, v: T)
    requires IsSquare(m) && 0 <= i < |m| && 0 <= j < |m|
    ensures forall a, b :: 0 <= a < |m| && 0 <= b < |m| ==>
      SetCell(m, i, j, v)[a][b] == if a == i && b == j then v else m[a][b]
  {
  }

  /** Four cells pairwise different. */
  predicate FourDistinct(a: (int, int), b: (int, int), c: (int, int), d: (int, int)) {
    a != b && a != c && a != d && b != c && b != d && c != d
  }

  /** One pass of the inner loop: with `top` saved, left goes to top, bottom
      to left, right to bottom and `top` to right. Each read sees the writes
      before it, as the in-place code does. */
  function CycleStep<T>(m: seq<seq<T>>, first: int, last: int, index: int, e: int): (r: seq<seq<T>>)
    requires IsSquare(m)
    requires 0 <= first < |m| && 0 <= last < |m| && 0 <= index < |m| && 0 <= e < |m|
    ensures IsSquare(r) && |r| == |m|
    ensures r[index][last] == m[first][index]
  {
    var top := m[first][index];
    var m1 := SetCell(m, first, index, m[e][first]);
    var m2 := SetCell(m1, e, first, m1[last][e]);
    var m3 := SetCell(m2, last, e, m2[index][last]);
    SetCell(m3, index, last, top)
  }

  /** Over four different cells a step is a four-way cyclic swap: each of the
      four takes its neighbour's old value and every other cell keeps its own. */
  lemma CycleStepMoves<T>(m: seq<seq<T>>, first: int, last: int, index: int, e: int)
    requires IsSquare(m)
    requires 0 <= first < |m| && 0 <= last < |m| && 0 <= index < |m| && 0 <= e < |m|
    requires FourDistinct((first, index), (e, first), (last, e), (index, last))
    ensures var r := CycleStep(m, first, last, index, e);
      && r[first][index] == m[e][first]
      && r[e][first] == m[last][e]
      && r[last][e] == m[index][last]
      && r[index][last] == m[first][index]
      && forall a, b :: 0 <= a < |m| && 0 <= b < |m| &&
           (a, b) != (first, index) && (a, b) != (e, first) && (a, b) != (last, e) && (a, b) != (index, last)
           ==> r[a][b] == m[a][b]
  {
    var m1 := SetCell(m, first, index, m[e][first]);
    var m2 := SetCell(m1, e, first, m1[last][e]);
    var m3 := SetCell(m2, last, e, m2[index][last]);
    SetCellEffect(m, first, index, m[e][first]);
    SetCellEffect(m1, e, first, m1[last][e]);
    SetCellEffect(m2, last, e, m2[index][last]);
    SetCellEffect(m3, index, last, m[first][index]);
  }

  // ---------------------------------------------------------------------
  // Which cells a step has already placed
  // ---------------------------------------------------------------------

  function Min(a: int, b: int): int {
    if a <= b then a else b
  }

  /** The layer of cell (i, j): its distance to the nearest border. */
  function LayerOf(n: int, i: int, j: int): int {
    Min(Min(i, j), Min(n - 1 - i, n - 1 - j))
  }

  /** The inner-loop index of the four-cycle that moves cell (i, j), for a cell
      that is not the centre of an odd grid. */
  function PositionOf(n: int, i: int, j: int): int {
    var layer := LayerOf(n, i, j);
    var last := n - 1 - layer;
    if i == layer && j < last then j
    else if j == last && i < last then i
    else if i == last && j > layer then n - 1 - j
    else n - 1 - i
  }

  /** Cell (i, j) belongs to a four-cycle that runs before (layer, index). */
  predicate Placed(n: int, i: int, j: int, layer: int, index: int) {
    var l := LayerOf(n, i, j);
    l < n - 1 - l && (l < layer || (l == layer && PositionOf(n, i, j) < index))
  }

  /** Cell (i, j) of a grid whose progress is tracked. It is `m[i][j]` under a
      name of its own, so that the facts `Progress` holds about the cells are
      brought in only where a proof names a tracked cell. */
  function Tracked<T>(m: seq<seq<T>>, i: int, j: int): T
    requires 0 <= i < |m| && 0 <= j < |m[i]|
  {
    m[i][j]
  }

  /** Every cell already moved holds its rotated value; every other cell holds
      its original one. */
  ghost predicate Progress<T>(orig: seq<seq<T>>, cur: seq<seq<T>>, layer: int, index: int)
    requires IsSquare(orig)
  {
    var n := |orig|;
    && IsSquare(cur) && |cur| == n
    && forall i, j {:trigger Tracked(cur, i, j)} :: 0 <= i < n && 0 <= j < n ==>
         Tracked(cur, i, j) == if Placed(n, i, j, layer, index) then orig[n - 1 - j][i] else orig[i][j]
  }

  /** The four cells of the step (first, index) are pairwise different and
      the step is the one that moves each of them. */
  lemma CycleCells(n: int, first: int, index: int)
    requires 0 <= first <= index < n - 1 - first
    ensures var last, e := n - 1 - first, n - 1 - index;
      && FourDistinct((first, index), (e, first), (last, e), (index, last))
      && LayerOf(n, first, index) == first && PositionOf(n, first, index) == index
      && LayerOf(n, e, first) == first && PositionOf(n, e, first) == index
      && LayerOf(n, last, e) == first && PositionOf(n, last, e) == index
      && LayerOf(n, index, last) == first && PositionOf(n, index, last) == index
  {
  }

  /** No cell other than those four is moved by the step (first, index). */
  lemma OutsideCycle(n: int, first: int, index: int, i: int, j: int)
    requires 0 <= first <= index < n - 1 - first
    requires 0 <= i < n && 0 <= j < n
    requires (i, j) != (first, index) && (i, j) != (n - 1 - index, first)
    requires (i, j) != (n - 1 - first, n - 1 - index) && (i, j) != (index, n - 1 - first)
    ensures LayerOf(n, i, j) != first || PositionOf(n, i, j) != index
  {
  }

  /** A non-centre cell's position lies in its layer's index range. */
  lemma PositionRange(n: int, i: int, j: int)
    requires 0 <= i < n && 0 <= j < n
    requires LayerOf(n, i, j) < n - 1 - LayerOf(n, i, j)
    ensures LayerOf(n, i, j) <= PositionOf(n, i, j) < n - 1 - LayerOf(n, i, j)
  {
  }

  /** Two square grids of one size with the same cells are equal. */
  lemma GridEquality<T>(a: seq<seq<T>>, b: seq<seq<T>>)
    requires IsSquare(a) && IsSquare(b) && |a| == |b|
    requires forall i, j :: 0 <= i < |a| && 0 <= j < |a| ==> a[i][j] == b[i][j]
    ensures a == b
  {
    forall i | 0 <= i < |a| ensures a[i] == b[i] {
      assert forall j :: 0 <= j < |a| ==> a[i][j] == b[i][j];
    }
  }
}
