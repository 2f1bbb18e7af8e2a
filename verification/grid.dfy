/**
 Geometry of the 9x9 board (src/board.rs).

 The board is stored as the 81 tiles in the order they were read. The matrix built
 from them is filled column by column, so storage index k sits at row `k % 9` and
 column `k / 9`. A unit is the list of storage indices of one row, one column or
 one 3x3 box; `Units` lists the 27 units in the order `apply_constraints` visits
 them: the rows, then the columns, then the boxes.
 */
module Grid {

  /** Number of cells of the board. */
  const Cells: nat := 81

  /** Row of the cell stored at index k. */
  function Row(k: nat): nat {
    k % 9
  }

  /** Column of the cell stored at index k. */
  function Col(k: nat): nat {
    k / 9
  }

  /** Storage index of the cell at (row, col): the matrix is filled column by column. */
  function Index(row: nat, col: nat): (k: nat)
    requires row < 9 && col < 9
    ensures k < Cells
    ensures Row(k) == row && Col(k) == col
  {
    row + 9 * col
  }

  /** Every cell is stored at the index of its own row and column. */
  lemma IndexOfCell(k: nat)
    requires k < Cells
    ensures Index(Row(k), Col(k)) == k
  {
  }

  /** First row (or column) of the band of three that holds row (or column) x. */
  function BoxStart(x: nat): nat {
    x - x % 3
  }

  /** Two cells see each other: same row, same column or same 3x3 box. */
  predicate Peers(k: nat, k': nat) {
    || Row(k) == Row(k')
    || Col(k) == Col(k')
    || (BoxStart(Row(k)) == BoxStart(Row(k')) && BoxStart(Col(k)) == BoxStart(Col(k')))
  }

  /** The cells from index `from` on that satisfy P, in storage order. */
  function CellsFrom(P: nat -> bool, from: nat): (u: seq<nat>)
    requires from <= Cells
    ensures forall k: nat :: k in u <==> from <= k < Cells && P(k)
    decreases Cells - from
  {
    if from == Cells then []
    else (if P(from) then [from] else []) + CellsFrom(P, from + 1)
  }

  /** The cells of row r, left to right (storage order walks a row left to right). */
  function RowUnit(r: nat): (u: seq<nat>)
    requires r < 9
    ensures forall k: nat :: k in u <==> k < Cells && Row(k) == r
  {
    CellsFrom((k: nat) => Row(k) == r, 0)
  }

  /** The cells of column c, top to bottom. */
  function ColUnit(c: nat): (u: seq<nat>)
    requires c < 9
    ensures forall k: nat :: k in u <==> k < Cells && Col(k) == c
  {
    CellsFrom((k: nat) => Col(k) == c, 0)
  }

  /** The cells of the 3x3 box whose top-left cell is (i, j), column by column as
      `slice_mut((i, j), (3, 3))` yields them. */
  function BoxUnit(i: nat, j: nat): (u: seq<nat>)
    requires i < 9 && j < 9 && i % 3 == 0 && j % 3 == 0
    ensures forall k: nat :: k in u <==> k < Cells && BoxStart(Row(k)) == i && BoxStart(Col(k)) == j
  {
    CellsFrom((k: nat) => BoxStart(Row(k)) == i && BoxStart(Col(k)) == j, 0)
  }

  /** The nine rows. */
  function RowUnits(): (us: seq<seq<nat>>)
    ensures |us| == 9
    ensures forall r | 0 <= r < 9 :: us[r] == RowUnit(r)
  {
    seq(9, r requires 0 <= r < 9 => RowUnit(r))
  }

  /** The nine columns. */
  function ColUnits(): (us: seq<seq<nat>>)
    ensures |us| == 9
    ensures forall c | 0 <= c < 9 :: us[c] == ColUnit(c)
  {
    seq(9, c requires 0 <= c < 9 => ColUnit(c))
  }

  /** The nine boxes, with the band of rows in the outer loop and the band of
      columns in the inner one. */
  function BoxUnits(): (us: seq<seq<nat>>)
    ensures |us| == 9
    ensures forall b | 0 <= b < 9 :: us[b] == BoxUnit(3 * (b / 3), 3 * (b % 3))
  {
    seq(9, b requires 0 <= b < 9 => BoxUnit(3 * (b / 3), 3 * (b % 3)))
  }

  /** All 27 units in visiting order. */
  function Units(): (us: seq<seq<nat>>)
    ensures |us| == 27
    ensures forall i, k | 0 <= i < |us| && k in us[i] :: k < Cells
  {
    RowUnits() + ColUnits() + BoxUnits()
  }

  /** `apply_constraints` visits the rows first, top to bottom. */
  lemma RowsVisitedFirst()
    ensures forall r | 0 <= r < 9 :: Units()[r] == RowUnit(r)
  {
    forall r | 0 <= r < 9
      ensures Units()[r] == RowUnit(r)
    {
      RowAt(r);
    }
  }

  /** Then the columns, left to right. */
  lemma ColumnsVisitedNext()
    ensures forall c | 0 <= c < 9 :: Units()[9 + c] == ColUnit(c)
  {
    forall c | 0 <= c < 9
      ensures Units()[9 + c] == ColUnit(c)
    {
      ColAt(c);
    }
  }

  /** Then the boxes, with the band of rows in the outer loop and the band of
      columns in the inner one. */
  lemma BoxesVisitedLast()
    ensures forall p, q | 0 <= p < 3 && 0 <= q < 3 :: Units()[18 + 3 * p + q] == BoxUnit(3 * p, 3 * q)
  {
    forall p, q | 0 <= p < 3 && 0 <= q < 3
      ensures Units()[18 + 3 * p + q] == BoxUnit(3 * p, 3 * q)
    {
      BoxAt(p, q);
    }
  }

  /** Position r of `Units` is row r. */
  lemma RowAt(r: nat)
    requires r < 9
    ensures Units()[r] == RowUnit(r)
  {
  }

  /** Position 9 + c of `Units` is column c. */
  lemma ColAt(c: nat)
    requires c < 9
    ensures Units()[9 + c] == ColUnit(c)
  {
  }

  /** Position 18 + 3p + q of `Units` is the box whose top-left cell is (3p, 3q). */
  lemma BoxAt(p: nat, q: nat)
    requires p < 3 && q < 3
    ensures Units()[18 + 3 * p + q] == BoxUnit(3 * p, 3 * q)
  {
    var b := 3 * p + q;
    assert b / 3 == p && b % 3 == q;
    assert Units()[18 + b] == BoxUnits()[b];
  }

  /** Two cells that some unit holds both are peers. */
  lemma SharedUnitPeers(k: nat, k': nat, i: nat)
    requires i < 27 && k in Units()[i] && k' in Units()[i]
    ensures Peers(k, k')
  {
    if i < 9 {
      RowAt(i);
    } else if i < 18 {
      ColAt(i - 9);
    } else {
      var p, q := (i - 18) / 3, (i - 18) % 3;
      assert i == 18 + 3 * p + q;
      BoxUnitPeers(k, k', p, q);
    }
  }

  /** Two cells of the box at position 18 + 3p + q of `Units` are peers. */
  lemma BoxUnitPeers(k: nat, k': nat, p: nat, q: nat)
    requires p < 3 && q < 3
    requires k in Units()[18 + 3 * p + q] && k' in Units()[18 + 3 * p + q]
    ensures Peers(k, k')
  {
    BoxAt(p, q);
  }

  /** Two cells are peers exactly when some unit holds both. */
  lemma PeersShareUnit(k: nat, k': nat)
    requires k < Cells && k' < Cells
    ensures Peers(k, k') <==> exists i :: 0 <= i < 27 && k in Units()[i] && k' in Units()[i]
  {
    if i :| 0 <= i < 27 && k in Units()[i] && k' in Units()[i] {
      SharedUnitPeers(k, k', i);
    }
    if Row(k) == Row(k') {
      RowAt(Row(k));
      assert k in Units()[Row(k)] && k' in Units()[Row(k)];
    } else if Col(k) == Col(k') {
      ColAt(Col(k));
      assert k in Units()[9 + Col(k)] && k' in Units()[9 + Col(k)];
    } else if BoxStart(Row(k)) == BoxStart(Row(k')) && BoxStart(Col(k)) == BoxStart(Col(k')) {
      BoxShared(k, k');
    }
  }

  /** Two cells of one box share the unit of that box. */
  lemma BoxShared(k: nat, k': nat)
    requires k < Cells && k' < Cells
    requires BoxStart(Row(k)) == BoxStart(Row(k')) && BoxStart(Col(k)) == BoxStart(Col(k'))
    ensures exists i :: 0 <= i < 27 && k in Units()[i] && k' in Units()[i]
  {
    var p, q := Row(k) / 3, Col(k) / 3;
    assert BoxStart(Row(k)) == 3 * p && BoxStart(Col(k)) == 3 * q;
    BoxAt(p, q);
    assert k in Units()[18 + 3 * p + q] && k' in Units()[18 + 3 * p + q];
  }
}
