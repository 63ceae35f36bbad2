/** Optional values: a value, or none. */
module Options {
  datatype Option<T> = None | Some(value: T)
}

/**
 * The board's geometry: which cells of the 7x7 grid are playable and which
 * pairs of cells are joined by a diagonal line.
 */
module Topology {

  /** Side of the square grid that holds the cross-shaped board. */
  const BoardSize: int := 7

  /** Number of cells of the grid. */
  const CellCount: int := BoardSize * BoardSize

  /** A grid coordinate; rows grow downwards, so "up" means a smaller row. */
  datatype Point = Point(row: int, col: int)

  predicate InGrid(p: Point) {
    0 <= p.row < BoardSize && 0 <= p.col < BoardSize
  }

  /** A playable cell: one of the three middle rows or one of the three middle columns. */
  predicate IsValidPoint(row: int, col: int) {
    (2 <= row <= 4) || (2 <= col <= 4)
  }

  /** Row-major position of a grid cell on the flattened board. */
  function Idx(p: Point): (i: nat)
    requires InGrid(p)
    ensures i < CellCount
  {
    p.row * 7 + p.col
  }

  lemma IdxInjective(p: Point, q: Point)
    requires InGrid(p) && InGrid(q) && Idx(p) == Idx(q)
    ensures p == q
  {
  }

  /** Row and column are read back from the flattened position by division. */
  lemma IdxInverse(p: Point)
    requires InGrid(p)
    ensures Idx(p) / 7 == p.row && Idx(p) % 7 == p.col
  {
  }

  /** Number of playable cells (row, c), ..., (row, 6) of one grid row. */
  function RowCount(row: int, c: nat): nat
    requires c <= 7
    decreases 7 - c
  {
    if c == 7 then 0 else (if IsValidPoint(row, c) then 1 else 0) + RowCount(row, c + 1)
  }

  /** Number of playable cells in rows r, ..., 6 of the grid. */
  function GridCount(r: nat): nat
    requires r <= 7
    decreases 7 - r
  {
    if r == 7 then 0 else RowCount(r, 0) + GridCount(r + 1)
  }

  /** A row of an arm of the cross has its three middle cells playable. */
  lemma ArmRowCount(row: int)
    requires row < 2 || 4 < row
    ensures RowCount(row, 0) == 3
  {
    assert RowCount(row, 5) == 0;
    assert RowCount(row, 2) == 3;
  }

  /** A middle row is playable all along. */
  lemma MiddleRowCount(row: int)
    requires 2 <= row <= 4
    ensures RowCount(row, 0) == 7
  {
    assert RowCount(row, 4) == 3;
  }

  /** The cross has 33 playable cells out of the 49 of the grid. */
  lemma ValidPointCount()
    ensures GridCount(0) == 33
    ensures CellCount - GridCount(0) == 16
  {
    ArmRowCount(0);
    ArmRowCount(1);
    MiddleRowCount(2);
    MiddleRowCount(3);
    MiddleRowCount(4);
    ArmRowCount(5);
    ArmRowCount(6);
  }

  function Min(a: int, b: int): int {
    if a <= b then a else b
  }

  /** The unit square with top-left corner (r, c) lies inside the grid and has four playable corners. */
  predicate FullBlock(r: int, c: int) {
    && 0 <= r < BoardSize - 1 && 0 <= c < BoardSize - 1
    && IsValidPoint(r, c) && IsValidPoint(r, c + 1)
    && IsValidPoint(r + 1, c) && IsValidPoint(r + 1, c + 1)
  }

  /**
   * a and b are opposite corners of a full unit square, along the one diagonal
   * that square carries: top-left to bottom-right when the parity of the
   * square's top-left corner (row + col) is even, top-right to bottom-left
   * when it is odd.
   */
  predicate Connected(a: Point, b: Point) {
    var r, c := Min(a.row, b.row), Min(a.col, b.col);
    && (a.row - b.row == 1 || b.row - a.row == 1)
    && (a.col - b.col == 1 || b.col - a.col == 1)
    && FullBlock(r, c)
    && if (r + c) % 2 == 0 then a.row - b.row == a.col - b.col
       else a.row - b.row == b.col - a.col
  }

  /** Whether a diagonal line leads from (row, col) to (row + dr, col + dc). */
  predicate HasDiagonalConnection(row: int, col: int, dr: int, dc: int) {
    Connected(Point(row, col), Point(row + dr, col + dc))
  }

  /** The two ordered pairs that the unit square with top-left corner (r, c) puts into the table. */
  function BlockPairs(r: int, c: int): set<(Point, Point)> {
    if (r + c) % 2 == 0 then {(Point(r, c), Point(r + 1, c + 1)), (Point(r + 1, c + 1), Point(r, c))}
    else {(Point(r, c + 1), Point(r + 1, c)), (Point(r + 1, c), Point(r, c + 1))}
  }

  /** A pair of cells whose bounding square is (r, c) is connected exactly when it is one of that square's pairs. */
  lemma ConnectedWithinBlock(a: Point, b: Point, r: int, c: int)
    requires Min(a.row, b.row) == r && Min(a.col, b.col) == c
    ensures Connected(a, b) <==> FullBlock(r, c) && (a, b) in BlockPairs(r, c)
  {
  }

  /** Connected pairs whose bounding square comes before (r, c) in row-major order. */
  predicate ConnectedBefore(a: Point, b: Point, r: int, c: int) {
    var r', c' := Min(a.row, b.row), Min(a.col, b.col);
    Connected(a, b) && (r' < r || (r' == r && c' < c))
  }

  /** Adding the pairs of square (r, c), when it is full, extends the table by that square. */
  lemma AddBlockPairs(before: set<(Point, Point)>, r: int, c: int)
    requires 0 <= r < BoardSize - 1 && 0 <= c < BoardSize - 1
    requires forall a, b :: (a, b) in before <==> ConnectedBefore(a, b, r, c)
    ensures var after := if FullBlock(r, c) then before + BlockPairs(r, c) else before;
      forall a, b :: (a, b) in after <==> ConnectedBefore(a, b, r, c + 1)
  {
    var after := if FullBlock(r, c) then before + BlockPairs(r, c) else before;
    forall a, b
      ensures (a, b) in after <==> ConnectedBefore(a, b, r, c + 1)
    {
      ConnectedWithinBlock(a, b, Min(a.row, b.row), Min(a.col, b.col));
    }
  }

  /** Having passed every square of row r is having reached the start of row r + 1. */
  lemma NextBlockRow(table: set<(Point, Point)>, r: int)
    requires forall a, b :: (a, b) in table <==> ConnectedBefore(a, b, r, BoardSize - 1)
    ensures forall a, b :: (a, b) in table <==> ConnectedBefore(a, b, r + 1, 0)
  {
  }

  /**
   * The start-up construction of the diagonal table: every full unit square
   * contributes its diagonal, stored in both directions. The table it builds
   * holds exactly the pairs that `Connected` describes.
   */
  method InitializeDiagonalConnections() returns (table: set<(Point, Point)>)
    ensures forall a, b :: (a, b) in table <==> Connected(a, b)
  {
    table := {};
    for r := 0 to BoardSize - 1
      invariant forall a, b :: (a, b) in table <==> ConnectedBefore(a, b, r, 0)
    {
      for c := 0 to BoardSize - 1
        invariant forall a, b :: (a, b) in table <==> ConnectedBefore(a, b, r, c)
      {
        AddBlockPairs(table, r, c);
        if IsValidPoint(r, c) && IsValidPoint(r, c + 1) && IsValidPoint(r + 1, c) && IsValidPoint(r + 1, c + 1) {
          var tl, tr, bl, br := Point(r, c), Point(r, c + 1), Point(r + 1, c), Point(r + 1, c + 1);
          if (r + c) % 2 == 0 {
            table := table + {(tl, br), (br, tl)};
          } else {
            table := table + {(tr, bl), (bl, tr)};
          }
        }
      }
      NextBlockRow(table, r);
    }
  }

  /** A unit square of the grid is full exactly when it straddles the middle rows or the middle columns. */
  lemma FullBlockShape(r: int, c: int)
    requires 0 <= r < BoardSize - 1 && 0 <= c < BoardSize - 1
    ensures FullBlock(r, c) <==> (r == 2 || r == 3 || c == 2 || c == 3)
  {
  }

  /** Each full square carries exactly one of its two diagonals, chosen by parity; other squares carry none. */
  lemma OneDiagonalPerBlock(r: int, c: int)
    requires 0 <= r < BoardSize - 1 && 0 <= c < BoardSize - 1
    ensures FullBlock(r, c) ==>
      && (Connected(Point(r, c), Point(r + 1, c + 1)) <==> (r + c) % 2 == 0)
      && (Connected(Point(r, c + 1), Point(r + 1, c)) <==> (r + c) % 2 == 1)
    ensures !FullBlock(r, c) ==>
      !Connected(Point(r, c), Point(r + 1, c + 1)) && !Connected(Point(r, c + 1), Point(r + 1, c))
  {
  }

  /** Lines have no direction: a line from a to b is a line from b to a. */
  lemma ConnectedSymmetric(a: Point, b: Point)
    ensures Connected(a, b) <==> Connected(b, a)
  {
    var r, c := Min(a.row, b.row), Min(a.col, b.col);
    assert Min(b.row, a.row) == r && Min(b.col, a.col) == c;
    assert (a.row - b.row == a.col - b.col) <==> (b.row - a.row == b.col - a.col);
    assert (a.row - b.row == b.col - a.col) <==> (b.row - a.row == a.col - b.col);
  }

  /** The lookup is symmetric: a line from a to b is a line from b to a. */
  lemma DiagonalConnectionSymmetric(row: int, col: int, dr: int, dc: int)
    ensures HasDiagonalConnection(row, col, dr, dc) <==> HasDiagonalConnection(row + dr, col + dc, -dr, -dc)
  {
    var a, b := Point(row, col), Point(row + dr, col + dc);
    assert Point(row + dr + -dr, col + dc + -dc) == a;
    ConnectedSymmetric(a, b);
  }

  /** A diagonal line only joins two playable cells of the grid that are diagonal neighbours. */
  lemma DiagonalConnectionEnds(row: int, col: int, dr: int, dc: int)
    requires HasDiagonalConnection(row, col, dr, dc)
    ensures (dr == 1 || dr == -1) && (dc == 1 || dc == -1)
    ensures InGrid(Point(row, col)) && IsValidPoint(row, col)
    ensures InGrid(Point(row + dr, col + dc)) && IsValidPoint(row + dr, col + dc)
  {
  }
}
