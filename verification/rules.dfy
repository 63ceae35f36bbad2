/**
 * The rules of Fox and Geese on a board value: which moves a piece has, what
 * a move does to the board, and when the fox is cornered. The board is the
 * 7x7 grid flattened row by row into 49 squares.
 */
module Rules {
  import opened Options
  import opened Topology

  /** Contents of one grid cell: outside the cross, empty, the fox or a goose. */
  datatype Square = OffBoard | Empty | Fox | Goose

  /** An entry of the move list: where the piece lands, and the goose it jumps over, if any. */
  datatype Move = Move(dest: Point, captured: Option<Point>)

  /** A step (row change, column change). */
  type Direction = (int, int)

  /** The fox looks in all eight directions: orthogonal ones first, then the diagonals. */
  const FoxDirections: seq<Direction> :=
    [(-1, 0), (1, 0), (0, -1), (0, 1), (-1, -1), (-1, 1), (1, -1), (1, 1)]

  /** A goose moves up, left, right or diagonally up; never down. */
  const GooseDirections: seq<Direction> := [(-1, 0), (0, -1), (0, 1), (-1, -1), (-1, 1)]

  function At(b: seq<Square>, p: Point): Square
    requires |b| == CellCount && InGrid(p)
  {
    b[Idx(p)]
  }

  function Neighbour(p: Point, d: Direction): Point {
    Point(p.row + d.0, p.col + d.1)
  }

  /** p is a playable, empty cell of the grid. */
  predicate OpenCell(b: seq<Square>, p: Point)
    requires |b| == CellCount
  {
    InGrid(p) && IsValidPoint(p.row, p.col) && At(b, p) == Empty
  }

  /** Off-board squares are exactly the cells outside the cross. */
  ghost predicate WellFormed(b: seq<Square>) {
    |b| == CellCount && forall p {:trigger At(b, p)} :: InGrid(p) ==> (At(b, p) == OffBoard <==> !IsValidPoint(p.row, p.col))
  }

  predicate NoDuplicates(s: seq<Point>) {
    forall i, j :: 0 <= i < j < |s| ==> s[i] != s[j]
  }

  /** The fox stands on `fox` and on no other cell. */
  ghost predicate FoxPlaced(b: seq<Square>, fox: Point)
    requires |b| == CellCount
  {
    InGrid(fox) && forall p {:trigger At(b, p)} :: InGrid(p) ==> (At(b, p) == Fox <==> p == fox)
  }

  /** The goose list names every goose on the board, once, and nothing else. */
  ghost predicate GeeseListed(b: seq<Square>, geese: seq<Point>)
    requires |b| == CellCount
  {
    && (forall p :: p in geese ==> InGrid(p))
    && (forall p {:trigger At(b, p)} :: InGrid(p) ==> (At(b, p) == Goose <==> p in geese))
    && NoDuplicates(geese)
  }

  function GooseCount(b: seq<Square>): nat {
    multiset(b)[Goose]
  }

  // ---------------------------------------------------------------------------
  // Move generation, one direction at a time

  /** The fox's move toward d: a step to an empty cell, or a jump over a goose to the empty cell behind it. */
  function FoxMoveToward(b: seq<Square>, p: Point, d: Direction): Option<Move>
    requires |b| == CellCount
  {
    var n := Neighbour(p, d);
    var diagonal := d.0 != 0 && d.1 != 0;
    if diagonal && !HasDiagonalConnection(p.row, p.col, d.0, d.1) then None
    else if !(InGrid(n) && IsValidPoint(n.row, n.col)) then None
    else if At(b, n) == Empty then Some(Move(n, None))
    else if At(b, n) != Goose then None
    else
      var j := Neighbour(n, d);
      if !OpenCell(b, j) then None
      else if diagonal && !(HasDiagonalConnection(p.row, p.col, d.0, d.1) && HasDiagonalConnection(n.row, n.col, d.0, d.1)) then None
      else Some(Move(j, Some(n)))
  }

  /** A goose's move toward d: a step to an empty cell. */
  function GooseMoveToward(b: seq<Square>, p: Point, d: Direction): Option<Move>
    requires |b| == CellCount
  {
    var n := Neighbour(p, d);
    if d.0 != 0 && d.1 != 0 && !HasDiagonalConnection(p.row, p.col, d.0, d.1) then None
    else if InGrid(n) && IsValidPoint(n.row, n.col) && At(b, n) == Empty then Some(Move(n, None))
    else None
  }

  function MoveToward(b: seq<Square>, p: Point, piece: Square, d: Direction): Option<Move>
    requires |b| == CellCount
  {
    if piece == Fox then FoxMoveToward(b, p, d) else GooseMoveToward(b, p, d)
  }

  /** The move a scan found, as a list of zero or one moves. */
  function Listed(found: Option<Move>): seq<Move> {
    if found.Some? then [found.value] else []
  }

  /** The moves found by scanning the directions `dirs` in order, as the move list is built. */
  function MovesAlong(b: seq<Square>, p: Point, piece: Square, dirs: seq<Direction>): (r: seq<Move>)
    requires |b| == CellCount
    decreases |dirs|
  {
    if dirs == [] then []
    else MovesAlong(b, p, piece, dirs[..|dirs| - 1]) + Listed(MoveToward(b, p, piece, dirs[|dirs| - 1]))
  }

  /** The move list of the piece on p; empty when p holds no piece. */
  function LegalMoves(b: seq<Square>, p: Point): (r: seq<Move>)
    requires |b| == CellCount && InGrid(p)
  {
    match At(b, p)
    case Fox => MovesAlong(b, p, Fox, FoxDirections)
    case Goose => MovesAlong(b, p, Goose, GooseDirections)
    case _ => []
  }

  // ---------------------------------------------------------------------------
  // The moves, described cell by cell

  /** to is one of the eight cells around from. */
  predicate IsUnitStep(from: Point, to: Point) {
    -1 <= to.row - from.row <= 1 && -1 <= to.col - from.col <= 1 && to != from
  }

  /** A diagonal step must follow a drawn line; an orthogonal one always may. */
  predicate AlongLine(from: Point, to: Point) {
    (to.row != from.row && to.col != from.col) ==> Connected(from, to)
  }

  predicate IsFoxStep(b: seq<Square>, from: Point, m: Move)
    requires |b| == CellCount
  {
    m.captured.None? && IsUnitStep(from, m.dest) && AlongLine(from, m.dest) && OpenCell(b, m.dest)
  }

  /** A jump over the goose g, with both legs along lines, onto the empty cell beyond it. */
  predicate IsFoxJump(b: seq<Square>, from: Point, m: Move)
    requires |b| == CellCount
  {
    && m.captured.Some?
    && var g := m.captured.value;
    && IsUnitStep(from, g)
    && m.dest == Point(2 * g.row - from.row, 2 * g.col - from.col)
    && InGrid(g) && IsValidPoint(g.row, g.col) && At(b, g) == Goose
    && OpenCell(b, m.dest)
    && AlongLine(from, g) && AlongLine(g, m.dest)
  }

  /** A goose step: one cell, never downwards, along a line, to an empty cell; geese never capture. */
  predicate IsGooseStep(b: seq<Square>, from: Point, m: Move)
    requires |b| == CellCount
  {
    && m.captured.None?
    && IsUnitStep(from, m.dest) && m.dest.row <= from.row
    && AlongLine(from, m.dest) && OpenCell(b, m.dest)
  }

  /** The direction a move leaves its origin in. */
  function DirectionOf(from: Point, m: Move): Direction {
    var via := if m.captured.Some? then m.captured.value else m.dest;
    (via.row - from.row, via.col - from.col)
  }

  // ---------------------------------------------------------------------------
  // Lemmas about move generation

  /** One of the eight steps to a neighbouring cell. */
  predicate IsUnitDirection(d: Direction) {
    -1 <= d.0 <= 1 && -1 <= d.1 <= 1 && d != (0, 0)
  }

  /** The fox scans each of the eight unit directions once; the goose scans once each of those that do not go down. */
  lemma DirectionLists()
    ensures forall d :: d in FoxDirections <==> IsUnitDirection(d)
    ensures forall d :: d in GooseDirections <==> IsUnitDirection(d) && d.0 <= 0
    ensures forall i, j :: 0 <= i < j < |FoxDirections| ==> FoxDirections[i] != FoxDirections[j]
    ensures forall i, j :: 0 <= i < j < |GooseDirections| ==> GooseDirections[i] != GooseDirections[j]
  {
    forall d | IsUnitDirection(d) ensures d in FoxDirections {
      if d.0 == -1 { assert d == FoxDirections[0] || d == FoxDirections[4] || d == FoxDirections[5]; }
      else if d.0 == 0 { assert d == FoxDirections[2] || d == FoxDirections[3]; }
      else { assert d == FoxDirections[1] || d == FoxDirections[6] || d == FoxDirections[7]; }
    }
    forall d | IsUnitDirection(d) && d.0 <= 0 ensures d in GooseDirections {
      if d.0 == -1 { assert d == GooseDirections[0] || d == GooseDirections[3] || d == GooseDirections[4]; }
      else { assert d == GooseDirections[1] || d == GooseDirections[2]; }
    }
  }

  /** A move is in the scanned list exactly when one of the scanned directions yields it. */
  lemma {:induction false} MovesAlongMembership(b: seq<Square>, p: Point, piece: Square, dirs: seq<Direction>, m: Move)
    requires |b| == CellCount
    ensures m in MovesAlong(b, p, piece, dirs) <==> exists d :: d in dirs && MoveToward(b, p, piece, d) == Some(m)
    decreases |dirs|
  {
    if dirs != [] {
      var init, last := dirs[..|dirs| - 1], dirs[|dirs| - 1];
      MovesAlongMembership(b, p, piece, init, m);
      assert dirs == init + [last];
      if m in MovesAlong(b, p, piece, dirs) && m !in MovesAlong(b, p, piece, init) {
        assert MoveToward(b, p, piece, last) == Some(m);
      }
      if exists d :: d in dirs && MoveToward(b, p, piece, d) == Some(m) {
        var d :| d in dirs && MoveToward(b, p, piece, d) == Some(m);
        if d != last {
          assert d in init;
        }
      }
    }
  }

  /** Scanning one more direction appends what that direction yields. */
  lemma MovesAlongExtend(b: seq<Square>, p: Point, piece: Square, dirs: seq<Direction>, i: int)
    requires |b| == CellCount && 0 <= i < |dirs|
    ensures MovesAlong(b, p, piece, dirs[..i + 1]) == MovesAlong(b, p, piece, dirs[..i]) + Listed(MoveToward(b, p, piece, dirs[i]))
  {
    assert dirs[..i + 1][..i] == dirs[..i];
  }

  /** When no scanned direction yields a move, the list is empty. */
  lemma {:induction false} MovesAlongNone(b: seq<Square>, p: Point, piece: Square, dirs: seq<Direction>)
    requires |b| == CellCount
    requires forall d :: d in dirs ==> MoveToward(b, p, piece, d) == None
    ensures MovesAlong(b, p, piece, dirs) == []
    decreases |dirs|
  {
    if dirs != [] {
      MovesAlongNone(b, p, piece, dirs[..|dirs| - 1]);
      assert dirs[|dirs| - 1] in dirs;
    }
  }

  /** The fox's scan toward d, case by case: a diagonal without a drawn line finds nothing. */
  lemma FoxTowardNoLine(b: seq<Square>, p: Point, d: Direction)
    requires |b| == CellCount && d.0 != 0 && d.1 != 0 && !HasDiagonalConnection(p.row, p.col, d.0, d.1)
    ensures FoxMoveToward(b, p, d) == None
  {
  }

  /** Past the line check, a neighbour off the cross or holding the fox finds nothing. */
  lemma FoxTowardNoNeighbour(b: seq<Square>, p: Point, d: Direction, n: Point)
    requires |b| == CellCount && n == Neighbour(p, d)
    requires !(d.0 != 0 && d.1 != 0 && !HasDiagonalConnection(p.row, p.col, d.0, d.1))
    requires !(InGrid(n) && IsValidPoint(n.row, n.col)) || (At(b, n) != Empty && At(b, n) != Goose)
    ensures FoxMoveToward(b, p, d) == None
  {
  }

  /** Past the line check, an empty neighbour is a step. */
  lemma FoxTowardEmpty(b: seq<Square>, p: Point, d: Direction, n: Point)
    requires |b| == CellCount && n == Neighbour(p, d)
    requires !(d.0 != 0 && d.1 != 0 && !HasDiagonalConnection(p.row, p.col, d.0, d.1))
    requires InGrid(n) && IsValidPoint(n.row, n.col) && At(b, n) == Empty
    ensures FoxMoveToward(b, p, d) == Some(Move(n, None))
  {
  }

  /** Past the line check, a goose on the neighbour is jumped when the cell behind is open and both legs follow lines. */
  lemma FoxTowardGoose(b: seq<Square>, p: Point, d: Direction, n: Point, j: Point)
    requires |b| == CellCount && n == Neighbour(p, d) && j == Neighbour(n, d)
    requires !(d.0 != 0 && d.1 != 0 && !HasDiagonalConnection(p.row, p.col, d.0, d.1))
    requires InGrid(n) && IsValidPoint(n.row, n.col) && At(b, n) == Goose
    ensures FoxMoveToward(b, p, d) ==
      if !OpenCell(b, j) then None
      else if d.0 != 0 && d.1 != 0 && !(HasDiagonalConnection(p.row, p.col, d.0, d.1) && HasDiagonalConnection(n.row, n.col, d.0, d.1)) then None
      else Some(Move(j, Some(n)))
  {
  }

  /** The table lookup from p toward d asks whether p and its neighbour toward d are connected. */
  lemma DiagonalLookup(p: Point, d: Direction)
    ensures HasDiagonalConnection(p.row, p.col, d.0, d.1) == Connected(p, Neighbour(p, d))
  {
    assert Point(p.row, p.col) == p;
  }

  /** A move onto n, the neighbour toward d, is a unit step leaving in direction d. */
  lemma StepToward(p: Point, d: Direction, n: Point)
    requires IsUnitDirection(d) && n == Neighbour(p, d)
    ensures IsUnitStep(p, n) && DirectionOf(p, Move(n, None)) == d
  {
    assert d == (d.0, d.1);
  }

  /** The shape of a step found toward d: the neighbour is open and reached along a line. */
  lemma FoxStepShape(b: seq<Square>, p: Point, d: Direction)
    requires |b| == CellCount
    requires FoxMoveToward(b, p, d).Some? && FoxMoveToward(b, p, d).value.captured.None?
    ensures FoxMoveToward(b, p, d) == Some(Move(Neighbour(p, d), None))
    ensures OpenCell(b, Neighbour(p, d)) && AlongLine(p, Neighbour(p, d))
  {
    DiagonalLookup(p, d);
  }

  /** A fox move toward d without a capture is a step to the neighbour in direction d. */
  lemma FoxMoveTowardStep(b: seq<Square>, p: Point, d: Direction)
    requires |b| == CellCount && IsUnitDirection(d)
    requires FoxMoveToward(b, p, d).Some? && FoxMoveToward(b, p, d).value.captured.None?
    ensures IsFoxStep(b, p, FoxMoveToward(b, p, d).value) && DirectionOf(p, FoxMoveToward(b, p, d).value) == d
  {
    FoxStepShape(b, p, d);
    StepToward(p, d, Neighbour(p, d));
  }

  /** The shape of a capture found toward d: the neighbour holds a goose and the cell behind it is open. */
  lemma FoxJumpShape(b: seq<Square>, p: Point, d: Direction)
    requires |b| == CellCount
    requires FoxMoveToward(b, p, d).Some? && FoxMoveToward(b, p, d).value.captured.Some?
    ensures var n := Neighbour(p, d);
      && FoxMoveToward(b, p, d) == Some(Move(Neighbour(n, d), Some(n)))
      && InGrid(n) && IsValidPoint(n.row, n.col) && At(b, n) == Goose && OpenCell(b, Neighbour(n, d))
  {
  }

  /** Both legs of a capture found toward d follow drawn lines when d is diagonal. */
  lemma FoxJumpLegs(b: seq<Square>, p: Point, d: Direction)
    requires |b| == CellCount
    requires FoxMoveToward(b, p, d).Some? && FoxMoveToward(b, p, d).value.captured.Some?
    ensures var n := Neighbour(p, d);
      AlongLine(p, n) && AlongLine(n, Neighbour(n, d))
  {
    DiagonalLookup(p, d);
    DiagonalLookup(Neighbour(p, d), d);
  }

  /** A jump over the goose on n, the neighbour toward d, along lines onto j, is a fox jump. */
  lemma JumpTowardIsFoxJump(b: seq<Square>, p: Point, d: Direction, n: Point, j: Point)
    requires |b| == CellCount && IsUnitDirection(d)
    requires n == Neighbour(p, d) && j == Neighbour(n, d)
    requires InGrid(n) && IsValidPoint(n.row, n.col) && At(b, n) == Goose && OpenCell(b, j)
    requires AlongLine(p, n) && AlongLine(n, j)
    ensures IsFoxJump(b, p, Move(j, Some(n)))
  {
  }

  /** A jump over the neighbour toward d leaves in direction d. */
  lemma JumpDirection(p: Point, d: Direction, n: Point, j: Point)
    requires n == Neighbour(p, d) && j == Neighbour(n, d)
    ensures DirectionOf(p, Move(j, Some(n))) == d
  {
  }

  /** A fox move toward d with a capture jumps the neighbour in direction d. */
  lemma FoxMoveTowardJump(b: seq<Square>, p: Point, d: Direction)
    requires |b| == CellCount && IsUnitDirection(d)
    requires FoxMoveToward(b, p, d).Some? && FoxMoveToward(b, p, d).value.captured.Some?
    ensures var m := FoxMoveToward(b, p, d).value;
      IsFoxJump(b, p, m) && DirectionOf(p, m) == d
  {
    FoxJumpShape(b, p, d);
    FoxJumpLegs(b, p, d);
    JumpTowardIsFoxJump(b, p, d, Neighbour(p, d), Neighbour(Neighbour(p, d), d));
    JumpDirection(p, d, Neighbour(p, d), Neighbour(Neighbour(p, d), d));
  }

  /** Each unit direction yields, if anything, a fox step or jump that leaves in that direction. */
  lemma FoxMoveTowardSound(b: seq<Square>, p: Point, d: Direction)
    requires |b| == CellCount && IsUnitDirection(d)
    ensures FoxMoveToward(b, p, d).Some? ==>
      var m := FoxMoveToward(b, p, d).value;
      (IsFoxStep(b, p, m) || IsFoxJump(b, p, m)) && DirectionOf(p, m) == d
  {
    var r := FoxMoveToward(b, p, d);
    if r.Some? {
      if r.value.captured.None? {
        FoxMoveTowardStep(b, p, d);
      } else {
        FoxMoveTowardJump(b, p, d);
      }
    }
  }

  /** The direction of a unit step is a unit direction, and the step lands on the neighbour toward it. */
  lemma StepDirection(p: Point, m: Move)
    requires m.captured.None? && IsUnitStep(p, m.dest)
    ensures IsUnitDirection(DirectionOf(p, m)) && Neighbour(p, DirectionOf(p, m)) == m.dest
    ensures m == Move(m.dest, None)
  {
  }

  /** An open neighbour toward d, reached along a line, is what the fox's scan toward d finds. */
  lemma FoxStepToward(b: seq<Square>, p: Point, d: Direction, n: Point)
    requires |b| == CellCount && n == Neighbour(p, d)
    requires OpenCell(b, n) && AlongLine(p, n)
    ensures FoxMoveToward(b, p, d) == Some(Move(n, None))
  {
    DiagonalLookup(p, d);
  }

  /** Each fox step is found by the scan toward its own direction. */
  lemma FoxStepFound(b: seq<Square>, p: Point, m: Move)
    requires |b| == CellCount && IsFoxStep(b, p, m)
    ensures IsUnitDirection(DirectionOf(p, m)) && FoxMoveToward(b, p, DirectionOf(p, m)) == Some(m)
  {
    StepDirection(p, m);
    FoxStepToward(b, p, DirectionOf(p, m), m.dest);
  }

  /** Each fox jump is found by the scan toward its own direction. */
  lemma FoxJumpFound(b: seq<Square>, p: Point, m: Move)
    requires |b| == CellCount && IsFoxJump(b, p, m)
    ensures IsUnitDirection(DirectionOf(p, m)) && FoxMoveToward(b, p, DirectionOf(p, m)) == Some(m)
  {
    var d, g := DirectionOf(p, m), m.captured.value;
    assert Neighbour(p, d) == g && Neighbour(g, d) == m.dest;
    DiagonalLookup(p, d);
    DiagonalLookup(g, d);
    assert m == Move(m.dest, Some(g));
  }

  /**
   * The fox's move list holds exactly its steps to an empty neighbour and its
   * jumps over a neighbouring goose, diagonals only along drawn lines (both
   * legs, for a jump).
   */
  lemma FoxMovesCharacterized(b: seq<Square>, p: Point, m: Move)
    requires |b| == CellCount
    ensures m in MovesAlong(b, p, Fox, FoxDirections) <==> IsFoxStep(b, p, m) || IsFoxJump(b, p, m)
  {
    DirectionLists();
    MovesAlongMembership(b, p, Fox, FoxDirections, m);
    if m in MovesAlong(b, p, Fox, FoxDirections) {
      var d :| d in FoxDirections && MoveToward(b, p, Fox, d) == Some(m);
      FoxMoveTowardSound(b, p, d);
    }
    if IsFoxStep(b, p, m) {
      FoxStepFound(b, p, m);
      assert MoveToward(b, p, Fox, DirectionOf(p, m)) == Some(m);
    } else if IsFoxJump(b, p, m) {
      FoxJumpFound(b, p, m);
      assert MoveToward(b, p, Fox, DirectionOf(p, m)) == Some(m);
    }
  }

  /** The shape of a goose step found toward d: the neighbour is open and reached along a line. */
  lemma GooseStepShape(b: seq<Square>, p: Point, d: Direction)
    requires |b| == CellCount && GooseMoveToward(b, p, d).Some?
    ensures GooseMoveToward(b, p, d) == Some(Move(Neighbour(p, d), None))
    ensures OpenCell(b, Neighbour(p, d)) && AlongLine(p, Neighbour(p, d))
  {
    DiagonalLookup(p, d);
  }

  /** Each upward-or-sideways unit direction yields, if anything, a goose step in that direction. */
  lemma GooseMoveTowardSound(b: seq<Square>, p: Point, d: Direction)
    requires |b| == CellCount && IsUnitDirection(d) && d.0 <= 0
    ensures GooseMoveToward(b, p, d).Some? ==>
      IsGooseStep(b, p, GooseMoveToward(b, p, d).value) && DirectionOf(p, GooseMoveToward(b, p, d).value) == d
  {
    if GooseMoveToward(b, p, d).Some? {
      GooseStepShape(b, p, d);
      StepToward(p, d, Neighbour(p, d));
    }
  }

  /** An open neighbour toward d, reached along a line, is what a goose's scan toward d finds. */
  lemma GooseStepToward(b: seq<Square>, p: Point, d: Direction, n: Point)
    requires |b| == CellCount && n == Neighbour(p, d)
    requires OpenCell(b, n) && AlongLine(p, n)
    ensures GooseMoveToward(b, p, d) == Some(Move(n, None))
  {
    DiagonalLookup(p, d);
  }

  /** Each goose step is found by the scan toward its own direction. */
  lemma GooseStepFound(b: seq<Square>, p: Point, m: Move)
    requires |b| == CellCount && IsGooseStep(b, p, m)
    ensures IsUnitDirection(DirectionOf(p, m)) && DirectionOf(p, m).0 <= 0
    ensures GooseMoveToward(b, p, DirectionOf(p, m)) == Some(m)
  {
    StepDirection(p, m);
    GooseStepToward(b, p, DirectionOf(p, m), m.dest);
  }

  /**
   * A goose's move list holds exactly its one-cell steps up, sideways or
   * diagonally up (along a line) to an empty cell.
   */
  lemma GooseMovesCharacterized(b: seq<Square>, p: Point, m: Move)
    requires |b| == CellCount
    ensures m in MovesAlong(b, p, Goose, GooseDirections) <==> IsGooseStep(b, p, m)
  {
    DirectionLists();
    MovesAlongMembership(b, p, Goose, GooseDirections, m);
    if m in MovesAlong(b, p, Goose, GooseDirections) {
      var d :| d in GooseDirections && MoveToward(b, p, Goose, d) == Some(m);
      GooseMoveTowardSound(b, p, d);
    }
    if IsGooseStep(b, p, m) {
      GooseStepFound(b, p, m);
      assert MoveToward(b, p, Goose, DirectionOf(p, m)) == Some(m);
    }
  }

  /** What every listed move guarantees: it lands on an empty playable cell, and only the fox captures. */
  lemma LegalMoveFacts(b: seq<Square>, p: Point, m: Move)
    requires |b| == CellCount && InGrid(p) && m in LegalMoves(b, p)
    ensures At(b, p) == Fox || At(b, p) == Goose
    ensures OpenCell(b, m.dest) && m.dest != p
    ensures At(b, p) == Fox ==> IsFoxStep(b, p, m) || IsFoxJump(b, p, m)
    ensures At(b, p) == Goose ==> IsGooseStep(b, p, m)
    ensures m.captured.Some? ==>
      var g := m.captured.value;
      At(b, p) == Fox && InGrid(g) && At(b, g) == Goose && g != p && g != m.dest
  {
    if At(b, p) == Fox {
      FoxMovesCharacterized(b, p, m);
    } else {
      GooseMovesCharacterized(b, p, m);
    }
  }

  /** Whatever the scan toward d finds leaves in direction d: a step to the neighbour, or a fox's jump over it. */
  lemma MoveTowardShape(b: seq<Square>, p: Point, piece: Square, d: Direction)
    requires |b| == CellCount && MoveToward(b, p, piece, d).Some?
    ensures var m := MoveToward(b, p, piece, d).value;
      && DirectionOf(p, m) == d
      && (m == Move(Neighbour(p, d), None) || (piece == Fox && m == Move(Neighbour(Neighbour(p, d), d), Some(Neighbour(p, d)))))
  {
    assert d == (d.0, d.1);
    if piece == Fox && FoxMoveToward(b, p, d).value.captured.Some? {
      FoxJumpShape(b, p, d);
    }
  }

  /** A listed move leaves in one of the scanned directions and lands one or two cells along it. */
  lemma MovesAlongDirections(b: seq<Square>, p: Point, piece: Square, dirs: seq<Direction>, m: Move)
    requires |b| == CellCount
    requires m in MovesAlong(b, p, piece, dirs)
    ensures DirectionOf(p, m) in dirs
    ensures var d := DirectionOf(p, m);
      m.dest == Neighbour(p, d) || m.dest == Neighbour(Neighbour(p, d), d)
  {
    MovesAlongMembership(b, p, piece, dirs, m);
    var d :| d in dirs && MoveToward(b, p, piece, d) == Some(m);
    MoveTowardShape(b, p, piece, d);
  }

  /** No two entries of a move list land on the same cell. */
  predicate DistinctDestinations(moves: seq<Move>) {
    forall i, j :: 0 <= i < j < |moves| ==> moves[i].dest != moves[j].dest
  }

  /** One or two cells along two different unit directions never give the same cell. */
  lemma DistinctDirectionsDistinctCells(p: Point, d: Direction, e: Direction, x: Point, y: Point)
    requires IsUnitDirection(d) && IsUnitDirection(e) && d != e
    requires x == Neighbour(p, d) || x == Neighbour(Neighbour(p, d), d)
    requires y == Neighbour(p, e) || y == Neighbour(Neighbour(p, e), e)
    ensures x != y
  {
    assert d == (d.0, d.1) && e == (e.0, e.1);
  }

  /**
   * No two entries of a move list share a destination, so looking a move up
   * by where it lands finds a single entry.
   */
  lemma {:induction false} MovesAlongDistinctDestinations(b: seq<Square>, p: Point, piece: Square, dirs: seq<Direction>)
    requires |b| == CellCount
    requires forall d :: d in dirs ==> IsUnitDirection(d)
    requires forall i, j :: 0 <= i < j < |dirs| ==> dirs[i] != dirs[j]
    ensures DistinctDestinations(MovesAlong(b, p, piece, dirs))
    decreases |dirs|
  {
    if dirs != [] {
      var init, last := dirs[..|dirs| - 1], dirs[|dirs| - 1];
      MovesAlongDistinctDestinations(b, p, piece, init);
      var prefix := MovesAlong(b, p, piece, init);
      var found := MoveToward(b, p, piece, last);
      if found.Some? {
        var m := found.value;
        MoveTowardShape(b, p, piece, last);
        forall k | 0 <= k < |prefix|
          ensures prefix[k].dest != m.dest
        {
          MovesAlongDirections(b, p, piece, init, prefix[k]);
          var d := DirectionOf(p, prefix[k]);
          var i :| 0 <= i < |init| && init[i] == d;
          assert dirs[i] == d;
          DistinctDirectionsDistinctCells(p, d, last, prefix[k].dest, m.dest);
        }
        assert MovesAlong(b, p, piece, dirs) == prefix + [m];
      } else {
        assert MovesAlong(b, p, piece, dirs) == prefix;
      }
    }
  }

  /** The move list of any piece has distinct destinations. */
  lemma LegalDestinationsDistinct(b: seq<Square>, p: Point)
    requires |b| == CellCount && InGrid(p)
    ensures DistinctDestinations(LegalMoves(b, p))
  {
    DirectionLists();
    if At(b, p) == Fox {
      MovesAlongDistinctDestinations(b, p, Fox, FoxDirections);
    } else if At(b, p) == Goose {
      MovesAlongDistinctDestinations(b, p, Goose, GooseDirections);
    }
  }

  // ---------------------------------------------------------------------------
  // Applying a move

  /**
   * The board after the piece on `from` makes move m: its origin empties, it
   * lands on m.dest, and a fox's jumped goose is taken off.
   */
  function Apply(b: seq<Square>, from: Point, m: Move): (r: seq<Square>)
    requires |b| == CellCount && InGrid(from) && InGrid(m.dest)
    requires m.captured.Some? ==> InGrid(m.captured.value)
    ensures |r| == CellCount
  {
    var piece := At(b, from);
    var moved := b[Idx(from) := Empty][Idx(m.dest) := piece];
    if piece == Fox && m.captured.Some? then moved[Idx(m.captured.value) := Empty] else moved
  }

  /** Cell by cell, a move with three distinct cells touches only those three. */
  lemma ApplyCells(b: seq<Square>, from: Point, m: Move, p: Point)
    requires |b| == CellCount && InGrid(from) && InGrid(m.dest) && InGrid(p) && m.dest != from
    requires m.captured.Some? ==> InGrid(m.captured.value) && m.captured.value != from && m.captured.value != m.dest
    requires m.captured.Some? ==> At(b, from) == Fox
    ensures At(Apply(b, from, m), p) ==
      if p == m.dest then At(b, from)
      else if p == from || m.captured == Some(p) then Empty
      else At(b, p)
  {
    if p != from && Idx(p) == Idx(from) { IdxInjective(p, from); }
    if p != m.dest && Idx(p) == Idx(m.dest) { IdxInjective(p, m.dest); }
    if m.captured.Some? && p != m.captured.value && Idx(p) == Idx(m.captured.value) {
      IdxInjective(p, m.captured.value);
    }
    if m.dest != from && Idx(m.dest) == Idx(from) { IdxInjective(m.dest, from); }
  }

  /** A move empties a piece's cell and fills an empty one; a capture also empties one goose's cell. */
  lemma ApplyCounts(b: seq<Square>, from: Point, m: Move)
    requires |b| == CellCount && InGrid(from) && InGrid(m.dest) && m.dest != from
    requires At(b, from) == Fox || At(b, from) == Goose
    requires At(b, m.dest) == Empty
    requires m.captured.Some? ==>
      var g := m.captured.value;
      InGrid(g) && g != from && g != m.dest && At(b, from) == Fox && At(b, g) == Goose
    ensures GooseCount(Apply(b, from, m)) == GooseCount(b) - (if m.captured.Some? then 1 else 0)
    ensures multiset(Apply(b, from, m))[Fox] == multiset(b)[Fox]
  {
    var piece := At(b, from);
    var b1 := b[Idx(from) := Empty];
    var b2 := b1[Idx(m.dest) := piece];
    if Idx(m.dest) == Idx(from) { IdxInjective(m.dest, from); }
    assert b1[Idx(m.dest)] == Empty;
    if m.captured.Some? {
      var g := m.captured.value;
      if Idx(g) == Idx(from) { IdxInjective(g, from); }
      if Idx(g) == Idx(m.dest) { IdxInjective(g, m.dest); }
      assert b2[Idx(g)] == Goose;
    }
  }

  /**
   * A listed move keeps the board well formed (off-board cells are never
   * written), moves the piece to its destination, leaves every other cell
   * alone except the captured one, and changes the number of geese only by
   * the one goose it captures.
   */
  lemma ApplyLegalMove(b: seq<Square>, from: Point, m: Move)
    requires WellFormed(b) && InGrid(from) && m in LegalMoves(b, from)
    ensures InGrid(m.dest) && (m.captured.Some? ==> InGrid(m.captured.value))
    ensures var r := Apply(b, from, m);
      && WellFormed(r)
      && (forall p :: InGrid(p) ==>
            At(r, p) == (if p == m.dest then At(b, from)
                         else if p == from || m.captured == Some(p) then Empty
                         else At(b, p)))
      && GooseCount(r) == GooseCount(b) - (if m.captured.Some? then 1 else 0)
      && multiset(r)[Fox] == multiset(b)[Fox]
  {
    LegalMoveFacts(b, from, m);
    ApplyCounts(b, from, m);
    forall p | InGrid(p)
      ensures At(Apply(b, from, m), p) ==
        (if p == m.dest then At(b, from) else if p == from || m.captured == Some(p) then Empty else At(b, p))
    {
      ApplyCells(b, from, m, p);
    }
  }

  // ---------------------------------------------------------------------------
  // The trap scan

  /**
   * The trap scan's test for one direction: the neighbour is a playable
   * cell that is empty, or holds a goose with an empty playable cell behind
   * it. Drawn lines are not consulted.
   */
  predicate EscapeToward(b: seq<Square>, p: Point, d: Direction)
    requires |b| == CellCount
  {
    var n := Neighbour(p, d);
    && InGrid(n) && IsValidPoint(n.row, n.col)
    && (At(b, n) == Empty || (At(b, n) == Goose && OpenCell(b, Neighbour(n, d))))
  }

  /** The fox on p is trapped when no direction offers an escape. */
  predicate FoxTrapped(b: seq<Square>, p: Point)
    requires |b| == CellCount
  {
    forall d :: d in FoxDirections ==> !EscapeToward(b, p, d)
  }

  /** Whatever the fox's scan toward d finds is also an escape for the trap scan. */
  lemma FoxMoveIsEscape(b: seq<Square>, p: Point, d: Direction)
    requires |b| == CellCount
    ensures FoxMoveToward(b, p, d).Some? ==> EscapeToward(b, p, d)
  {
  }

  /** A trapped fox has no move: the trap scan sees at least every escape that move generation offers. */
  lemma TrappedFoxHasNoMoves(b: seq<Square>, p: Point)
    requires |b| == CellCount && InGrid(p) && At(b, p) == Fox && FoxTrapped(b, p)
    ensures LegalMoves(b, p) == []
  {
    forall d | d in FoxDirections
      ensures MoveToward(b, p, Fox, d) == None
    {
      FoxMoveIsEscape(b, p, d);
    }
    MovesAlongNone(b, p, Fox, FoxDirections);
  }

  /** The square of each cell in a position where the fox on (2, 3) is boxed in orthogonally. */
  function StalledSquare(p: Point): Square {
    if !IsValidPoint(p.row, p.col) then OffBoard
    else if p == Point(2, 3) then Fox
    else if p.row == 2 && p.col != 0 && p.col != 6 then Goose
    else if p.col == 3 && p.row != 5 && p.row != 6 then Goose
    else Empty
  }

  /** The board of that position. */
  function StalledBoard(): (b: seq<Square>)
    ensures |b| == CellCount
    ensures forall q :: InGrid(q) ==> At(b, q) == StalledSquare(q)
  {
    var b := seq(49, i requires 0 <= i < 49 => StalledSquare(Point(i / 7, i % 7)));
    assert forall q :: InGrid(q) ==> At(b, q) == StalledSquare(q) by {
      forall q | InGrid(q) ensures At(b, q) == StalledSquare(q) {
        IdxInverse(q);
      }
    }
    b
  }

  /**
   * The converse fails: on this board the fox on (2, 3), which lies on no
   * diagonal line, has no move, yet its empty diagonal neighbours keep the
   * trap scan from reporting it trapped.
   */
  lemma TrapScanWeakerThanMoves()
    ensures WellFormed(StalledBoard())
    ensures At(StalledBoard(), Point(2, 3)) == Fox
    ensures LegalMoves(StalledBoard(), Point(2, 3)) == []
    ensures !FoxTrapped(StalledBoard(), Point(2, 3))
  {
    var b, p := StalledBoard(), Point(2, 3);
    assert EscapeToward(b, p, FoxDirections[4]);
    forall d | d in FoxDirections
      ensures MoveToward(b, p, Fox, d) == None
    {
      StalledFoxStuck(d);
    }
    MovesAlongNone(b, p, Fox, FoxDirections);
  }

  /** On the stalled board, no direction gives the fox on (2, 3) a move. */
  lemma StalledFoxStuck(d: Direction)
    requires d in FoxDirections
    ensures FoxMoveToward(StalledBoard(), Point(2, 3), d) == None
  {
    if d.0 != 0 && d.1 != 0 {
      StalledNoDiagonal(d);
    } else {
      StalledBlocked(d);
    }
  }

  /** No drawn line passes through (2, 3). */
  lemma StalledNoDiagonal(d: Direction)
    requires d in FoxDirections && d.0 != 0 && d.1 != 0
    ensures !HasDiagonalConnection(2, 3, d.0, d.1)
  {
  }

  /** Each orthogonal neighbour of (2, 3) holds a goose with another goose behind it. */
  lemma StalledBlocked(d: Direction)
    requires d in FoxDirections && (d.0 == 0 || d.1 == 0)
    ensures InGrid(Neighbour(Point(2, 3), d)) && At(StalledBoard(), Neighbour(Point(2, 3), d)) == Goose
    ensures !OpenCell(StalledBoard(), Neighbour(Neighbour(Point(2, 3), d), d))
  {
    var n := Neighbour(Point(2, 3), d);
    var j := Neighbour(n, d);
    assert d == (d.0, d.1);
    assert StalledSquare(n) == Goose && StalledSquare(j) != Empty;
  }
}
