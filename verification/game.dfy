/**
 * The game object: the board as a mutable array of 49 squares, the fox's
 * position, the list of geese, whose turn it is, the selected piece with its
 * move list, and the end-of-game flags. Clicks select a piece of the side to
 * move and then move it to one of its listed destinations.
 */
module Game {
  import opened Options
  import opened Topology
  import opened Rules

  /** The side that has won a finished game. */
  datatype Side = FoxSide | GeeseSide

  /** The piece that the side to move plays with. */
  function MoverPiece(foxTurn: bool): Square {
    if foxTurn then Fox else Goose
  }

  /** Geese needed on the board for the geese to stay in the game. */
  const MinGeese: int := 3

  /** A selected cell comes with the move list of the piece on it. */
  ghost predicate MovesListed(b: seq<Square>, sel: Option<Point>, moves: seq<Move>) {
    |b| == CellCount && forall p {:trigger LegalMoves(b, p)} :: InGrid(p) && sel == Some(p) ==> moves == LegalMoves(b, p)
  }

  /** dest is the destination of some entry of the move list. */
  predicate HasDestination(moves: seq<Move>, dest: Point) {
    exists k :: 0 <= k < |moves| && moves[k].dest == dest
  }

  /** The first entry of the move list that lands on dest. */
  function ChosenMove(moves: seq<Move>, dest: Point): (m: Move)
    requires HasDestination(moves, dest)
    ensures m.dest == dest
    ensures exists k :: 0 <= k < |moves| && moves[k] == m && forall j :: 0 <= j < k ==> moves[j].dest != dest
  {
    if moves[0].dest == dest then moves[0]
    else
      assert HasDestination(moves[1..], dest) by {
        var k :| 0 <= k < |moves| && moves[k].dest == dest;
        assert moves[1..][k - 1].dest == dest;
      }
      var m := ChosenMove(moves[1..], dest);
      ghost var k :| 0 <= k < |moves[1..]| && moves[1..][k] == m && forall j :: 0 <= j < k ==> moves[1..][j].dest != dest;
      assert moves[k + 1] == m && forall j :: 0 <= j < k + 1 ==> moves[j].dest != dest by {
        forall j | 0 <= j < k + 1 ensures moves[j].dest != dest {
          if j > 0 { assert moves[j] == moves[1..][j - 1]; }
        }
      }
      m
  }

  /** When destinations are distinct, the chosen entry is the only one landing on dest. */
  lemma ChosenMoveUnique(moves: seq<Move>, dest: Point, m: Move)
    requires DistinctDestinations(moves)
    requires m in moves && m.dest == dest
    ensures HasDestination(moves, dest) && ChosenMove(moves, dest) == m
  {
    var i :| 0 <= i < |moves| && moves[i] == m;
    var c := ChosenMove(moves, dest);
    var k :| 0 <= k < |moves| && moves[k] == c && forall j :: 0 <= j < k ==> moves[j].dest != dest;
    if k < i {
      assert moves[k].dest == moves[i].dest;
    } else if i < k {
      assert moves[i].dest == dest;
    }
  }

  /**
   * The capture recorded with the first move-list entry that lands on dest,
   * or none when no entry does.
   */
  method CaptureFor(moves: seq<Move>, dest: Point) returns (capture: Option<Point>)
    ensures capture == if HasDestination(moves, dest) then ChosenMove(moves, dest).captured else None
  {
    capture := None;
    for k := 0 to |moves|
      invariant forall j :: 0 <= j < k ==> moves[j].dest != dest
    {
      if moves[k].dest == dest {
        capture := moves[k].captured;
        ChosenMoveFirst(moves, dest, k);
        return;
      }
    }
  }

  /** The entry at k is chosen when it is the first to land on dest. */
  lemma ChosenMoveFirst(moves: seq<Move>, dest: Point, k: int)
    requires 0 <= k < |moves| && moves[k].dest == dest
    requires forall j :: 0 <= j < k ==> moves[j].dest != dest
    ensures HasDestination(moves, dest) && ChosenMove(moves, dest) == moves[k]
  {
    var c := ChosenMove(moves, dest);
    var i :| 0 <= i < |moves| && moves[i] == c && forall j :: 0 <= j < i ==> moves[j].dest != dest;
    assert !(i < k) && !(k < i);
  }

  /** The list without the first occurrence of x when x is in it; the list itself otherwise. */
  function RemoveFirst(s: seq<Point>, x: Point): (r: seq<Point>)
    ensures x !in s ==> r == s
    ensures x in s ==> |r| == |s| - 1
  {
    if s == [] then []
    else if s[0] == x then s[1..]
    else
      assert s == [s[0]] + s[1..];
      [s[0]] + RemoveFirst(s[1..], x)
  }

  /** Position of the first entry equal to x. */
  function FirstIndex(s: seq<Point>, x: Point): (k: nat)
    requires x in s
    ensures k < |s| && s[k] == x && x !in s[..k]
  {
    if s[0] == x then 0
    else
      assert s == [s[0]] + s[1..];
      var k := FirstIndex(s[1..], x);
      assert s[..k + 1] == [s[0]] + s[1..][..k];
      k + 1
  }

  /** Removal drops exactly the first entry equal to x and keeps the order of the others. */
  lemma {:induction false} RemoveFirstShape(s: seq<Point>, x: Point)
    requires x in s
    ensures RemoveFirst(s, x) == s[..FirstIndex(s, x)] + s[FirstIndex(s, x) + 1..]
  {
    if s[0] != x {
      var t := s[1..];
      assert s == [s[0]] + t;
      RemoveFirstShape(t, x);
      var k := FirstIndex(t, x);
      assert FirstIndex(s, x) == k + 1;
      assert RemoveFirst(s, x) == [s[0]] + RemoveFirst(t, x);
      assert s[..k + 1] == [s[0]] + t[..k];
      assert s[k + 2..] == t[k + 1..];
      assert [s[0]] + (t[..k] + t[k + 1..]) == ([s[0]] + t[..k]) + t[k + 1..];
    }
  }

  /** Removing x from a list without repeats removes exactly x and keeps it free of repeats. */
  lemma RemoveFirstDistinct(s: seq<Point>, x: Point)
    requires x in s && NoDuplicates(s)
    ensures NoDuplicates(RemoveFirst(s, x))
    ensures forall y :: y in RemoveFirst(s, x) <==> y in s && y != x
  {
    RemoveFirstShape(s, x);
    var k := FirstIndex(s, x);
    RemoveAtDistinct(s, k);
    RemoveAtMembers(s, k);
  }

  /** Dropping one entry of a list without repeats leaves a list without repeats. */
  lemma RemoveAtDistinct(s: seq<Point>, k: int)
    requires 0 <= k < |s| && NoDuplicates(s)
    ensures NoDuplicates(s[..k] + s[k + 1..])
  {
    var r := s[..k] + s[k + 1..];
    forall i, j | 0 <= i < j < |r| ensures r[i] != r[j] {
      var i', j' := if i < k then i else i + 1, if j < k then j else j + 1;
      assert r[i] == s[i'] && r[j] == s[j'];
    }
  }

  /** Dropping entry k of a list without repeats leaves every other entry and only those. */
  lemma RemoveAtMembers(s: seq<Point>, k: int)
    requires 0 <= k < |s| && NoDuplicates(s)
    ensures forall y :: y in s[..k] + s[k + 1..] <==> y in s && y != s[k]
  {
    var r := s[..k] + s[k + 1..];
    forall y ensures y in r <==> y in s && y != s[k] {
      if y in r {
        var i :| 0 <= i < |r| && r[i] == y;
        var i' := if i < k then i else i + 1;
        assert s[i'] == y && i' != k;
      }
      if y in s && y != s[k] {
        var i :| 0 <= i < |s| && s[i] == y;
        if i < k { assert r[i] == y; } else { assert r[i - 1] == y; }
      }
    }
  }

  // ---------------------------------------------------------------------------
  // The starting position

  /** Each cell at the start: the fox in the centre, geese filling row 4 and the arm below it. */
  function InitialSquare(p: Point): Square {
    if !IsValidPoint(p.row, p.col) then OffBoard
    else if p == Point(3, 3) then Fox
    else if p.row >= 4 then Goose
    else Empty
  }

  /** A cell of the freshly built board, before any piece is placed. */
  function BlankSquare(p: Point): Square {
    if IsValidPoint(p.row, p.col) then Empty else OffBoard
  }

  /** The goose list at the start, in placement order: row 4, then row 5, then row 6. */
  const InitialGeese: seq<Point> := [
    Point(4, 0), Point(4, 1), Point(4, 2), Point(4, 3), Point(4, 4), Point(4, 5), Point(4, 6),
    Point(5, 2), Point(5, 3), Point(5, 4),
    Point(6, 2), Point(6, 3), Point(6, 4)]

  /** The starting goose list names thirteen distinct cells: exactly the playable cells of rows 4 to 6. */
  lemma InitialGeeseFacts()
    ensures |InitialGeese| == 13 && NoDuplicates(InitialGeese)
    ensures forall p :: p in InitialGeese <==> InGrid(p) && p.row >= 4 && IsValidPoint(p.row, p.col)
  {
    InitialGeeseDistinct();
    InitialGeeseCover();
  }

  lemma InitialGeeseDistinct()
    ensures NoDuplicates(InitialGeese)
  {
  }

  lemma InitialGeeseCover()
    ensures forall p :: p in InitialGeese <==> InGrid(p) && p.row >= 4 && IsValidPoint(p.row, p.col)
  {
    forall p | InGrid(p) && p.row >= 4 && IsValidPoint(p.row, p.col)
      ensures p in InitialGeese
    {
      if p.row == 4 { assert InitialGeese[p.col] == p; }
      else if p.row == 5 { assert InitialGeese[p.col + 5] == p; }
      else { assert InitialGeese[p.col + 8] == p; }
    }
  }

  /** The cells (row, lo), ..., (row, hi - 1), left to right. */
  function RowPoints(row: int, lo: int, hi: int): (r: seq<Point>)
    requires lo <= hi
    ensures |r| == hi - lo && forall i :: 0 <= i < |r| ==> r[i] == Point(row, lo + i)
  {
    seq(hi - lo, i => Point(row, lo + i))
  }

  /** The starting goose list is row 4, then the middle of row 5, then the middle of row 6. */
  lemma InitialGeeseRows()
    ensures InitialGeese == RowPoints(4, 0, 7) + RowPoints(5, 2, 5) + RowPoints(6, 2, 5)
  {
  }

  /** The starting square of a cell, read as the layers the start-up code lays down one after the other. */
  lemma InitialLayers(p: Point)
    requires InGrid(p)
    ensures InitialSquare(p) ==
      if p.row == 6 && 2 <= p.col < 5 then Goose
      else if p.row == 5 && 2 <= p.col < 5 then Goose
      else if p.row == 4 && 0 <= p.col < 7 then Goose
      else if p == Point(3, 3) then Fox
      else BlankSquare(p)
  {
  }

  /** A new board: every playable cell empty, every other cell off the board. */
  method NewBoard() returns (cells: array<Square>)
    ensures fresh(cells) && cells.Length == CellCount
    ensures forall p :: InGrid(p) ==> cells[Idx(p)] == BlankSquare(p)
  {
    cells := new Square[CellCount];
    for row := 0 to BoardSize
      invariant forall p :: InGrid(p) && p.row < row ==> cells[Idx(p)] == BlankSquare(p)
    {
      for col := 0 to BoardSize
        invariant forall p :: InGrid(p) && (p.row < row || (p.row == row && p.col < col)) ==> cells[Idx(p)] == BlankSquare(p)
      {
        if IsValidPoint(row, col) {
          cells[Idx(Point(row, col))] := Empty;
        } else {
          cells[Idx(Point(row, col))] := OffBoard;
        }
      }
    }
  }

  /** Puts a goose on (row, lo), ..., (row, hi - 1), appending each cell to the goose list. */
  method PlaceGeese(cells: array<Square>, row: int, lo: int, hi: int, geese: seq<Point>) returns (placed: seq<Point>)
    requires cells.Length == CellCount && 0 <= row < BoardSize && 0 <= lo <= hi <= BoardSize
    modifies cells
    ensures placed == geese + RowPoints(row, lo, hi)
    ensures forall p :: InGrid(p) ==>
      cells[Idx(p)] == if p.row == row && lo <= p.col < hi then Goose else old(cells[Idx(p)])
  {
    placed := geese;
    for col := lo to hi
      invariant placed == geese + RowPoints(row, lo, col)
      invariant forall p :: InGrid(p) ==>
        cells[Idx(p)] == if p.row == row && lo <= p.col < col then Goose else old(cells[Idx(p)])
    {
      cells[Idx(Point(row, col))] := Goose;
      placed := placed + [Point(row, col)];
    }
  }

  /** The starting board is well formed, with the fox on (3, 3) and the starting goose list. */
  lemma InitialBoardPlacement(b: seq<Square>)
    requires |b| == CellCount && forall p :: InGrid(p) ==> At(b, p) == InitialSquare(p)
    ensures WellFormed(b) && FoxPlaced(b, Point(3, 3)) && GeeseListed(b, InitialGeese)
  {
    InitialGeeseFacts();
    assert forall p :: InGrid(p) ==> (At(b, p) == Goose <==> p in InitialGeese);
  }

  // ---------------------------------------------------------------------------
  // Keeping the fox position and the goose list in step with the board

  /** Appending a cell that is not yet listed keeps a list free of repeats. */
  lemma AppendDistinct(s: seq<Point>, x: Point)
    requires NoDuplicates(s) && x !in s
    ensures NoDuplicates(s + [x])
  {
    var t := s + [x];
    forall i, j | 0 <= i < j < |t| ensures t[i] != t[j] {
      if j == |s| { assert t[i] == s[i]; }
    }
  }

  /**
   * After the fox leaves `fox` for the empty cell dest, capturing the goose on
   * cap if any, the fox stands on dest and the goose list without cap names
   * exactly the geese left.
   */
  lemma FoxPlacementAfter(b: seq<Square>, r: seq<Square>, fox: Point, geese: seq<Point>, dest: Point, cap: Option<Point>)
    requires |b| == CellCount && |r| == CellCount
    requires FoxPlaced(b, fox) && GeeseListed(b, geese)
    requires InGrid(dest) && dest != fox && At(b, dest) == Empty
    requires cap.Some? ==> InGrid(cap.value) && At(b, cap.value) == Goose
    requires forall p {:trigger At(r, p)} :: InGrid(p) ==>
      At(r, p) == (if p == dest then Fox else if p == fox || cap == Some(p) then Empty else At(b, p))
    ensures cap.Some? ==> cap.value in geese
    ensures FoxPlaced(r, dest)
    ensures GeeseListed(r, if cap.Some? then RemoveFirst(geese, cap.value) else geese)
  {
    assert At(b, fox) == Fox;
    var left := if cap.Some? then RemoveFirst(geese, cap.value) else geese;
    if cap.Some? {
      RemoveFirstDistinct(geese, cap.value);
    }
    forall p | InGrid(p) ensures At(r, p) == Goose <==> p in left {
      if p != dest && p != fox && cap != Some(p) {
        assert At(r, p) == At(b, p);
      }
    }
  }

  /**
   * After a goose leaves from for the empty cell dest, the fox is where it
   * was, and the goose list without from, followed by dest, names exactly the
   * geese.
   */
  lemma GoosePlacementAfter(b: seq<Square>, r: seq<Square>, fox: Point, geese: seq<Point>, from: Point, dest: Point)
    requires |b| == CellCount && |r| == CellCount
    requires FoxPlaced(b, fox) && GeeseListed(b, geese)
    requires InGrid(from) && At(b, from) == Goose
    requires InGrid(dest) && dest != from && At(b, dest) == Empty
    requires forall p {:trigger At(r, p)} :: InGrid(p) ==>
      At(r, p) == (if p == dest then Goose else if p == from then Empty else At(b, p))
    ensures from in geese
    ensures FoxPlaced(r, fox) && GeeseListed(r, RemoveFirst(geese, from) + [dest])
  {
    RemoveFirstDistinct(geese, from);
    var left := RemoveFirst(geese, from);
    assert dest !in left;
    AppendDistinct(left, dest);
    assert forall p :: InGrid(p) ==> (At(r, p) == Goose <==> p in left + [dest]);
  }

  /**
   * Any listed move keeps the board, the fox position and the goose list in
   * step: a fox move carries the fox to the destination and drops the
   * captured goose from the list; a goose move swaps the goose's cell for its
   * destination at the end of the list.
   */
  lemma MoveKeepsPlacement(b: seq<Square>, fox: Point, geese: seq<Point>, from: Point, moves: seq<Move>, m: Move, r: seq<Square>)
    requires WellFormed(b) && FoxPlaced(b, fox) && GeeseListed(b, geese)
    requires InGrid(from) && MovesListed(b, Some(from), moves) && m in moves
    requires InGrid(m.dest) && (m.captured.Some? ==> InGrid(m.captured.value)) && r == Apply(b, from, m)
    ensures WellFormed(r)
    ensures At(b, from) == Fox ==>
      && FoxPlaced(r, m.dest)
      && GeeseListed(r, if m.captured.Some? then RemoveFirst(geese, m.captured.value) else geese)
    ensures At(b, from) == Goose ==>
      FoxPlaced(r, fox) && GeeseListed(r, RemoveFirst(geese, from) + [m.dest])
  {
    assert moves == LegalMoves(b, from);
    LegalMoveFacts(b, from, m);
    ApplyLegalMove(b, from, m);
    if At(b, from) == Fox {
      FoxPlacementAfter(b, r, fox, geese, m.dest, m.captured);
    } else {
      GoosePlacementAfter(b, r, fox, geese, from, m.dest);
    }
  }

  /** The cells a move of the selected piece's list involves, as for any listed move. */
  lemma ListedMoveCells(b: seq<Square>, from: Point, moves: seq<Move>, m: Move)
    requires InGrid(from) && MovesListed(b, Some(from), moves) && m in moves
    ensures At(b, from) == Fox || At(b, from) == Goose
    ensures InGrid(m.dest) && At(b, m.dest) == Empty && m.dest != from
    ensures m.captured.Some? ==>
      At(b, from) == Fox && InGrid(m.captured.value) && At(b, m.captured.value) == Goose
      && m.captured.value != from && m.captured.value != m.dest
  {
    assert moves == LegalMoves(b, from);
    LegalMoveFacts(b, from, m);
  }

  /**
   * The game's invariant, over the values of its fields: the board is well
   * formed; the fox position and the goose list agree with it; a selection
   * holds a piece of the side to move and comes with that piece's move list;
   * a finished game has no selection and names a winner; the fox has won
   * exactly when fewer than three geese remain, and the geese have won only
   * with the fox trapped.
   */
  ghost predicate Consistent(b: seq<Square>, fox: Point, geese: seq<Point>, foxTurn: bool,
                             sel: Option<Point>, moves: seq<Move>, over: bool, winner: Option<Side>)
  {
    && WellFormed(b)
    && FoxPlaced(b, fox)
    && GeeseListed(b, geese)
    && (sel.None? ==> moves == [])
    && (sel.Some? ==> InGrid(sel.value) && At(b, sel.value) == MoverPiece(foxTurn))
    && MovesListed(b, sel, moves)
    && (over ==> sel.None?)
    && (over <==> winner.Some?)
    && |geese| >= MinGeese - 1
    && (|geese| < MinGeese <==> winner == Some(FoxSide))
    && (winner == Some(GeeseSide) ==> FoxTrapped(b, fox))
  }

  /**
   * A move of the selected piece in a game still on keeps the invariant: the
   * fox's move carries it to the destination, drops a captured goose and ends
   * the game when fewer than three geese remain; a goose's move swaps its
   * cell in the list and ends the game when the fox is trapped.
   */
  lemma MoveConsistent(b: seq<Square>, fox: Point, geese: seq<Point>, foxTurn: bool, from: Point, moves: seq<Move>,
                       m: Move, r: seq<Square>, fox': Point, geese': seq<Point>, over': bool, winner': Option<Side>)
    requires Consistent(b, fox, geese, foxTurn, Some(from), moves, false, None)
    requires m in moves && InGrid(m.dest) && (m.captured.Some? ==> InGrid(m.captured.value)) && r == Apply(b, from, m)
    requires foxTurn ==>
      && fox' == m.dest
      && geese' == (if m.captured.Some? then RemoveFirst(geese, m.captured.value) else geese)
      && over' == (m.captured.Some? && |geese'| < MinGeese)
      && winner' == (if over' then Some(FoxSide) else None)
    requires !foxTurn ==>
      && fox' == fox
      && geese' == RemoveFirst(geese, from) + [m.dest]
      && over' == FoxTrapped(r, fox)
      && winner' == (if over' then Some(GeeseSide) else None)
    ensures Consistent(r, fox', geese', !foxTurn, None, [], over', winner')
  {
    ListedMoveCells(b, from, moves, m);
    MoveKeepsPlacement(b, fox, geese, from, moves, m, r);
    if foxTurn && m.captured.Some? {
      RemoveFirstDistinct(geese, m.captured.value);
    }
  }

  // ---------------------------------------------------------------------------
  // The game object

  class GameState {
    /** The 7x7 grid, row by row. */
    var board: array<Square>
    var foxPos: Point
    var geesePositions: seq<Point>
    var foxTurn: bool
    var selectedPiece: Option<Point>
    var validMoves: seq<Move>
    var gameOver: bool
    var winner: Option<Side>

    /** The fields hold a consistent game on a board of 49 cells. */
    ghost predicate Valid()
      reads this, board
    {
      && board.Length == CellCount
      && Consistent(board[..], foxPos, geesePositions, foxTurn, selectedPiece, validMoves, gameOver, winner)
    }

    /** A new game: the fox on (3, 3), thirteen geese below it, and the geese to move. */
    constructor ()
      ensures Valid() && fresh(board)
      ensures forall p :: InGrid(p) ==> At(board[..], p) == InitialSquare(p)
      ensures foxPos == Point(3, 3) && geesePositions == InitialGeese
      ensures !foxTurn && selectedPiece == None && validMoves == []
      ensures !gameOver && winner == None
    {
      var cells := NewBoard();
      cells[Idx(Point(3, 3))] := Fox;
      forall p | InGrid(p) && p != Point(3, 3) ensures cells[Idx(p)] == BlankSquare(p) {
        if Idx(p) == Idx(Point(3, 3)) { IdxInjective(p, Point(3, 3)); }
      }
      ghost var fox := cells[..];
      var geese := PlaceGeese(cells, 4, 0, 7, []);
      ghost var row4 := cells[..];
      geese := PlaceGeese(cells, 5, 2, 5, geese);
      ghost var row5 := cells[..];
      geese := PlaceGeese(cells, 6, 2, 5, geese);
      board := cells;
      foxPos := Point(3, 3);
      geesePositions := geese;
      foxTurn := false;
      selectedPiece := None;
      validMoves := [];
      gameOver := false;
      winner := None;
      new;
      forall p | InGrid(p) ensures At(cells[..], p) == InitialSquare(p) {
        InitialLayers(p);
        assert row5[Idx(p)] == if p.row == 5 && 2 <= p.col < 5 then Goose else row4[Idx(p)];
        assert row4[Idx(p)] == if p.row == 4 && 0 <= p.col < 7 then Goose else fox[Idx(p)];
      }
      InitialGeeseRows();
      assert geesePositions == InitialGeese;
      InitialBoardPlacement(cells[..]);
    }

    /**
     * Rebuilds the move list of the selected piece: the fox looks in all eight
     * directions, a goose in the five that do not go down; a diagonal is
     * skipped unless a line is drawn along it.
     */
    method CalculateValidMoves()
      requires board.Length == CellCount
      requires selectedPiece.Some? ==> InGrid(selectedPiece.value)
      modifies this`validMoves
      ensures validMoves == if selectedPiece.None? then [] else LegalMoves(board[..], selectedPiece.value)
    {
      validMoves := [];
      if selectedPiece.None? {
        return;
      }
      var p := selectedPiece.value;
      var pieceType := board[Idx(p)];
      if pieceType == Fox {
        CollectFoxMoves(p);
      } else if pieceType == Goose {
        CollectGooseMoves(p);
      }
    }

    /** The fox's scan: each of the eight directions in turn adds a step or a jump, or nothing. */
    method CollectFoxMoves(p: Point)
      requires board.Length == CellCount && InGrid(p) && validMoves == []
      modifies this`validMoves
      ensures validMoves == MovesAlong(board[..], p, Fox, FoxDirections)
    {
      var directions := FoxDirections;
      for i := 0 to |directions|
        invariant validMoves == MovesAlong(board[..], p, Fox, directions[..i])
      {
        MovesAlongExtend(board[..], p, Fox, directions, i);
        var (dr, dc) := directions[i];
        ScanFoxDirection(p, dr, dc);
      }
      assert directions[..|directions|] == directions;
    }

    /** One direction of the fox's scan: the step or jump toward (dr, dc), if any, joins the list. */
    method ScanFoxDirection(p: Point, dr: int, dc: int)
      requires board.Length == CellCount
      modifies this`validMoves
      ensures validMoves == old(validMoves) + Listed(FoxMoveToward(board[..], p, (dr, dc)))
    {
      ghost var b, d := board[..], (dr, dc);
      var row, col := p.row, p.col;
      var newR, newC := row + dr, col + dc;
      ghost var n := Neighbour(p, d);
      assert n == Point(newR, newC);
      if dr != 0 && dc != 0 && !HasDiagonalConnection(row, col, dr, dc) {
        FoxTowardNoLine(b, p, d);
        return;
      }
      if 0 <= newR < BoardSize && 0 <= newC < BoardSize && IsValidPoint(newR, newC) {
        assert At(b, n) == board[Idx(Point(newR, newC))];
        if board[Idx(Point(newR, newC))] == Empty {
          FoxTowardEmpty(b, p, d, n);
          validMoves := validMoves + [Move(Point(newR, newC), None)];
        } else if board[Idx(Point(newR, newC))] == Goose {
          var jumpR, jumpC := newR + dr, newC + dc;
          ghost var j := Neighbour(n, d);
          assert j == Point(jumpR, jumpC);
          FoxTowardGoose(b, p, d, n, j);
          if 0 <= jumpR < BoardSize && 0 <= jumpC < BoardSize && IsValidPoint(jumpR, jumpC) && board[Idx(Point(jumpR, jumpC))] == Empty {
            assert OpenCell(b, j);
            if dr != 0 && dc != 0 && !(HasDiagonalConnection(row, col, dr, dc) && HasDiagonalConnection(newR, newC, dr, dc)) {
              return;
            }
            validMoves := validMoves + [Move(Point(jumpR, jumpC), Some(Point(newR, newC)))];
          } else {
            assert !OpenCell(b, j);
          }
        } else {
          FoxTowardNoNeighbour(b, p, d, n);
        }
      } else {
        FoxTowardNoNeighbour(b, p, d, n);
      }
    }

    /** A goose's scan: each of its five directions in turn adds a step, or nothing. */
    method CollectGooseMoves(p: Point)
      requires board.Length == CellCount && InGrid(p) && validMoves == []
      modifies this`validMoves
      ensures validMoves == MovesAlong(board[..], p, Goose, GooseDirections)
    {
      var directions := GooseDirections;
      for i := 0 to |directions|
        invariant validMoves == MovesAlong(board[..], p, Goose, directions[..i])
      {
        MovesAlongExtend(board[..], p, Goose, directions, i);
        var (dr, dc) := directions[i];
        ScanGooseDirection(p, dr, dc);
      }
      assert directions[..|directions|] == directions;
    }

    /** One direction of a goose's scan: the step toward (dr, dc), if any, joins the list. */
    method ScanGooseDirection(p: Point, dr: int, dc: int)
      requires board.Length == CellCount
      modifies this`validMoves
      ensures validMoves == old(validMoves) + Listed(GooseMoveToward(board[..], p, (dr, dc)))
    {
      ghost var b, d := board[..], (dr, dc);
      var row, col := p.row, p.col;
      var newR, newC := row + dr, col + dc;
      ghost var n := Neighbour(p, d);
      assert n == Point(newR, newC);
      if dr != 0 && dc != 0 && !HasDiagonalConnection(row, col, dr, dc) {
        assert GooseMoveToward(b, p, d) == None;
        return;
      }
      if 0 <= newR < BoardSize && 0 <= newC < BoardSize {
        if IsValidPoint(newR, newC) && board[Idx(Point(newR, newC))] == Empty {
          assert GooseMoveToward(b, p, d) == Some(Move(n, None));
          validMoves := validMoves + [Move(Point(newR, newC), None)];
        } else {
          assert GooseMoveToward(b, p, d) == None;
        }
      }
    }

    /**
     * Selects the piece on (row, col) when the game is on, the cell is
     * playable and it holds a piece of the side to move; otherwise leaves
     * everything as it was.
     */
    method SelectPiece(row: int, col: int) returns (selected: bool)
      requires Valid()
      requires IsValidPoint(row, col) ==> InGrid(Point(row, col))
      modifies this`selectedPiece, this`validMoves
      ensures Valid()
      ensures selected <==> !gameOver && IsValidPoint(row, col) && At(board[..], Point(row, col)) == MoverPiece(foxTurn)
      ensures selected ==> selectedPiece == Some(Point(row, col)) && validMoves == LegalMoves(board[..], Point(row, col))
      ensures !selected ==> selectedPiece == old(selectedPiece) && validMoves == old(validMoves)
    {
      if gameOver || !IsValidPoint(row, col) {
        return false;
      }
      if !foxTurn && board[Idx(Point(row, col))] == Goose {
        selectedPiece := Some(Point(row, col));
        CalculateValidMoves();
        return true;
      }
      if foxTurn && board[Idx(Point(row, col))] == Fox {
        selectedPiece := Some(Point(row, col));
        CalculateValidMoves();
        return true;
      }
      return false;
    }

    /**
     * The trap scan: ends the game in the geese's favour when no direction
     * offers the fox an empty neighbour or a goose with an empty cell behind
     * it, and reports whether it did.
     */
    method CheckIfFoxTrapped() returns (trapped: bool)
      requires board.Length == CellCount
      modifies this`gameOver, this`winner
      ensures trapped == FoxTrapped(board[..], foxPos)
      ensures trapped ==> gameOver && winner == Some(GeeseSide)
      ensures !trapped ==> gameOver == old(gameOver) && winner == old(winner)
    {
      ghost var b := board[..];
      var row, col := foxPos.row, foxPos.col;
      var directions := FoxDirections;
      for i := 0 to |directions|
        invariant forall k :: 0 <= k < i ==> !EscapeToward(b, foxPos, directions[k])
      {
        var (dr, dc) := directions[i];
        var nr, nc := row + dr, col + dc;
        ghost var n := Neighbour(foxPos, directions[i]);
        assert n == Point(nr, nc);
        if 0 <= nr < BoardSize && 0 <= nc < BoardSize && IsValidPoint(nr, nc) {
          assert b[Idx(n)] == board[Idx(Point(nr, nc))];
          if board[Idx(Point(nr, nc))] == Empty {
            assert directions[i] in FoxDirections && EscapeToward(b, foxPos, directions[i]);
            return false;
          }
          if board[Idx(Point(nr, nc))] == Goose {
            var jr, jc := nr + dr, nc + dc;
            assert Neighbour(n, directions[i]) == Point(jr, jc);
            if 0 <= jr < BoardSize && 0 <= jc < BoardSize && IsValidPoint(jr, jc) && board[Idx(Point(jr, jc))] == Empty {
              assert directions[i] in FoxDirections && EscapeToward(b, foxPos, directions[i]);
              return false;
            }
          }
        }
      }
      assert FoxTrapped(b, foxPos) by {
        forall d | d in FoxDirections ensures !EscapeToward(b, foxPos, d) {
          var k :| 0 <= k < |directions| && directions[k] == d;
        }
      }
      gameOver := true;
      winner := Some(GeeseSide);
      assert board[..] == b;
      return true;
    }

    /**
     * Moves the selected piece to (row, col) when that cell is the
     * destination of one of its listed moves. The first such entry decides
     * the capture. A fox capture that leaves fewer than three geese ends the
     * game for the fox; every goose move runs the trap scan. The selection
     * is cleared and the turn passes. Without a selection, or for any other
     * cell, nothing changes.
     */
    method MovePiece(row: int, col: int) returns (moved: bool)
      requires Valid()
      modifies this, board
      ensures Valid() && board == old(board)
      ensures moved <==> old(selectedPiece).Some? && HasDestination(old(validMoves), Point(row, col))
      ensures old(gameOver) ==> !moved
      ensures !moved ==> unchanged(this) && unchanged(board)
      ensures moved ==>
        var from, m := old(selectedPiece).value, ChosenMove(old(validMoves), Point(row, col));
        && m in old(validMoves)
        && InGrid(m.dest) && (m.captured.Some? ==> InGrid(m.captured.value))
        && board[..] == Apply(old(board[..]), from, m)
        && foxTurn == !old(foxTurn) && selectedPiece == None && validMoves == []
        && (old(foxTurn) ==>
              && foxPos == m.dest
              && geesePositions == (if m.captured.Some? then RemoveFirst(old(geesePositions), m.captured.value) else old(geesePositions))
              && gameOver == (m.captured.Some? && |geesePositions| < MinGeese))
        && (!old(foxTurn) ==>
              && foxPos == old(foxPos)
              && geesePositions == RemoveFirst(old(geesePositions), from) + [m.dest]
              && gameOver == FoxTrapped(board[..], foxPos))
    {
      var dest := Point(row, col);
      if selectedPiece.None? || !HasDestination(validMoves, dest) {
        return false;
      }
      assert !gameOver && winner == None && |geesePositions| >= MinGeese;
      var from := selectedPiece.value;
      var pieceType := board[Idx(from)];
      var capture := CaptureFor(validMoves, dest);
      ghost var m := ChosenMove(validMoves, dest);
      ghost var before, fox, geese, moves, turn := board[..], foxPos, geesePositions, validMoves, foxTurn;
      assert m in validMoves;
      ListedMoveCells(before, from, moves, m);
      board[Idx(from)] := Empty;
      board[Idx(dest)] := pieceType;
      if pieceType == Fox {
        MoveFox(dest, capture);
      } else {
        MoveGoose(from, dest);
      }
      ghost var after := board[..];
      assert after == Apply(before, from, m);
      MoveConsistent(before, fox, geese, turn, from, moves, m, after, foxPos, geesePositions, gameOver, winner);
      selectedPiece := None;
      validMoves := [];
      foxTurn := !foxTurn;
      assert board[..] == after;
      return true;
    }

    /**
     * The fox's part of a move, once it stands on dest: it records its new
     * position and, after a capture, takes the jumped goose off the board and
     * out of the list, and wins if fewer than three geese remain.
     */
    method MoveFox(dest: Point, capture: Option<Point>)
      requires board.Length == CellCount && (capture.Some? ==> InGrid(capture.value))
      requires !gameOver && winner == None
      modifies this`foxPos, this`geesePositions, this`gameOver, this`winner, board
      ensures foxPos == dest
      ensures board[..] == if capture.Some? then old(board[..])[Idx(capture.value) := Empty] else old(board[..])
      ensures geesePositions == if capture.Some? then RemoveFirst(old(geesePositions), capture.value) else old(geesePositions)
      ensures gameOver == (capture.Some? && |geesePositions| < MinGeese)
      ensures winner == if gameOver then Some(FoxSide) else None
    {
      foxPos := dest;
      if capture.Some? {
        var cap := capture.value;
        board[Idx(cap)] := Empty;
        if cap in geesePositions {
          geesePositions := RemoveFirst(geesePositions, cap);
        }
        if |geesePositions| < MinGeese {
          gameOver := true;
          winner := Some(FoxSide);
        }
      }
    }

    /**
     * A goose's part of a move, once it stands on dest: the goose list trades
     * its old cell for the new one at the end, and the trap scan runs.
     */
    method MoveGoose(from: Point, dest: Point)
      requires board.Length == CellCount
      requires !gameOver && winner == None
      modifies this`geesePositions, this`gameOver, this`winner
      ensures geesePositions == RemoveFirst(old(geesePositions), from) + [dest]
      ensures gameOver == FoxTrapped(board[..], foxPos)
      ensures winner == if gameOver then Some(GeeseSide) else None
    {
      if from in geesePositions {
        geesePositions := RemoveFirst(geesePositions, from);
      }
      geesePositions := geesePositions + [dest];
      var trapped := CheckIfFoxTrapped();
    }

    /**
     * A click on grid cell (row, col) while the game is on: without a
     * selection it tries to select; with one it tries to move there, and when
     * that fails it selects the clicked piece if it belongs to the side to
     * move, or else drops the selection.
     */
    method Click(row: int, col: int)
      requires Valid()
      modifies this, board
      ensures Valid() && board == old(board)
      ensures old(gameOver) || !InGrid(Point(row, col)) ==> unchanged(this) && unchanged(board)
      ensures var p := Point(row, col);
        var moving := !old(gameOver) && InGrid(p) && old(selectedPiece).Some? && HasDestination(old(validMoves), p);
        && (moving ==>
              var from, m := old(selectedPiece).value, ChosenMove(old(validMoves), p);
              && m in old(validMoves)
              && InGrid(from) && InGrid(m.dest) && (m.captured.Some? ==> InGrid(m.captured.value))
              && board[..] == Apply(old(board[..]), from, m)
              && foxTurn == !old(foxTurn) && selectedPiece == None && validMoves == []
              && (old(foxTurn) ==>
                    && foxPos == m.dest
                    && geesePositions == (if m.captured.Some? then RemoveFirst(old(geesePositions), m.captured.value) else old(geesePositions))
                    && gameOver == (m.captured.Some? && |geesePositions| < MinGeese))
              && (!old(foxTurn) ==>
                    && foxPos == old(foxPos)
                    && geesePositions == RemoveFirst(old(geesePositions), from) + [m.dest]
                    && gameOver == FoxTrapped(board[..], foxPos)))
        && (!moving ==> board[..] == old(board[..]) && foxTurn == old(foxTurn) && foxPos == old(foxPos)
                        && geesePositions == old(geesePositions) && gameOver == old(gameOver))
        && (!moving && !old(gameOver) && InGrid(p) ==>
              selectedPiece == if At(board[..], p) == MoverPiece(foxTurn) then Some(p) else None)
    {
      if gameOver || !(0 <= row < BoardSize && 0 <= col < BoardSize) {
        return;
      }
      var p := Point(row, col);
      if selectedPiece.None? {
        var selected := SelectPiece(row, col);
      } else {
        var moved := MovePiece(row, col);
        if !moved {
          var pieceHere := board[Idx(p)];
          if (foxTurn && pieceHere == Fox) || (!foxTurn && pieceHere == Goose) {
            var selected := SelectPiece(row, col);
          } else {
            selectedPiece := None;
            validMoves := [];
          }
        }
      }
    }
  }
}
