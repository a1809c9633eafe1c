/** The game engine: the board, the player to move and the selected piece,
    and one step of the click handler. GameState and Step give the meaning
    of a click on values; the class Game is the mutable engine, an 8x8 array
    indexed board[y, x], whose Click is proved to perform Step. */
module Engine {
  import opened Board
  import opened Rules

  datatype Option<T> = None | Some(value: T)

  /** The whole state of a game: board, player to move, selection. */
  datatype GameState = GameState(grid: Grid, player: Color, selected: Option<Pos>)

  /** What always holds: the board is 8x8 and a selected cell is on the
      board and holds a piece of the player to move. */
  ghost predicate Inv(s: GameState) {
    WellFormed(s.grid) &&
    (s.selected.Some? ==>
       InBounds(s.selected.value.x, s.selected.value.y) &&
       s.grid[s.selected.value.y][s.selected.value.x] == Piece(s.player))
  }

  /** A move from the selected cell to (x, y) is attempted and all three
      checks pass. */
  ghost predicate Moves(s: GameState, x: int, y: int)
    requires WellFormed(s.grid) && InBounds(x, y)
  {
    s.selected.Some? && MoveAllowed(s.grid, s.selected.value, x, y)
  }

  /** One click on (x, y). With a piece selected: if the move is allowed, move
      it, remove the pieces it captures on the board after the move, and pass
      the turn; either way the selection is dropped. With nothing selected:
      select (x, y) if it holds a piece of the player to move. */
  ghost function Step(s: GameState, x: int, y: int): (r: GameState)
    requires Inv(s) && InBounds(x, y)
    ensures Inv(r)
    ensures s.selected.Some? ==> r.selected == None
  {
    match s.selected
    case Some(from) =>
      if MoveAllowed(s.grid, from, x, y) then
        var moved := ApplyMove(s.grid, from, Pos(x, y));
        GameState(ClearAll(moved, Captures(moved, x, y, s.player)), Opponent(s.player), None)
      else
        GameState(s.grid, s.player, None)
    case None =>
      if s.grid[y][x] == Piece(s.player) then GameState(s.grid, s.player, Some(Pos(x, y)))
      else s
  }

  /** The shape of a completed step. */
  lemma CompletedStep(s: GameState, x: int, y: int)
    requires Inv(s) && InBounds(x, y) && Moves(s, x, y)
    ensures var moved := ApplyMove(s.grid, s.selected.value, Pos(x, y));
            Step(s, x, y) == GameState(ClearAll(moved, Captures(moved, x, y, s.player)), Opponent(s.player), None)
  {
  }

  /** The turn passes exactly when a move is made, and then to the opponent. */
  lemma TurnFlipsIffMoved(s: GameState, x: int, y: int)
    requires Inv(s) && InBounds(x, y)
    ensures Step(s, x, y).player == (if Moves(s, x, y) then Opponent(s.player) else s.player)
    ensures Step(s, x, y).player != s.player <==> Moves(s, x, y)
  {
  }

  /** A rejected move attempt drops the selection and changes nothing else. */
  lemma RejectedAttemptDeselects(s: GameState, x: int, y: int)
    requires Inv(s) && InBounds(x, y) && s.selected.Some? && !Moves(s, x, y)
    ensures Step(s, x, y) == GameState(s.grid, s.player, None)
  {
  }

  /** Clicking the selected piece itself is a rejected attempt: its own cell
      is not empty. */
  lemma ClickOnSelectedRejected(s: GameState)
    requires Inv(s) && s.selected.Some?
    ensures !Moves(s, s.selected.value.x, s.selected.value.y)
    ensures Step(s, s.selected.value.x, s.selected.value.y) == GameState(s.grid, s.player, None)
  {
  }

  /** With nothing selected, a click selects a piece of the player to move;
      any other click changes nothing. */
  lemma IdleClick(s: GameState, x: int, y: int)
    requires Inv(s) && InBounds(x, y) && s.selected.None?
    ensures s.grid[y][x] == Piece(s.player) ==> Step(s, x, y) == GameState(s.grid, s.player, Some(Pos(x, y)))
    ensures s.grid[y][x] != Piece(s.player) ==> Step(s, x, y) == s
  {
  }

  /** A completed move changes exactly the origin (now empty), the destination
      (now the mover's piece) and the captured cells (now empty); the
      captured cells held opponent pieces before the move. */
  lemma MoveCells(s: GameState, x: int, y: int)
    requires Inv(s) && InBounds(x, y) && Moves(s, x, y)
    ensures var from := s.selected.value;
            var caps := Captures(ApplyMove(s.grid, from, Pos(x, y)), x, y, s.player);
            var g := Step(s, x, y).grid;
            g[y][x] == Piece(s.player) && g[from.y][from.x] == Empty &&
            (forall i :: 0 <= i < |caps| ==>
               g[caps[i].y][caps[i].x] == Empty && s.grid[caps[i].y][caps[i].x] == Piece(Opponent(s.player))) &&
            (forall yy, xx :: InBounds(xx, yy) && Pos(xx, yy) != from && Pos(xx, yy) != Pos(x, y) && Pos(xx, yy) !in caps ==>
               g[yy][xx] == s.grid[yy][xx])
  {
    var from, to := s.selected.value, Pos(x, y);
    var moved := ApplyMove(s.grid, from, to);
    var caps := Captures(moved, x, y, s.player);
    CompletedStep(s, x, y);
    var g := ClearAll(moved, caps);
    assert Step(s, x, y).grid == g;
    assert to !in caps && from !in caps by {
      forall i | 0 <= i < |caps|
        ensures caps[i] != to && caps[i] != from
      {
        assert moved[caps[i].y][caps[i].x] == Piece(Opponent(s.player));
      }
    }
    assert g[y][x] == Piece(s.player) && g[from.y][from.x] == Empty;
    forall i | 0 <= i < |caps|
      ensures g[caps[i].y][caps[i].x] == Empty && s.grid[caps[i].y][caps[i].x] == Piece(Opponent(s.player))
    {
      assert caps[i] in caps;
      assert caps[i] != from && caps[i] != to;
    }
  }

  /** A completed move keeps the mover's count and lowers the opponent's by
      the number of pieces captured. */
  lemma MoveCounts(s: GameState, x: int, y: int)
    requires Inv(s) && InBounds(x, y) && Moves(s, x, y)
    ensures var caps := Captures(ApplyMove(s.grid, s.selected.value, Pos(x, y)), x, y, s.player);
            Count(Step(s, x, y).grid, s.player) == Count(s.grid, s.player) &&
            Count(Step(s, x, y).grid, Opponent(s.player)) == Count(s.grid, Opponent(s.player)) - |caps|
  {
    var from := s.selected.value;
    var o := Opponent(s.player);
    var moved := ApplyMove(s.grid, from, Pos(x, y));
    var caps := Captures(moved, x, y, s.player);
    ApplyMoveCounts(s.grid, from, Pos(x, y), s.player);
    ApplyMoveCounts(s.grid, from, Pos(x, y), o);
    CapturesDistinct(moved, x, y, s.player);
    ClearAllCounts(moved, caps, o, s.player);
    ClearAllCounts(moved, caps, o, o);
  }

  /** No click ever adds a piece: each colour's count stays or drops. */
  lemma CountsNeverGrow(s: GameState, x: int, y: int, c: Color)
    requires Inv(s) && InBounds(x, y)
    ensures Count(Step(s, x, y).grid, c) <= Count(s.grid, c)
  {
    if Moves(s, x, y) {
      MoveCounts(s, x, y);
    }
  }

  ghost function CellsOf(b: array2<Cell>): (g: Grid)
    reads b
    requires b.Length0 == Size && b.Length1 == Size
    ensures WellFormed(g)
    ensures forall y, x :: InBounds(x, y) ==> g[y][x] == b[y, x]
  {
    seq(Size, y requires 0 <= y < Size reads b =>
      seq(Size, x requires 0 <= x < Size reads b => b[y, x]))
  }

  /** The engine. Fields as in the original: the board, indexed board[y, x],
      the player to move and the selected cell. Every cell is Empty, Black or
      White by its type. */
  class Game {
    var board: array2<Cell>
    var currentPlayer: Color
    var selected: Option<Pos>

    ghost predicate Sized()
      reads this`board
    {
      board.Length0 == Size && board.Length1 == Size
    }

    /** The board as a value. */
    ghost function Cells(): (g: Grid)
      reads this`board, board
      requires Sized()
      ensures WellFormed(g)
      ensures forall y, x :: InBounds(x, y) ==> g[y][x] == board[y, x]
    {
      CellsOf(board)
    }

    ghost function Snapshot(): GameState
      reads this, board
      requires Sized()
    {
      GameState(Cells(), currentPlayer, selected)
    }

    ghost predicate Valid()
      reads this, board
    {
      Sized() && Inv(Snapshot())
    }

    /** The start of a session: Black to move, nothing selected, and the
        board built by initBoard (row 0 black, row 7 white, the rest empty). */
    constructor ()
      ensures Valid() && fresh(board)
      ensures Cells() == InitialGrid()
      ensures currentPlayer == Black && selected == None
    {
      var b := new Cell[Size, Size];
      for y := 0 to Size
        invariant forall yy, xx :: 0 <= yy < y && 0 <= xx < Size ==> b[yy, xx] == InitialCell(xx, yy)
      {
        for x := 0 to Size
          invariant forall yy, xx :: 0 <= yy < y && 0 <= xx < Size ==> b[yy, xx] == InitialCell(xx, yy)
          invariant forall xx :: 0 <= xx < x ==> b[y, xx] == InitialCell(xx, y)
        {
          if y == 0 {
            b[y, x] := Piece(Black);
          } else if y == Size - 1 {
            b[y, x] := Piece(White);
          } else {
            b[y, x] := Empty;
          }
        }
      }
      board := b;
      currentPlayer := Black;
      selected := None;
      new;
      GridsEqual(Cells(), InitialGrid());
    }

    /** The tally of updateCounters: the number of black and of white pieces. */
    method CountPieces() returns (blackCount: nat, whiteCount: nat)
      requires Sized()
      ensures blackCount == Count(Cells(), Black)
      ensures whiteCount == Count(Cells(), White)
    {
      ghost var g := Cells();
      blackCount, whiteCount := 0, 0;
      for y := 0 to Size
        invariant blackCount == Count(g[..y], Black)
        invariant whiteCount == Count(g[..y], White)
      {
        for x := 0 to Size
          invariant blackCount == Count(g[..y], Black) + CountRow(g[y][..x], Black)
          invariant whiteCount == Count(g[..y], White) + CountRow(g[y][..x], White)
        {
          assert g[y][..x + 1][..x] == g[y][..x];
          if board[y, x] == Piece(Black) {
            blackCount := blackCount + 1;
          } else if board[y, x] == Piece(White) {
            whiteCount := whiteCount + 1;
          }
        }
        assert g[y][..Size] == g[y];
        assert g[..y + 1][..y] == g[..y];
      }
      assert g[..Size] == g;
    }

    /** isPathClear: steps from the cell next to (x1, y1) towards (x2, y2),
        stopping before (x2, y2), and reports whether every cell passed is
        empty. Its callers pass two distinct cells on one column or row. */
    method IsPathClear(x1: int, y1: int, x2: int, y2: int) returns (clear: bool)
      requires Sized() && InBounds(x1, y1) && InBounds(x2, y2)
      requires IsOrthogonalMove(x1, y1, x2, y2) && Pos(x1, y1) != Pos(x2, y2)
      ensures clear == PathClear(Cells(), x1, y1, x2, y2)
    {
      if x1 == x2 {
        var step := if y2 > y1 then 1 else -1;
        var y := y1 + step;
        while y != y2
          invariant if step == 1 then y1 < y <= y2 else y2 <= y < y1
          invariant forall yy :: StrictlyBetween(y1, y, yy) ==> board[yy, x1] == Empty
          decreases if step == 1 then y2 - y else y - y2
        {
          if board[y, x1] != Empty {
            return false;
          }
          y := y + step;
        }
      } else {
        var step := if x2 > x1 then 1 else -1;
        var x := x1 + step;
        while x != x2
          invariant if step == 1 then x1 < x <= x2 else x2 <= x < x1
          invariant forall xx :: StrictlyBetween(x1, x, xx) ==> board[y1, xx] == Empty
          decreases if step == 1 then x2 - x else x - x2
        {
          if board[y1, x] != Empty {
            return false;
          }
          x := x + step;
        }
      }
      return true;
    }

    /** checkCapture: scans the four directions from (x, y) and collects each
        neighbour that holds an opponent with a piece of the player to move
        beyond it. */
    method CheckCapture(x: int, y: int) returns (captured: seq<Pos>)
      requires Sized()
      ensures captured == Captures(Cells(), x, y, currentPlayer)
    {
      ghost var g := Cells();
      var opponent := Opponent(currentPlayer);
      captured := [];
      for i := 0 to |Directions|
        invariant captured == CaptureScan(g, x, y, currentPlayer, i)
      {
        var dx, dy := Directions[i].dx, Directions[i].dy;
        var midX, midY := x + dx, y + dy;
        var endX, endY := x + dx * 2, y + dy * 2;
        ghost var hit := Sandwiched(g, x, y, currentPlayer, Directions[i]);
        assert Along(x, y, Directions[i], 1) == Pos(midX, midY);
        assert Along(x, y, Directions[i], 2) == Pos(endX, endY);
        ghost var before := captured;
        if 0 <= midX < Size && 0 <= midY < Size && 0 <= endX < Size && 0 <= endY < Size {
          if board[midY, midX] == Piece(opponent) && board[endY, endX] == Piece(currentPlayer) {
            captured := captured + [Pos(midX, midY)];
          }
        }
        assert captured == before + (if hit then [Pos(midX, midY)] else []);
        assert captured == CaptureScan(g, x, y, currentPlayer, i + 1);
      }
    }

    /** The removal loop of the click handler: empties each listed cell. */
    method ClearCaptured(captured: seq<Pos>)
      requires Sized() && forall i :: 0 <= i < |captured| ==> InBounds(captured[i].x, captured[i].y)
      modifies board
      ensures Cells() == ClearAll(old(Cells()), captured)
    {
      ghost var g := Cells();
      for i := 0 to |captured|
        invariant forall yy, xx :: InBounds(xx, yy) ==> board[yy, xx] == ClearAll(g, captured[..i])[yy][xx]
      {
        assert captured[..i + 1][..i] == captured[..i];
        board[captured[i].y, captured[i].x] := Empty;
      }
      assert captured[..|captured|] == captured;
      GridsEqual(Cells(), ClearAll(g, captured));
    }

    /** The move itself: the piece is copied to the destination, then the
        origin is emptied. */
    method MovePiece(from: Pos, to: Pos)
      requires Sized() && InBounds(from.x, from.y) && InBounds(to.x, to.y) && from != to
      modifies board
      ensures Cells() == ApplyMove(old(Cells()), from, to)
    {
      ghost var g := Cells();
      board[to.y, to.x] := board[from.y, from.x];
      board[from.y, from.x] := Empty;
      GridsEqual(Cells(), ApplyMove(g, from, to));
    }

    /** A move that passed the three checks: move the piece, remove the
        pieces it captures (found on the board after the move, before any
        removal), pass the turn and drop the selection. */
    method CompleteMove(x: int, y: int)
      requires Valid() && InBounds(x, y) && Moves(Snapshot(), x, y)
      modifies this, board
      ensures Valid() && board == old(board)
      ensures Snapshot() == Step(old(Snapshot()), x, y)
    {
      ghost var s0 := Snapshot();
      var from := selected.value;
      MovePiece(from, Pos(x, y));
      ghost var moved := Cells();
      var captured := CheckCapture(x, y);
      ClearCaptured(captured);
      ghost var cleared := Cells();
      currentPlayer := Opponent(currentPlayer);
      selected := None;
      assert Cells() == cleared;
      CompletedStep(s0, x, y);
    }

    /** One click on the cell (x, y): the click handler as one atomic step. */
    method Click(x: int, y: int)
      requires Valid() && InBounds(x, y)
      modifies this, board
      ensures Valid() && board == old(board)
      ensures Snapshot() == Step(old(Snapshot()), x, y)
    {
      ghost var s0 := Snapshot();
      match selected
      case Some(from) =>
        var legal := board[y, x] == Empty && IsOrthogonalMove(from.x, from.y, x, y);
        if legal {
          legal := IsPathClear(from.x, from.y, x, y);
        }
        assert legal == Moves(s0, x, y);
        if legal {
          CompleteMove(x, y);
        } else {
          selected := None;
          assert Cells() == s0.grid;
          assert Step(s0, x, y) == GameState(s0.grid, s0.player, None);
        }
      case None =>
        if board[y, x] == Piece(currentPlayer) {
          selected := Some(Pos(x, y));
        }
    }
  }
}
