/** The rules on a board value: which moves are legal, which pieces a move
    captures, and what a move and its captures do to the board. */
module Rules {
  import opened Board

  // ---------------------------------------------------------------------
  // Move legality

  /** isOrthogonalMove: the two cells share a column or a row, that is, the
      second is some number of unit steps from the first in one of the four
      directions; no diagonal or knight-like move passes. */
  predicate IsOrthogonalMove(x1: int, y1: int, x2: int, y2: int)
    ensures IsOrthogonalMove(x1, y1, x2, y2) <==>
            exists d, k :: d in Directions && k >= 0 && Along(x1, y1, d, k) == Pos(x2, y2)
  {
    AlignedIffAlongDirection(x1, y1, x2, y2);
    x1 == x2 || y1 == y2
  }

  /** A unit step along one axis. */
  datatype Offset = Offset(dx: int, dy: int)

  /** The four directions checkCapture scans, in its order: down, right, up, left. */
  const Directions: seq<Offset> := [Offset(0, 1), Offset(1, 0), Offset(0, -1), Offset(-1, 0)]

  /** The cell k steps from (x, y) in direction d. */
  function Along(x: int, y: int, d: Offset, k: int): Pos {
    Pos(x + k * d.dx, y + k * d.dy)
  }

  /** Sharing a column or a row is the same as being k >= 0 unit steps away
      in one of the four directions. */
  lemma AlignedIffAlongDirection(x1: int, y1: int, x2: int, y2: int)
    ensures (x1 == x2 || y1 == y2) <==>
            exists d, k :: d in Directions && k >= 0 && Along(x1, y1, d, k) == Pos(x2, y2)
  {
    if x1 == x2 {
      var d := if y2 >= y1 then Offset(0, 1) else Offset(0, -1);
      var k := if y2 >= y1 then y2 - y1 else y1 - y2;
      assert Along(x1, y1, d, k) == Pos(x2, y2);
    } else if y1 == y2 {
      var d := if x2 >= x1 then Offset(1, 0) else Offset(-1, 0);
      var k := if x2 >= x1 then x2 - x1 else x1 - x2;
      assert Along(x1, y1, d, k) == Pos(x2, y2);
    } else {
      forall d, k | d in Directions && k >= 0
        ensures Along(x1, y1, d, k) != Pos(x2, y2)
      {
        assert d.dx == 0 || d.dy == 0;
      }
    }
  }

  /** c lies strictly between a and b. */
  predicate StrictlyBetween(a: int, b: int, c: int) {
    a < c < b || b < c < a
  }

  /** (x, y) lies strictly between (x1, y1) and (x2, y2) on their shared
      column or row. */
  predicate Interior(x1: int, y1: int, x2: int, y2: int, x: int, y: int) {
    (x == x1 == x2 && StrictlyBetween(y1, y2, y)) || (y == y1 == y2 && StrictlyBetween(x1, x2, x))
  }

  /** Every cell strictly between the two endpoints is empty. */
  ghost predicate PathClear(g: Grid, x1: int, y1: int, x2: int, y2: int)
    requires WellFormed(g)
  {
    forall x, y :: InBounds(x, y) && Interior(x1, y1, x2, y2, x, y) ==> g[y][x] == Empty
  }

  /** Whether a path is clear does not depend on what stands on its endpoints. */
  lemma PathClearIgnoresEndpoints(g: Grid, x1: int, y1: int, x2: int, y2: int, v1: Cell, v2: Cell)
    requires WellFormed(g) && InBounds(x1, y1) && InBounds(x2, y2)
    ensures PathClear(Put(Put(g, x1, y1, v1), x2, y2, v2), x1, y1, x2, y2) == PathClear(g, x1, y1, x2, y2)
  {
    var h := Put(Put(g, x1, y1, v1), x2, y2, v2);
    assert forall x, y :: InBounds(x, y) && Interior(x1, y1, x2, y2, x, y) ==> h[y][x] == g[y][x];
  }

  /** The three checks of the click handler for a move from `from` to (x, y):
      the destination is empty, the move is orthogonal, the path is clear. */
  ghost predicate MoveAllowed(g: Grid, from: Pos, x: int, y: int)
    requires WellFormed(g) && InBounds(x, y)
    ensures MoveAllowed(g, from, x, y) ==> g[y][x] == Empty
    ensures MoveAllowed(g, from, x, y) && InBounds(from.x, from.y) && g[from.y][from.x] != Empty ==>
              from != Pos(x, y) && IsOrthogonalMove(from.x, from.y, x, y)
  {
    g[y][x] == Empty && IsOrthogonalMove(from.x, from.y, x, y) && PathClear(g, from.x, from.y, x, y)
  }

  /** A move never lands on an occupied cell, whatever its direction or path. */
  lemma OccupiedDestinationRejected(g: Grid, from: Pos, x: int, y: int)
    requires WellFormed(g) && InBounds(x, y) && g[y][x] != Empty
    ensures !MoveAllowed(g, from, x, y)
  {
  }

  /** Applying a move: the piece is copied to the destination, then the
      origin is emptied. For distinct cells exactly those two change. */
  function ApplyMove(g: Grid, from: Pos, to: Pos): (r: Grid)
    requires WellFormed(g) && InBounds(from.x, from.y) && InBounds(to.x, to.y)
    ensures WellFormed(r)
    ensures r[from.y][from.x] == Empty
    ensures from != to ==> r[to.y][to.x] == g[from.y][from.x]
    ensures forall y, x :: InBounds(x, y) && Pos(x, y) != from && Pos(x, y) != to ==> r[y][x] == g[y][x]
  {
    Put(Put(g, to.x, to.y, g[from.y][from.x]), from.x, from.y, Empty)
  }

  /** Moving a piece onto an empty cell keeps every colour's count. */
  lemma ApplyMoveCounts(g: Grid, from: Pos, to: Pos, c: Color)
    requires WellFormed(g) && InBounds(from.x, from.y) && InBounds(to.x, to.y) && from != to
    requires g[to.y][to.x] == Empty
    ensures Count(ApplyMove(g, from, to), c) == Count(g, c)
  {
    var h := Put(g, to.x, to.y, g[from.y][from.x]);
    CountPut(g, to.x, to.y, g[from.y][from.x], c);
    CountPut(h, from.x, from.y, Empty, c);
  }

  // ---------------------------------------------------------------------
  // Capture detection (checkCapture)

  /** Looking from (x, y) in direction d: the neighbour and the cell beyond
      it are on the board, the neighbour holds an opponent of `mover` and
      the cell beyond holds a piece of `mover`. */
  predicate Sandwiched(g: Grid, x: int, y: int, mover: Color, d: Offset)
    requires WellFormed(g)
  {
    var mid := Along(x, y, d, 1);
    var end := Along(x, y, d, 2);
    InBounds(mid.x, mid.y) && InBounds(end.x, end.y) &&
    g[mid.y][mid.x] == Piece(Opponent(mover)) && g[end.y][end.x] == Piece(mover)
  }

  /** A sandwiched piece lies on the line from the landing cell to the
      flanking piece, strictly between them, and the two pieces differ. */
  lemma SandwichedShape(g: Grid, x: int, y: int, mover: Color, d: Offset)
    requires WellFormed(g) && d in Directions && Sandwiched(g, x, y, mover, d)
    ensures var mid, end := Along(x, y, d, 1), Along(x, y, d, 2);
            InBounds(mid.x, mid.y) && InBounds(end.x, end.y) &&
            Interior(x, y, end.x, end.y, mid.x, mid.y) && g[mid.y][mid.x] != g[end.y][end.x]
  {
  }

  /** The captures found in the first n directions, in scan order. */
  function CaptureScan(g: Grid, x: int, y: int, mover: Color, n: nat): (r: seq<Pos>)
    requires WellFormed(g) && n <= |Directions|
    ensures |r| <= n
    ensures forall i :: 0 <= i < |r| ==>
              InBounds(r[i].x, r[i].y) && g[r[i].y][r[i].x] == Piece(Opponent(mover))
    ensures forall i :: 0 <= i < |r| ==>
              exists k :: 0 <= k < n && Sandwiched(g, x, y, mover, Directions[k]) && r[i] == Along(x, y, Directions[k], 1)
    ensures forall k :: 0 <= k < n && Sandwiched(g, x, y, mover, Directions[k]) ==>
              Along(x, y, Directions[k], 1) in r
  {
    if n == 0 then []
    else
      var d := Directions[n - 1];
      CaptureScan(g, x, y, mover, n - 1) + (if Sandwiched(g, x, y, mover, d) then [Along(x, y, d, 1)] else [])
  }

  /** The pieces a mover landing on (x, y) captures. */
  function Captures(g: Grid, x: int, y: int, mover: Color): (r: seq<Pos>)
    requires WellFormed(g)
    ensures |r| <= 4
    ensures forall i :: 0 <= i < |r| ==>
              InBounds(r[i].x, r[i].y) && g[r[i].y][r[i].x] == Piece(Opponent(mover))
  {
    CaptureScan(g, x, y, mover, |Directions|)
  }

  /** The captured cells are exactly the neighbours p + d for which p + 2d
      holds the mover and p + d the opponent. */
  lemma CapturesExactly(g: Grid, x: int, y: int, mover: Color, q: Pos)
    requires WellFormed(g)
    ensures q in Captures(g, x, y, mover) <==>
            exists d :: d in Directions && Sandwiched(g, x, y, mover, d) && q == Along(x, y, d, 1)
  {
    if q in Captures(g, x, y, mover) {
      CapturedIsSandwiched(g, x, y, mover, q);
    }
    if exists d :: d in Directions && Sandwiched(g, x, y, mover, d) && q == Along(x, y, d, 1) {
      var d :| d in Directions && Sandwiched(g, x, y, mover, d) && q == Along(x, y, d, 1);
      SandwichedIsCaptured(g, x, y, mover, d);
    }
  }

  lemma CapturedIsSandwiched(g: Grid, x: int, y: int, mover: Color, q: Pos)
    requires WellFormed(g) && q in Captures(g, x, y, mover)
    ensures exists d :: d in Directions && Sandwiched(g, x, y, mover, d) && q == Along(x, y, d, 1)
  {
    var r := Captures(g, x, y, mover);
    var i :| 0 <= i < |r| && r[i] == q;
    var k :| 0 <= k < |Directions| && Sandwiched(g, x, y, mover, Directions[k]) && r[i] == Along(x, y, Directions[k], 1);
    var d := Directions[k];
    assert d in Directions && Sandwiched(g, x, y, mover, d) && q == Along(x, y, d, 1);
  }

  lemma SandwichedIsCaptured(g: Grid, x: int, y: int, mover: Color, d: Offset)
    requires WellFormed(g) && d in Directions && Sandwiched(g, x, y, mover, d)
    ensures Along(x, y, d, 1) in Captures(g, x, y, mover)
  {
    var k :| 0 <= k < |Directions| && Directions[k] == d;
  }

  /** Different directions lead to different neighbours. */
  lemma NeighboursDistinct(x: int, y: int, i: nat, j: nat)
    requires i < j < |Directions|
    ensures Along(x, y, Directions[i], 1) != Along(x, y, Directions[j], 1)
  {
  }

  /** The captures of one scan are pairwise distinct. */
  lemma {:induction false} CaptureScanDistinct(g: Grid, x: int, y: int, mover: Color, n: nat)
    requires WellFormed(g) && n <= |Directions|
    ensures forall i, j :: 0 <= i < j < |CaptureScan(g, x, y, mover, n)| ==>
              CaptureScan(g, x, y, mover, n)[i] != CaptureScan(g, x, y, mover, n)[j]
  {
    if n > 0 {
      CaptureScanDistinct(g, x, y, mover, n - 1);
      var prev := CaptureScan(g, x, y, mover, n - 1);
      var d := Directions[n - 1];
      forall i | 0 <= i < |prev|
        ensures prev[i] != Along(x, y, d, 1)
      {
        var k :| 0 <= k < n - 1 && Sandwiched(g, x, y, mover, Directions[k]) && prev[i] == Along(x, y, Directions[k], 1);
        NeighboursDistinct(x, y, k, n - 1);
      }
    }
  }

  /** No cell is captured twice by one move. */
  lemma CapturesDistinct(g: Grid, x: int, y: int, mover: Color)
    requires WellFormed(g)
    ensures forall i, j :: 0 <= i < j < |Captures(g, x, y, mover)| ==>
              Captures(g, x, y, mover)[i] != Captures(g, x, y, mover)[j]
  {
    CaptureScanDistinct(g, x, y, mover, |Directions|);
  }

  // ---------------------------------------------------------------------
  // Removing the captured pieces

  /** The grid with every listed cell emptied, in list order. */
  function ClearAll(g: Grid, cs: seq<Pos>): (r: Grid)
    requires WellFormed(g) && forall i :: 0 <= i < |cs| ==> InBounds(cs[i].x, cs[i].y)
    ensures WellFormed(r)
    ensures forall y, x :: InBounds(x, y) ==> r[y][x] == if Pos(x, y) in cs then Empty else g[y][x]
  {
    if cs == [] then g
    else
      var last := cs[|cs| - 1];
      Put(ClearAll(g, cs[..|cs| - 1]), last.x, last.y, Empty)
  }

  /** Clearing distinct cells that all hold colour o removes exactly that many
      o pieces and no piece of any other colour. */
  lemma {:induction false} ClearAllCounts(g: Grid, cs: seq<Pos>, o: Color, c: Color)
    requires WellFormed(g)
    requires forall i :: 0 <= i < |cs| ==> InBounds(cs[i].x, cs[i].y) && g[cs[i].y][cs[i].x] == Piece(o)
    requires forall i, j :: 0 <= i < j < |cs| ==> cs[i] != cs[j]
    ensures Count(ClearAll(g, cs), c) == if c == o then Count(g, c) - |cs| else Count(g, c)
  {
    if cs != [] {
      var n := |cs| - 1;
      var init := cs[..n];
      var last := cs[n];
      ClearAllCounts(g, init, o, c);
      var h := ClearAll(g, init);
      assert last !in init by {
        forall i | 0 <= i < n ensures init[i] != last {
          assert cs[i] != cs[n];
        }
      }
      assert h[last.y][last.x] == Piece(o);
      CountPut(h, last.x, last.y, Empty, c);
    }
  }
}
