/** The board of the game as a value: colours, cells, the 8x8 grid indexed
    g[y][x] (y the row, x the column), the starting position and the piece
    counts. */
module Board {

  /** BOARD_SIZE: the board is Size x Size. */
  const Size: nat := 8

  datatype Color = Black | White

  /** A cell is empty (null in the original) or holds one piece. */
  datatype Cell = Empty | Piece(color: Color)

  datatype Pos = Pos(x: int, y: int)

  /** The other player. */
  function Opponent(c: Color): (o: Color)
    ensures o != c
  {
    if c == Black then White else Black
  }

  predicate InBounds(x: int, y: int) {
    0 <= x < Size && 0 <= y < Size
  }

  /** A board value: a sequence of rows, each a sequence of cells. */
  type Grid = seq<seq<Cell>>

  ghost predicate WellFormed(g: Grid) {
    |g| == Size && forall y :: 0 <= y < Size ==> |g[y]| == Size
  }

  /** The grid with the cell at column x, row y replaced by v. */
  function Put(g: Grid, x: int, y: int, v: Cell): (r: Grid)
    requires WellFormed(g) && InBounds(x, y)
    ensures WellFormed(r) && r[y][x] == v
    ensures forall yy, xx :: InBounds(xx, yy) && Pos(xx, yy) != Pos(x, y) ==> r[yy][xx] == g[yy][xx]
  {
    g[y := g[y][x := v]]
  }

  /** Two well-formed grids that agree on every cell are equal. */
  lemma GridsEqual(a: Grid, b: Grid)
    requires WellFormed(a) && WellFormed(b)
    requires forall y, x :: InBounds(x, y) ==> a[y][x] == b[y][x]
    ensures a == b
  {
    forall y | 0 <= y < Size
      ensures a[y] == b[y]
    {
      assert forall x :: 0 <= x < Size ==> a[y][x] == b[y][x];
    }
  }

  // ---------------------------------------------------------------------
  // Starting position (initBoard)

  /** What initBoard puts in column x of row y. */
  function InitialCell(x: int, y: int): Cell {
    if y == 0 then Piece(Black)
    else if y == Size - 1 then Piece(White)
    else Empty
  }

  function InitialGrid(): (g: Grid)
    ensures WellFormed(g)
    ensures forall y, x :: InBounds(x, y) ==> g[y][x] == InitialCell(x, y)
  {
    seq(Size, y => seq(Size, x => InitialCell(x, y)))
  }

  // ---------------------------------------------------------------------
  // Piece counts (the tally of updateCounters)

  /** 1 when the cell holds a piece of colour c, otherwise 0. */
  function Tally(cell: Cell, c: Color): nat {
    if cell == Piece(c) then 1 else 0
  }

  /** Number of pieces of colour c in a row, counted from the left. */
  function CountRow(row: seq<Cell>, c: Color): (n: nat)
    ensures n <= |row|
  {
    if row == [] then 0
    else CountRow(row[..|row| - 1], c) + Tally(row[|row| - 1], c)
  }

  /** Number of pieces of colour c on the grid, counted row by row. */
  function Count(g: Grid, c: Color): nat {
    if g == [] then 0
    else Count(g[..|g| - 1], c) + CountRow(g[|g| - 1], c)
  }

  /** A row holds no more black and white pieces together than it has cells. */
  lemma {:induction false} CountRowBothBound(row: seq<Cell>)
    ensures CountRow(row, Black) + CountRow(row, White) <= |row|
  {
    if row != [] {
      CountRowBothBound(row[..|row| - 1]);
    }
  }

  /** The two counts of a grid whose rows all have Size cells add up to at
      most Size times the number of rows. */
  lemma {:induction false} CountBothBound(g: Grid)
    requires forall y :: 0 <= y < |g| ==> |g[y]| == Size
    ensures Count(g, Black) + Count(g, White) <= Size * |g|
  {
    if g != [] {
      CountBothBound(g[..|g| - 1]);
      CountRowBothBound(g[|g| - 1]);
    }
  }

  /** On a board there are at most 64 pieces. */
  lemma CountsAtMost64(g: Grid)
    requires WellFormed(g)
    ensures Count(g, Black) + Count(g, White) <= Size * Size
  {
    CountBothBound(g);
  }

  /** Replacing one cell of a row changes its count by what left and what came. */
  lemma {:induction false} CountRowUpdate(row: seq<Cell>, x: int, v: Cell, c: Color)
    requires 0 <= x < |row|
    ensures CountRow(row[x := v], c) == CountRow(row, c) - Tally(row[x], c) + Tally(v, c)
  {
    var n := |row| - 1;
    if x < n {
      CountRowUpdate(row[..n], x, v, c);
      assert row[x := v][..n] == row[..n][x := v];
    } else {
      assert row[x := v][..n] == row[..n];
    }
  }

  /** Replacing one row of a grid changes its count by the two rows' counts. */
  lemma {:induction false} CountRowReplaced(g: Grid, y: int, r: seq<Cell>, c: Color)
    requires 0 <= y < |g|
    ensures Count(g[y := r], c) == Count(g, c) - CountRow(g[y], c) + CountRow(r, c)
  {
    var n := |g| - 1;
    if y < n {
      CountRowReplaced(g[..n], y, r, c);
      assert g[y := r][..n] == g[..n][y := r];
    } else {
      assert g[y := r][..n] == g[..n];
    }
  }

  /** Writing one cell changes a colour's count by at most that cell. */
  lemma CountPut(g: Grid, x: int, y: int, v: Cell, c: Color)
    requires WellFormed(g) && InBounds(x, y)
    ensures Count(Put(g, x, y, v), c) == Count(g, c) - Tally(g[y][x], c) + Tally(v, c)
  {
    CountRowUpdate(g[y], x, v, c);
    CountRowReplaced(g, y, g[y][x := v], c);
  }

  /** A row whose every cell is the same holds all or none of colour c. */
  lemma {:induction false} CountRowUniform(row: seq<Cell>, cell: Cell, c: Color)
    requires forall i :: 0 <= i < |row| ==> row[i] == cell
    ensures CountRow(row, c) == if cell == Piece(c) then |row| else 0
  {
    if row != [] {
      CountRowUniform(row[..|row| - 1], cell, c);
    }
  }

  /** Counts of the first k rows of the starting position. */
  lemma {:induction false} InitialPrefixCounts(k: nat)
    requires k <= Size
    ensures Count(InitialGrid()[..k], Black) == if k >= 1 then Size else 0
    ensures Count(InitialGrid()[..k], White) == if k == Size then Size else 0
  {
    var g := InitialGrid();
    if k > 0 {
      InitialPrefixCounts(k - 1);
      assert g[..k][..k - 1] == g[..k - 1];
      CountRowUniform(g[k - 1], InitialCell(0, k - 1), Black);
      CountRowUniform(g[k - 1], InitialCell(0, k - 1), White);
    }
  }

  /** The starting position has eight black and eight white pieces. */
  lemma InitialCounts()
    ensures Count(InitialGrid(), Black) == Size
    ensures Count(InitialGrid(), White) == Size
  {
    InitialPrefixCounts(Size);
    assert InitialGrid()[..Size] == InitialGrid();
  }
}
