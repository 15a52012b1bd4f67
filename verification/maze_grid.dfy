/**
 The in-memory maze: an N-by-N array of cells, each holding the character read
 from the maze file and the transient "visited" flag used by the search.
 */
module MazeGrid {

  /** A (row, column) coordinate; it may lie outside the grid. */
  type Pos = (int, int)

  /** One maze cell: its character and whether it lies on the path being explored. */
  datatype Cell = Cell(character: char, visited: bool)

  /** The maze with its visited flags. */
  type Grid = seq<seq<Cell>>

  /** The maze characters alone, without flags. */
  type Board = seq<seq<char>>

  /** The wall marker; every other character is open floor. */
  const Wall: char := '*'

  /** Every row is as long as there are rows. */
  predicate IsSquare<T>(g: seq<seq<T>>) {
    forall r :: 0 <= r < |g| ==> |g[r]| == |g|
  }

  predicate InBounds(n: int, p: Pos) {
    0 <= p.0 < n && 0 <= p.1 < n
  }

  /** The character at p; a coordinate off the board reads as a wall. */
  function CharAt(m: Board, p: Pos): char
    requires IsSquare(m)
  {
    if InBounds(|m|, p) then m[p.0][p.1] else Wall
  }

  /** All coordinates of an n-by-n grid. */
  function Cells(n: int): set<Pos> {
    set r, c | 0 <= r < n && 0 <= c < n :: (r, c)
  }

  lemma InCells(n: int, p: Pos)
    requires InBounds(n, p)
    ensures p in Cells(n)
  {
    var (r, c) := p;
    assert (r, c) in Cells(n);
  }

  /** The characters of a grid, dropping the visited flags. */
  function Chars(g: Grid): (m: Board)
    requires IsSquare(g)
    ensures |m| == |g| && IsSquare(m)
    ensures forall r, c :: 0 <= r < |g| && 0 <= c < |g| ==> m[r][c] == g[r][c].character
  {
    seq(|g|, r requires 0 <= r < |g| => seq(|g[r]|, c requires 0 <= c < |g[r]| => g[r][c].character))
  }

  /** The coordinates whose visited flag is set. */
  function VisitedOf(g: Grid): (v: set<Pos>)
    requires IsSquare(g)
    ensures v <= Cells(|g|)
    ensures forall r, c :: 0 <= r < |g| && 0 <= c < |g| ==> ((r, c) in v <==> g[r][c].visited)
  {
    set r, c | 0 <= r < |g| && 0 <= c < |g| && g[r][c].visited :: (r, c)
  }

  /** Sets the visited flag of cell p to b, as `maze[row][column].visited = ...` does. */
  function SetVisited(g: Grid, p: Pos, b: bool): (g': Grid)
    requires IsSquare(g) && InBounds(|g|, p)
    ensures |g'| == |g| && IsSquare(g')
    ensures Chars(g') == Chars(g)
    ensures VisitedOf(g') == if b then VisitedOf(g) + {p} else VisitedOf(g) - {p}
  {
    var g' := g[p.0 := g[p.0][p.1 := g[p.0][p.1].(visited := b)]];
    assert forall r, c :: 0 <= r < |g| && 0 <= c < |g| ==>
      g'[r][c] == if (r, c) == p then g[r][c].(visited := b) else g[r][c];
    assert forall r :: 0 <= r < |g| ==> Chars(g')[r] == Chars(g)[r];
    g'
  }

  /** Clearing a flag that was just set gives back the grid as it was before setting it. */
  lemma SetThenClear(g: Grid, p: Pos)
    requires IsSquare(g) && InBounds(|g|, p) && !g[p.0][p.1].visited
    ensures SetVisited(SetVisited(g, p, true), p, false) == g
  {
    var g2 := SetVisited(SetVisited(g, p, true), p, false);
    assert g2[p.0][p.1] == g[p.0][p.1];
    assert forall r :: 0 <= r < |g| ==> g2[r] == g[r];
  }

  /** The cells of the first k rows of a grid n columns wide. */
  function Block(k: int, n: int): set<Pos> {
    set r, c | 0 <= r < k && 0 <= c < n :: (r, c)
  }

  /** The first n cells of row r. */
  function Row(r: int, n: int): set<Pos> {
    set c | 0 <= c < n :: (r, c)
  }

  lemma {:induction false} RowCount(r: int, n: nat)
    ensures |Row(r, n)| == n
  {
    if n > 0 {
      RowCount(r, n - 1);
      assert Row(r, n) == Row(r, n - 1) + {(r, n - 1)};
    }
  }

  /** The first k rows are the first k - 1 rows and, apart from them, row k - 1. */
  lemma BlockSplit(k: nat, n: nat)
    requires k > 0
    ensures Block(k, n) == Block(k - 1, n) + Row(k - 1, n)
    ensures Block(k - 1, n) !! Row(k - 1, n)
  {
    forall p | p in Block(k, n) ensures p in Block(k - 1, n) + Row(k - 1, n) {
      var (r, c) := p;
      if r < k - 1 {
        assert (r, c) in Block(k - 1, n);
      } else {
        assert (r, c) in Row(k - 1, n);
      }
    }
    forall p | p in Row(k - 1, n) ensures p in Block(k, n) {
      var (r, c) := p;
      assert (r, c) in Block(k, n);
    }
    forall p | p in Block(k - 1, n) ensures p in Block(k, n) && p !in Row(k - 1, n) {
      var (r, c) := p;
      assert (r, c) in Block(k, n);
    }
  }

  lemma {:induction false} BlockCount(k: nat, n: nat)
    ensures |Block(k, n)| == k * n
  {
    if k > 0 {
      BlockCount(k - 1, n);
      RowCount(k - 1, n);
      BlockSplit(k, n);
      var b, row := Block(k - 1, n), Row(k - 1, n);
      assert |b + row| == |b| + |row|;
      assert k * n == (k - 1) * n + n;
    }
  }

  /** An n-by-n grid has n * n cells. */
  lemma CellsCount(n: nat)
    ensures |Cells(n)| == n * n
  {
    BlockCount(n, n);
    assert Cells(n) == Block(n, n);
  }
}
