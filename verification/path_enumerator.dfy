/**
 The recursive backtracking search of `generate_all_paths`. `Paths` states,
 as a pure function of the board and the set of cells on the current path,
 the list of path strings the search appends; `Search` follows the C program
 step by step, carrying the grid's visited flags and the growing path set
 through the calls.
 */
module PathEnumerator {
  import opened MazeGrid
  import opened SimpleWalks

  /**
   The path strings a search from (r, c) appends, in order, when the cells in
   `visited` are on the current path and `path` holds the characters so far.
   */
  function Paths(m: Board, visited: set<Pos>, r: int, c: int, path: string): seq<string>
    requires IsSquare(m)
    decreases Cells(|m|) - visited
  {
    if Blocked(m, visited, (r, c)) then []
    else
      var newPath := path + [m[r][c]];
      if c == |m| - 1 then [newPath]
      else
        var v := visited + {(r, c)};
        InCells(|m|, (r, c));
        Paths(m, v, r, c + 1, newPath) + Paths(m, v, r, c - 1, newPath)
          + Paths(m, v, r + 1, c, newPath) + Paths(m, v, r - 1, c, newPath)
  }

  /** One unfolding of Paths on an admissible cell outside the rightmost column. */
  lemma PathsUnfold(m: Board, visited: set<Pos>, r: int, c: int, path: string)
    requires IsSquare(m) && !Blocked(m, visited, (r, c)) && c != |m| - 1
    ensures var v, newPath := visited + {(r, c)}, path + [m[r][c]];
      Paths(m, visited, r, c, path)
      == Paths(m, v, r, c + 1, newPath) + Paths(m, v, r, c - 1, newPath)
       + Paths(m, v, r + 1, c, newPath) + Paths(m, v, r - 1, c, newPath)
  {
  }

  /** The base-case test of generate_all_paths is Blocked on the grid's characters and visited flags. */
  lemma BaseCaseIsBlocked(g: Grid, r: int, c: int)
    requires IsSquare(g)
    ensures Blocked(Chars(g), VisitedOf(g), (r, c))
        <==> (c > |g| - 1 || c < 0 || r > |g| - 1 || r < 0 || g[r][c].character == Wall || g[r][c].visited)
  {
  }

  /**
   Regrouping the four branches' path lists after the path set. Stated apart
   so that Search's proof meets this fact as one step.
   */
  lemma AppendFour<T>(s: seq<T>, a: seq<T>, b: seq<T>, c: seq<T>, d: seq<T>)
    ensures s + a + b + c + d == s + (a + b + c + d)
  {
  }

  /**
   One call of the search. Out of bounds, on a wall or on a visited cell it
   returns at once. On an admissible cell of the rightmost column it records
   the path extended by that cell and stops. Elsewhere it marks the cell,
   searches its neighbours with the extended path, and unmarks the cell. The
   result is the grid as the call leaves it and the path set.
   */
  function Search(g: Grid, r: int, c: int, path: string, pathset: seq<string>): (res: (Grid, seq<string>))
    requires IsSquare(g)
    ensures res.0 == g
    ensures res.1 == pathset + Paths(Chars(g), VisitedOf(g), r, c, path)
    ensures Blocked(Chars(g), VisitedOf(g), (r, c)) ==> res.1 == pathset
    ensures !Blocked(Chars(g), VisitedOf(g), (r, c)) && c == |g| - 1 ==>
              res.1 == pathset + [path + [g[r][c].character]]
    decreases Cells(|g|) - VisitedOf(g), 0
  {
    var n := |g|;
    BaseCaseIsBlocked(g, r, c);
    if c > n - 1 || c < 0 || r > n - 1 || r < 0 || g[r][c].character == Wall || g[r][c].visited then
      (g, pathset)
    else
      var newPath := path + [g[r][c].character];
      if c == n - 1 then
        (g, pathset + [newPath])
      else
        var p := (r, c);
        InCells(n, p);
        PathsUnfold(Chars(g), VisitedOf(g), r, c, path);
        var marked := SetVisited(g, p, true);
        var res := SearchNeighbours(marked, r, c, newPath, pathset);
        var m, v := Chars(g), VisitedOf(g) + {p};
        AppendFour(pathset, Paths(m, v, r, c + 1, newPath), Paths(m, v, r, c - 1, newPath),
                   Paths(m, v, r + 1, c, newPath), Paths(m, v, r - 1, c, newPath));
        SetThenClear(g, p);
        (SetVisited(res.0, p, false), res.1)
  }

  /**
   The four recursive calls of the search from the marked cell (r, c), in the
   order right, left, down, up, each with the same extended path.
   */
  function SearchNeighbours(g: Grid, r: int, c: int, path: string, pathset: seq<string>): (res: (Grid, seq<string>))
    requires IsSquare(g)
    ensures res.0 == g
    ensures var m, v := Chars(g), VisitedOf(g);
      res.1 == pathset + Paths(m, v, r, c + 1, path) + Paths(m, v, r, c - 1, path)
                       + Paths(m, v, r + 1, c, path) + Paths(m, v, r - 1, c, path)
    decreases Cells(|g|) - VisitedOf(g), 1
  {
    var res1 := Search(g, r, c + 1, path, pathset);
    var res2 := Search(res1.0, r, c - 1, path, res1.1);
    var res3 := Search(res2.0, r + 1, c, path, res2.1);
    Search(res3.0, r - 1, c, path, res3.1)
  }

  /** The characters of the cells a walk passes through, in order. */
  function Trace(m: Board, w: seq<Pos>): string
    requires IsSquare(m)
  {
    seq(|w|, i requires 0 <= i < |w| => CharAt(m, w[i]))
  }

  /** Each walk's characters appended to a common prefix. */
  function TraceAll(m: Board, path: string, ws: seq<seq<Pos>>): seq<string>
    requires IsSquare(m)
  {
    seq(|ws|, i requires 0 <= i < |ws| => path + Trace(m, ws[i]))
  }

  lemma TraceAllConcat(m: Board, path: string, a: seq<seq<Pos>>, b: seq<seq<Pos>>)
    requires IsSquare(m)
    ensures TraceAll(m, path, a + b) == TraceAll(m, path, a) + TraceAll(m, path, b)
  {
    var l, r := TraceAll(m, path, a + b), TraceAll(m, path, a) + TraceAll(m, path, b);
    forall i | 0 <= i < |l| ensures l[i] == r[i] {
      if i < |a| {
        assert (a + b)[i] == a[i];
      } else {
        assert (a + b)[i] == b[i - |a|];
      }
    }
  }

  lemma TraceCons(m: Board, p: Pos, w: seq<Pos>)
    requires IsSquare(m)
    ensures Trace(m, [p] + w) == [CharAt(m, p)] + Trace(m, w)
  {
    var l, r := Trace(m, [p] + w), [CharAt(m, p)] + Trace(m, w);
    forall i | 0 <= i < |l| ensures l[i] == r[i] {
      if i > 0 {
        assert ([p] + w)[i] == w[i - 1];
        assert r[i] == Trace(m, w)[i - 1];
      }
    }
  }

  lemma TraceAllPrepend(m: Board, path: string, p: Pos, ws: seq<seq<Pos>>)
    requires IsSquare(m)
    ensures TraceAll(m, path, Prepend(p, ws)) == TraceAll(m, path + [CharAt(m, p)], ws)
  {
    var pre := Prepend(p, ws);
    var l, r := TraceAll(m, path, pre), TraceAll(m, path + [CharAt(m, p)], ws);
    forall i | 0 <= i < |l| ensures l[i] == r[i] {
      TraceCons(m, p, ws[i]);
      var t, ch := Trace(m, ws[i]), CharAt(m, p);
      assert l[i] == path + ([ch] + t);
      assert r[i] == (path + [ch]) + t;
    }
  }

  /** Tracing the four branches of an unfolded Walks is tracing each branch after the current cell. */
  lemma TraceAllBranches(m: Board, path: string, p: Pos, w0: seq<seq<Pos>>, w1: seq<seq<Pos>>,
                         w2: seq<seq<Pos>>, w3: seq<seq<Pos>>)
    requires IsSquare(m)
    ensures var newPath := path + [CharAt(m, p)];
      TraceAll(m, path, Prepend(p, w0) + Prepend(p, w1) + Prepend(p, w2) + Prepend(p, w3))
      == TraceAll(m, newPath, w0) + TraceAll(m, newPath, w1) + TraceAll(m, newPath, w2) + TraceAll(m, newPath, w3)
  {
    TraceAllPrepend(m, path, p, w0);
    TraceAllPrepend(m, path, p, w1);
    TraceAllPrepend(m, path, p, w2);
    TraceAllPrepend(m, path, p, w3);
    var a, b, c, d := Prepend(p, w0), Prepend(p, w1), Prepend(p, w2), Prepend(p, w3);
    TraceAllConcat(m, path, a, b);
    TraceAllConcat(m, path, a + b, c);
    TraceAllConcat(m, path, a + b + c, d);
  }

  /** The recursive case of PathsAreTraces, given the claim for the four neighbours. */
  lemma {:induction false} PathsAreTracesStep(m: Board, visited: set<Pos>, r: int, c: int, path: string)
    requires IsSquare(m) && !Blocked(m, visited, (r, c)) && c != |m| - 1
    requires var v, newPath := visited + {(r, c)}, path + [m[r][c]];
      && Paths(m, v, r, c + 1, newPath) == TraceAll(m, newPath, Walks(m, v, (r, c + 1)))
      && Paths(m, v, r, c - 1, newPath) == TraceAll(m, newPath, Walks(m, v, (r, c - 1)))
      && Paths(m, v, r + 1, c, newPath) == TraceAll(m, newPath, Walks(m, v, (r + 1, c)))
      && Paths(m, v, r - 1, c, newPath) == TraceAll(m, newPath, Walks(m, v, (r - 1, c)))
    ensures Paths(m, visited, r, c, path) == TraceAll(m, path, Walks(m, visited, (r, c)))
  {
    var p, v := (r, c), visited + {(r, c)};
    assert CharAt(m, p) == m[r][c];
    var w0, w1, w2, w3 := Walks(m, v, (r, c + 1)), Walks(m, v, (r, c - 1)), Walks(m, v, (r + 1, c)), Walks(m, v, (r - 1, c));
    TraceAllBranches(m, path, p, w0, w1, w2, w3);
    WalksUnfoldAt(m, visited, r, c);
    PathsUnfold(m, visited, r, c, path);
  }

  /** The goal case of PathsAreTraces: one walk of one cell, one path string. */
  lemma PathsAreTracesGoal(m: Board, visited: set<Pos>, r: int, c: int, path: string)
    requires IsSquare(m) && !Blocked(m, visited, (r, c)) && c == |m| - 1
    ensures Paths(m, visited, r, c, path) == TraceAll(m, path, Walks(m, visited, (r, c)))
  {
    assert Walks(m, visited, (r, c)) == [[(r, c)]];
    assert Trace(m, [(r, c)]) == [m[r][c]];
  }

  /**
   The path strings are exactly the characters of the recorded walks, in the
   same order, each after the path so far.
   */
  lemma {:induction false} PathsAreTraces(m: Board, visited: set<Pos>, r: int, c: int, path: string)
    requires IsSquare(m)
    ensures Paths(m, visited, r, c, path) == TraceAll(m, path, Walks(m, visited, (r, c)))
    decreases Cells(|m|) - visited
  {
    var p := (r, c);
    if Blocked(m, visited, p) {
    } else if c == |m| - 1 {
      PathsAreTracesGoal(m, visited, r, c, path);
    } else {
      var v, newPath := visited + {p}, path + [m[r][c]];
      InCells(|m|, p);
      PathsAreTraces(m, v, r, c + 1, newPath);
      PathsAreTraces(m, v, r, c - 1, newPath);
      PathsAreTraces(m, v, r + 1, c, newPath);
      PathsAreTraces(m, v, r - 1, c, newPath);
      PathsAreTracesStep(m, visited, r, c, path);
    }
  }

  /**
   The search from the origin of a grid with no cell marked records one path
   string per simple walk from (0, 0) to the rightmost column that avoids
   walls, each walk exactly once and in the search's order; every such string
   is at most N * N characters long, and every visited flag is clear again
   when the search returns.
   */
  lemma {:induction false} SearchFindsEverySimpleWalk(g: Grid)
    requires IsSquare(g) && VisitedOf(g) == {}
    ensures var res, m := Search(g, 0, 0, "", []), Chars(g);
      var ws := Walks(m, {}, (0, 0));
      && res.0 == g
      && VisitedOf(res.0) == {}
      && Distinct(ws)
      && (forall w :: w in ws <==> ValidWalk(m, {}, w) && w[0] == (0, 0))
      && |res.1| == |ws|
      && (forall i :: 0 <= i < |ws| ==> res.1[i] == Trace(m, ws[i]))
      && (forall i :: 0 <= i < |res.1| ==> |res.1[i]| <= |g| * |g|)
  {
    var m := Chars(g);
    var ws := Walks(m, {}, (0, 0));
    PathsAreTraces(m, {}, 0, 0, "");
    WalksDistinct(m, {}, (0, 0));
    WalksExactlyValid(m, {}, (0, 0));
    TracesAreBounded(m, ws);
  }

  /** The strings traced along valid walks are at most N * N characters long. */
  lemma TracesAreBounded(m: Board, ws: seq<seq<Pos>>)
    requires IsSquare(m)
    requires forall w :: w in ws ==> ValidWalk(m, {}, w)
    ensures forall i :: 0 <= i < |ws| ==> |TraceAll(m, "", ws)[i]| <= |m| * |m|
  {
    forall i | 0 <= i < |ws| ensures |TraceAll(m, "", ws)[i]| <= |m| * |m| {
      assert ws[i] in ws;
      ValidWalkLength(m, {}, ws[i]);
    }
  }

  /**
   A one-cell maze: an open cell is at once start and finish, so the search
   records the single one-character path; a wall records nothing.
   */
  lemma OneCellExamples()
    ensures Search([[Cell('5', false)]], 0, 0, "", []).1 == ["5"]
    ensures Search([[Cell(Wall, false)]], 0, 0, "", []).1 == []
  {
    var g := [[Cell('5', false)]];
    assert IsSquare(g) && Chars(g)[0][0] == '5' && (0, 0) !in VisitedOf(g);
    assert "" + [g[0][0].character] == "5";
  }

  /**
   A 2 x 2 maze whose right column is walled records nothing: the search
   walks down the left column and back without reaching the finish.
   */
  lemma WalledFinishExample()
    ensures Search([[Cell('1', false), Cell(Wall, false)], [Cell('2', false), Cell(Wall, false)]], 0, 0, "", []).1 == []
  {
    var g := [[Cell('1', false), Cell(Wall, false)], [Cell('2', false), Cell(Wall, false)]];
    assert Chars(g)[0] == ['1', Wall] && Chars(g)[1] == ['2', Wall];
    assert VisitedOf(g) == {};
    WalledFinishPaths(Chars(g));
  }

  lemma WalledFinishPaths(m: Board)
    requires |m| == 2 && m[0] == ['1', Wall] && m[1] == ['2', Wall]
    ensures Paths(m, {}, 0, 0, "") == []
  {
    var v1, v2 := {(0, 0)}, {(0, 0), (1, 0)};
    PathsUnfold(m, v1, 1, 0, "1");
    assert Paths(m, v2, 1, 1, "12") == [] && Paths(m, v2, 0, 0, "12") == [];
    PathsUnfold(m, {}, 0, 0, "");
    assert Paths(m, v1, 0, 1, "1") == [];
  }
}
