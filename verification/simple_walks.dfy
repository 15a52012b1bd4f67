/**
 The meaning of the maze search: a walk is a sequence of grid coordinates. The
 search records exactly the simple 4-connected walks that start at the origin,
 avoid walls and cells already on the current path, and stop at the first
 cell they reach in the rightmost column.
 */
module SimpleWalks {
  import opened MazeGrid

  /** No element occurs twice. */
  ghost predicate Distinct<T>(s: seq<T>) {
    forall i, j :: 0 <= i < j < |s| ==> s[i] != s[j]
  }

  /** q is one step right, left, down or up from p. */
  predicate Adjacent(p: Pos, q: Pos) {
    q == (p.0, p.1 + 1) || q == (p.0, p.1 - 1) || q == (p.0 + 1, p.1) || q == (p.0 - 1, p.1)
  }

  /** The search's base case: out of bounds, a wall, or already on the current path. */
  predicate Blocked(m: Board, visited: set<Pos>, p: Pos)
    requires IsSquare(m)
  {
    !InBounds(|m|, p) || m[p.0][p.1] == Wall || p in visited
  }

  /** Every cell of w lies on an n-by-n grid. */
  predicate OnBoard(n: int, w: seq<Pos>) {
    forall i :: 0 <= i < |w| ==> InBounds(n, w[i])
  }

  /**
   w is a walk the search records when started at w[0] with the given cells
   already on the path: it is a simple 4-connected walk through open cells
   outside `visited`, it ends in the rightmost column, and no earlier cell is
   in that column.
   */
  ghost predicate ValidWalk(m: Board, visited: set<Pos>, w: seq<Pos>)
    requires IsSquare(m)
  {
    && |w| >= 1
    && OnBoard(|m|, w)
    && (forall i :: 0 <= i < |w| ==> !Blocked(m, visited, w[i]))
    && Distinct(w)
    && (forall i :: 0 <= i < |w| - 1 ==> Adjacent(w[i], w[i + 1]))
    && (forall i :: 0 <= i < |w| - 1 ==> w[i].1 != |m| - 1)
    && w[|w| - 1].1 == |m| - 1
  }

  /** Each walk of ws with p put in front. */
  function Prepend(p: Pos, ws: seq<seq<Pos>>): (r: seq<seq<Pos>>)
    ensures |r| == |ws|
    ensures forall i :: 0 <= i < |ws| ==> r[i] == [p] + ws[i]
  {
    seq(|ws|, i requires 0 <= i < |ws| => [p] + ws[i])
  }

  /**
   An admissible cell outside the rightmost column, put in front of a walk
   that is valid with that cell marked and starts next to it, gives a walk
   valid without the mark.
   */
  lemma ExtendWalk(m: Board, visited: set<Pos>, p: Pos, w: seq<Pos>)
    requires IsSquare(m)
    requires !Blocked(m, visited, p) && p.1 != |m| - 1
    requires ValidWalk(m, visited + {p}, w) && Adjacent(p, w[0])
    ensures ValidWalk(m, visited, [p] + w)
  {
    var w' := [p] + w;
    assert forall i :: 1 <= i < |w'| ==> w'[i] == w[i - 1];
    forall i, j | 0 <= i < j < |w'| ensures w'[i] != w'[j] {
      if i == 0 {
        assert w'[j] == w[j - 1];
        assert !Blocked(m, visited + {p}, w[j - 1]);
      } else {
        assert w'[i] == w[i - 1] && w'[j] == w[j - 1];
      }
    }
    forall i | 0 <= i < |w'| - 1 ensures Adjacent(w'[i], w'[i + 1]) {
      if i > 0 {
        assert Adjacent(w[i - 1], w[i]);
      }
    }
    forall i | 0 <= i < |w'| ensures !Blocked(m, visited, w'[i]) {
      if i > 0 {
        assert !Blocked(m, visited + {p}, w[i - 1]);
      }
    }
  }

  /** Every walk of ws, with p put in front, is valid when p may precede it. */
  lemma ExtendWalks(m: Board, visited: set<Pos>, p: Pos, q: Pos, ws: seq<seq<Pos>>)
    requires IsSquare(m)
    requires !Blocked(m, visited, p) && p.1 != |m| - 1 && Adjacent(p, q)
    requires forall w :: w in ws ==> ValidWalk(m, visited + {p}, w) && w[0] == q
    ensures forall w :: w in Prepend(p, ws) ==> ValidWalk(m, visited, w)
  {
    var r := Prepend(p, ws);
    forall w | w in r ensures ValidWalk(m, visited, w) {
      var i :| 0 <= i < |r| && r[i] == w;
      assert ws[i] in ws;
      ExtendWalk(m, visited, p, ws[i]);
    }
  }

  lemma PrependStarts(p: Pos, ws: seq<seq<Pos>>)
    ensures forall w :: w in Prepend(p, ws) ==> |w| >= 1 && w[0] == p
  {
  }

  /** The four neighbours in the order the search tries them: right, left, down, up. */
  function Neighbours(p: Pos): seq<Pos> {
    [(p.0, p.1 + 1), (p.0, p.1 - 1), (p.0 + 1, p.1), (p.0 - 1, p.1)]
  }

  lemma NeighboursAreAdjacent(p: Pos)
    ensures |Neighbours(p)| == 4 && Distinct(Neighbours(p))
    ensures forall q :: Adjacent(p, q) <==> q in Neighbours(p)
  {
  }

  /** The walks the search records from p, in the order it records them. */
  function Walks(m: Board, visited: set<Pos>, p: Pos): seq<seq<Pos>>
    requires IsSquare(m)
    decreases Cells(|m|) - visited
  {
    if Blocked(m, visited, p) then []
    else if p.1 == |m| - 1 then [[p]]
    else
      var v := visited + {p};
      InCells(|m|, p);
      var ns := Neighbours(p);
      Prepend(p, Walks(m, v, ns[0])) + Prepend(p, Walks(m, v, ns[1]))
        + Prepend(p, Walks(m, v, ns[2])) + Prepend(p, Walks(m, v, ns[3]))
  }

  /** One unfolding of Walks on an open cell outside the rightmost column. */
  lemma WalksUnfold(m: Board, visited: set<Pos>, p: Pos)
    requires IsSquare(m) && !Blocked(m, visited, p) && p.1 != |m| - 1
    ensures var v, ns := visited + {p}, Neighbours(p);
      Walks(m, visited, p)
      == Prepend(p, Walks(m, v, ns[0])) + Prepend(p, Walks(m, v, ns[1]))
       + Prepend(p, Walks(m, v, ns[2])) + Prepend(p, Walks(m, v, ns[3]))
  {
  }

  /** WalksUnfold with the four neighbours of (r, c) written out. */
  lemma WalksUnfoldAt(m: Board, visited: set<Pos>, r: int, c: int)
    requires IsSquare(m) && !Blocked(m, visited, (r, c)) && c != |m| - 1
    ensures var v := visited + {(r, c)};
      Walks(m, visited, (r, c))
      == Prepend((r, c), Walks(m, v, (r, c + 1))) + Prepend((r, c), Walks(m, v, (r, c - 1)))
       + Prepend((r, c), Walks(m, v, (r + 1, c))) + Prepend((r, c), Walks(m, v, (r - 1, c)))
  {
    var ns := Neighbours((r, c));
    assert ns[0] == (r, c + 1) && ns[1] == (r, c - 1) && ns[2] == (r + 1, c) && ns[3] == (r - 1, c);
    WalksUnfold(m, visited, (r, c));
  }

  /** Every walk recorded from p starts at p. */
  lemma {:induction false} WalksStart(m: Board, visited: set<Pos>, p: Pos)
    requires IsSquare(m)
    ensures forall w :: w in Walks(m, visited, p) ==> |w| >= 1 && w[0] == p
  {
    if !Blocked(m, visited, p) && p.1 != |m| - 1 {
      var v, ns := visited + {p}, Neighbours(p);
      PrependStarts(p, Walks(m, v, ns[0]));
      PrependStarts(p, Walks(m, v, ns[1]));
      PrependStarts(p, Walks(m, v, ns[2]));
      PrependStarts(p, Walks(m, v, ns[3]));
      WalksUnfold(m, visited, p);
    }
  }

  /** Soundness: every walk the search records is valid. */
  lemma {:induction false} WalksSound(m: Board, visited: set<Pos>, p: Pos)
    requires IsSquare(m)
    ensures forall w :: w in Walks(m, visited, p) ==> ValidWalk(m, visited, w)
    decreases Cells(|m|) - visited
  {
    if Blocked(m, visited, p) {
    } else if p.1 == |m| - 1 {
      var w := [p];
      assert Walks(m, visited, p) == [w];
      assert ValidWalk(m, visited, w);
    } else {
      var v := visited + {p};
      InCells(|m|, p);
      var ns := Neighbours(p);
      WalksSound(m, v, ns[0]);
      WalksSound(m, v, ns[1]);
      WalksSound(m, v, ns[2]);
      WalksSound(m, v, ns[3]);
      WalksStart(m, v, ns[0]);
      WalksStart(m, v, ns[1]);
      WalksStart(m, v, ns[2]);
      WalksStart(m, v, ns[3]);
      ExtendWalks(m, visited, p, ns[0], Walks(m, v, ns[0]));
      ExtendWalks(m, visited, p, ns[1], Walks(m, v, ns[1]));
      ExtendWalks(m, visited, p, ns[2], Walks(m, v, ns[2]));
      ExtendWalks(m, visited, p, ns[3], Walks(m, v, ns[3]));
      WalksUnfold(m, visited, p);
    }
  }

  lemma PrependContains(p: Pos, ws: seq<seq<Pos>>, w: seq<Pos>)
    requires w in ws
    ensures [p] + w in Prepend(p, ws)
  {
    var i :| 0 <= i < |ws| && ws[i] == w;
    assert Prepend(p, ws)[i] == [p] + w;
  }

  /** A walk recorded from a neighbour q of an open cell p, with p put in front, is recorded from p. */
  lemma WalksCompleteStep(m: Board, visited: set<Pos>, p: Pos, rest: seq<Pos>)
    requires IsSquare(m) && !Blocked(m, visited, p) && p.1 != |m| - 1
    requires |rest| >= 1 && Adjacent(p, rest[0]) && rest in Walks(m, visited + {p}, rest[0])
    ensures [p] + rest in Walks(m, visited, p)
  {
    var v, r, c := visited + {p}, p.0, p.1;
    PrependContains(p, Walks(m, v, rest[0]), rest);
    var a, b, c', d := Prepend(p, Walks(m, v, (r, c + 1))), Prepend(p, Walks(m, v, (r, c - 1))),
                       Prepend(p, Walks(m, v, (r + 1, c))), Prepend(p, Walks(m, v, (r - 1, c)));
    WalksUnfoldAt(m, visited, r, c);
    assert [p] + rest in a + b + c' + d;
  }

  /**
   Completeness: every valid walk is among the walks the search records from
   its first cell.
   */
  lemma {:induction false} WalksComplete(m: Board, visited: set<Pos>, w: seq<Pos>)
    requires IsSquare(m) && ValidWalk(m, visited, w)
    ensures w in Walks(m, visited, w[0])
    decreases Cells(|m|) - visited
  {
    var p := w[0];
    assert !Blocked(m, visited, p);
    if p.1 == |m| - 1 {
      assert |w| == 1;
      assert w == [p];
    } else {
      var v := visited + {p};
      var rest := w[1..];
      assert w == [p] + rest;
      assert forall i :: 0 <= i < |rest| ==> rest[i] == w[i + 1];
      forall i | 0 <= i < |rest| ensures !Blocked(m, v, rest[i]) {
        assert w[0] != w[i + 1];
      }
      assert ValidWalk(m, v, rest);
      InCells(|m|, p);
      WalksComplete(m, v, rest);
      assert Adjacent(p, rest[0]);
      WalksCompleteStep(m, visited, p, rest);
    }
  }

  lemma DistinctConcat<T>(a: seq<T>, b: seq<T>)
    requires Distinct(a) && Distinct(b)
    requires forall x, y :: x in a && y in b ==> x != y
    ensures Distinct(a + b)
  {
    forall i, j | 0 <= i < j < |a + b| ensures (a + b)[i] != (a + b)[j] {
      if j < |a| {
      } else if i >= |a| {
        assert (a + b)[i] == b[i - |a|] && (a + b)[j] == b[j - |a|];
      } else {
        assert (a + b)[i] in a && (a + b)[j] in b;
      }
    }
  }

  lemma DistinctPrepend(p: Pos, ws: seq<seq<Pos>>)
    requires Distinct(ws)
    ensures Distinct(Prepend(p, ws))
  {
    var r := Prepend(p, ws);
    forall i, j | 0 <= i < j < |r| ensures r[i] != r[j] {
      assert r[i][1..] == ws[i];
      assert r[j][1..] == ws[j];
    }
  }

  /** Every walk recorded through the first step q has q as its second cell. */
  lemma {:induction false} BranchSecond(m: Board, visited: set<Pos>, p: Pos, q: Pos)
    requires IsSquare(m)
    ensures forall x :: x in Prepend(p, Walks(m, visited, q)) ==> |x| >= 2 && x[1] == q
  {
    var ws := Walks(m, visited, q);
    WalksStart(m, visited, q);
    forall x | x in Prepend(p, ws) ensures |x| >= 2 && x[1] == q {
      var i :| 0 <= i < |ws| && Prepend(p, ws)[i] == x;
      assert ws[i] in ws;
    }
  }

  lemma DisjointBySecond(a: seq<seq<Pos>>, b: seq<seq<Pos>>, sa: set<Pos>, sb: set<Pos>)
    requires forall x :: x in a ==> |x| >= 2 && x[1] in sa
    requires forall y :: y in b ==> |y| >= 2 && y[1] in sb
    requires sa !! sb
    ensures forall x, y :: x in a && y in b ==> x != y
  {
  }

  /** Four lists of walks, each without repeats and told apart by their second cells, concatenate without repeats. */
  lemma DistinctBranches(a: seq<seq<Pos>>, b: seq<seq<Pos>>, c: seq<seq<Pos>>, d: seq<seq<Pos>>, ns: seq<Pos>)
    requires |ns| == 4 && Distinct(ns)
    requires Distinct(a) && Distinct(b) && Distinct(c) && Distinct(d)
    requires forall x :: x in a ==> |x| >= 2 && x[1] == ns[0]
    requires forall x :: x in b ==> |x| >= 2 && x[1] == ns[1]
    requires forall x :: x in c ==> |x| >= 2 && x[1] == ns[2]
    requires forall x :: x in d ==> |x| >= 2 && x[1] == ns[3]
    ensures Distinct(a + b + c + d)
  {
    DisjointBySecond(a, b, {ns[0]}, {ns[1]});
    DistinctConcat(a, b);
    DisjointBySecond(a + b, c, {ns[0], ns[1]}, {ns[2]});
    DistinctConcat(a + b, c);
    DisjointBySecond(a + b + c, d, {ns[0], ns[1], ns[2]}, {ns[3]});
    DistinctConcat(a + b + c, d);
  }

  /** The search never records the same walk twice. */
  lemma {:induction false} WalksDistinct(m: Board, visited: set<Pos>, p: Pos)
    requires IsSquare(m)
    ensures Distinct(Walks(m, visited, p))
    decreases Cells(|m|) - visited
  {
    if Blocked(m, visited, p) || p.1 == |m| - 1 {
    } else {
      var v := visited + {p};
      InCells(|m|, p);
      var ns := Neighbours(p);
      var w0, w1, w2, w3 := Walks(m, v, ns[0]), Walks(m, v, ns[1]), Walks(m, v, ns[2]), Walks(m, v, ns[3]);
      WalksDistinct(m, v, ns[0]);
      WalksDistinct(m, v, ns[1]);
      WalksDistinct(m, v, ns[2]);
      WalksDistinct(m, v, ns[3]);
      DistinctPrepend(p, w0);
      DistinctPrepend(p, w1);
      DistinctPrepend(p, w2);
      DistinctPrepend(p, w3);
      BranchSecond(m, v, p, ns[0]);
      BranchSecond(m, v, p, ns[1]);
      BranchSecond(m, v, p, ns[2]);
      BranchSecond(m, v, p, ns[3]);
      WalksUnfold(m, visited, p);
      NeighboursAreAdjacent(p);
      DistinctBranches(Prepend(p, w0), Prepend(p, w1), Prepend(p, w2), Prepend(p, w3), ns);
    }
  }

  /** A sequence without repeats has as many distinct elements as it is long. */
  lemma {:induction false} DistinctCount<T>(s: seq<T>)
    requires Distinct(s)
    ensures |set x | x in s| == |s|
  {
    if |s| > 0 {
      var init := s[..|s| - 1];
      DistinctCount(init);
      assert s == init + [s[|s| - 1]];
      assert (set x | x in s) == (set x | x in init) + {s[|s| - 1]};
    }
  }

  /** A recorded walk visits each of the n * n cells at most once, so it is at most n * n cells long. */
  lemma ValidWalkLength(m: Board, visited: set<Pos>, w: seq<Pos>)
    requires IsSquare(m) && ValidWalk(m, visited, w)
    ensures |w| <= |m| * |m|
  {
    DistinctCount(w);
    forall x | x in w ensures x in Cells(|m|) {
      InCells(|m|, x);
    }
    var elems := set x | x in w;
    assert elems <= Cells(|m|);
    CellsCount(|m|);
    assert Cells(|m|) == elems + (Cells(|m|) - elems);
    assert |Cells(|m|)| == |elems| + |Cells(|m|) - elems|;
  }

  /**
   The search from p records exactly the valid walks that start at p: each
   one it lists is valid, and each valid walk from p is listed.
   */
  lemma {:induction false} WalksExactlyValid(m: Board, visited: set<Pos>, p: Pos)
    requires IsSquare(m)
    ensures forall w :: w in Walks(m, visited, p) <==> ValidWalk(m, visited, w) && w[0] == p
  {
    WalksSound(m, visited, p);
    WalksStart(m, visited, p);
    forall w | ValidWalk(m, visited, w) && w[0] == p ensures w in Walks(m, visited, p) {
      WalksComplete(m, visited, w);
    }
  }
}
