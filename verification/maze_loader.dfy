/**
 Loading a maze from the lines of its file. A line is given as the line
 reader returns it: its characters followed by its terminator ("\n", or
 "\r\n" for files written on Windows), if it has one.
 */
module MazeLoader {
  import opened Wrappers
  import opened MazeGrid

  datatype LoadError = MalformedInput

  /** s holds no line-terminator character. */
  predicate NoTerminator(s: string) {
    '\r' !in s && '\n' !in s
  }

  /**
   The maze size as mazesolver.c computes it from the first line: its length
   less 2 when it holds a '\r' anywhere, and less 1 otherwise, whether or not
   the line ends in '\n'.
   */
  function DimensionAsWritten(firstLine: string): int {
    if '\r' in firstLine then |firstLine| - 2 else |firstLine| - 1
  }

  /** For a terminated first line, the computed size is the number of cells on it. */
  lemma DimensionAsWrittenOfTerminatedLine(s: string)
    requires NoTerminator(s)
    ensures DimensionAsWritten(s + "\n") == |s|
    ensures DimensionAsWritten(s + "\r\n") == |s|
  {
    assert '\r' in s + "\r\n" by {
      assert (s + "\r\n")[|s|] == '\r';
    }
    assert '\r' !in s + "\n" by {
      forall i | 0 <= i < |s| + 1 ensures (s + "\n")[i] != '\r' {
        if i < |s| {
          assert (s + "\n")[i] == s[i];
        }
      }
    }
  }

  /**
   A one-cell maze file holding "7" and no newline has one cell on its first
   line, yet the size computed from that line is 0.
   */
  lemma DimensionAsWrittenDropsUnterminatedCell()
    ensures NoTerminator("7")
    ensures DimensionAsWritten("7") == 0 != |"7"|
  {
  }

  /** The line endings the corrected size leaves out of the first line. */
  predicate IsTerminator(t: string) {
    t == "" || t == "\n" || t == "\r\n" || t == "\r"
  }

  /**
   The maze size: the length of the first line without its terminator, which
   is "\r\n", "\n", "\r" or nothing at all.
   */
  function Dimension(firstLine: string): (n: nat)
    ensures n <= |firstLine|
    ensures IsTerminator(firstLine[n..])
  {
    var k := |firstLine|;
    if k >= 2 && firstLine[k - 2..] == "\r\n" then k - 2
    else if k >= 1 && (firstLine[k - 1] == '\n' || firstLine[k - 1] == '\r') then k - 1
    else k
  }

  /** The size is the number of cells on the first line, whichever terminator it ends with, if any. */
  lemma DimensionExcludesTerminator(s: string, terminator: string)
    requires NoTerminator(s) && IsTerminator(terminator)
    ensures Dimension(s + terminator) == |s|
  {
    if terminator == "" {
      DimensionOfUnterminated(s);
    } else if terminator == "\r\n" {
      var line := s + terminator;
      assert line[|line| - 2..] == "\r\n";
    } else {
      DimensionOfSingleEnding(s, terminator[0]);
    }
  }

  lemma DimensionOfUnterminated(s: string)
    requires NoTerminator(s)
    ensures Dimension(s + "") == |s|
  {
    assert s + "" == s;
    if |s| >= 1 {
      assert s[|s| - 1] in s;
    }
    if |s| >= 2 {
      assert s[|s| - 2..][1] == s[|s| - 1];
    }
  }

  lemma DimensionOfSingleEnding(s: string, ending: char)
    requires NoTerminator(s) && (ending == '\n' || ending == '\r')
    ensures Dimension(s + [ending]) == |s|
  {
    var line := s + [ending];
    assert line[|line| - 1] == ending;
    if |s| >= 1 {
      assert line[|line| - 2..][0] == s[|s| - 1];
      assert s[|s| - 1] in s;
    }
  }

  /**
   A lone final '\r' is a terminator; a '\r' inside the line is a cell, where
   mazesolver.c subtracts 2 for it all the same.
   */
  lemma DimensionOfCarriageReturns()
    ensures Dimension("12\r") == 2
    ensures Dimension("1\r2\n") == 3 && DimensionAsWritten("1\r2\n") == 2
  {
    assert "12\r"[1..] == "2\r";
    assert "1\r2\n"[2..] == "2\n";
    assert '\r' in "1\r2\n" by {
      assert "1\r2\n"[1] == '\r';
    }
  }

  /** On a terminated first line mazesolver.c's size and the corrected one agree. */
  lemma DimensionAgreesOnTerminatedLines(s: string)
    requires NoTerminator(s)
    ensures Dimension(s + "\n") == DimensionAsWritten(s + "\n") == |s|
    ensures Dimension(s + "\r\n") == DimensionAsWritten(s + "\r\n") == |s|
  {
    DimensionAsWrittenOfTerminatedLine(s);
    DimensionExcludesTerminator(s, "\n");
    DimensionExcludesTerminator(s, "\r\n");
  }

  /** There are n lines and each holds at least n characters. */
  predicate WellFormed(lines: seq<string>, n: int) {
    n > 0 && |lines| == n && forall r :: 0 <= r < n ==> |lines[r]| >= n
  }

  /**
   The grid built from the file's lines: cell (r, c) holds character c of
   line r, and no cell is visited.
   */
  function ParseMaze(lines: seq<string>, n: nat): (g: Grid)
    requires |lines| == n && forall r :: 0 <= r < n ==> |lines[r]| >= n
    ensures |g| == n && IsSquare(g)
    ensures forall r, c :: 0 <= r < n && 0 <= c < n ==> g[r][c].character == lines[r][c] && !g[r][c].visited
    ensures VisitedOf(g) == {}
    ensures forall r :: 0 <= r < n ==> Chars(g)[r] == lines[r][..n]
  {
    var g := seq(n, r requires 0 <= r < n => seq(n, c requires 0 <= c < n => Cell(lines[r][c], false)));
    assert forall r :: 0 <= r < n ==> Chars(g)[r] == lines[r][..n];
    g
  }

  /**
   Loads a maze: the size comes from the first line, then the same lines are
   read again from the start into the grid. Input without a first line, with
   a size of 0, with a line count other than the size, or with a line shorter
   than the size is malformed.
   */
  function Load(lines: seq<string>): (res: Result<Grid, LoadError>)
    ensures res.Success? <==> |lines| > 0 && WellFormed(lines, Dimension(lines[0]))
    ensures res.Success? ==>
      var g, n := res.value, Dimension(lines[0]);
      && |g| == n && IsSquare(g)
      && (forall r, c :: 0 <= r < n && 0 <= c < n ==> g[r][c] == Cell(lines[r][c], false))
      && VisitedOf(g) == {}
  {
    if |lines| == 0 then Failure(MalformedInput)
    else
      var n := Dimension(lines[0]);
      if !WellFormed(lines, n) then Failure(MalformedInput)
      else Success(ParseMaze(lines, n))
  }
}
