/**
 * The solver: it reads every row, column and diagonal of the grid as a string,
 * runs the automaton over it, and turns each match back into grid coordinates.
 * A reversed pattern is reported as the original word with its first and last
 * cell swapped. Results are kept in discovery order, deduplicated on the
 * record's key; the first record with a key wins.
 */
module WordSearch {
  import opened Text
  import opened GridLines
  import opened AhoCorasick
  import opened FoundWords

  class WordSearchSolver {
    const grid: seq<seq<char>>
    const rows: int
    const cols: int
    const automaton: Automaton
    /** The automaton's pattern table, fixed once it is built. */
    ghost const patterns: seq<string>
    ghost const reversed: seq<bool>
    /** The records found so far, in discovery order. */
    var results: seq<FoundWord>
    /** The records found so far, by key. */
    var uniqueWords: map<string, FoundWord>

    ghost predicate Valid()
      reads this, automaton
    {
      && Rectangular(grid) && rows == |grid| && cols == |grid[0]|
      && automaton.Built() && automaton.FromWords()
      && automaton.patterns == patterns && automaton.isReversed == reversed
      && DistinctKeys(results)
      && uniqueWords.Keys == KeysOf(results)
      && forall i :: 0 <= i < |results| ==> uniqueWords[Key(results[i])] == results[i]
    }

    /** The records the four scans add to an empty solver. */
    ghost function Expect(): set<FoundWord>
      reads this, automaton
      requires Rectangular(grid)
    {
      AllExpected(grid, patterns, reversed)
    }

    constructor (grid: seq<seq<char>>, words: seq<string>)
      requires Rectangular(grid)
      requires forall k :: 0 <= k < |words| ==> Letters(ToUpper(words[k])) != []
      ensures Valid() && this.grid == grid && automaton.words == words
      ensures results == [] && uniqueWords == map[]
    {
      this.grid := grid;
      rows := |grid|;
      cols := |grid[0]|;
      var a := new Automaton(words);
      automaton := a;
      patterns, reversed := a.patterns, a.isReversed;
      results := [];
      uniqueWords := map[];
    }

    /**
     * solve: the four scans in order. The results are the old results with
     * addFoundWord applied to the records of every line's matches: rows, then
     * columns, then the two diagonal families, each line's matches in the order
     * the automaton reports them. So they hold a record for every key among the
     * scans' records and nothing else is appended; on a solver whose results
     * already hold all those keys, nothing changes.
     */
    method Solve() returns (found: seq<FoundWord>, ghost perLine: seq<seq<Match>>)
      requires Valid()
      modifies this
      ensures Valid() && found == results
      ensures |perLine| == |ScanLines(rows, cols)|
      ensures forall j :: 0 <= j < |perLine| ==> Searched(grid, patterns, ScanLines(rows, cols)[j], perLine[j])
      ensures results == AddAll(old(results), ScanRecords(rows, cols, patterns, reversed, ScanLines(rows, cols), perLine))
      ensures Absorbed(old(results), results, Expect())
      ensures KeysOfSet(Expect()) <= old(KeysOf(results)) ==> results == old(results)
    {
      ghost var before := results;
      ghost var lsR, lsC, lsD, lsA := RowLines(rows), ColumnLines(cols), TLBRLines(rows, cols), TRBLLines(rows, cols);
      ghost var fR := ScanHorizontal();
      ghost var afterRows := results;
      ghost var fC := ScanVertical();
      FamiliesJoin(grid, patterns, reversed, lsR, lsC, fR, fC, before, afterRows, results);
      ghost var afterColumns := results;
      ghost var fD := ScanDiagonalTLBR();
      FamiliesJoin(grid, patterns, reversed, lsR + lsC, lsD, fR + fC, fD, before, afterColumns, results);
      ghost var afterTLBR := results;
      ghost var fA := ScanDiagonalTRBL();
      FamiliesJoin(grid, patterns, reversed, lsR + lsC + lsD, lsA, fR + fC + fD, fA, before, afterTLBR, results);
      perLine := fR + fC + fD + fA;
      ScanAbsorbs(grid, patterns, reversed, before, ScanLines(rows, cols), perLine);
      ExpectedOfAppend(grid, patterns, reversed, lsR, lsC);
      ExpectedOfAppend(grid, patterns, reversed, lsR + lsC, lsD);
      ExpectedOfAppend(grid, patterns, reversed, lsR + lsC + lsD, lsA);
      if KeysOfSet(Expect()) <= KeysOf(before) {
        NoNewKeys(before, results, Expect());
      }
      found := results;
    }

    /** scanHorizontal: every row, top to bottom, each row's matches in the automaton's order. */
    method ScanHorizontal() returns (ghost found: seq<seq<Match>>)
      requires Valid()
      modifies this
      ensures Valid() && |found| == rows
      ensures forall r :: 0 <= r < rows ==> Searched(grid, patterns, Row(r), found[r])
      ensures results == AddAll(old(results), ScanRecords(rows, cols, patterns, reversed, RowLines(rows), found))
      ensures Absorbed(old(results), results, ExpectedOf(grid, patterns, reversed, RowLines(rows)))
    {
      var ls := RowLines(rows);
      found := [];
      for r := 0 to rows
        invariant Valid() && |found| == r
        invariant forall i :: 0 <= i < r ==> Searched(grid, patterns, ls[i], found[i])
        invariant results == AddAll(old(results), ScanRecords(rows, cols, patterns, reversed, ls[..r], found))
      {
        assert ls[r] == Row(r) && Maximal(rows, cols, ls[r]);
        found := ScanNext(Row(r), ls, old(results), found);
      }
      assert ls[..rows] == ls;
      ScanAbsorbs(grid, patterns, reversed, old(results), ls, found);
    }

    /** scanVertical: every column, left to right, each column's matches in the automaton's order. */
    method ScanVertical() returns (ghost found: seq<seq<Match>>)
      requires Valid()
      modifies this
      ensures Valid() && |found| == cols
      ensures forall c :: 0 <= c < cols ==> Searched(grid, patterns, Column(c), found[c])
      ensures results == AddAll(old(results), ScanRecords(rows, cols, patterns, reversed, ColumnLines(cols), found))
      ensures Absorbed(old(results), results, ExpectedOf(grid, patterns, reversed, ColumnLines(cols)))
    {
      var ls := ColumnLines(cols);
      found := [];
      for c := 0 to cols
        invariant Valid() && |found| == c
        invariant forall i :: 0 <= i < c ==> Searched(grid, patterns, ls[i], found[i])
        invariant results == AddAll(old(results), ScanRecords(rows, cols, patterns, reversed, ls[..c], found))
      {
        assert ls[c] == Column(c) && Maximal(rows, cols, ls[c]);
        found := ScanNext(Column(c), ls, old(results), found);
      }
      assert ls[..cols] == ls;
      ScanAbsorbs(grid, patterns, reversed, old(results), ls, found);
    }

    /** scanDiagonalTLBR: the diagonals from the first column, then those from (0, 1) .. (0, cols - 1). */
    method ScanDiagonalTLBR() returns (ghost found: seq<seq<Match>>)
      requires Valid()
      modifies this
      ensures Valid() && |found| == rows + cols - 1
      ensures forall j :: 0 <= j < rows + cols - 1 ==> Searched(grid, patterns, TLBRLines(rows, cols)[j], found[j])
      ensures results == AddAll(old(results), ScanRecords(rows, cols, patterns, reversed, TLBRLines(rows, cols), found))
      ensures Absorbed(old(results), results, ExpectedOf(grid, patterns, reversed, TLBRLines(rows, cols)))
    {
      ghost var first := ScanTLBRFromFirstColumn();
      ghost var mid := results;
      ghost var second := ScanTLBRFromFirstRow();
      found := first + second;
      FamiliesJoin(grid, patterns, reversed, TLBRFromColumn(rows), TLBRFromRow(cols), first, second, old(results), mid, results);
      ScanAbsorbs(grid, patterns, reversed, old(results), TLBRLines(rows, cols), found);
    }

    /** The first loop of scanDiagonalTLBR: a diagonal from each cell of the first column, top to bottom. */
    method ScanTLBRFromFirstColumn() returns (ghost found: seq<seq<Match>>)
      requires Valid()
      modifies this
      ensures Valid() && |found| == rows
      ensures forall j :: 0 <= j < rows ==> Searched(grid, patterns, TLBRFromColumn(rows)[j], found[j])
      ensures results == AddAll(old(results), ScanRecords(rows, cols, patterns, reversed, TLBRFromColumn(rows), found))
    {
      ghost var ls := TLBRFromColumn(rows);
      found := [];
      for startRow := 0 to rows
        invariant Valid() && |found| == startRow
        invariant forall i :: 0 <= i < startRow ==> Searched(grid, patterns, ls[i], found[i])
        invariant results == AddAll(old(results), ScanRecords(rows, cols, patterns, reversed, ls[..startRow], found))
      {
        assert ls[startRow] == Diagonal(startRow, 0, true) && Maximal(rows, cols, ls[startRow]);
        found := ScanNext(Diagonal(startRow, 0, true), ls, old(results), found);
      }
      assert ls[..rows] == ls;
    }

    /** The second loop of scanDiagonalTLBR: a diagonal from (0, 1) .. (0, cols - 1), left to right. */
    method ScanTLBRFromFirstRow() returns (ghost found: seq<seq<Match>>)
      requires Valid()
      modifies this
      ensures Valid() && |found| == cols - 1
      ensures forall k :: 0 <= k < cols - 1 ==> Searched(grid, patterns, TLBRFromRow(cols)[k], found[k])
      ensures results == AddAll(old(results), ScanRecords(rows, cols, patterns, reversed, TLBRFromRow(cols), found))
    {
      ghost var ls := TLBRFromRow(cols);
      found := [];
      for k := 0 to cols - 1
        invariant Valid() && |found| == k
        invariant forall i :: 0 <= i < k ==> Searched(grid, patterns, ls[i], found[i])
        invariant results == AddAll(old(results), ScanRecords(rows, cols, patterns, reversed, ls[..k], found))
      {
        var startCol := k + 1;
        assert ls[k] == Diagonal(0, startCol, true) && Maximal(rows, cols, ls[k]);
        found := ScanNext(Diagonal(0, startCol, true), ls, old(results), found);
      }
      assert ls[..cols - 1] == ls;
    }

    /** scanDiagonalTRBL: the diagonals from the last column, then those from (0, cols - 2) down to (0, 0). */
    method ScanDiagonalTRBL() returns (ghost found: seq<seq<Match>>)
      requires Valid()
      modifies this
      ensures Valid() && |found| == rows + cols - 1
      ensures forall j :: 0 <= j < rows + cols - 1 ==> Searched(grid, patterns, TRBLLines(rows, cols)[j], found[j])
      ensures results == AddAll(old(results), ScanRecords(rows, cols, patterns, reversed, TRBLLines(rows, cols), found))
      ensures Absorbed(old(results), results, ExpectedOf(grid, patterns, reversed, TRBLLines(rows, cols)))
    {
      ghost var first := ScanTRBLFromLastColumn();
      ghost var mid := results;
      ghost var second := ScanTRBLFromFirstRow();
      found := first + second;
      FamiliesJoin(grid, patterns, reversed, TRBLFromColumn(rows, cols), TRBLFromRow(cols), first, second, old(results), mid, results);
      ScanAbsorbs(grid, patterns, reversed, old(results), TRBLLines(rows, cols), found);
    }

    /** The first loop of scanDiagonalTRBL: a diagonal from each cell of the last column, top to bottom. */
    method ScanTRBLFromLastColumn() returns (ghost found: seq<seq<Match>>)
      requires Valid()
      modifies this
      ensures Valid() && |found| == rows
      ensures forall j :: 0 <= j < rows ==> Searched(grid, patterns, TRBLFromColumn(rows, cols)[j], found[j])
      ensures results == AddAll(old(results), ScanRecords(rows, cols, patterns, reversed, TRBLFromColumn(rows, cols), found))
    {
      ghost var ls := TRBLFromColumn(rows, cols);
      found := [];
      for startRow := 0 to rows
        invariant Valid() && |found| == startRow
        invariant forall i :: 0 <= i < startRow ==> Searched(grid, patterns, ls[i], found[i])
        invariant results == AddAll(old(results), ScanRecords(rows, cols, patterns, reversed, ls[..startRow], found))
      {
        assert ls[startRow] == Diagonal(startRow, cols - 1, false) && Maximal(rows, cols, ls[startRow]);
        found := ScanNext(Diagonal(startRow, cols - 1, false), ls, old(results), found);
      }
      assert ls[..rows] == ls;
    }

    /** The second loop of scanDiagonalTRBL: a diagonal from (0, cols - 2) down to (0, 0), right to left. */
    method ScanTRBLFromFirstRow() returns (ghost found: seq<seq<Match>>)
      requires Valid()
      modifies this
      ensures Valid() && |found| == cols - 1
      ensures forall k :: 0 <= k < cols - 1 ==> Searched(grid, patterns, TRBLFromRow(cols)[k], found[k])
      ensures results == AddAll(old(results), ScanRecords(rows, cols, patterns, reversed, TRBLFromRow(cols), found))
    {
      ghost var ls := TRBLFromRow(cols);
      found := [];
      for k := 0 to cols - 1
        invariant Valid() && |found| == k
        invariant forall i :: 0 <= i < k ==> Searched(grid, patterns, ls[i], found[i])
        invariant results == AddAll(old(results), ScanRecords(rows, cols, patterns, reversed, ls[..k], found))
      {
        var startCol := cols - 2 - k;
        assert ls[k] == Diagonal(0, startCol, false) && Maximal(rows, cols, ls[k]);
        found := ScanNext(Diagonal(0, startCol, false), ls, old(results), found);
      }
      assert ls[..cols - 1] == ls;
    }

    /**
     * One iteration of a scan loop: scan l, the next line of ls, so that its
     * records are reported after those of the lines before it.
     */
    method ScanNext(l: Line, ghost ls: seq<Line>, ghost start: seq<FoundWord>, ghost found: seq<seq<Match>>)
        returns (ghost found': seq<seq<Match>>)
      requires Valid() && |found| < |ls| && ls[|found|] == l && Maximal(rows, cols, l)
      requires forall i :: 0 <= i < |found| ==> Searched(grid, patterns, ls[i], found[i])
      requires results == AddAll(start, ScanRecords(rows, cols, patterns, reversed, ls[..|found|], found))
      modifies this
      ensures Valid() && |found'| == |found| + 1
      ensures forall i :: 0 <= i < |found'| ==> Searched(grid, patterns, ls[i], found'[i])
      ensures results == AddAll(start, ScanRecords(rows, cols, patterns, reversed, ls[..|found'|], found'))
    {
      ghost var mid := results;
      ghost var ms;
      if l.Diagonal? {
        ms := ScanDiagonal(l.startRow, l.startCol, l.rightward);
      } else {
        ms := ScanLine(l);
      }
      FamilyStep(rows, cols, patterns, reversed, ls, found, ms, |found|, start, mid, results);
      SearchedStep(grid, patterns, ls, found, ms);
      found' := found + [ms];
    }

    /**
     * One pass of a row or column scan: read the line, search it, and report a
     * record for each match in the order the automaton returns them.
     */
    method ScanLine(l: Line) returns (ghost ms: seq<Match>)
      requires Valid() && (l.Row? || l.Column?) && Maximal(rows, cols, l)
      modifies this
      ensures Valid() && Searched(grid, patterns, l, ms)
      ensures results == AddAll(old(results), MatchRecords(rows, cols, patterns, reversed, l, ms))
    {
      var text;
      if l.Row? {
        text := ReadRow(l.row);
      } else {
        text := ReadColumn(l.col);
      }
      var matches := automaton.Search(text);
      ms := matches;
      assert matches[..0] == [];
      for q := 0 to |matches|
        invariant Valid()
        invariant results == AddAll(old(results), MatchRecords(rows, cols, patterns, reversed, l, matches[..q]))
      {
        ghost var mid := results;
        var m := matches[q];
        assert m.patternId < |patterns| by { assert Match(m.patternId, m.endPos) in matches; }
        ReportLineMatch(l, m);
        MatchAdded(rows, cols, patterns, reversed, l, matches, q, old(results), mid, results);
      }
      assert matches[..|matches|] == matches;
    }

    /** The row a horizontal pass searches, read left to right. */
    method ReadRow(r: int) returns (text: string)
      requires Valid() && 0 <= r < rows
      ensures text == LineText(grid, Row(r))
    {
      text := [];
      for c := 0 to cols
        invariant text == TextUpTo(grid, Row(r), c)
      {
        text := text + [grid[r][c]];
      }
    }

    /** The column a vertical pass searches, read top to bottom. */
    method ReadColumn(c: int) returns (text: string)
      requires Valid() && 0 <= c < cols
      ensures text == LineText(grid, Column(c))
    {
      text := [];
      for r := 0 to rows
        invariant text == TextUpTo(grid, Column(c), r)
      {
        text := text + [grid[r][c]];
      }
    }

    /**
     * The record for one match on a row or column: the match's pattern ends at
     * endPos and starts |pattern| - 1 cells before it; a reversed pattern is
     * reported reversed back, from its end cell to its start cell.
     */
    method ReportLineMatch(l: Line, m: Match)
      requires Valid() && (l.Row? || l.Column?) && m.patternId < |patterns|
      modifies this
      ensures Valid()
      ensures results == Added(old(results), FoundAt(l, patterns[m.patternId], reversed[m.patternId], m.endPos))
    {
      var pattern := automaton.GetPattern(m.patternId);
      var endIdx := m.endPos;
      var startIdx := endIdx - |pattern| + 1;
      var isReversed := automaton.IsReversedPattern(m.patternId);
      match l {
        case Row(r) =>
          if isReversed {
            assert FoundAt(l, pattern, isReversed, endIdx) == FoundWord(Reverse(pattern), r, endIdx, r, startIdx, HorizontalReverse);
            AddFoundWord(Reverse(pattern), r, endIdx, r, startIdx, HorizontalReverse);
          } else {
            assert FoundAt(l, pattern, isReversed, endIdx) == FoundWord(pattern, r, startIdx, r, endIdx, Horizontal);
            AddFoundWord(pattern, r, startIdx, r, endIdx, Horizontal);
          }
        case Column(c) =>
          if isReversed {
            assert FoundAt(l, pattern, isReversed, endIdx) == FoundWord(Reverse(pattern), endIdx, c, startIdx, c, VerticalReverse);
            AddFoundWord(Reverse(pattern), endIdx, c, startIdx, c, VerticalReverse);
          } else {
            assert FoundAt(l, pattern, isReversed, endIdx) == FoundWord(pattern, startIdx, c, endIdx, c, Vertical);
            AddFoundWord(pattern, startIdx, c, endIdx, c, Vertical);
          }
      }
    }

    /**
     * One diagonal of a diagonal scan: trace it from its first cell, then
     * process its matches in the order the automaton returns them.
     */
    method ScanDiagonal(startRow: int, startCol: int, rightward: bool) returns (ghost ms: seq<Match>)
      requires Valid() && Maximal(rows, cols, Diagonal(startRow, startCol, rightward))
      modifies this
      ensures Valid() && Searched(grid, patterns, Diagonal(startRow, startCol, rightward), ms)
      ensures results == AddAll(old(results), MatchRecords(rows, cols, patterns, reversed, Diagonal(startRow, startCol, rightward), ms))
    {
      var diag, coords := TraceDiagonal(startRow, startCol, rightward);
      ms := ProcessDiagonalMatches(diag, coords, Diagonal(startRow, startCol, rightward));
    }

    /**
     * The diagonal from (startRow, startCol), one row down and one column right
     * (or left) per step, as far as the grid goes: its letters and their cells.
     */
    method TraceDiagonal(startRow: int, startCol: int, rightward: bool) returns (diag: string, coords: seq<Cell>)
      requires Valid() && Maximal(rows, cols, Diagonal(startRow, startCol, rightward))
      ensures diag == LineText(grid, Diagonal(startRow, startCol, rightward))
      ensures |coords| == |diag| && forall i :: 0 <= i < |coords| ==> coords[i] == CellAt(Diagonal(startRow, startCol, rightward), i)
    {
      ghost var l := Diagonal(startRow, startCol, rightward);
      diag, coords := [], [];
      var r, c := startRow, startCol;
      while r < rows && (if rightward then c < cols else c >= 0)
        invariant 0 <= r - startRow <= Len(rows, cols, l)
        invariant (r, c) == CellAt(l, r - startRow)
        invariant diag == TextUpTo(grid, l, r - startRow)
        invariant |coords| == r - startRow && forall i :: 0 <= i < |coords| ==> coords[i] == CellAt(l, i)
        decreases rows - r
      {
        LineInGrid(rows, cols, l, r - startRow);
        diag := diag + [grid[r][c]];
        coords := coords + [(r, c)];
        r := r + 1;
        c := if rightward then c + 1 else c - 1;
      }
      LineInGrid(rows, cols, l, r - startRow);
    }

    /**
     * processDiagonalMatches: search the diagonal and report a record per match,
     * in the automaton's order, skipping a match whose start index or end index
     * is off the diagonal.
     */
    method ProcessDiagonalMatches(diag: string, coords: seq<Cell>, l: Line) returns (ghost ms: seq<Match>)
      requires Valid() && l.Diagonal? && Maximal(rows, cols, l) && diag == LineText(grid, l)
      requires |coords| == |diag| && forall i :: 0 <= i < |coords| ==> coords[i] == CellAt(l, i)
      modifies this
      ensures Valid() && Searched(grid, patterns, l, ms)
      ensures results == AddAll(old(results), MatchRecords(rows, cols, patterns, reversed, l, ms))
    {
      var matches := automaton.Search(diag);
      ms := matches;
      assert matches[..0] == [];
      for q := 0 to |matches|
        invariant Valid()
        invariant results == AddAll(old(results), MatchRecords(rows, cols, patterns, reversed, l, matches[..q]))
      {
        ghost var mid := results;
        var m := matches[q];
        assert m.patternId < |patterns| by { assert Match(m.patternId, m.endPos) in matches; }
        ReportDiagonalMatch(coords, l, m);
        MatchAdded(rows, cols, patterns, reversed, l, matches, q, old(results), mid, results);
      }
      assert matches[..|matches|] == matches;
    }

    /**
     * The body of processDiagonalMatches' loop for one match: skip it when its
     * start index or end index is off the diagonal, otherwise add its record,
     * with the two cells swapped for a reversed pattern.
     */
    method ReportDiagonalMatch(coords: seq<Cell>, l: Line, m: Match)
      requires Valid() && l.Diagonal? && Maximal(rows, cols, l) && m.patternId < |patterns|
      requires |coords| == Len(rows, cols, l) && forall i :: 0 <= i < |coords| ==> coords[i] == CellAt(l, i)
      modifies this
      ensures Valid()
      ensures results == if Reportable(rows, cols, l, patterns[m.patternId], m.endPos)
        then Added(old(results), FoundAt(l, patterns[m.patternId], reversed[m.patternId], m.endPos)) else old(results)
    {
      var pattern := automaton.GetPattern(m.patternId);
      var endIdx := m.endPos;
      var startIdx := endIdx - |pattern| + 1;
      if startIdx < 0 || endIdx >= |coords| {
        return;
      }
      assert |pattern| > 0 by { assert KeyOf(patterns, m.patternId) != []; }
      var startCoord, endCoord := coords[startIdx], coords[endIdx];
      var isReversed := automaton.IsReversedPattern(m.patternId);
      if isReversed {
        assert FoundAt(l, pattern, isReversed, endIdx) ==
          FoundWord(Reverse(pattern), endCoord.0, endCoord.1, startCoord.0, startCoord.1, Backward(l));
        AddFoundWord(Reverse(pattern), endCoord.0, endCoord.1, startCoord.0, startCoord.1, Backward(l));
      } else {
        assert FoundAt(l, pattern, isReversed, endIdx) ==
          FoundWord(pattern, startCoord.0, startCoord.1, endCoord.0, endCoord.1, Forward(l));
        AddFoundWord(pattern, startCoord.0, startCoord.1, endCoord.0, endCoord.1, Forward(l));
      }
    }

    /** addFoundWord: append the record unless a record with its key is already present. */
    method AddFoundWord(word: string, startRow: int, startCol: int, endRow: int, endCol: int, direction: Direction)
      requires Valid()
      modifies this
      ensures Valid()
      ensures results == Added(old(results), FoundWord(word, startRow, startCol, endRow, endCol, direction))
    {
      var foundWord := FoundWord(word, startRow, startCol, endRow, endCol, direction);
      var key := Key(foundWord);
      AddedAbsorbs(results, foundWord);
      if key !in uniqueWords {
        assert KeysOfSet({foundWord}) == {key};
        uniqueWords := uniqueWords[key := foundWord];
        results := results + [foundWord];
        assert forall i :: 0 <= i < |results| - 1 ==> results[i] == old(results)[i];
      }
    }
  }

  /** One more line of a scan: its match records are reported after those of the lines before it. */
  lemma FamilyStep(rows: int, cols: int, ps: seq<string>, rv: seq<bool>, ls: seq<Line>, found: seq<seq<Match>>,
                   ms: seq<Match>, j: nat, before: seq<FoundWord>, mid: seq<FoundWord>, after: seq<FoundWord>)
    requires j < |ls| && |found| == j
    requires mid == AddAll(before, ScanRecords(rows, cols, ps, rv, ls[..j], found))
    requires after == AddAll(mid, MatchRecords(rows, cols, ps, rv, ls[j], ms))
    ensures after == AddAll(before, ScanRecords(rows, cols, ps, rv, ls[..j + 1], found + [ms]))
  {
    ScanRecordsStep(rows, cols, ps, rv, ls, found, ms, j);
    AddAllAppend(before, ScanRecords(rows, cols, ps, rv, ls[..j], found), MatchRecords(rows, cols, ps, rv, ls[j], ms));
  }

  /** The matches of one more line, searched like those before it. */
  lemma SearchedStep(grid: seq<seq<char>>, ps: seq<string>, ls: seq<Line>, found: seq<seq<Match>>, ms: seq<Match>)
    requires |found| < |ls| && Searched(grid, ps, ls[|found|], ms)
    requires forall i :: 0 <= i < |found| ==> Searched(grid, ps, ls[i], found[i])
    ensures forall i :: 0 <= i < |found| + 1 ==> Searched(grid, ps, ls[i], (found + [ms])[i])
  {
    forall i | 0 <= i < |found| + 1
      ensures Searched(grid, ps, ls[i], (found + [ms])[i])
    {
      if i < |found| {
        assert (found + [ms])[i] == found[i];
      }
    }
  }

  /** The automaton's guarantee on the lines of a and on those of b is its guarantee on the lines of a + b. */
  lemma SearchedJoin(grid: seq<seq<char>>, ps: seq<string>, a: seq<Line>, b: seq<Line>, fa: seq<seq<Match>>, fb: seq<seq<Match>>)
    requires |fa| == |a| && |fb| == |b|
    requires forall j :: 0 <= j < |a| ==> Searched(grid, ps, a[j], fa[j])
    requires forall j :: 0 <= j < |b| ==> Searched(grid, ps, b[j], fb[j])
    ensures forall j :: 0 <= j < |a + b| ==> Searched(grid, ps, (a + b)[j], (fa + fb)[j])
  {
    forall j | 0 <= j < |a + b|
      ensures Searched(grid, ps, (a + b)[j], (fa + fb)[j])
    {
      if j < |a| {
        assert (a + b)[j] == a[j] && (fa + fb)[j] == fa[j];
      } else {
        assert (a + b)[j] == b[j - |a|] && (fa + fb)[j] == fb[j - |a|];
      }
    }
  }

  /** Scanning the lines of a, then those of b, is scanning the lines of a + b. */
  lemma FamiliesJoin(grid: seq<seq<char>>, ps: seq<string>, rv: seq<bool>, a: seq<Line>, b: seq<Line>,
                     fa: seq<seq<Match>>, fb: seq<seq<Match>>, before: seq<FoundWord>, mid: seq<FoundWord>, after: seq<FoundWord>)
    requires Rectangular(grid) && |fa| == |a| && |fb| == |b|
    requires forall j :: 0 <= j < |a| ==> Searched(grid, ps, a[j], fa[j])
    requires forall j :: 0 <= j < |b| ==> Searched(grid, ps, b[j], fb[j])
    requires mid == AddAll(before, ScanRecords(|grid|, |grid[0]|, ps, rv, a, fa))
    requires after == AddAll(mid, ScanRecords(|grid|, |grid[0]|, ps, rv, b, fb))
    ensures forall j :: 0 <= j < |a + b| ==> Searched(grid, ps, (a + b)[j], (fa + fb)[j])
    ensures after == AddAll(before, ScanRecords(|grid|, |grid[0]|, ps, rv, a + b, fa + fb))
  {
    var rows, cols := |grid|, |grid[0]|;
    SearchedJoin(grid, ps, a, b, fa, fb);
    ScanRecordsAppend(rows, cols, ps, rv, a, b, fa, fb);
    AddAllAppend(before, ScanRecords(rows, cols, ps, rv, a, fa), ScanRecords(rows, cols, ps, rv, b, fb));
  }
}
