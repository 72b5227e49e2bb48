/**
 * What the solver reports. A FoundWord names a word, its first and last cell
 * and its direction; results are deduplicated on a string key made of the word
 * and the two cells. For every line it reads, the solver adds the record of
 * every pattern occurrence the automaton reports on that line; this module
 * defines that set of records, proves it sound and complete against the grid,
 * and gives the bookkeeping facts about adding records with first-wins
 * deduplication.
 */
module FoundWords {
  import opened Text
  import opened GridLines
  import opened AhoCorasick

  /** The eight direction labels. */
  datatype Direction =
    | Horizontal | HorizontalReverse | Vertical | VerticalReverse
    | DiagonalTLBR | DiagonalBRTL | DiagonalTRBL | DiagonalBLTR

  /** The label string the solver stores. */
  function Label(d: Direction): string {
    match d
    case Horizontal => "HORIZONTAL"
    case HorizontalReverse => "HORIZONTAL_REVERSE"
    case Vertical => "VERTICAL"
    case VerticalReverse => "VERTICAL_REVERSE"
    case DiagonalTLBR => "DIAGONAL_TL_BR"
    case DiagonalBRTL => "DIAGONAL_BR_TL"
    case DiagonalTRBL => "DIAGONAL_TR_BL"
    case DiagonalBLTR => "DIAGONAL_BL_TR"
  }

  /** The (row, column) step from one letter to the next, walking from start to end. */
  function StepOf(d: Direction): (int, int) {
    match d
    case Horizontal => (0, 1)
    case HorizontalReverse => (0, -1)
    case Vertical => (1, 0)
    case VerticalReverse => (-1, 0)
    case DiagonalTLBR => (1, 1)
    case DiagonalBRTL => (-1, -1)
    case DiagonalTRBL => (1, -1)
    case DiagonalBLTR => (-1, 1)
  }

  /** The cell n letters on from (sr, sc) in direction d. */
  function Walk(sr: int, sc: int, d: Direction, n: int): Cell {
    match d
    case Horizontal => (sr, sc + n)
    case HorizontalReverse => (sr, sc - n)
    case Vertical => (sr + n, sc)
    case VerticalReverse => (sr - n, sc)
    case DiagonalTLBR => (sr + n, sc + n)
    case DiagonalBRTL => (sr - n, sc - n)
    case DiagonalTRBL => (sr + n, sc - n)
    case DiagonalBLTR => (sr - n, sc + n)
  }

  /** Walking n letters is taking n steps of the direction. */
  lemma WalkSteps(sr: int, sc: int, d: Direction, n: int)
    ensures Walk(sr, sc, d, n) == (sr + n * StepOf(d).0, sc + n * StepOf(d).1)
  {
  }

  datatype FoundWord = FoundWord(word: string, startRow: int, startCol: int, endRow: int, endCol: int, direction: Direction)

  /** x, the separator, then y. */
  function Join(x: string, sep: char, y: string): string {
    x + [sep] + y
  }

  /** getKey: word|startRow,startCol|endRow,endCol. */
  function Key(f: FoundWord): string {
    Join(f.word, '|', Join(IntToString(f.startRow), ',', Join(IntToString(f.startCol), '|',
      Join(IntToString(f.endRow), ',', IntToString(f.endCol)))))
  }

  /** A decimal rendering holds no separator. */
  lemma NoSeparator(i: int)
    ensures '|' !in IntToString(i) && ',' !in IntToString(i)
  {
    var s := IntToString(i);
    IntToStringChars(i);
    assert forall k :: 0 <= k < |s| ==> s[k] != '|' && s[k] != ',';
  }

  /** A key holds two separators more than its word holds. */
  lemma KeyBars(f: FoundWord)
    ensures Count(Key(f), '|') == Count(f.word, '|') + 2
  {
    var a1 := Join(IntToString(f.endRow), ',', IntToString(f.endCol));
    var a2 := Join(IntToString(f.startCol), '|', a1);
    var a3 := Join(IntToString(f.startRow), ',', a2);
    NoSeparator(f.startRow);
    NoSeparator(f.startCol);
    NoSeparator(f.endRow);
    NoSeparator(f.endCol);
    JoinCount(IntToString(f.endRow), ',', IntToString(f.endCol));
    JoinCount(IntToString(f.startCol), '|', a1);
    JoinCount(IntToString(f.startRow), ',', a2);
    JoinCount(f.word, '|', a3);
    CountZero(IntToString(f.startRow), '|');
    CountZero(IntToString(f.startCol), '|');
    CountZero(IntToString(f.endRow), '|');
    CountZero(IntToString(f.endCol), '|');
  }

  lemma JoinCount(x: string, sep: char, y: string)
    ensures Count(Join(x, sep, y), '|') == Count(x, '|') + (if sep == '|' then 1 else 0) + Count(y, '|')
  {
    CountAppend(x + [sep], y, '|');
    CountAppend(x, [sep], '|');
    assert [sep][..0] == [];
  }

  /**
   * When one record's word has no '|', two records have the same key exactly
   * when they agree on the word and both cells; the direction plays no part.
   */
  lemma KeyInjective(f: FoundWord, g: FoundWord)
    requires '|' !in f.word
    ensures Key(f) == Key(g) <==>
      (f.word, f.startRow, f.startCol, f.endRow, f.endCol) == (g.word, g.startRow, g.startCol, g.endRow, g.endCol)
  {
    if Key(f) == Key(g) {
      KeyBars(f);
      KeyBars(g);
      CountZero(f.word, '|');
      CountZero(g.word, '|');
      NoSeparator(f.startRow);
      NoSeparator(f.startCol);
      NoSeparator(f.endRow);
      NoSeparator(g.startRow);
      NoSeparator(g.startCol);
      NoSeparator(g.endRow);
      var a1 := Join(IntToString(f.endRow), ',', IntToString(f.endCol));
      var a2 := Join(IntToString(f.startCol), '|', a1);
      var a3 := Join(IntToString(f.startRow), ',', a2);
      var b1 := Join(IntToString(g.endRow), ',', IntToString(g.endCol));
      var b2 := Join(IntToString(g.startCol), '|', b1);
      var b3 := Join(IntToString(g.startRow), ',', b2);
      SplitAtSeparator(f.word, a3, g.word, b3, '|');
      SplitAtSeparator(IntToString(f.startRow), a2, IntToString(g.startRow), b2, ',');
      SplitAtSeparator(IntToString(f.startCol), a1, IntToString(g.startCol), b1, '|');
      SplitAtSeparator(IntToString(f.endRow), IntToString(f.endCol), IntToString(g.endRow), IntToString(g.endCol), ',');
      IntToStringInjective(f.startRow, g.startRow);
      IntToStringInjective(f.startCol, g.startCol);
      IntToStringInjective(f.endRow, g.endRow);
      IntToStringInjective(f.endCol, g.endCol);
    }
  }

  /** The label of a match of a pattern that is not reversed on line l. */
  function Forward(l: Line): Direction {
    match l
    case Row(_) => Horizontal
    case Column(_) => Vertical
    case Diagonal(_, _, rightward) => if rightward then DiagonalTLBR else DiagonalTRBL
  }

  /** The label of a match of a reversed pattern on line l. */
  function Backward(l: Line): Direction {
    match l
    case Row(_) => HorizontalReverse
    case Column(_) => VerticalReverse
    case Diagonal(_, _, rightward) => if rightward then DiagonalBRTL else DiagonalBLTR
  }

  /** Walking a line's labels from index i: forward reaches index i + n, backward index i - n. */
  lemma LabelWalks(l: Line, i: int, n: int)
    ensures Walk(CellAt(l, i).0, CellAt(l, i).1, Forward(l), n) == CellAt(l, i + n)
    ensures Walk(CellAt(l, i).0, CellAt(l, i).1, Backward(l), n) == CellAt(l, i - n)
  {
  }

  /** The first n characters the solver reads along line l, in order. */
  ghost function TextUpTo(grid: seq<seq<char>>, l: Line, n: nat): (t: string)
    requires Rectangular(grid) && Maximal(|grid|, |grid[0]|, l) && n <= Len(|grid|, |grid[0]|, l)
    ensures |t| == n
  {
    if n == 0 then []
    else
      LineInGrid(|grid|, |grid[0]|, l, n - 1);
      TextUpTo(grid, l, n - 1) + [grid[CellAt(l, n - 1).0][CellAt(l, n - 1).1]]
  }

  /** The characters the solver reads along line l, in order. */
  ghost function LineText(grid: seq<seq<char>>, l: Line): (t: string)
    requires Rectangular(grid) && Maximal(|grid|, |grid[0]|, l)
    ensures |t| == Len(|grid|, |grid[0]|, l)
  {
    TextUpTo(grid, l, Len(|grid|, |grid[0]|, l))
  }

  /** Each character of a line's text comes from the cell at its index. */
  lemma TextAt(grid: seq<seq<char>>, l: Line, i: int)
    requires Rectangular(grid) && Maximal(|grid|, |grid[0]|, l) && 0 <= i < Len(|grid|, |grid[0]|, l)
    ensures InBounds(|grid|, |grid[0]|, CellAt(l, i))
    ensures LineText(grid, l)[i] == grid[CellAt(l, i).0][CellAt(l, i).1]
  {
    LineInGrid(|grid|, |grid[0]|, l, i);
    TextUpToAt(grid, l, Len(|grid|, |grid[0]|, l), i);
  }

  lemma {:induction false} TextUpToAt(grid: seq<seq<char>>, l: Line, n: nat, i: int)
    requires Rectangular(grid) && Maximal(|grid|, |grid[0]|, l) && n <= Len(|grid|, |grid[0]|, l) && 0 <= i < n
    ensures InBounds(|grid|, |grid[0]|, CellAt(l, i))
    ensures TextUpTo(grid, l, n)[i] == grid[CellAt(l, i).0][CellAt(l, i).1]
    decreases n
  {
    LineInGrid(|grid|, |grid[0]|, l, i);
    if i < n - 1 {
      TextUpToAt(grid, l, n - 1, i);
    }
  }

  /**
   * The record the solver builds for pattern p, reversed or not, ending at index e
   * of line l: the pattern's cells run from index e - |p| + 1 to e; a reversed
   * pattern is reported as its reversal with the two cells swapped.
   */
  function FoundAt(l: Line, p: string, reversed: bool, e: int): FoundWord {
    var s := e - |p| + 1;
    if reversed then FoundWord(Reverse(p), CellAt(l, e).0, CellAt(l, e).1, CellAt(l, s).0, CellAt(l, s).1, Backward(l))
    else FoundWord(p, CellAt(l, s).0, CellAt(l, s).1, CellAt(l, e).0, CellAt(l, e).1, Forward(l))
  }

  /** Rows and columns report every match; a diagonal skips a match whose start index is off the line. */
  predicate Reportable(rows: int, cols: int, l: Line, p: string, e: int) {
    l.Diagonal? ==> 0 <= e - |p| + 1 && e < Len(rows, cols, l)
  }

  /** The records the solver adds for line l: one per pattern occurrence the automaton reports there. */
  ghost function Expected(grid: seq<seq<char>>, ps: seq<string>, rv: seq<bool>, l: Line): set<FoundWord>
    requires Rectangular(grid) && Maximal(|grid|, |grid[0]|, l)
  {
    var t := ToUpper(LineText(grid, l));
    set id: nat, e: nat | id < |ps| && id < |rv| && e < |t| && OccursAt(KeyOf(ps, id), t, e)
      && Reportable(|grid|, |grid[0]|, l, ps[id], e) :: FoundAt(l, ps[id], rv[id], e)
  }

  /** The records built from a list of matches on line l. */
  ghost function FromMatches(rows: int, cols: int, ps: seq<string>, rv: seq<bool>, l: Line, ms: seq<Match>): set<FoundWord> {
    set m | m in ms && m.patternId < |ps| && m.patternId < |rv| && Reportable(rows, cols, l, ps[m.patternId], m.endPos)
      :: FoundAt(l, ps[m.patternId], rv[m.patternId], m.endPos)
  }

  /** With the automaton's guarantee about the matches of a line, they give exactly that line's records. */
  lemma MatchesGiveExpected(grid: seq<seq<char>>, ps: seq<string>, rv: seq<bool>, l: Line, ms: seq<Match>)
    requires Rectangular(grid) && Maximal(|grid|, |grid[0]|, l) && |rv| == |ps|
    requires forall id: nat, e: nat :: Match(id, e) in ms <==> id < |ps| && OccursAt(KeyOf(ps, id), ToUpper(LineText(grid, l)), e)
    ensures FromMatches(|grid|, |grid[0]|, ps, rv, l, ms) == Expected(grid, ps, rv, l)
  {
    var rows, cols := |grid|, |grid[0]|;
    var t := ToUpper(LineText(grid, l));
    forall f | f in FromMatches(rows, cols, ps, rv, l, ms)
      ensures f in Expected(grid, ps, rv, l)
    {
      var m :| m in ms && m.patternId < |ps| && m.patternId < |rv| && Reportable(rows, cols, l, ps[m.patternId], m.endPos)
        && f == FoundAt(l, ps[m.patternId], rv[m.patternId], m.endPos);
      assert Match(m.patternId, m.endPos) in ms;
    }
    forall f | f in Expected(grid, ps, rv, l)
      ensures f in FromMatches(rows, cols, ps, rv, l, ms)
    {
      var id: nat, e: nat :| id < |ps| && id < |rv| && e < |t| && OccursAt(KeyOf(ps, id), t, e)
        && Reportable(rows, cols, l, ps[id], e) && f == FoundAt(l, ps[id], rv[id], e);
      assert Match(id, e) in ms;
    }
  }

  /** One more match adds its record, when it is reportable. */
  lemma FromMatchesStep(rows: int, cols: int, ps: seq<string>, rv: seq<bool>, l: Line, ms: seq<Match>, q: nat)
    requires q < |ms| && ms[q].patternId < |ps| && |rv| == |ps|
    ensures FromMatches(rows, cols, ps, rv, l, ms[..q + 1]) ==
      FromMatches(rows, cols, ps, rv, l, ms[..q]) +
      (if Reportable(rows, cols, l, ps[ms[q].patternId], ms[q].endPos)
       then {FoundAt(l, ps[ms[q].patternId], rv[ms[q].patternId], ms[q].endPos)} else {})
  {
    assert ms[..q + 1] == ms[..q] + [ms[q]];
  }

  /** The records of all the lines in ls; a line the solver does not read contributes none. */
  ghost function ExpectedOf(grid: seq<seq<char>>, ps: seq<string>, rv: seq<bool>, ls: seq<Line>): set<FoundWord> {
    if ls == [] then {}
    else
      var l := ls[|ls| - 1];
      ExpectedOf(grid, ps, rv, ls[..|ls| - 1])
      + if Rectangular(grid) && Maximal(|grid|, |grid[0]|, l) then Expected(grid, ps, rv, l) else {}
  }

  lemma ExpectedOfStep(grid: seq<seq<char>>, ps: seq<string>, rv: seq<bool>, ls: seq<Line>, j: nat)
    requires j < |ls| && Rectangular(grid) && Maximal(|grid|, |grid[0]|, ls[j])
    ensures ExpectedOf(grid, ps, rv, ls[..j + 1]) == ExpectedOf(grid, ps, rv, ls[..j]) + Expected(grid, ps, rv, ls[j])
  {
    assert ls[..j + 1][..j] == ls[..j];
  }

  /** Every line's records are among the records of a list holding that line. */
  lemma {:induction false} ExpectedOfContains(grid: seq<seq<char>>, ps: seq<string>, rv: seq<bool>, ls: seq<Line>, j: nat)
    requires Rectangular(grid) && forall j :: 0 <= j < |ls| ==> Maximal(|grid|, |grid[0]|, ls[j])
    requires j < |ls|
    ensures Expected(grid, ps, rv, ls[j]) <= ExpectedOf(grid, ps, rv, ls)
    decreases |ls|
  {
    if j < |ls| - 1 {
      ExpectedOfContains(grid, ps, rv, ls[..|ls| - 1], j);
    }
  }

  /** The records of two lists read one after the other are those of each list. */
  lemma {:induction false} ExpectedOfAppend(grid: seq<seq<char>>, ps: seq<string>, rv: seq<bool>, a: seq<Line>, b: seq<Line>)
    ensures ExpectedOf(grid, ps, rv, a + b) == ExpectedOf(grid, ps, rv, a) + ExpectedOf(grid, ps, rv, b)
    decreases |b|
  {
    assert forall j :: 0 <= j < |a + b| ==> (a + b)[j] == if j < |a| then a[j] else b[j - |a|];
    if b == [] {
      assert a + b == a;
    } else {
      var b' := b[..|b| - 1];
      assert (a + b)[..|a + b| - 1] == a + b';
      ExpectedOfAppend(grid, ps, rv, a, b');
    }
  }

  /** All four scans' records, in scan order. */
  ghost function AllExpected(grid: seq<seq<char>>, ps: seq<string>, rv: seq<bool>): set<FoundWord>
    requires Rectangular(grid)
  {
    var rows, cols := |grid|, |grid[0]|;
    FamiliesMaximal(rows, cols);
    ExpectedOf(grid, ps, rv, RowLines(rows)) + ExpectedOf(grid, ps, rv, ColumnLines(cols))
    + ExpectedOf(grid, ps, rv, TLBRLines(rows, cols)) + ExpectedOf(grid, ps, rv, TRBLLines(rows, cols))
  }

  /** The grid, upper-cased, spells w from (sr, sc) stepping in direction d. */
  ghost predicate Spelled(grid: seq<seq<char>>, w: string, sr: int, sc: int, d: Direction) {
    forall n :: 0 <= n < |w| ==>
      && 0 <= Walk(sr, sc, d, n).0 < |grid| && 0 <= Walk(sr, sc, d, n).1 < |grid[Walk(sr, sc, d, n).0]|
      && UpperChar(grid[Walk(sr, sc, d, n).0][Walk(sr, sc, d, n).1]) == w[n]
  }

  /** The record of w read from (sr, sc) in direction d: its last letter |w| - 1 steps on. */
  function Occurrence(w: string, sr: int, sc: int, d: Direction): FoundWord {
    var end := Walk(sr, sc, d, |w| - 1);
    FoundWord(w, sr, sc, end.0, end.1, d)
  }

  /**
   * Walking a record from its start in its direction ends at its end cell after
   * |word| - 1 steps and spells its word in the grid.
   */
  ghost predicate Reads(grid: seq<seq<char>>, f: FoundWord) {
    f == Occurrence(f.word, f.startRow, f.startCol, f.direction) && Spelled(grid, f.word, f.startRow, f.startCol, f.direction)
  }

  /**
   * Soundness of one line's records: each names one of the words, upper-cased,
   * and, when that word is all letters, reads correctly in the grid.
   */
  lemma ExpectedSound(grid: seq<seq<char>>, ps: seq<string>, rv: seq<bool>, words: seq<string>, l: Line, f: FoundWord)
    requires Rectangular(grid) && Maximal(|grid|, |grid[0]|, l) && PairedPatterns(ps, rv, words)
    requires f in Expected(grid, ps, rv, l)
    ensures exists k :: 0 <= k < |words| && f.word == ToUpper(words[k])
    ensures AllUpperLetters(f.word) ==> Reads(grid, f)
  {
    var t := ToUpper(LineText(grid, l));
    var id: nat, e: nat :| id < |ps| && id < |rv| && e < |t| && OccursAt(KeyOf(ps, id), t, e)
      && Reportable(|grid|, |grid[0]|, l, ps[id], e) && f == FoundAt(l, ps[id], rv[id], e);
    PatternWord(ps, rv, words, id);
    assert f.word == ToUpper(words[id / 2]);
    if AllUpperLetters(f.word) {
      ReadsAt(grid, l, ps[id], rv[id], e);
    }
  }

  /** The word a pattern's record carries is the pattern's word, upper-cased: a reversed pattern is reversed back. */
  lemma PatternWord(ps: seq<string>, rv: seq<bool>, words: seq<string>, id: nat)
    requires PairedPatterns(ps, rv, words) && id < |ps|
    ensures id / 2 < |words|
    ensures (if rv[id] then Reverse(ps[id]) else ps[id]) == ToUpper(words[id / 2])
  {
    var k := id / 2;
    if id % 2 == 0 {
      assert id == 2 * k;
    } else {
      assert id == 2 * k + 1;
      ReverseInvolution(ToUpper(words[k]));
    }
  }

  /** An occurrence of pattern p's letters ending at index e, when its record's word is all letters, reads in the grid. */
  lemma ReadsAt(grid: seq<seq<char>>, l: Line, p: string, reversed: bool, e: int)
    requires Rectangular(grid) && Maximal(|grid|, |grid[0]|, l)
    requires OccursAt(Letters(p), ToUpper(LineText(grid, l)), e) && AllUpperLetters(FoundAt(l, p, reversed, e).word)
    ensures Reads(grid, FoundAt(l, p, reversed, e))
  {
    assert AllUpperLetters(p) by {
      if reversed {
        ReverseOfLetters(Reverse(p));
        ReverseInvolution(p);
      }
    }
    LettersShape(p);
    if reversed {
      SpelledBackward(grid, l, p, e);
    } else {
      SpelledForward(grid, l, p, e);
    }
  }

  /** The upper-cased text of a line, at index i, is the upper-cased grid cell at index i of the line. */
  lemma UpperAt(grid: seq<seq<char>>, l: Line, i: int)
    requires Rectangular(grid) && Maximal(|grid|, |grid[0]|, l) && 0 <= i < Len(|grid|, |grid[0]|, l)
    ensures 0 <= CellAt(l, i).0 < |grid| && 0 <= CellAt(l, i).1 < |grid[CellAt(l, i).0]|
    ensures UpperChar(grid[CellAt(l, i).0][CellAt(l, i).1]) == ToUpper(LineText(grid, l))[i]
  {
    TextAt(grid, l, i);
  }

  /** A non-reversed occurrence ending at index e reads p from index e - |p| + 1. */
  lemma SpelledForward(grid: seq<seq<char>>, l: Line, p: string, e: int)
    requires Rectangular(grid) && Maximal(|grid|, |grid[0]|, l)
    requires OccursAt(p, ToUpper(LineText(grid, l)), e)
    ensures Reads(grid, FoundAt(l, p, false, e))
  {
    ForwardLetters(grid, l, p, e);
    RecordForward(l, p, e - |p| + 1);
    assert e - |p| + 1 + |p| - 1 == e;
  }

  lemma ForwardLetters(grid: seq<seq<char>>, l: Line, p: string, e: int)
    requires Rectangular(grid) && Maximal(|grid|, |grid[0]|, l)
    requires OccursAt(p, ToUpper(LineText(grid, l)), e)
    ensures Spelled(grid, p, CellAt(l, e - |p| + 1).0, CellAt(l, e - |p| + 1).1, Forward(l))
  {
    var t := ToUpper(LineText(grid, l));
    var s := e - |p| + 1;
    var start := CellAt(l, s);
    forall n | 0 <= n < |p|
      ensures 0 <= Walk(start.0, start.1, Forward(l), n).0 < |grid|
      ensures 0 <= Walk(start.0, start.1, Forward(l), n).1 < |grid[Walk(start.0, start.1, Forward(l), n).0]|
      ensures UpperChar(grid[Walk(start.0, start.1, Forward(l), n).0][Walk(start.0, start.1, Forward(l), n).1]) == p[n]
    {
      LabelWalks(l, s, n);
      UpperAt(grid, l, s + n);
      assert t[e + 1 - |p| + n] == p[n];
    }
  }

  /** A reversed occurrence ending at index e reads Reverse(p) from index e back to e - |p| + 1. */
  lemma SpelledBackward(grid: seq<seq<char>>, l: Line, p: string, e: int)
    requires Rectangular(grid) && Maximal(|grid|, |grid[0]|, l)
    requires OccursAt(p, ToUpper(LineText(grid, l)), e)
    ensures Reads(grid, FoundAt(l, p, true, e))
  {
    BackwardLetters(grid, l, p, e);
    ReverseInvolution(p);
    RecordBackward(l, Reverse(p), e);
  }

  lemma BackwardLetters(grid: seq<seq<char>>, l: Line, p: string, e: int)
    requires Rectangular(grid) && Maximal(|grid|, |grid[0]|, l)
    requires OccursAt(p, ToUpper(LineText(grid, l)), e)
    ensures Spelled(grid, Reverse(p), CellAt(l, e).0, CellAt(l, e).1, Backward(l))
  {
    var t := ToUpper(LineText(grid, l));
    var w := Reverse(p);
    var start := CellAt(l, e);
    forall n | 0 <= n < |w|
      ensures 0 <= Walk(start.0, start.1, Backward(l), n).0 < |grid|
      ensures 0 <= Walk(start.0, start.1, Backward(l), n).1 < |grid[Walk(start.0, start.1, Backward(l), n).0]|
      ensures UpperChar(grid[Walk(start.0, start.1, Backward(l), n).0][Walk(start.0, start.1, Backward(l), n).1]) == w[n]
    {
      LabelWalks(l, e, n);
      UpperAt(grid, l, e - n);
      assert t[e + 1 - |p| + (|p| - 1 - n)] == p[|p| - 1 - n];
    }
  }

  /** A word spelled along line l from index i0 occurs in the line's upper-cased text ending at i0 + |w| - 1. */
  lemma ForwardText(grid: seq<seq<char>>, l: Line, w: string, i0: int)
    requires Rectangular(grid) && Maximal(|grid|, |grid[0]|, l) && |w| > 0
    requires Spelled(grid, w, CellAt(l, i0).0, CellAt(l, i0).1, Forward(l))
    ensures 0 <= i0 && OccursAt(w, ToUpper(LineText(grid, l)), i0 + |w| - 1)
  {
    var t := ToUpper(LineText(grid, l));
    forall n | 0 <= n < |w|
      ensures 0 <= i0 + n < |t| && t[i0 + n] == w[n]
    {
      LabelWalks(l, i0, n);
      LineInGrid(|grid|, |grid[0]|, l, i0 + n);
      UpperAt(grid, l, i0 + n);
    }
    LabelWalks(l, i0, 0);
    LineInGrid(|grid|, |grid[0]|, l, i0 + 0);
    LabelWalks(l, i0, |w| - 1);
    LineInGrid(|grid|, |grid[0]|, l, i0 + (|w| - 1));
  }

  /** A word spelled against line l from index i0 has its reversal in the line's upper-cased text ending at i0. */
  lemma BackwardText(grid: seq<seq<char>>, l: Line, w: string, i0: int)
    requires Rectangular(grid) && Maximal(|grid|, |grid[0]|, l) && |w| > 0
    requires Spelled(grid, w, CellAt(l, i0).0, CellAt(l, i0).1, Backward(l))
    ensures 0 <= i0 - (|w| - 1) && OccursAt(Reverse(w), ToUpper(LineText(grid, l)), i0)
  {
    var t := ToUpper(LineText(grid, l));
    var p := Reverse(w);
    BackwardChar(grid, l, w, i0, 0);
    BackwardChar(grid, l, w, i0, |w| - 1);
    forall m | 0 <= m < |p|
      ensures p[m] == t[i0 + 1 - |p| + m]
    {
      BackwardChar(grid, l, w, i0, |w| - 1 - m);
      assert i0 + 1 - |p| + m == i0 - (|w| - 1 - m);
    }
  }

  /** Character n of a word spelled backward along line l from index i0 is the text's character at i0 - n. */
  lemma BackwardChar(grid: seq<seq<char>>, l: Line, w: string, i0: int, n: int)
    requires Rectangular(grid) && Maximal(|grid|, |grid[0]|, l) && 0 <= n < |w|
    requires Spelled(grid, w, CellAt(l, i0).0, CellAt(l, i0).1, Backward(l))
    ensures 0 <= i0 - n < |LineText(grid, l)| && ToUpper(LineText(grid, l))[i0 - n] == w[n]
  {
    LabelWalks(l, i0, n);
    LineInGrid(|grid|, |grid[0]|, l, i0 - n);
    UpperAt(grid, l, i0 - n);
  }

  /** A reportable occurrence of pattern id's key ending at index e gives its record. */
  lemma InExpected(grid: seq<seq<char>>, ps: seq<string>, rv: seq<bool>, l: Line, id: nat, e: nat)
    requires Rectangular(grid) && Maximal(|grid|, |grid[0]|, l) && id < |ps| && id < |rv|
    requires OccursAt(KeyOf(ps, id), ToUpper(LineText(grid, l)), e) && Reportable(|grid|, |grid[0]|, l, ps[id], e)
    ensures FoundAt(l, ps[id], rv[id], e) in Expected(grid, ps, rv, l)
  {
  }

  /**
   * Completeness on one line: an all-letter word w spelled along line l from
   * index i0 is reported there by a forward pattern id holding w.
   */
  lemma OnLineForward(grid: seq<seq<char>>, ps: seq<string>, rv: seq<bool>, l: Line, id: nat, w: string, i0: int)
    requires Rectangular(grid) && Maximal(|grid|, |grid[0]|, l) && id < |ps| && id < |rv|
    requires ps[id] == w && !rv[id] && AllUpperLetters(w) && |w| > 0
    requires Spelled(grid, w, CellAt(l, i0).0, CellAt(l, i0).1, Forward(l))
    ensures Occurrence(w, CellAt(l, i0).0, CellAt(l, i0).1, Forward(l)) in Expected(grid, ps, rv, l)
  {
    var e := i0 + |w| - 1;
    ForwardText(grid, l, w, i0);
    LettersShape(w);
    RecordForward(l, w, i0);
    assert KeyOf(ps, id) == w;
    assert e < Len(|grid|, |grid[0]|, l);
    InExpected(grid, ps, rv, l, id, e);
  }

  /**
   * Completeness on one line, backwards: an all-letter word w spelled against
   * line l from index i0 is reported there by a reversed pattern id holding Reverse(w).
   */
  lemma OnLineBackward(grid: seq<seq<char>>, ps: seq<string>, rv: seq<bool>, l: Line, id: nat, w: string, i0: int)
    requires Rectangular(grid) && Maximal(|grid|, |grid[0]|, l) && id < |ps| && id < |rv|
    requires ps[id] == Reverse(w) && rv[id] && AllUpperLetters(w) && |w| > 0
    requires Spelled(grid, w, CellAt(l, i0).0, CellAt(l, i0).1, Backward(l))
    ensures Occurrence(w, CellAt(l, i0).0, CellAt(l, i0).1, Backward(l)) in Expected(grid, ps, rv, l)
  {
    var p := Reverse(w);
    BackwardText(grid, l, w, i0);
    ReverseOfLetters(w);
    LettersShape(p);
    RecordBackward(l, w, i0);
    assert KeyOf(ps, id) == p;
    assert i0 < Len(|grid|, |grid[0]|, l);
    InExpected(grid, ps, rv, l, id, i0);
  }

  /** The record of w's forward pattern ending at i0 + |w| - 1 is the occurrence of w from index i0. */
  lemma RecordForward(l: Line, w: string, i0: int)
    ensures FoundAt(l, w, false, i0 + |w| - 1) == Occurrence(w, CellAt(l, i0).0, CellAt(l, i0).1, Forward(l))
  {
    LabelWalks(l, i0, |w| - 1);
  }

  /** The record of w's reversed pattern ending at i0 is the occurrence of w from index i0 backwards. */
  lemma RecordBackward(l: Line, w: string, i0: int)
    ensures FoundAt(l, Reverse(w), true, i0) == Occurrence(w, CellAt(l, i0).0, CellAt(l, i0).1, Backward(l))
  {
    ReverseInvolution(w);
    LabelWalks(l, i0, |w| - 1);
    assert i0 - (|w| - 1) == i0 - |Reverse(w)| + 1;
  }

  /**
   * Completeness: every occurrence in the grid of an all-letter word of the
   * list, in any of the eight directions, is among the records of the four scans.
   */
  lemma Complete(grid: seq<seq<char>>, ps: seq<string>, rv: seq<bool>, words: seq<string>, k: nat, sr: int, sc: int, d: Direction)
    requires Rectangular(grid) && PairedPatterns(ps, rv, words) && k < |words|
    requires AllUpperLetters(ToUpper(words[k])) && |words[k]| > 0
    requires Spelled(grid, ToUpper(words[k]), sr, sc, d)
    ensures Occurrence(ToUpper(words[k]), sr, sc, d) in AllExpected(grid, ps, rv)
  {
    var rows, cols := |grid|, |grid[0]|;
    assert InBounds(rows, cols, (sr, sc)) by {
      assert Walk(sr, sc, d, 0) == (sr, sc);
    }
    FamiliesMaximal(rows, cols);
    var ls: seq<Line>, j: nat, i0: int;
    match d {
      case Horizontal | HorizontalReverse =>
        ls, j, i0 := RowLines(rows), sr, sc;
      case Vertical | VerticalReverse =>
        ls, j, i0 := ColumnLines(cols), sc, sr;
      case DiagonalTLBR | DiagonalBRTL =>
        ls := TLBRLines(rows, cols);
        j, i0 := TLBRIndex(rows, cols, sr, sc);
      case DiagonalTRBL | DiagonalBLTR =>
        ls := TRBLLines(rows, cols);
        j, i0 := TRBLIndex(rows, cols, sr, sc);
    }
    assert j < |ls| && CellAt(ls[j], i0) == (sr, sc);
    assert d == Forward(ls[j]) || d == Backward(ls[j]);
    OnFamily(grid, ps, rv, words, k, ls, j, i0, d);
  }

  /** Completeness on one list of lines: an occurrence along line ls[j], either way, is among the list's records. */
  lemma OnFamily(grid: seq<seq<char>>, ps: seq<string>, rv: seq<bool>, words: seq<string>, k: nat, ls: seq<Line>, j: nat, i0: int, d: Direction)
    requires Rectangular(grid) && PairedPatterns(ps, rv, words) && k < |words|
    requires AllUpperLetters(ToUpper(words[k])) && |words[k]| > 0
    requires forall j :: 0 <= j < |ls| ==> Maximal(|grid|, |grid[0]|, ls[j])
    requires j < |ls| && (d == Forward(ls[j]) || d == Backward(ls[j]))
    requires Spelled(grid, ToUpper(words[k]), CellAt(ls[j], i0).0, CellAt(ls[j], i0).1, d)
    ensures Occurrence(ToUpper(words[k]), CellAt(ls[j], i0).0, CellAt(ls[j], i0).1, d) in ExpectedOf(grid, ps, rv, ls)
  {
    var w := ToUpper(words[k]);
    assert ps[2 * k] == w && !rv[2 * k] && ps[2 * k + 1] == Reverse(w) && rv[2 * k + 1];
    if d == Forward(ls[j]) {
      OnLineForward(grid, ps, rv, ls[j], 2 * k, w, i0);
    } else {
      OnLineBackward(grid, ps, rv, ls[j], 2 * k + 1, w, i0);
    }
    ExpectedOfContains(grid, ps, rv, ls, j);
  }

  /** Every record of the lines in ls is a record of one of them. */
  lemma {:induction false} ExpectedOfMember(grid: seq<seq<char>>, ps: seq<string>, rv: seq<bool>, ls: seq<Line>, f: FoundWord)
      returns (j: nat)
    requires Rectangular(grid) && forall j :: 0 <= j < |ls| ==> Maximal(|grid|, |grid[0]|, ls[j])
    requires f in ExpectedOf(grid, ps, rv, ls)
    ensures j < |ls| && f in Expected(grid, ps, rv, ls[j])
    decreases |ls|
  {
    if f in Expected(grid, ps, rv, ls[|ls| - 1]) {
      j := |ls| - 1;
    } else {
      j := ExpectedOfMember(grid, ps, rv, ls[..|ls| - 1], f);
    }
  }

  /**
   * Soundness over the four scans: every record names one of the words,
   * upper-cased, and an all-letter one reads correctly in the grid.
   */
  lemma AllExpectedSound(grid: seq<seq<char>>, ps: seq<string>, rv: seq<bool>, words: seq<string>, f: FoundWord)
    requires Rectangular(grid) && PairedPatterns(ps, rv, words)
    requires f in AllExpected(grid, ps, rv)
    ensures exists k :: 0 <= k < |words| && f.word == ToUpper(words[k])
    ensures AllUpperLetters(f.word) ==> Reads(grid, f)
  {
    var rows, cols := |grid|, |grid[0]|;
    FamiliesMaximal(rows, cols);
    var ls: seq<Line>;
    if f in ExpectedOf(grid, ps, rv, RowLines(rows)) {
      ls := RowLines(rows);
    } else if f in ExpectedOf(grid, ps, rv, ColumnLines(cols)) {
      ls := ColumnLines(cols);
    } else if f in ExpectedOf(grid, ps, rv, TLBRLines(rows, cols)) {
      ls := TLBRLines(rows, cols);
    } else {
      ls := TRBLLines(rows, cols);
    }
    var j := ExpectedOfMember(grid, ps, rv, ls, f);
    ExpectedSound(grid, ps, rv, words, ls[j], f);
  }

  /** The keys of a result list. */
  ghost function KeysOf(rs: seq<FoundWord>): set<string> {
    set i | 0 <= i < |rs| :: Key(rs[i])
  }

  /** The keys of a set of records. */
  ghost function KeysOfSet(fs: set<FoundWord>): set<string> {
    set f | f in fs :: Key(f)
  }

  /** No two results share a key. */
  ghost predicate DistinctKeys(rs: seq<FoundWord>) {
    forall i, j :: 0 <= i < j < |rs| ==> Key(rs[i]) != Key(rs[j])
  }

  /**
   * after is before with records of fs appended, one for each key of fs that
   * before did not already hold: the effect of adding all of fs, in some order,
   * with first-wins deduplication.
   */
  ghost predicate Absorbed(before: seq<FoundWord>, after: seq<FoundWord>, fs: set<FoundWord>) {
    && |before| <= |after| && after[..|before|] == before
    && (forall i :: |before| <= i < |after| ==> after[i] in fs)
    && KeysOf(after) == KeysOf(before) + KeysOfSet(fs)
  }

  /** addFoundWord on the result list: the record is appended when its key is new. */
  ghost function Added(rs: seq<FoundWord>, f: FoundWord): seq<FoundWord> {
    if Key(f) in KeysOf(rs) then rs else rs + [f]
  }

  /** Adding one record absorbs it and keeps the keys distinct. */
  lemma AddedAbsorbs(rs: seq<FoundWord>, f: FoundWord)
    requires DistinctKeys(rs)
    ensures Absorbed(rs, Added(rs, f), {f}) && DistinctKeys(Added(rs, f))
  {
    if Key(f) !in KeysOf(rs) {
      var rs' := rs + [f];
      assert rs'[..|rs|] == rs;
      assert KeysOf(rs') == KeysOf(rs) + {Key(f)} by {
        assert forall i :: 0 <= i < |rs| ==> rs'[i] == rs[i];
        assert rs'[|rs|] == f;
      }
      forall i, j | 0 <= i < j < |rs'|
        ensures Key(rs'[i]) != Key(rs'[j])
      {
        if j == |rs| {
          assert Key(rs'[i]) in KeysOf(rs);
        }
      }
    } else {
      assert rs[..|rs|] == rs;
    }
  }

  /** Nothing absorbed: the list is unchanged. */
  lemma AbsorbedNothing(rs: seq<FoundWord>)
    ensures Absorbed(rs, rs, {})
  {
    assert rs[..|rs|] == rs;
  }

  /** Absorbing fs and then gs absorbs their union. */
  lemma AbsorbedTrans(a: seq<FoundWord>, b: seq<FoundWord>, c: seq<FoundWord>, fs: set<FoundWord>, gs: set<FoundWord>)
    requires Absorbed(a, b, fs) && Absorbed(b, c, gs)
    ensures Absorbed(a, c, fs + gs)
  {
    assert c[..|a|] == c[..|b|][..|a|];
    KeysOfSetUnion(fs, gs);
    forall i | |a| <= i < |c|
      ensures c[i] in fs + gs
    {
      if i < |b| {
        assert c[i] == c[..|b|][i];
      }
    }
  }

  lemma KeysOfSetUnion(fs: set<FoundWord>, gs: set<FoundWord>)
    ensures KeysOfSet(fs + gs) == KeysOfSet(fs) + KeysOfSet(gs)
  {
  }

  /**
   * Absorbing records whose keys are all present already changes nothing:
   * running the scans again leaves the results as they are.
   */
  lemma NoNewKeys(before: seq<FoundWord>, after: seq<FoundWord>, fs: set<FoundWord>)
    requires Absorbed(before, after, fs) && DistinctKeys(after) && KeysOfSet(fs) <= KeysOf(before)
    ensures after == before
  {
    if |after| > |before| {
      OldKey(before, after, fs, |before|);
      assert false;
    }
  }

  /** When fs brings no new key, an appended result repeats the key of an earlier one. */
  lemma OldKey(before: seq<FoundWord>, after: seq<FoundWord>, fs: set<FoundWord>, n: nat)
    requires Absorbed(before, after, fs) && KeysOfSet(fs) <= KeysOf(before) && |before| <= n < |after|
    ensures exists i :: 0 <= i < |before| && Key(after[i]) == Key(after[n])
  {
    assert Key(after[n]) in KeysOfSet(fs);
    var i :| 0 <= i < |before| && Key(before[i]) == Key(after[n]);
    assert after[i] == after[..|before|][i];
  }

  /** A record absorbed into a list that started empty has a result with its key, and every result is absorbed. */
  lemma KeyedResult(rs: seq<FoundWord>, fs: set<FoundWord>, o: FoundWord) returns (i: nat)
    requires Absorbed([], rs, fs) && o in fs
    ensures i < |rs| && Key(rs[i]) == Key(o) && rs[i] in fs
  {
    assert Key(o) in KeysOfSet(fs);
    i :| 0 <= i < |rs| && Key(rs[i]) == Key(o);
  }

  /**
   * For a solver that started empty, every occurrence of an all-letter word of
   * the list in the grid has a result with its word and both its cells.
   */
  lemma SolveComplete(grid: seq<seq<char>>, ps: seq<string>, rv: seq<bool>, words: seq<string>, rs: seq<FoundWord>,
                      k: nat, sr: int, sc: int, d: Direction)
      returns (i: nat)
    requires Rectangular(grid) && PairedPatterns(ps, rv, words) && Absorbed([], rs, AllExpected(grid, ps, rv))
    requires k < |words| && AllUpperLetters(ToUpper(words[k])) && |words[k]| > 0
    requires Spelled(grid, ToUpper(words[k]), sr, sc, d)
    ensures i < |rs|
    ensures var o := Occurrence(ToUpper(words[k]), sr, sc, d);
      (rs[i].word, rs[i].startRow, rs[i].startCol, rs[i].endRow, rs[i].endCol) == (o.word, o.startRow, o.startCol, o.endRow, o.endCol)
  {
    var o := Occurrence(ToUpper(words[k]), sr, sc, d);
    Complete(grid, ps, rv, words, k, sr, sc, d);
    i := KeyedResult(rs, AllExpected(grid, ps, rv), o);
    AllExpectedSound(grid, ps, rv, words, rs[i]);
    NoBarInWord(words, k);
    KeyInjective(o, rs[i]);
  }

  /** An all-letter word holds no key separator. */
  lemma NoBarInWord(words: seq<string>, k: nat)
    requires k < |words|
    ensures AllUpperLetters(ToUpper(words[k])) ==> '|' !in ToUpper(words[k])
  {
  }

  /** addFoundWord applied to each record of fs in turn: the result list after a run of reports. */
  ghost function AddAll(rs: seq<FoundWord>, fs: seq<FoundWord>): seq<FoundWord>
    decreases |fs|
  {
    if fs == [] then rs else Added(AddAll(rs, fs[..|fs| - 1]), fs[|fs| - 1])
  }

  /** Reporting a then b is reporting a + b. */
  lemma {:induction false} AddAllAppend(rs: seq<FoundWord>, a: seq<FoundWord>, b: seq<FoundWord>)
    ensures AddAll(rs, a + b) == AddAll(AddAll(rs, a), b)
    decreases |b|
  {
    if b == [] {
      assert a + b == a;
    } else {
      assert (a + b)[..|a + b| - 1] == a + b[..|b| - 1];
      AddAllAppend(rs, a, b[..|b| - 1]);
    }
  }

  /** A run of reports keeps the keys distinct. */
  lemma {:induction false} AddAllDistinct(rs: seq<FoundWord>, fs: seq<FoundWord>)
    requires DistinctKeys(rs)
    ensures DistinctKeys(AddAll(rs, fs))
    decreases |fs|
  {
    if fs != [] {
      AddAllDistinct(rs, fs[..|fs| - 1]);
      AddedAbsorbs(AddAll(rs, fs[..|fs| - 1]), fs[|fs| - 1]);
    }
  }

  /** A run of reports absorbs the reported records: one per new key, in report order. */
  lemma {:induction false} AddAllAbsorbs(rs: seq<FoundWord>, fs: seq<FoundWord>)
    requires DistinctKeys(rs)
    ensures Absorbed(rs, AddAll(rs, fs), set f | f in fs)
    decreases |fs|
  {
    if fs == [] {
      AbsorbedNothing(rs);
      assert (set f | f in fs) == {};
    } else {
      var init, last := fs[..|fs| - 1], fs[|fs| - 1];
      var earlier := set f | f in init;
      assert (set f | f in fs) == earlier + {last} by {
        assert forall f :: f in fs <==> f in init || f == last by { assert fs == init + [last]; }
      }
      AddAllAbsorbs(rs, init);
      AddAllDistinct(rs, init);
      var mid := AddAll(rs, init);
      AddedAbsorbs(mid, last);
      AbsorbedTrans(rs, mid, Added(mid, last), earlier, {last});
    }
  }

  /** What the automaton promises about ms, the matches of line l: exactly its pattern occurrences, by end position. */
  ghost predicate Searched(grid: seq<seq<char>>, ps: seq<string>, l: Line, ms: seq<Match>) {
    && Rectangular(grid) && Maximal(|grid|, |grid[0]|, l)
    && (forall id: nat, e: nat :: Match(id, e) in ms <==> id < |ps| && OccursAt(KeyOf(ps, id), ToUpper(LineText(grid, l)), e))
    && SortedByEnd(ms)
  }

  /** The records of the reportable matches of ms on line l, in match order. */
  ghost function MatchRecords(rows: int, cols: int, ps: seq<string>, rv: seq<bool>, l: Line, ms: seq<Match>): seq<FoundWord>
    decreases |ms|
  {
    if ms == [] then []
    else
      var m := ms[|ms| - 1];
      MatchRecords(rows, cols, ps, rv, l, ms[..|ms| - 1]) + RecordOf(rows, cols, ps, rv, l, m)
  }

  /** The record of one match on line l, or none when it is not reportable. */
  ghost function RecordOf(rows: int, cols: int, ps: seq<string>, rv: seq<bool>, l: Line, m: Match): seq<FoundWord> {
    if m.patternId < |ps| && m.patternId < |rv| && Reportable(rows, cols, l, ps[m.patternId], m.endPos)
    then [FoundAt(l, ps[m.patternId], rv[m.patternId], m.endPos)] else []
  }

  /** Reporting the records of the first q + 1 matches: those of the first q, then that of match q when reportable. */
  lemma MatchAdded(rows: int, cols: int, ps: seq<string>, rv: seq<bool>, l: Line, ms: seq<Match>, q: nat,
                   before: seq<FoundWord>, mid: seq<FoundWord>, after: seq<FoundWord>)
    requires q < |ms| && ms[q].patternId < |ps| && |rv| == |ps|
    requires mid == AddAll(before, MatchRecords(rows, cols, ps, rv, l, ms[..q]))
    requires after == if Reportable(rows, cols, l, ps[ms[q].patternId], ms[q].endPos)
      then Added(mid, FoundAt(l, ps[ms[q].patternId], rv[ms[q].patternId], ms[q].endPos)) else mid
    ensures after == AddAll(before, MatchRecords(rows, cols, ps, rv, l, ms[..q + 1]))
  {
    var m := ms[q];
    assert ms[..q + 1][..q] == ms[..q];
    var head := MatchRecords(rows, cols, ps, rv, l, ms[..q]);
    if Reportable(rows, cols, l, ps[m.patternId], m.endPos) {
      var f := FoundAt(l, ps[m.patternId], rv[m.patternId], m.endPos);
      assert (head + [f])[..|head|] == head;
    } else {
      assert MatchRecords(rows, cols, ps, rv, l, ms[..q + 1]) == head;
    }
  }

  /** The records listed from the matches are the records built from them. */
  lemma {:induction false} MatchRecordsSet(rows: int, cols: int, ps: seq<string>, rv: seq<bool>, l: Line, ms: seq<Match>)
    ensures (set f | f in MatchRecords(rows, cols, ps, rv, l, ms)) == FromMatches(rows, cols, ps, rv, l, ms)
    decreases |ms|
  {
    if ms != [] {
      var init, m := ms[..|ms| - 1], ms[|ms| - 1];
      MatchRecordsSet(rows, cols, ps, rv, l, init);
      SetOfConcat(MatchRecords(rows, cols, ps, rv, l, init), RecordOf(rows, cols, ps, rv, l, m));
      FromMatchesLast(rows, cols, ps, rv, l, ms);
    }
  }

  /** The records of a list of records' concatenation are the records of each part. */
  lemma SetOfConcat(a: seq<FoundWord>, b: seq<FoundWord>)
    ensures (set f | f in a + b) == (set f | f in a) + (set f | f in b)
  {
  }

  /** The records built from ms: those built from all but its last match, and that match's record. */
  lemma FromMatchesLast(rows: int, cols: int, ps: seq<string>, rv: seq<bool>, l: Line, ms: seq<Match>)
    requires ms != []
    ensures var last := RecordOf(rows, cols, ps, rv, l, ms[|ms| - 1]);
      FromMatches(rows, cols, ps, rv, l, ms) == FromMatches(rows, cols, ps, rv, l, ms[..|ms| - 1]) + (set f | f in last)
  {
    assert ms == ms[..|ms| - 1] + [ms[|ms| - 1]];
  }

  /** The records of a scan: each line's match records, line by line, in the order of ls. */
  ghost function ScanRecords(rows: int, cols: int, ps: seq<string>, rv: seq<bool>, ls: seq<Line>, found: seq<seq<Match>>): seq<FoundWord>
    decreases |ls|
  {
    if ls == [] || found == [] then []
    else
      ScanRecords(rows, cols, ps, rv, ls[..|ls| - 1], found[..|found| - 1])
      + MatchRecords(rows, cols, ps, rv, ls[|ls| - 1], found[|found| - 1])
  }

  /** One more line of a scan: its records follow those of the lines before it. */
  lemma ScanRecordsStep(rows: int, cols: int, ps: seq<string>, rv: seq<bool>, ls: seq<Line>, found: seq<seq<Match>>,
                        ms: seq<Match>, j: nat)
    requires j < |ls| && |found| == j
    ensures ScanRecords(rows, cols, ps, rv, ls[..j + 1], found + [ms]) ==
      ScanRecords(rows, cols, ps, rv, ls[..j], found) + MatchRecords(rows, cols, ps, rv, ls[j], ms)
  {
    assert ls[..j + 1][..j] == ls[..j];
    assert (found + [ms])[..j] == found;
  }

  /** Two scans one after the other: the records of the first, then those of the second. */
  lemma {:induction false} ScanRecordsAppend(rows: int, cols: int, ps: seq<string>, rv: seq<bool>,
                                             a: seq<Line>, b: seq<Line>, fa: seq<seq<Match>>, fb: seq<seq<Match>>)
    requires |fa| == |a| && |fb| == |b|
    ensures ScanRecords(rows, cols, ps, rv, a + b, fa + fb) ==
      ScanRecords(rows, cols, ps, rv, a, fa) + ScanRecords(rows, cols, ps, rv, b, fb)
    decreases |b|
  {
    if b == [] {
      assert a + b == a && fa + fb == fa;
    } else {
      var b', fb' := b[..|b| - 1], fb[..|fb| - 1];
      var last := MatchRecords(rows, cols, ps, rv, b[|b| - 1], fb[|fb| - 1]);
      assert (a + b)[..|a + b| - 1] == a + b' && (a + b)[|a + b| - 1] == b[|b| - 1];
      assert (fa + fb)[..|fa + fb| - 1] == fa + fb' && (fa + fb)[|fa + fb| - 1] == fb[|fb| - 1];
      assert ScanRecords(rows, cols, ps, rv, a + b, fa + fb) == ScanRecords(rows, cols, ps, rv, a + b', fa + fb') + last;
      assert ScanRecords(rows, cols, ps, rv, b, fb) == ScanRecords(rows, cols, ps, rv, b', fb') + last;
      ScanRecordsAppend(rows, cols, ps, rv, a, b', fa, fb');
    }
  }

  /** With the automaton's guarantee on every line, a scan's records are exactly the records of its lines. */
  lemma {:induction false} ScanRecordsSet(grid: seq<seq<char>>, ps: seq<string>, rv: seq<bool>, ls: seq<Line>, found: seq<seq<Match>>)
    requires Rectangular(grid) && |rv| == |ps| && |found| == |ls|
    requires forall j :: 0 <= j < |ls| ==> Searched(grid, ps, ls[j], found[j])
    ensures (set f | f in ScanRecords(|grid|, |grid[0]|, ps, rv, ls, found)) == ExpectedOf(grid, ps, rv, ls)
    decreases |ls|
  {
    if ls != [] {
      var n := |ls| - 1;
      var init, finit := ls[..n], found[..n];
      assert forall j :: 0 <= j < n ==> init[j] == ls[j] && finit[j] == found[j];
      ScanRecordsSet(grid, ps, rv, init, finit);
      assert Searched(grid, ps, ls[n], found[n]);
      var head := ScanRecords(|grid|, |grid[0]|, ps, rv, init, finit);
      var last := MatchRecords(|grid|, |grid[0]|, ps, rv, ls[n], found[n]);
      assert ScanRecords(|grid|, |grid[0]|, ps, rv, ls, found) == head + last;
      assert ExpectedOf(grid, ps, rv, ls) == ExpectedOf(grid, ps, rv, init) + Expected(grid, ps, rv, ls[n]);
      LineRecordsSet(grid, ps, rv, ls[n], found[n]);
      SetOfConcat(head, last);
    }
  }

  /** One line's reported records are exactly its records, given the automaton's guarantee on it. */
  lemma LineRecordsSet(grid: seq<seq<char>>, ps: seq<string>, rv: seq<bool>, l: Line, ms: seq<Match>)
    requires |rv| == |ps| && Searched(grid, ps, l, ms)
    ensures var rs := MatchRecords(|grid|, |grid[0]|, ps, rv, l, ms);
      (set f | f in rs) == Expected(grid, ps, rv, l)
  {
    MatchRecordsSet(|grid|, |grid[0]|, ps, rv, l, ms);
    MatchesGiveExpected(grid, ps, rv, l, ms);
  }

  /** A scan reported in order absorbs the records of its lines. */
  lemma ScanAbsorbs(grid: seq<seq<char>>, ps: seq<string>, rv: seq<bool>, before: seq<FoundWord>, ls: seq<Line>, found: seq<seq<Match>>)
    requires Rectangular(grid) && |rv| == |ps| && |found| == |ls| && DistinctKeys(before)
    requires forall j :: 0 <= j < |ls| ==> Searched(grid, ps, ls[j], found[j])
    ensures Absorbed(before, AddAll(before, ScanRecords(|grid|, |grid[0]|, ps, rv, ls, found)), ExpectedOf(grid, ps, rv, ls))
  {
    var rs := ScanRecords(|grid|, |grid[0]|, ps, rv, ls, found);
    AddAllAbsorbs(before, rs);
    ScanRecordsSet(grid, ps, rv, ls, found);
  }
}
