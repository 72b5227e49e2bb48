/**
 * The placement core of the puzzle generator. Words are written into a
 * rows x cols character grid whose empty cells hold '\0'. Each word first gets
 * an intersection-first attempt (when requested and no intersection exists
 * yet), then up to MAX_PLACEMENT_ATTEMPTS random attempts. After all words, the
 * empty cells are filled with random letters. The random choices are modelled
 * as arbitrary choices from the ranges java.util.Random draws from, and the
 * shuffle of the candidate anchors as an arbitrary permutation.
 */
module Builders {
  import opened Text
  import opened WordVectors

  const MAX_PLACEMENT_ATTEMPTS: int := 1000

  /** The eight directions as (dx, dy): column step, row step. */
  const DIRECTIONS: seq<(int, int)> := [(1, 0), (-1, 0), (0, 1), (0, -1), (1, 1), (-1, -1), (1, -1), (-1, 1)]

  /** The empty-cell sentinel, Java's default char. */
  const EMPTY: char := 0 as char

  /** The eight directions are distinct, non-zero and unit, and they are all such directions. */
  lemma DirectionsShape()
    ensures |DIRECTIONS| == 8
    ensures forall d :: 0 <= d < 8 ==> UnitStep(DIRECTIONS[d].0, DIRECTIONS[d].1) && DIRECTIONS[d] != (0, 0)
    ensures forall a, b :: 0 <= a < b < 8 ==> DIRECTIONS[a] != DIRECTIONS[b]
    ensures forall dx, dy :: UnitStep(dx, dy) && (dx, dy) != (0, 0) ==> (dx, dy) in DIRECTIONS
  {
  }

  /** One of the eight directions. */
  predicate IsDirection(dx: int, dy: int) {
    (dx, dy) in DIRECTIONS
  }

  lemma DirectionIsUnit(dx: int, dy: int)
    requires IsDirection(dx, dy)
    ensures UnitStep(dx, dy) && (dx, dy) != (0, 0)
  {
  }

  predicate InBounds(rows: int, cols: int, cell: Cell) {
    0 <= cell.0 < rows && 0 <= cell.1 < cols
  }

  /** A candidate: letter wordIndex of the new word would sit on cell (row, col). */
  datatype IntersectionPoint = IntersectionPoint(row: int, col: int, wordIndex: int)

  /** The candidate for letter i of the new word and letter j of placed word k. */
  function PointOf(placed: seq<WordVector>, k: nat, i: nat, j: nat): IntersectionPoint
    requires k < |placed|
  {
    IntersectionPoint(placed[k].GetCell(j).0, placed[k].GetCell(j).1, i)
  }

  /** p puts a letter of word on the cell of an equal letter of a placed word. */
  ghost predicate IsAnchor(placed: seq<WordVector>, word: string, p: IntersectionPoint) {
    exists k, j :: 0 <= k < |placed| && 0 <= j < |placed[k].word| && 0 <= p.wordIndex < |word|
      && word[p.wordIndex] == placed[k].word[j] && PointOf(placed, k, p.wordIndex, j) == p
  }

  /** The placement tryPlaceWordWithIntersection tries for p, a direction and an orientation. */
  function Through(p: IntersectionPoint, word: string, dir: (int, int), forward: bool): WordVector {
    var step := if forward then p.wordIndex else |word| - 1 - p.wordIndex;
    WordVector(word, p.row - dir.1 * step, p.col - dir.0 * step, dir.0, dir.1, forward)
  }

  /** The placement tried for p has letter p.wordIndex on p's cell. */
  lemma ThroughCrosses(p: IntersectionPoint, word: string, dir: (int, int), forward: bool)
    ensures Through(p, word, dir, forward).GetCell(p.wordIndex) == (p.row, p.col)
  {
  }

  /**
   * collecting the candidates in tryPlaceWordWithIntersection: every pair of
   * equal letters, one of the new word and one of a placed word, gives the
   * placed letter's cell and the new letter's index; nothing else is collected.
   */
  method CollectIntersections(placed: seq<WordVector>, word: string) returns (potentialStarts: seq<IntersectionPoint>)
    ensures forall p :: p in potentialStarts ==> IsAnchor(placed, word, p)
    ensures forall k, i, j ::
      (0 <= k < |placed| && 0 <= i < |word| && 0 <= j < |placed[k].word| && word[i] == placed[k].word[j]) ==>
        PointOf(placed, k, i, j) in potentialStarts
  {
    potentialStarts := [];
    for k := 0 to |placed|
      invariant forall p :: p in potentialStarts ==> IsAnchor(placed, word, p)
      invariant forall k', i, j ::
        (0 <= k' < k && 0 <= i < |word| && 0 <= j < |placed[k'].word| && word[i] == placed[k'].word[j]) ==>
          PointOf(placed, k', i, j) in potentialStarts
    {
      var placedWord := placed[k].word;
      ghost var before := potentialStarts;
      for i := 0 to |word|
        invariant forall p :: p in potentialStarts ==> IsAnchor(placed, word, p)
        invariant forall p :: p in before ==> p in potentialStarts
        invariant forall i', j :: (0 <= i' < i && 0 <= j < |placedWord| && word[i'] == placedWord[j]) ==>
          PointOf(placed, k, i', j) in potentialStarts
      {
        ghost var middle := potentialStarts;
        for j := 0 to |placedWord|
          invariant forall p :: p in potentialStarts ==> IsAnchor(placed, word, p)
          invariant forall p :: p in middle ==> p in potentialStarts
          invariant forall j' :: 0 <= j' < j && word[i] == placedWord[j'] ==> PointOf(placed, k, i, j') in potentialStarts
        {
          if word[i] == placedWord[j] {
            var cell := placed[k].GetCell(j);
            potentialStarts := potentialStarts + [IntersectionPoint(cell.0, cell.1, i)];
          }
        }
      }
    }
  }

  /**
   * canPlaceWord's own bounds test: only the end cell |word| - 1 steps from
   * the anchor is checked.
   */
  predicate EndInBounds(rows: int, cols: int, v: WordVector) {
    InBounds(rows, cols, v.EndCell())
  }

  /** Letter i of v sits on the cell of an equal letter j of one of the placed words. */
  ghost predicate Crosses(placed: seq<WordVector>, v: WordVector) {
    exists k, i, j :: 0 <= k < |placed| && 0 <= i < |v.word| && 0 <= j < |placed[k].word|
      && v.word[i] == placed[k].word[j] && v.GetCell(i) == placed[k].GetCell(j)
  }

  /** Some placed word crosses an earlier one. */
  ghost predicate HasIntersection(placed: seq<WordVector>) {
    exists k :: 0 < k < |placed| && Crosses(placed[..k], placed[k])
  }

  lemma IntersectionPersists(placed: seq<WordVector>, v: WordVector)
    requires HasIntersection(placed)
    ensures HasIntersection(placed + [v])
  {
    var k :| 0 < k < |placed| && Crosses(placed[..k], placed[k]);
    assert (placed + [v])[..k] == placed[..k];
  }

  /** No letter of any placed word is on cell (r, c). */
  ghost predicate OffAll(placed: seq<WordVector>, r: int, c: int) {
    forall k, n :: 0 <= k < |placed| && 0 <= n < |placed[k].word| ==> placed[k].GetCell(n) != (r, c)
  }

  /** v's path does not go through cell (r, c). */
  ghost predicate OffPath(v: WordVector, r: int, c: int) {
    forall n :: 0 <= n < |v.word| ==> v.GetCell(n) != (r, c)
  }

  lemma OffAllAppend(placed: seq<WordVector>, v: WordVector, r: int, c: int)
    requires OffAll(placed + [v], r, c)
    ensures OffAll(placed, r, c) && OffPath(v, r, c)
  {
    forall k, n | 0 <= k < |placed| && 0 <= n < |placed[k].word|
      ensures placed[k].GetCell(n) != (r, c)
    {
      assert (placed + [v])[k] == placed[k];
    }
    assert (placed + [v])[|placed|] == v;
  }

  /** The words of the placed vectors, in placement order. */
  function WordsOf(placed: seq<WordVector>): seq<string>
  {
    if placed == [] then [] else WordsOf(placed[..|placed| - 1]) + [placed[|placed| - 1].word]
  }

  /** The words whose outcome is b, in input order. */
  function Select(words: seq<string>, outcome: seq<bool>, b: bool): seq<string>
    requires |outcome| == |words|
  {
    if words == [] then []
    else
      var last := |words| - 1;
      Select(words[..last], outcome[..last], b) + (if outcome[last] == b then [words[last]] else [])
  }

  lemma SelectStep(words: seq<string>, outcome: seq<bool>, k: nat, b: bool)
    requires k < |words| && |outcome| == k + 1
    ensures Select(words[..k + 1], outcome, b) ==
      Select(words[..k], outcome[..k], b) + (if outcome[k] == b then [words[k]] else [])
  {
    assert words[..k + 1][..k] == words[..k];
  }

  lemma WordsOfAppend(placed: seq<WordVector>, v: WordVector)
    ensures WordsOf(placed + [v]) == WordsOf(placed) + [v.word]
  {
    assert (placed + [v])[..|placed|] == placed;
  }

  /**
   * The bounds gap of canPlaceWord as written. With CAT placed across row 0 from
   * (0, 0) in a 10 x 10 grid, the candidate that puts letter 1 of ACE on CAT's C
   * is tried in direction (1, 0) forward from column -1: the end cell (0, 1) passes
   * the end test, but the first read is at column -1.
   */
  lemma IntersectionAnchorOffGrid()
    ensures var cat := WordVector("CAT", 0, 0, 1, 0, true);
      var p := PointOf([cat], 0, 1, 0);
      var v := Through(p, "ACE", DIRECTIONS[0], true);
      && IsAnchor([cat], "ACE", p)
      && EndInBounds(10, 10, v) && |v.word| > 0 && !InBounds(10, 10, (v.startRow, v.startCol))
  {
    var cat := WordVector("CAT", 0, 0, 1, 0, true);
    var p := PointOf([cat], 0, 1, 0);
    assert "ACE"[1] == "CAT"[0];
    assert IsAnchor([cat], "ACE", p) by {
      assert 0 <= 0 < |[cat]| && [cat][0] == cat;
    }
  }

  /** Both the anchor and the end cell are in the grid. */
  predicate Fits(rows: int, cols: int, v: WordVector) {
    InBounds(rows, cols, (v.startRow, v.startCol)) && EndInBounds(rows, cols, v)
  }

  /** How a placed vector looks: a direction, no '\0' letter, both ends in the grid. */
  predicate WellPlaced(rows: int, cols: int, v: WordVector) {
    IsDirection(v.dx, v.dy) && EMPTY !in v.word && Fits(rows, cols, v)
  }

  /** Every letter of v is in the grid, on its cell. */
  ghost predicate WordAt(g: array2<char>, v: WordVector)
    reads g
  {
    forall n :: 0 <= n < |v.word| ==>
      InBounds(g.Length0, g.Length1, v.GetCell(n)) && g[v.GetCell(n).0, v.GetCell(n).1] == v.word[n]
  }

  /** Overlap consistency: every placed word still reads correctly in the grid. */
  ghost predicate Consistent(g: array2<char>, placed: seq<WordVector>)
    reads g
  {
    forall k :: 0 <= k < |placed| ==> WordAt(g, placed[k])
  }

  /** Before the fill: every cell no placed word covers is still empty. */
  ghost predicate OnlyWordsWritten(g: array2<char>, placed: seq<WordVector>)
    reads g
  {
    forall r, c :: 0 <= r < g.Length0 && 0 <= c < g.Length1 && OffAll(placed, r, c) ==> g[r, c] == EMPTY
  }

  /** Every letter of v falls on an empty cell or on the same letter. */
  ghost predicate Compatible(g: array2<char>, v: WordVector)
    reads g
  {
    forall n :: 0 <= n < |v.word| ==>
      InBounds(g.Length0, g.Length1, v.GetCell(n)) &&
      (g[v.GetCell(n).0, v.GetCell(n).1] == EMPTY || g[v.GetCell(n).0, v.GetCell(n).1] == v.word[n])
  }

  /** What the corrected canPlaceWord answers. */
  ghost predicate CanPlace(g: array2<char>, v: WordVector)
    reads g
  {
    Fits(g.Length0, g.Length1, v) && Compatible(g, v)
  }

  /** No orientation of direction d through p fits. */
  ghost predicate Blocked(g: array2<char>, p: IntersectionPoint, word: string, d: nat)
    reads g
    requires d < |DIRECTIONS|
  {
    !CanPlace(g, Through(p, word, DIRECTIONS[d], true)) && !CanPlace(g, Through(p, word, DIRECTIONS[d], false))
  }

  /** A placement the corrected test accepts has every letter's cell in the grid. */
  lemma CanPlaceInGrid(g: array2<char>, v: WordVector)
    requires UnitStep(v.dx, v.dy) && CanPlace(g, v)
    ensures forall n :: 0 <= n < |v.word| ==> InBounds(g.Length0, g.Length1, v.GetCell(n))
  {
    if |v.word| > 0 {
      CellsBetweenEnds(v, g.Length0, g.Length1);
    }
  }

  class Builder {
    const rows: int
    const cols: int
    const forceIntersection: bool
    var grid: array2<char>
    var successfullyPlacedWords: seq<WordVector>

    /**
     * The Builder's settings. The Java grid field stays null until generate runs;
     * the empty 0-by-0 array stands for it, so Valid() holds only once Generate
     * has allocated the rows-by-cols grid (for nonzero dimensions).
     */
    constructor (rows: int, cols: int, forceIntersection: bool)
      ensures this.rows == rows && this.cols == cols && this.forceIntersection == forceIntersection
      ensures successfullyPlacedWords == []
    {
      this.rows := rows;
      this.cols := cols;
      this.forceIntersection := forceIntersection;
      grid := new char[0, 0];
      successfullyPlacedWords := [];
    }

    ghost predicate Valid()
      reads this, grid
    {
      grid.Length0 == rows && grid.Length1 == cols
      && (forall k :: 0 <= k < |successfullyPlacedWords| ==> WellPlaced(rows, cols, successfullyPlacedWords[k]))
      && Consistent(grid, successfullyPlacedWords)
    }

    /**
     * canPlaceWord as the source writes it: false when the end cell is out of the
     * grid, otherwise true exactly when every letter's cell is empty or holds that
     * letter. The reads of the loop are only safe when the anchor is in the grid too.
     */
    method CanPlaceWordAsWritten(word: string, startRow: int, startCol: int, dx: int, dy: int, forward: bool)
      returns (ok: bool)
      requires grid.Length0 == rows && grid.Length1 == cols && UnitStep(dx, dy)
      requires EndInBounds(rows, cols, WordVector(word, startRow, startCol, dx, dy, forward)) && |word| > 0 ==>
        InBounds(rows, cols, (startRow, startCol))
      ensures ok <==> (EndInBounds(rows, cols, WordVector(word, startRow, startCol, dx, dy, forward)) &&
                       Compatible(grid, WordVector(word, startRow, startCol, dx, dy, forward)))
    {
      ghost var v := WordVector(word, startRow, startCol, dx, dy, forward);
      var endRow := startRow + dy * (|word| - 1);
      var endCol := startCol + dx * (|word| - 1);
      if endRow < 0 || endRow >= rows || endCol < 0 || endCol >= cols {
        return false;
      }
      if |word| > 0 {
        CellsBetweenEnds(v, rows, cols);
      }
      for i := 0 to |word|
        invariant forall n :: 0 <= n < i ==> (InBounds(rows, cols, v.GetCell(n)) &&
          (grid[v.GetCell(n).0, v.GetCell(n).1] == EMPTY || grid[v.GetCell(n).0, v.GetCell(n).1] == v.word[n]))
      {
        var step := if forward then i else |word| - 1 - i;
        assert (startRow + dy * step, startCol + dx * step) == v.GetCell(i);
        var currentChar := grid[startRow + dy * step, startCol + dx * step];
        if currentChar != EMPTY && currentChar != word[i] {
          return false;
        }
      }
      return true;
    }

    /**
     * canPlaceWord with the anchor bounds-checked as well as the end cell: true
     * exactly when both ends are in the grid and every letter's cell is empty or
     * holds that letter.
     */
    method CanPlaceWord(word: string, startRow: int, startCol: int, dx: int, dy: int, forward: bool) returns (ok: bool)
      requires grid.Length0 == rows && grid.Length1 == cols && UnitStep(dx, dy)
      ensures ok <==> CanPlace(grid, WordVector(word, startRow, startCol, dx, dy, forward))
    {
      if startRow < 0 || startRow >= rows || startCol < 0 || startCol >= cols {
        return false;
      }
      ok := CanPlaceWordAsWritten(word, startRow, startCol, dx, dy, forward);
    }

    /** On every anchor inside the grid, the corrected test and the written one agree. */
    lemma CorrectedAgrees(v: WordVector)
      requires grid.Length0 == rows && grid.Length1 == cols && InBounds(rows, cols, (v.startRow, v.startCol))
      ensures CanPlace(grid, v) <==> EndInBounds(rows, cols, v) && Compatible(grid, v)
    {
    }

    /** A non-empty word longer than both grid dimensions fits in no direction. */
    lemma TooLongNeverFits(v: WordVector)
      requires IsDirection(v.dx, v.dy) && |v.word| > rows && |v.word| > cols
      ensures !Fits(rows, cols, v)
    {
      var len := |v.word| - 1;
      if v.dy == 1 {
        assert v.EndCell().0 == v.startRow + len;
      } else if v.dy == -1 {
        assert v.EndCell().0 == v.startRow - len;
      } else if v.dx == 1 {
        assert v.EndCell().1 == v.startCol + len;
      } else {
        assert v.EndCell().1 == v.startCol - len;
      }
    }

    /**
     * placeWord: appends the vector and writes letter i on its cell. The cells off
     * the path keep their contents, and so does every non-empty cell, since the
     * placement was accepted by canPlaceWord.
     */
    method PlaceWord(word: string, startRow: int, startCol: int, dx: int, dy: int, forward: bool)
      requires Valid() && EMPTY !in word && IsDirection(dx, dy)
      requires CanPlace(grid, WordVector(word, startRow, startCol, dx, dy, forward))
      modifies this, grid
      ensures grid == old(grid) && Valid()
      ensures successfullyPlacedWords == old(successfullyPlacedWords) + [WordVector(word, startRow, startCol, dx, dy, forward)]
      ensures WordAt(grid, WordVector(word, startRow, startCol, dx, dy, forward))
      ensures forall r, c :: 0 <= r < rows && 0 <= c < cols && old(grid[r, c]) != EMPTY ==> grid[r, c] == old(grid[r, c])
      ensures forall r, c :: 0 <= r < rows && 0 <= c < cols && OffPath(WordVector(word, startRow, startCol, dx, dy, forward), r, c) ==>
        grid[r, c] == old(grid[r, c])
      ensures old(OnlyWordsWritten(grid, successfullyPlacedWords)) ==> OnlyWordsWritten(grid, successfullyPlacedWords)
    {
      var wordVector := WordVector(word, startRow, startCol, dx, dy, forward);
      ghost var before := successfullyPlacedWords;
      successfullyPlacedWords := successfullyPlacedWords + [wordVector];
      DirectionIsUnit(dx, dy);
      CanPlaceInGrid(grid, wordVector);
      var g := grid;
      for i := 0 to |word|
        modifies g
        invariant forall n :: 0 <= n < i ==> g[wordVector.GetCell(n).0, wordVector.GetCell(n).1] == word[n]
        invariant forall r, c :: 0 <= r < rows && 0 <= c < cols && old(g[r, c]) != EMPTY ==> g[r, c] == old(g[r, c])
        invariant forall r, c ::
          (0 <= r < rows && 0 <= c < cols && forall n :: 0 <= n < i ==> wordVector.GetCell(n) != (r, c)) ==>
            g[r, c] == old(g[r, c])
      {
        var step := if forward then i else |word| - 1 - i;
        var row := startRow + dy * step;
        var col := startCol + dx * step;
        assert (row, col) == wordVector.GetCell(i);
        forall n | 0 <= n < i
          ensures wordVector.GetCell(n) != (row, col)
        {
          GetCellInjective(wordVector, n, i);
        }
        g[row, col] := word[i];
      }
      forall k | 0 <= k < |before|
        ensures WordAt(g, before[k])
      {
        var w := before[k];
        assert old(WordAt(g, w)) && EMPTY !in w.word;
        forall n | 0 <= n < |w.word|
          ensures g[w.GetCell(n).0, w.GetCell(n).1] == w.word[n]
        {
          assert old(g[w.GetCell(n).0, w.GetCell(n).1]) == w.word[n] != EMPTY;
        }
      }
      PlacedKeepsOthers(before, wordVector);
      if old(OnlyWordsWritten(g, before)) {
        forall r, c | 0 <= r < rows && 0 <= c < cols && OffAll(successfullyPlacedWords, r, c)
          ensures g[r, c] == EMPTY
        {
          OffAllAppend(before, wordVector, r, c);
        }
      }
    }

    /** After placeWord's writes, the earlier words still read correctly. */
    lemma PlacedKeepsOthers(before: seq<WordVector>, v: WordVector)
      requires successfullyPlacedWords == before + [v] && grid.Length0 == rows && grid.Length1 == cols
      requires forall k :: 0 <= k < |before| ==> WellPlaced(rows, cols, before[k])
      requires Consistent(grid, before)
      requires WellPlaced(rows, cols, v) && WordAt(grid, v)
      ensures Valid()
    {
      forall k | 0 <= k < |successfullyPlacedWords|
        ensures WellPlaced(rows, cols, successfullyPlacedWords[k]) && WordAt(grid, successfullyPlacedWords[k])
      {
        if k < |before| {
          assert successfullyPlacedWords[k] == before[k];
        }
      }
    }

    /**
     * tryPlaceWordWithIntersection: tries the candidates in shuffled order, each in
     * the eight directions, forward first. On success the word crosses an earlier
     * word on an equal letter; on failure nothing changed and no candidate fits in
     * any direction or orientation.
     */
    method TryPlaceWordWithIntersection(word: string) returns (placed: bool, ghost v: WordVector)
      requires Valid() && EMPTY !in word
      modifies this, grid
      ensures grid == old(grid) && Valid()
      ensures old(OnlyWordsWritten(grid, successfullyPlacedWords)) ==> OnlyWordsWritten(grid, successfullyPlacedWords)
      ensures !placed ==> successfullyPlacedWords == old(successfullyPlacedWords) && unchanged(grid)
      ensures !placed ==> forall p, d :: IsAnchor(old(successfullyPlacedWords), word, p) && 0 <= d < 8 ==> Blocked(grid, p, word, d)
      ensures placed ==> successfullyPlacedWords == old(successfullyPlacedWords) + [v]
      ensures placed ==> v.word == word && Crosses(old(successfullyPlacedWords), v)
    {
      v := WordVector(word, 0, 0, 0, 0, true);
      var potentialStarts := CollectIntersections(successfullyPlacedWords, word);
      var shuffled: seq<IntersectionPoint> :| multiset(shuffled) == multiset(potentialStarts);
      for q := 0 to |shuffled|
        invariant grid == old(grid) && unchanged(grid) && successfullyPlacedWords == old(successfullyPlacedWords)
        invariant forall q', d :: 0 <= q' < q && 0 <= d < 8 ==> Blocked(grid, shuffled[q'], word, d)
      {
        var point := shuffled[q];
        assert point in multiset(potentialStarts);
        placed, v := TryAnchor(point, word);
        if placed {
          AnchorCrosses(old(successfullyPlacedWords), word, point, v);
          return;
        }
      }
      forall p, d | IsAnchor(old(successfullyPlacedWords), word, p) && 0 <= d < 8
        ensures Blocked(grid, p, word, d)
      {
        var k, j :| 0 <= k < |successfullyPlacedWords| && 0 <= j < |successfullyPlacedWords[k].word| &&
          0 <= p.wordIndex < |word| && word[p.wordIndex] == successfullyPlacedWords[k].word[j] &&
          PointOf(successfullyPlacedWords, k, p.wordIndex, j) == p;
        assert p in multiset(shuffled);
        var q :| 0 <= q < |shuffled| && shuffled[q] == p;
      }
      placed := false;
    }

    /**
     * The attempts through one candidate: the eight directions in order, each
     * forward then backward, stopping at the first placement that fits.
     */
    method TryAnchor(point: IntersectionPoint, word: string) returns (placed: bool, ghost v: WordVector)
      requires Valid() && EMPTY !in word
      modifies this, grid
      ensures grid == old(grid) && Valid()
      ensures old(OnlyWordsWritten(grid, successfullyPlacedWords)) ==> OnlyWordsWritten(grid, successfullyPlacedWords)
      ensures !placed ==> successfullyPlacedWords == old(successfullyPlacedWords) && unchanged(grid)
      ensures !placed ==> forall d :: 0 <= d < 8 ==> Blocked(grid, point, word, d)
      ensures placed ==> successfullyPlacedWords == old(successfullyPlacedWords) + [v]
      ensures placed ==> v.word == word && v.GetCell(point.wordIndex) == (point.row, point.col)
      ensures placed ==> old(CanPlace(grid, v))
      ensures placed ==> exists d, f ::
        && 0 <= d < 8 && v == Through(point, word, DIRECTIONS[d], f)
        && (forall d' :: 0 <= d' < d ==> old(Blocked(grid, point, word, d')))
        && (!f ==> !old(CanPlace(grid, Through(point, word, DIRECTIONS[d], true))))
    {
      v := WordVector(word, 0, 0, 0, 0, true);
      for d := 0 to |DIRECTIONS|
        invariant grid == old(grid) && unchanged(grid) && successfullyPlacedWords == old(successfullyPlacedWords)
        invariant forall d' :: 0 <= d' < d ==> Blocked(grid, point, word, d')
      {
        var dir := DIRECTIONS[d];
        DirectionIsUnit(dir.0, dir.1);
        var orientations := [true, false];
        for f := 0 to |orientations|
          invariant grid == old(grid) && unchanged(grid) && successfullyPlacedWords == old(successfullyPlacedWords)
          invariant forall f' :: 0 <= f' < f ==> !CanPlace(grid, Through(point, word, dir, orientations[f']))
        {
          var forward := orientations[f];
          var step := if forward then point.wordIndex else |word| - 1 - point.wordIndex;
          var startRow := point.row - dir.1 * step;
          var startCol := point.col - dir.0 * step;
          v := WordVector(word, startRow, startCol, dir.0, dir.1, forward);
          assert v == Through(point, word, dir, forward);
          var ok := CanPlaceWord(word, startRow, startCol, dir.0, dir.1, forward);
          if ok {
            forall d' | 0 <= d' < d ensures old(Blocked(grid, point, word, d')) {
              assert Blocked(grid, point, word, d');
            }
            if !forward {
              assert !CanPlace(grid, Through(point, word, dir, orientations[0]));
            }
            PlaceWord(word, startRow, startCol, dir.0, dir.1, forward);
            ThroughCrosses(point, word, dir, forward);
            assert v == Through(point, word, DIRECTIONS[d], forward);
            return true, v;
          }
        }
        assert !CanPlace(grid, Through(point, word, dir, orientations[0])) && !CanPlace(grid, Through(point, word, dir, orientations[1]));
        assert Blocked(grid, point, word, d);
      }
      placed := false;
    }

    /** A word with letter p.wordIndex on an anchor's cell crosses the placed word the anchor came from. */
    static lemma AnchorCrosses(placed: seq<WordVector>, word: string, p: IntersectionPoint, v: WordVector)
      requires IsAnchor(placed, word, p)
      requires v.word == word && v.GetCell(p.wordIndex) == (p.row, p.col)
      ensures Crosses(placed, v)
    {
      var k, j :| 0 <= k < |placed| && 0 <= j < |placed[k].word| && 0 <= p.wordIndex < |word|
        && word[p.wordIndex] == placed[k].word[j] && PointOf(placed, k, p.wordIndex, j) == p;
      assert v.GetCell(p.wordIndex) == placed[k].GetCell(j);
    }

    /**
     * The random placement of generate: up to MAX_PLACEMENT_ATTEMPTS tries of a
     * random orientation, direction and anchor cell, stopping at the first that fits.
     */
    method PlaceRandomly(word: string) returns (placed: bool, ghost v: WordVector)
      requires Valid() && EMPTY !in word && 0 < rows && 0 < cols
      modifies this, grid
      ensures grid == old(grid) && Valid()
      ensures old(OnlyWordsWritten(grid, successfullyPlacedWords)) ==> OnlyWordsWritten(grid, successfullyPlacedWords)
      ensures !placed ==> successfullyPlacedWords == old(successfullyPlacedWords) && unchanged(grid)
      ensures placed ==> successfullyPlacedWords == old(successfullyPlacedWords) + [v] && v.word == word
    {
      placed := false;
      v := WordVector(word, 0, 0, 0, 0, true);
      var attempts := 0;
      while !placed && attempts < MAX_PLACEMENT_ATTEMPTS
        invariant 0 <= attempts <= MAX_PLACEMENT_ATTEMPTS
        invariant grid == old(grid) && Valid()
        invariant old(OnlyWordsWritten(grid, successfullyPlacedWords)) ==> OnlyWordsWritten(grid, successfullyPlacedWords)
        invariant !placed ==> successfullyPlacedWords == old(successfullyPlacedWords) && unchanged(grid)
        invariant placed ==> successfullyPlacedWords == old(successfullyPlacedWords) + [v] && v.word == word
        decreases MAX_PLACEMENT_ATTEMPTS - attempts
      {
        var forward: bool :| true;
        var d :| 0 <= d < |DIRECTIONS|;
        var dx, dy := DIRECTIONS[d].0, DIRECTIONS[d].1;
        var startRow :| 0 <= startRow < rows;
        var startCol :| 0 <= startCol < cols;
        DirectionIsUnit(dx, dy);
        var ok := CanPlaceWord(word, startRow, startCol, dx, dy, forward);
        if ok {
          PlaceWord(word, startRow, startCol, dx, dy, forward);
          v := WordVector(word, startRow, startCol, dx, dy, forward);
          placed := true;
        }
        attempts := attempts + 1;
      }
    }

    /**
     * fillEmptyCells: every empty cell gets a letter 'A'..'Z' and filled cells keep
     * theirs, so no cell is empty afterwards and the placed words still read correctly.
     */
    method FillEmptyCells()
      requires Valid()
      modifies grid
      ensures Valid()
      ensures forall r, c :: 0 <= r < rows && 0 <= c < cols ==>
        (old(grid[r, c]) == EMPTY ==> IsUpperLetter(grid[r, c])) && (old(grid[r, c]) != EMPTY ==> grid[r, c] == old(grid[r, c]))
      ensures forall r, c :: 0 <= r < rows && 0 <= c < cols ==> grid[r, c] != EMPTY
      ensures old(OnlyWordsWritten(grid, successfullyPlacedWords)) ==>
        forall r, c :: 0 <= r < rows && 0 <= c < cols && OffAll(successfullyPlacedWords, r, c) ==> IsUpperLetter(grid[r, c])
    {
      var g := grid;
      for r := 0 to rows
        modifies g
        invariant forall r', c :: 0 <= r' < r && 0 <= c < cols ==>
          (old(g[r', c]) == EMPTY ==> IsUpperLetter(g[r', c])) && (old(g[r', c]) != EMPTY ==> g[r', c] == old(g[r', c]))
        invariant forall r', c :: r <= r' < rows && 0 <= c < cols ==> g[r', c] == old(g[r', c])
      {
        for c := 0 to cols
          modifies g
          invariant forall r', c' :: 0 <= r' < rows && 0 <= c' < cols && (r' < r || (r' == r && c' < c)) ==>
            (old(g[r', c']) == EMPTY ==> IsUpperLetter(g[r', c'])) && (old(g[r', c']) != EMPTY ==> g[r', c'] == old(g[r', c']))
          invariant forall r', c' :: 0 <= r' < rows && 0 <= c' < cols && (r' > r || (r' == r && c' >= c)) ==>
            g[r', c'] == old(g[r', c'])
        {
          if g[r, c] == EMPTY {
            var letter :| 0 <= letter < 26;
            g[r, c] := ('A' as int + letter) as char;
          }
        }
      }
      forall k | 0 <= k < |successfullyPlacedWords|
        ensures WordAt(g, successfullyPlacedWords[k])
      {
        var w := successfullyPlacedWords[k];
        assert old(WordAt(g, w)) && WellPlaced(rows, cols, w);
        forall n | 0 <= n < |w.word|
          ensures g[w.GetCell(n).0, w.GetCell(n).1] == w.word[n]
        {
          assert old(g[w.GetCell(n).0, w.GetCell(n).1]) == w.word[n] != EMPTY;
        }
      }
    }

    /**
     * One word of generate's loop: the intersection-first attempt while it is
     * requested, not yet achieved and some word is placed, then the random
     * attempts if that did not place it. One success sets hasIntersection for good.
     */
    method PlaceNext(word: string, hasIntersection: bool) returns (placed: bool, nowIntersecting: bool, ghost v: WordVector)
      requires Valid() && OnlyWordsWritten(grid, successfullyPlacedWords) && EMPTY !in word && 0 < rows && 0 < cols
      requires hasIntersection ==> forceIntersection && HasIntersection(successfullyPlacedWords)
      modifies this, grid
      ensures grid == old(grid) && Valid() && OnlyWordsWritten(grid, successfullyPlacedWords)
      ensures !placed ==> successfullyPlacedWords == old(successfullyPlacedWords)
      ensures placed ==> successfullyPlacedWords == old(successfullyPlacedWords) + [v] && v.word == word
      ensures hasIntersection ==> nowIntersecting
      ensures nowIntersecting ==> forceIntersection && HasIntersection(successfullyPlacedWords)
      ensures nowIntersecting && !hasIntersection ==> placed && Crosses(old(successfullyPlacedWords), v)
      ensures forceIntersection && !hasIntersection && |old(successfullyPlacedWords)| > 0 && !nowIntersecting ==>
        forall p, d :: IsAnchor(old(successfullyPlacedWords), word, p) && 0 <= d < 8 ==> old(Blocked(grid, p, word, d))
    {
      placed := false;
      nowIntersecting := hasIntersection;
      v := WordVector(word, 0, 0, 0, 0, true);
      ghost var before := successfullyPlacedWords;
      if forceIntersection && !hasIntersection && |successfullyPlacedWords| > 0 {
        placed, v := TryPlaceWordWithIntersection(word);
        if placed {
          nowIntersecting := true;
          assert successfullyPlacedWords[..|before|] == before;
          assert Crosses(successfullyPlacedWords[..|before|], successfullyPlacedWords[|before|]);
        } else {
          forall p, d | IsAnchor(before, word, p) && 0 <= d < 8 ensures old(Blocked(grid, p, word, d)) {
            assert Blocked(grid, p, word, d);
          }
        }
      }
      if !placed {
        placed, v := PlaceRandomly(word);
        if placed && hasIntersection {
          IntersectionPersists(before, v);
        }
      }
    }

    /**
     * The placement loop of generate: each word placed at most once, in input
     * order. outcome records which words were placed; the placed words are the
     * ones it marks true, the unplaced list the ones it marks false.
     */
    method PlaceAll(words: seq<string>) returns (unplaced: seq<string>, hasIntersection: bool, ghost outcome: seq<bool>)
      requires Valid() && successfullyPlacedWords == [] && OnlyWordsWritten(grid, successfullyPlacedWords)
      requires 0 < rows && 0 < cols
      requires forall k :: 0 <= k < |words| ==> EMPTY !in words[k]
      modifies this, grid
      ensures grid == old(grid) && Valid() && OnlyWordsWritten(grid, successfullyPlacedWords)
      ensures |outcome| == |words|
      ensures WordsOf(successfullyPlacedWords) == Select(words, outcome, true)
      ensures unplaced == Select(words, outcome, false)
      ensures hasIntersection ==> forceIntersection && HasIntersection(successfullyPlacedWords)
    {
      unplaced := [];
      hasIntersection := false;
      outcome := [];
      for wi := 0 to |words|
        invariant grid == old(grid) && Valid() && OnlyWordsWritten(grid, successfullyPlacedWords)
        invariant |outcome| == wi
        invariant WordsOf(successfullyPlacedWords) == Select(words[..wi], outcome, true)
        invariant unplaced == Select(words[..wi], outcome, false)
        invariant hasIntersection ==> forceIntersection && HasIntersection(successfullyPlacedWords)
      {
        var word := words[wi];
        ghost var before := successfullyPlacedWords;
        var placed;
        ghost var v;
        placed, hasIntersection, v := PlaceNext(word, hasIntersection);
        if placed {
          WordsOfAppend(before, v);
        } else {
          unplaced := unplaced + [word];
        }
        SelectStep(words, outcome + [placed], wi, true);
        SelectStep(words, outcome + [placed], wi, false);
        assert (outcome + [placed])[..wi] == outcome;
        outcome := outcome + [placed];
      }
      assert words[..|words|] == words;
    }

    /**
     * The placement part of generate: a fresh empty grid, the placement loop, then
     * the fill. Afterwards every placed word reads correctly, no cell is empty,
     * and every cell outside the placed words holds a letter 'A'..'Z'.
     */
    method Generate(words: seq<string>) returns (unplaced: seq<string>, hasIntersection: bool, ghost outcome: seq<bool>)
      requires 0 < rows && 0 < cols
      requires forall k :: 0 <= k < |words| ==> EMPTY !in words[k]
      modifies this
      ensures fresh(grid) && Valid()
      ensures |outcome| == |words|
      ensures WordsOf(successfullyPlacedWords) == Select(words, outcome, true)
      ensures unplaced == Select(words, outcome, false)
      ensures hasIntersection ==> forceIntersection && HasIntersection(successfullyPlacedWords)
      ensures forall r, c :: 0 <= r < rows && 0 <= c < cols ==> grid[r, c] != EMPTY
      ensures forall r, c :: 0 <= r < rows && 0 <= c < cols && OffAll(successfullyPlacedWords, r, c) ==>
        IsUpperLetter(grid[r, c])
    {
      grid := new char[rows, cols]((r, c) => EMPTY);
      successfullyPlacedWords := [];
      unplaced, hasIntersection, outcome := PlaceAll(words);
      FillEmptyCells();
    }
  }
}
