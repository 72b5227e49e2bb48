/**
 * The lines the solver reads: every row left to right, every column top to
 * bottom, and the two diagonal families. A line is given by its first cell
 * and a step; its i-th cell is the first cell plus i steps. The solver reads
 * each line as a string, so a position in that string is an index on the line.
 */
module GridLines {

  /** A grid cell as (row, column). */
  type Cell = (int, int)

  /** The grid the solver accepts: at least one non-empty row, all rows as long as the first. */
  predicate Rectangular(grid: seq<seq<char>>) {
    |grid| > 0 && |grid[0]| > 0 && forall r :: 0 <= r < |grid| ==> |grid[r]| == |grid[0]|
  }

  predicate InBounds(rows: int, cols: int, cell: Cell) {
    0 <= cell.0 < rows && 0 <= cell.1 < cols
  }

  /**
   * A row, a column, or a diagonal from (startRow, startCol) going down one row
   * per step and one column right (the top-left to bottom-right family) or left
   * (the top-right to bottom-left one).
   */
  datatype Line = Row(row: int) | Column(col: int) | Diagonal(startRow: int, startCol: int, rightward: bool)

  function Origin(l: Line): Cell {
    match l
    case Row(r) => (r, 0)
    case Column(c) => (0, c)
    case Diagonal(r, c, _) => (r, c)
  }

  /** The (row, column) step from one cell of the line to the next. */
  function Step(l: Line): (int, int) {
    match l
    case Row(_) => (0, 1)
    case Column(_) => (1, 0)
    case Diagonal(_, _, rightward) => (1, if rightward then 1 else -1)
  }

  /** The cell at index i of the line, for any integer i. */
  function CellAt(l: Line, i: int): Cell {
    match l
    case Row(r) => (r, i)
    case Column(c) => (i, c)
    case Diagonal(r, c, rightward) => (r + i, if rightward then c + i else c - i)
  }

  /** Index i of a line is its origin plus i steps. */
  lemma CellAtSteps(l: Line, i: int)
    ensures CellAt(l, i) == (Origin(l).0 + i * Step(l).0, Origin(l).1 + i * Step(l).1)
  {
  }

  function Min(a: int, b: int): int {
    if a <= b then a else b
  }

  /** How many cells the solver reads on the line: it stops at the first cell off the grid. */
  function Len(rows: int, cols: int, l: Line): int {
    match l
    case Row(_) => cols
    case Column(_) => rows
    case Diagonal(r, c, rightward) => if rightward then Min(rows - r, cols - c) else Min(rows - r, c + 1)
  }

  /**
   * A line the solver reads: a row or column of the grid, or a diagonal that
   * starts on the grid's edge, in the first column or the first row going right,
   * in the last column or the first row going left.
   */
  predicate Maximal(rows: int, cols: int, l: Line) {
    match l
    case Row(r) => 0 <= r < rows
    case Column(c) => 0 <= c < cols
    case Diagonal(r, c, rightward) =>
      InBounds(rows, cols, (r, c)) && (r == 0 || c == (if rightward then 0 else cols - 1))
  }

  /** On a line the solver reads, the cells in the grid are exactly the indices 0 .. Len - 1. */
  lemma LineInGrid(rows: int, cols: int, l: Line, i: int)
    requires Maximal(rows, cols, l)
    ensures InBounds(rows, cols, CellAt(l, i)) <==> 0 <= i < Len(rows, cols, l)
  {
  }

  /** scanHorizontal's lines, in order. */
  function RowLines(rows: nat): (ls: seq<Line>)
    ensures |ls| == rows && forall r :: 0 <= r < rows ==> ls[r] == Row(r)
  {
    seq(rows, r => Row(r))
  }

  /** scanVertical's lines, in order. */
  function ColumnLines(cols: nat): (ls: seq<Line>)
    ensures |ls| == cols && forall c :: 0 <= c < cols ==> ls[c] == Column(c)
  {
    seq(cols, c => Column(c))
  }

  /** scanDiagonalTLBR's first loop: a line from each cell of the first column, top to bottom. */
  function TLBRFromColumn(rows: nat): (ls: seq<Line>)
    ensures |ls| == rows && forall r :: 0 <= r < rows ==> ls[r] == Diagonal(r, 0, true)
  {
    seq(rows, r => Diagonal(r, 0, true))
  }

  /** scanDiagonalTLBR's second loop: a line from (0, 1) .. (0, cols - 1); index k starts in column k + 1. */
  function TLBRFromRow(cols: nat): (ls: seq<Line>)
    requires 0 < cols
    ensures |ls| == cols - 1 && forall k :: 0 <= k < cols - 1 ==> ls[k] == Diagonal(0, k + 1, true)
  {
    seq(cols - 1, k => Diagonal(0, k + 1, true))
  }

  /** scanDiagonalTLBR's lines: from each cell of the first column, then from (0, 1) .. (0, cols - 1). */
  function TLBRLines(rows: nat, cols: nat): (ls: seq<Line>)
    requires 0 < cols
    ensures |ls| == rows + cols - 1
    ensures forall j :: 0 <= j < rows ==> ls[j] == Diagonal(j, 0, true)
    ensures forall j :: rows <= j < rows + cols - 1 ==> ls[j] == Diagonal(0, j - rows + 1, true)
  {
    TLBRFromColumn(rows) + TLBRFromRow(cols)
  }

  /** scanDiagonalTRBL's first loop: a line from each cell of the last column, top to bottom. */
  function TRBLFromColumn(rows: nat, cols: nat): (ls: seq<Line>)
    ensures |ls| == rows && forall r :: 0 <= r < rows ==> ls[r] == Diagonal(r, cols - 1, false)
  {
    seq(rows, r => Diagonal(r, cols - 1, false))
  }

  /** scanDiagonalTRBL's second loop: a line from (0, cols - 2) down to (0, 0); index k starts in column cols - 2 - k. */
  function TRBLFromRow(cols: nat): (ls: seq<Line>)
    requires 0 < cols
    ensures |ls| == cols - 1 && forall k :: 0 <= k < cols - 1 ==> ls[k] == Diagonal(0, cols - 2 - k, false)
  {
    seq(cols - 1, k => Diagonal(0, cols - 2 - k, false))
  }

  /** scanDiagonalTRBL's lines: from each cell of the last column, then from (0, cols - 2) down to (0, 0). */
  function TRBLLines(rows: nat, cols: nat): (ls: seq<Line>)
    requires 0 < cols
    ensures |ls| == rows + cols - 1
    ensures forall j :: 0 <= j < rows ==> ls[j] == Diagonal(j, cols - 1, false)
    ensures forall j :: rows <= j < rows + cols - 1 ==> ls[j] == Diagonal(0, cols - 2 - (j - rows), false)
  {
    TRBLFromColumn(rows, cols) + TRBLFromRow(cols)
  }

  /** solve's lines: the rows, then the columns, then the TL-BR and the TR-BL diagonals. */
  function ScanLines(rows: nat, cols: nat): (ls: seq<Line>)
    requires 0 < cols
    ensures |ls| == 3 * rows + 3 * cols - 2
  {
    RowLines(rows) + ColumnLines(cols) + TLBRLines(rows, cols) + TRBLLines(rows, cols)
  }

  /** Every line of the four families is one the solver can read. */
  lemma FamiliesMaximal(rows: nat, cols: nat)
    requires 0 < rows && 0 < cols
    ensures forall j :: 0 <= j < rows ==> Maximal(rows, cols, RowLines(rows)[j])
    ensures forall j :: 0 <= j < cols ==> Maximal(rows, cols, ColumnLines(cols)[j])
    ensures forall j :: 0 <= j < rows + cols - 1 ==> Maximal(rows, cols, TLBRLines(rows, cols)[j])
    ensures forall j :: 0 <= j < rows + cols - 1 ==> Maximal(rows, cols, TRBLLines(rows, cols)[j])
    ensures forall j :: 0 <= j < rows ==> Maximal(rows, cols, TLBRFromColumn(rows)[j])
    ensures forall j :: 0 <= j < cols - 1 ==> Maximal(rows, cols, TLBRFromRow(cols)[j])
    ensures forall j :: 0 <= j < rows ==> Maximal(rows, cols, TRBLFromColumn(rows, cols)[j])
    ensures forall j :: 0 <= j < cols - 1 ==> Maximal(rows, cols, TRBLFromRow(cols)[j])
  {
  }

  /** Cell (r, c) is read exactly once by the lines in ls. */
  ghost predicate CoveredOnce(rows: int, cols: int, ls: seq<Line>, r: int, c: int) {
    && (exists j, i :: 0 <= j < |ls| && 0 <= i < Len(rows, cols, ls[j]) && CellAt(ls[j], i) == (r, c))
    && (forall j, i, j', i' ::
          (0 <= j < |ls| && 0 <= i < Len(rows, cols, ls[j]) && CellAt(ls[j], i) == (r, c) &&
           0 <= j' < |ls| && 0 <= i' < Len(rows, cols, ls[j']) && CellAt(ls[j'], i') == (r, c)) ==>
            j == j' && i == i')
  }

  /** The top-left to bottom-right line through (r, c) and the index of (r, c) on it. */
  lemma TLBRIndex(rows: nat, cols: nat, r: int, c: int) returns (j: nat, i: nat)
    requires 0 < cols && InBounds(rows, cols, (r, c))
    ensures j < rows + cols - 1 && i < Len(rows, cols, TLBRLines(rows, cols)[j])
    ensures CellAt(TLBRLines(rows, cols)[j], i) == (r, c)
  {
    if r >= c {
      j, i := r - c, c;
    } else {
      j, i := rows + (c - r) - 1, r;
    }
    LineInGrid(rows, cols, TLBRLines(rows, cols)[j], i);
  }

  /** The top-right to bottom-left line through (r, c) and the index of (r, c) on it. */
  lemma TRBLIndex(rows: nat, cols: nat, r: int, c: int) returns (j: nat, i: nat)
    requires 0 < cols && InBounds(rows, cols, (r, c))
    ensures j < rows + cols - 1 && i < Len(rows, cols, TRBLLines(rows, cols)[j])
    ensures CellAt(TRBLLines(rows, cols)[j], i) == (r, c)
  {
    if r + c >= cols - 1 {
      j, i := r + c - (cols - 1), cols - 1 - c;
    } else {
      j, i := rows + (cols - 2 - (r + c)), r;
    }
    LineInGrid(rows, cols, TRBLLines(rows, cols)[j], i);
  }

  /**
   * The rows + cols - 1 top-left to bottom-right lines read every cell of the
   * grid exactly once: a line's r - c is fixed and differs from line to line.
   */
  lemma TLBRCoverage(rows: nat, cols: nat, r: int, c: int)
    requires 0 < cols && InBounds(rows, cols, (r, c))
    ensures |TLBRLines(rows, cols)| == rows + cols - 1
    ensures CoveredOnce(rows, cols, TLBRLines(rows, cols), r, c)
  {
    var ls := TLBRLines(rows, cols);
    var j, i := TLBRIndex(rows, cols, r, c);
    forall j, i, j', i' |
      (0 <= j < |ls| && 0 <= i < Len(rows, cols, ls[j]) && CellAt(ls[j], i) == (r, c) &&
       0 <= j' < |ls| && 0 <= i' < Len(rows, cols, ls[j']) && CellAt(ls[j'], i') == (r, c))
      ensures j == j' && i == i'
    {
      TLBRCell(rows, cols, j, i);
      TLBRCell(rows, cols, j', i');
    }
  }

  /** Cell i of the j-th top-left to bottom-right line, in closed form. */
  lemma TLBRCell(rows: nat, cols: nat, j: nat, i: int)
    requires 0 < cols && j < rows + cols - 1
    ensures CellAt(TLBRLines(rows, cols)[j], i) == if j < rows then (j + i, i) else (i, j - rows + 1 + i)
  {
  }

  /**
   * The rows + cols - 1 top-right to bottom-left lines read every cell of the
   * grid exactly once: a line's r + c is fixed and differs from line to line.
   */
  lemma TRBLCoverage(rows: nat, cols: nat, r: int, c: int)
    requires 0 < cols && InBounds(rows, cols, (r, c))
    ensures |TRBLLines(rows, cols)| == rows + cols - 1
    ensures CoveredOnce(rows, cols, TRBLLines(rows, cols), r, c)
  {
    var ls := TRBLLines(rows, cols);
    var j, i := TRBLIndex(rows, cols, r, c);
    forall j, i, j', i' |
      (0 <= j < |ls| && 0 <= i < Len(rows, cols, ls[j]) && CellAt(ls[j], i) == (r, c) &&
       0 <= j' < |ls| && 0 <= i' < Len(rows, cols, ls[j']) && CellAt(ls[j'], i') == (r, c))
      ensures j == j' && i == i'
    {
      TRBLCell(rows, cols, j, i);
      TRBLCell(rows, cols, j', i');
    }
  }

  /** Cell i of the j-th top-right to bottom-left line, in closed form. */
  lemma TRBLCell(rows: nat, cols: nat, j: nat, i: int)
    requires 0 < cols && j < rows + cols - 1
    ensures CellAt(TRBLLines(rows, cols)[j], i) ==
      if j < rows then (j + i, cols - 1 - i) else (i, cols - 2 - (j - rows) - i)
  {
  }
}
