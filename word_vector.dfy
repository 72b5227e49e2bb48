/**
 * A word's placement in the generator's grid: the word, an anchor cell, a
 * direction given as a column step dx and a row step dy, and an orientation.
 * A forward vector has letter n at n steps from the anchor; a backward one has
 * letter n at |word| - 1 - n steps, so its last letter sits on the anchor.
 * The datatype's destructors are the class's getters.
 */
module WordVectors {

  /** A grid cell as (row, column). */
  type Cell = (int, int)

  datatype WordVector = WordVector(word: string, startRow: int, startCol: int, dx: int, dy: int, forward: bool)
  {
    /** How many steps from the anchor letter n sits. */
    function Step(n: int): int {
      if forward then n else |word| - 1 - n
    }

    /** getCell: the (row, column) of letter n. */
    function GetCell(n: int): Cell {
      (startRow + dy * Step(n), startCol + dx * Step(n))
    }

    /** The cell |word| - 1 steps from the anchor, the one canPlaceWord bounds-checks. */
    function EndCell(): Cell {
      (startRow + dy * (|word| - 1), startCol + dx * (|word| - 1))
    }

    /** getPath: the cell of every letter, in letter order. */
    method GetPath() returns (path: seq<Cell>)
      ensures |path| == |word|
      ensures forall i :: 0 <= i < |word| ==> path[i] == GetCell(i)
    {
      path := [];
      for i := 0 to |word|
        invariant |path| == i
        invariant forall k :: 0 <= k < i ==> path[k] == GetCell(k)
      {
        path := path + [GetCell(i)];
      }
    }
  }

  /** A direction whose steps are -1, 0 or 1 in each coordinate. */
  predicate UnitStep(dx: int, dy: int) {
    -1 <= dx <= 1 && -1 <= dy <= 1
  }

  /**
   * A backward vector's letter n sits where the forward vector with the same
   * anchor has letter |word| - 1 - n: the two orientations cover the same cells
   * in opposite order.
   */
  lemma {:induction false} BackwardMirrorsForward(v: WordVector, n: int)
    ensures v.(forward := false).GetCell(n) == v.(forward := true).GetCell(|v.word| - 1 - n)
    ensures v.(forward := true).GetCell(n) == v.(forward := false).GetCell(|v.word| - 1 - n)
  {
  }

  /** Consecutive letters are one step (dy, dx) apart going forward, one step (-dy, -dx) going backward. */
  lemma ConsecutiveCells(v: WordVector, n: int)
    ensures var s := if v.forward then 1 else -1;
      v.GetCell(n + 1) == (v.GetCell(n).0 + s * v.dy, v.GetCell(n).1 + s * v.dx)
  {
    if v.forward {
      assert v.dy * (n + 1) == v.dy * n + v.dy;
      assert v.dx * (n + 1) == v.dx * n + v.dx;
    } else {
      var k := |v.word| - 1 - n;
      assert v.dy * (k - 1) == v.dy * k - v.dy;
      assert v.dx * (k - 1) == v.dx * k - v.dx;
    }
  }

  /** With a non-zero direction, different letters have different cells. */
  lemma GetCellInjective(v: WordVector, m: int, n: int)
    requires (v.dx, v.dy) != (0, 0)
    ensures v.GetCell(m) == v.GetCell(n) <==> m == n
  {
    if v.GetCell(m) == v.GetCell(n) {
      var a, b := v.Step(m), v.Step(n);
      assert v.dy * a == v.dy * b && v.dx * a == v.dx * b;
      if v.dy != 0 {
        MulCancel(v.dy, a, b);
      } else {
        MulCancel(v.dx, a, b);
      }
    }
  }

  lemma MulCancel(d: int, a: int, b: int)
    requires d != 0 && d * a == d * b
    ensures a == b
  {
    assert d * (a - b) == 0;
  }

  /**
   * With unit steps, when the anchor and the end cell lie in a rows x cols box,
   * so does every letter's cell.
   */
  lemma CellsBetweenEnds(v: WordVector, rows: int, cols: int)
    requires UnitStep(v.dx, v.dy)
    requires 0 <= v.startRow < rows && 0 <= v.startCol < cols
    requires 0 <= v.EndCell().0 < rows && 0 <= v.EndCell().1 < cols
    ensures forall n :: 0 <= n < |v.word| ==> 0 <= v.GetCell(n).0 < rows && 0 <= v.GetCell(n).1 < cols
  {
    forall n | 0 <= n < |v.word|
      ensures 0 <= v.GetCell(n).0 < rows && 0 <= v.GetCell(n).1 < cols
    {
      var s := v.Step(n);
      assert 0 <= s <= |v.word| - 1;
      BetweenEnds(v.startRow, v.dy, s, |v.word| - 1);
      BetweenEnds(v.startCol, v.dx, s, |v.word| - 1);
    }
  }

  /** a + d * s lies between a and a + d * len when 0 <= s <= len and d is -1, 0 or 1. */
  lemma BetweenEnds(a: int, d: int, s: int, len: int)
    requires -1 <= d <= 1 && 0 <= s <= len
    ensures a + d * len <= a + d * s <= a || a <= a + d * s <= a + d * len
  {
    if d == 1 {
      assert d * s == s && d * len == len;
    } else if d == -1 {
      assert d * s == -s && d * len == -len;
    }
  }
}
