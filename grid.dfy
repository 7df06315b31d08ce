/** Rectangular sets of grid cells and the counting facts the board games rely on.
    A cell is a pair of integer coordinates; both games index their grids this way. */
module Grid {

  /** Number of integers in the half-open range [lo, hi). */
  function Span(lo: int, hi: int): nat
  {
    if hi <= lo then 0 else hi - lo
  }

  /** The cells (a, b) with a0 <= a < a1 and b0 <= b < b1. */
  function Rect(a0: int, a1: int, b0: int, b1: int): set<(int, int)>
  {
    set a, b | a0 <= a < a1 && b0 <= b < b1 :: (a, b)
  }

  function Min(x: int, y: int): int { if x <= y then x else y }
  function Max(x: int, y: int): int { if x <= y then y else x }

  /** The 3x3 window centred on (a, b), clipped to the grid [0, rows) x [0, cols). */
  function Window(rows: int, cols: int, a: int, b: int): set<(int, int)>
  {
    Rect(Max(a - 1, 0), Min(a + 2, rows), Max(b - 1, 0), Min(b + 2, cols))
  }

  /** Number of cells of the clipped 3x3 window, as arithmetic. */
  function WindowSize(rows: int, cols: int, a: int, b: int): nat
  {
    Span(Max(a - 1, 0), Min(a + 2, rows)) * Span(Max(b - 1, 0), Min(b + 2, cols))
  }

  lemma InRect(a0: int, a1: int, b0: int, b1: int, p: (int, int))
    ensures p in Rect(a0, a1, b0, b1) <==> a0 <= p.0 < a1 && b0 <= p.1 < b1
  {
    if a0 <= p.0 < a1 && b0 <= p.1 < b1 {
      assert p == (p.0, p.1);
    }
  }

  /** Membership in the clipped window is Chebyshev distance at most 1 inside the grid. */
  lemma InWindow(rows: int, cols: int, a: int, b: int, p: (int, int))
    ensures p in Window(rows, cols, a, b) <==>
            0 <= p.0 < rows && 0 <= p.1 < cols && -1 <= p.0 - a <= 1 && -1 <= p.1 - b <= 1
  {
    InRect(Max(a - 1, 0), Min(a + 2, rows), Max(b - 1, 0), Min(b + 2, cols), p);
  }

  /** One row of a rectangle has as many cells as the column range. */
  lemma {:induction false} RowSize(a: int, b0: int, b1: int)
    ensures |Rect(a, a + 1, b0, b1)| == Span(b0, b1)
    decreases Span(b0, b1)
  {
    var row := Rect(a, a + 1, b0, b1);
    if b1 <= b0 {
      forall p | p in row ensures false {
        InRect(a, a + 1, b0, b1, p);
      }
      assert row == {};
    } else {
      var shorter := Rect(a, a + 1, b0, b1 - 1);
      RowSize(a, b0, b1 - 1);
      forall p ensures p in row <==> p in shorter + {(a, b1 - 1)} {
        InRect(a, a + 1, b0, b1, p);
        InRect(a, a + 1, b0, b1 - 1, p);
      }
      assert row == shorter + {(a, b1 - 1)};
      InRect(a, a + 1, b0, b1 - 1, (a, b1 - 1));
    }
  }

  lemma SpanStep(lo: int, hi: int, n: nat)
    requires lo < hi
    ensures Span(lo, hi) * n == Span(lo, hi - 1) * n + n
  {
  }

  /** A rectangle has exactly (rows of it) * (columns of it) cells. */
  lemma {:induction false} RectSize(a0: int, a1: int, b0: int, b1: int)
    ensures |Rect(a0, a1, b0, b1)| == Span(a0, a1) * Span(b0, b1)
    decreases Span(a0, a1)
  {
    var whole := Rect(a0, a1, b0, b1);
    if a1 <= a0 {
      forall p | p in whole ensures false {
        InRect(a0, a1, b0, b1, p);
      }
      assert whole == {};
    } else {
      var upper, row := Rect(a0, a1 - 1, b0, b1), Rect(a1 - 1, a1, b0, b1);
      RectSize(a0, a1 - 1, b0, b1);
      RowSize(a1 - 1, b0, b1);
      forall p ensures p in whole <==> p in upper + row {
        InRect(a0, a1, b0, b1, p);
        InRect(a0, a1 - 1, b0, b1, p);
        InRect(a1 - 1, a1, b0, b1, p);
      }
      forall p | p in upper ensures p !in row {
        InRect(a0, a1 - 1, b0, b1, p);
        InRect(a1 - 1, a1, b0, b1, p);
      }
      assert whole == upper + row;
      assert |whole| == |upper| + |row|;
      SpanStep(a0, a1, Span(b0, b1));
    }
  }

  /** The clipped window has WindowSize cells. */
  lemma WindowCardinality(rows: int, cols: int, a: int, b: int)
    ensures |Window(rows, cols, a, b)| == WindowSize(rows, cols, a, b)
  {
    RectSize(Max(a - 1, 0), Min(a + 2, rows), Max(b - 1, 0), Min(b + 2, cols));
  }

  /** Inside a grid of at least one cell, a window never holds more cells than a full
      window of that grid: min(3, rows) * min(3, cols). */
  lemma WindowSizeBound(rows: int, cols: int, a: int, b: int)
    requires 0 <= a < rows && 0 <= b < cols
    ensures WindowSize(rows, cols, a, b) <= Min(3, rows) * Min(3, cols)
  {
    var sa, sb := Span(Max(a - 1, 0), Min(a + 2, rows)), Span(Max(b - 1, 0), Min(b + 2, cols));
    assert sa <= Min(3, rows) && sb <= Min(3, cols);
    assert sa * sb <= Min(3, rows) * sb;
  }

  /** Pigeonhole: a set smaller than another misses one of its members. */
  lemma MissedMember<T>(small: set<T>, big: set<T>) returns (x: T)
    requires |small| < |big|
    ensures x in big && x !in small
  {
    assert big == (big - small) + (big * small);
    SubsetSize(big * small, small);
    assert |big - small| > 0;
    x :| x in big - small;
  }

  /** The clipped window lies inside the grid. */
  lemma WindowInGrid(rows: int, cols: int, a: int, b: int)
    ensures Window(rows, cols, a, b) <= Rect(0, rows, 0, cols)
  {
    forall p | p in Window(rows, cols, a, b) ensures p in Rect(0, rows, 0, cols) {
      InWindow(rows, cols, a, b, p);
      InRect(0, rows, 0, cols, p);
    }
  }

  /** Removing a subset removes exactly its elements' count. */
  lemma DifferenceSize<T>(big: set<T>, small: set<T>)
    requires small <= big
    ensures |big - small| == |big| - |small|
  {
    assert big == (big - small) + small;
  }

  /** A subset is no larger than its superset. */
  lemma SubsetSize<T>(small: set<T>, big: set<T>)
    requires small <= big
    ensures |small| <= |big|
  {
    assert big == (big - small) + small;
  }

  /** A subset of equal size is the whole set. */
  lemma SubsetSameSize<T>(small: set<T>, big: set<T>)
    requires small <= big && |small| == |big|
    ensures small == big
  {
    assert big == (big - small) + small;
    assert |big - small| == 0;
  }
}
