/** The Minesweeper board engine: a rows x cols grid of tiles, mines placed on the first
    reveal away from the clicked tile, an iterative flood fill, flags, and the
    Playing -> Won / Lost state machine. */
module MinesweeperBoard {
  import opened Grid
  import opened MinesweeperConfig

  datatype Status = Ready | Playing | Won | Lost

  /** Number of mined tiles in the clipped 3x3 window around p; p itself is part of its
      window, so a mined tile counts itself. */
  function MinesAround(mines: set<(int, int)>, rows: int, cols: int, p: (int, int)): nat
  {
    |mines * Window(rows, cols, p.0, p.1)|
  }

  /** Two tiles touch (or coincide): Chebyshev distance at most 1. */
  predicate Adjacent(p: (int, int), q: (int, int))
  {
    -1 <= q.0 - p.0 <= 1 && -1 <= q.1 - p.1 <= 1
  }

  /** Adding one unseen square to a scanned set adds one to its mine count exactly when
      the square is mined. */
  lemma CountStep(mines: set<(int, int)>, seen: set<(int, int)>, q: (int, int))
    requires q !in seen
    ensures |mines * (seen + {q})| == |mines * seen| + (if q in mines then 1 else 0)
  {
    if q in mines {
      assert mines * (seen + {q}) == mines * seen + {q};
    } else {
      assert mines * (seen + {q}) == mines * seen;
    }
  }

  /** The squares a finished scan has visited are, as far as mines go, the clipped
      window. */
  lemma ScanCoversWindow(mines: set<(int, int)>, rows: int, cols: int, r: int, c: int, seen: set<(int, int)>)
    requires forall p :: p in mines ==> 0 <= p.0 < rows && 0 <= p.1 < cols
    requires forall q :: q in seen <==> r - 1 <= q.0 <= r + 1 && c - 1 <= q.1 <= c + 1
    ensures |mines * seen| == MinesAround(mines, rows, cols, (r, c))
  {
    forall q | q in mines ensures q in seen <==> q in Window(rows, cols, r, c) {
      InWindow(rows, cols, r, c, q);
    }
    assert mines * seen == mines * Window(rows, cols, r, c);
  }

  /** While fewer mines than the room outside the first click's window have been placed,
      some tile of the grid is still free and away from the click: the rejection loop
      can make progress. */
  lemma FreeTileExists(mines: set<(int, int)>, rows: int, cols: int, safe: (int, int), n: int) returns (q: (int, int))
    requires 0 <= safe.0 < rows && 0 <= safe.1 < cols
    requires forall p :: p in mines ==> 0 <= p.0 < rows && 0 <= p.1 < cols && !Adjacent(safe, p)
    requires |mines| < n <= rows * cols - WindowSize(rows, cols, safe.0, safe.1)
    ensures 0 <= q.0 < rows && 0 <= q.1 < cols && q !in mines && !Adjacent(safe, q)
  {
    var grid, window := Rect(0, rows, 0, cols), Window(rows, cols, safe.0, safe.1);
    RectSize(0, rows, 0, cols);
    WindowCardinality(rows, cols, safe.0, safe.1);
    WindowInGrid(rows, cols, safe.0, safe.1);
    DifferenceSize(grid, window);
    forall p | p in mines ensures p in grid - window {
      InRect(0, rows, 0, cols, p);
      InWindow(rows, cols, safe.0, safe.1, p);
    }
    q := MissedMember(mines, grid - window);
    InRect(0, rows, 0, cols, q);
    InWindow(rows, cols, safe.0, safe.1, q);
  }

  /** A tile with no mine adjacent to it has number 0. */
  lemma NoMineAround(mines: set<(int, int)>, rows: int, cols: int, p: (int, int))
    requires forall q :: q in mines ==> !Adjacent(p, q)
    ensures MinesAround(mines, rows, cols, p) == 0
  {
    forall q | q in mines ensures q !in Window(rows, cols, p.0, p.1) {
      InWindow(rows, cols, p.0, p.1, q);
    }
    assert mines * Window(rows, cols, p.0, p.1) == {};
  }

  /** A tile whose number is 0 has no mine anywhere in its window. */
  lemma ZeroMeansNoMineAround(mines: set<(int, int)>, rows: int, cols: int, p: (int, int), q: (int, int))
    requires MinesAround(mines, rows, cols, p) == 0
    requires 0 <= q.0 < rows && 0 <= q.1 < cols && Adjacent(p, q)
    ensures q !in mines
  {
    InWindow(rows, cols, p.0, p.1, q);
    var w := mines * Window(rows, cols, p.0, p.1);
    assert |w| == 0;
    assert q !in w;
  }

  /** Revealing one more tile adds it to the tiles revealed since some earlier moment. */
  lemma RevealOneMore(now: set<(int, int)>, before: set<(int, int)>, q: (int, int))
    requires before <= now && q !in now
    ensures (now + {q}) - before == (now - before) + {q}
    ensures |(now + {q}) - before| == |now - before| + 1
  {
    assert (now + {q}) - before == (now - before) + {q};
  }

  /** Revealing a tile of the grid leaves fewer unrevealed tiles. */
  lemma UnrevealedShrinks(cells: set<(int, int)>, now: set<(int, int)>, q: (int, int))
    requires q in cells && q !in now
    ensures |cells - (now + {q})| < |cells - now|
  {
    assert cells - now == (cells - (now + {q})) + {q};
  }

  /** What the flood fill looks at: the grid's size, its mines, its flags and the tiles
      whose number is 0. */
  datatype Minefield = Minefield(rows: int, cols: int, mines: set<(int, int)>, flags: set<(int, int)>, zeros: set<(int, int)>)
  {
    predicate Inside(p: (int, int))
    {
      0 <= p.0 < rows && 0 <= p.1 < cols
    }

    /** The flood fill spreads from p. */
    predicate Opens(p: (int, int))
    {
      p in zeros
    }

    /** A 0-tile has no mine next to it. */
    ghost predicate Consistent()
    {
      forall p, q :: Opens(p) && Inside(q) && Adjacent(p, q) ==> q !in mines
    }
  }

  /** What floodReveal achieves, from the tiles revealed before (before) to those revealed
      after (after): it reveals the clicked tile unless that is flagged, never a mine or
      a flagged tile, and every neighbour of a tile it revealed with number 0 ends up
      revealed or flagged. Conversely it reveals nothing else: the newly revealed tiles,
      in the order trail lists them, start with the clicked tile, and each later one is
      a neighbour of an earlier 0-tile (link[k] is its position). */
  ghost predicate FloodResult(m: Minefield, start: (int, int), before: set<(int, int)>, after: set<(int, int)>,
                              trail: seq<(int, int)>, link: seq<int>)
  {
    (forall p :: p in after ==> m.Inside(p)) &&
    before <= after && |after - before| == |trail| &&
    (forall q :: q in after - before <==> q in trail) &&
    (forall q :: q in after - before ==> q !in m.mines && q !in m.flags) &&
    (start in after || start in m.flags) &&
    (forall p, q :: p in after - before && m.Opens(p) && m.Inside(q) && Adjacent(p, q) ==>
       q in after || q in m.flags) &&
    (|trail| > 0 ==> trail[0] == start) &&
    |link| == |trail| &&
    (forall k :: 0 < k < |trail| ==> 0 <= link[k] < k && m.Opens(trail[link[k]]) && Adjacent(trail[link[k]], trail[k]))
  }

  /** What the loop of floodReveal keeps, for the tiles cur revealed so far (before:
      those revealed when it started), the stack, and the tiles opened so far in order
      (trail): the tiles it opened are safe, unflagged and listed in trail, and each
      neighbour of an opened 0-tile is revealed, flagged, mined or still on the stack. */
  ghost predicate FloodCover(m: Minefield, start: (int, int), before: set<(int, int)>, cur: set<(int, int)>,
                             stack: seq<(int, int)>, trail: seq<(int, int)>)
  {
    (forall p :: p in cur ==> m.Inside(p)) &&
    before <= cur && |cur - before| == |trail| &&
    (forall q :: q in cur - before <==> q in trail) &&
    (forall q :: q in cur - before ==> q !in m.mines && q !in m.flags) &&
    (forall k :: 0 <= k < |stack| ==> m.Inside(stack[k]) && stack[k] !in m.mines) &&
    (start in cur || start in m.flags || start in stack) &&
    (forall p, q :: p in cur - before && m.Opens(p) && m.Inside(q) && Adjacent(p, q) ==>
       q in cur || q in m.flags || q in m.mines || q in stack)
  }

  /** The other half of the loop invariant: trail starts with the clicked tile, link[k]
      is the position in trail of the earlier 0-tile trail[k] was pushed by, and from
      records the same for each stack entry (-1 for the clicked tile). */
  ghost predicate FloodTrail(m: Minefield, start: (int, int), stack: seq<(int, int)>, from: seq<int>,
                             trail: seq<(int, int)>, link: seq<int>)
  {
    (|trail| > 0 ==> trail[0] == start) &&
    |link| == |trail| &&
    (forall k :: 0 < k < |trail| ==> 0 <= link[k] < k && m.Opens(trail[link[k]]) && Adjacent(trail[link[k]], trail[k])) &&
    |from| == |stack| && (trail == [] ==> |stack| <= 1) &&
    (forall k :: 0 <= k < |stack| ==>
       (from[k] == -1 && stack[k] == start && trail == []) ||
       (0 <= from[k] < |trail| && m.Opens(trail[from[k]]) && Adjacent(trail[from[k]], stack[k])))
  }

  ghost predicate FloodInv(m: Minefield, start: (int, int), before: set<(int, int)>, cur: set<(int, int)>,
                           stack: seq<(int, int)>, from: seq<int>, trail: seq<(int, int)>, link: seq<int>)
  {
    FloodCover(m, start, before, cur, stack, trail) && FloodTrail(m, start, stack, from, trail, link)
  }

  /** The invariant holds when only the clicked tile is on the stack. */
  lemma FloodStart(m: Minefield, start: (int, int), before: set<(int, int)>)
    requires m.Inside(start) && start !in m.mines
    requires forall p :: p in before ==> m.Inside(p)
    ensures FloodInv(m, start, before, before, [start], [-1], [], [])
  {
    assert before - before == {};
  }

  /** Taking an already revealed or flagged tile off the stack keeps the invariant. */
  lemma FloodSkip(m: Minefield, start: (int, int), before: set<(int, int)>, cur: set<(int, int)>,
                  stack: seq<(int, int)>, from: seq<int>, trail: seq<(int, int)>, link: seq<int>)
    requires FloodInv(m, start, before, cur, stack, from, trail, link)
    requires |stack| > 0 && (stack[|stack| - 1] in cur || stack[|stack| - 1] in m.flags)
    ensures FloodInv(m, start, before, cur, stack[..|stack| - 1], from[..|from| - 1], trail, link)
  {
  }

  /** Opening the tile on top of the stack, and pushing its unrevealed mine-free
      neighbours when its number is 0, keeps the invariant. */
  lemma FloodOpen(m: Minefield, start: (int, int), before: set<(int, int)>, cur: set<(int, int)>,
                  stack: seq<(int, int)>, from: seq<int>, trail: seq<(int, int)>, link: seq<int>,
                  pushed: seq<(int, int)>)
    requires FloodInv(m, start, before, cur, stack, from, trail, link)
    requires |stack| > 0 && stack[|stack| - 1] !in cur && stack[|stack| - 1] !in m.flags
    requires !m.Opens(stack[|stack| - 1]) ==> pushed == []
    requires m.Opens(stack[|stack| - 1]) ==> forall q :: q in pushed <==>
      m.Inside(q) && Adjacent(stack[|stack| - 1], q) && q !in cur + {stack[|stack| - 1]} && q !in m.mines
    ensures FloodInv(m, start, before, cur + {stack[|stack| - 1]}, stack[..|stack| - 1] + pushed,
                     from[..|from| - 1] + seq(|pushed|, _ => |trail|), trail + [stack[|stack| - 1]],
                     link + [from[|from| - 1]])
  {
    FloodOpenCover(m, start, before, cur, stack, trail, pushed);
    FloodOpenTrail(m, start, stack, from, trail, link, pushed);
  }

  lemma FloodOpenCover(m: Minefield, start: (int, int), before: set<(int, int)>, cur: set<(int, int)>,
                       stack: seq<(int, int)>, trail: seq<(int, int)>, pushed: seq<(int, int)>)
    requires FloodCover(m, start, before, cur, stack, trail)
    requires |stack| > 0 && stack[|stack| - 1] !in cur && stack[|stack| - 1] !in m.flags
    requires m.Opens(stack[|stack| - 1]) ==> forall q :: q in pushed <==>
      m.Inside(q) && Adjacent(stack[|stack| - 1], q) && q !in cur + {stack[|stack| - 1]} && q !in m.mines
    requires !m.Opens(stack[|stack| - 1]) ==> pushed == []
    ensures FloodCover(m, start, before, cur + {stack[|stack| - 1]}, stack[..|stack| - 1] + pushed,
                       trail + [stack[|stack| - 1]])
  {
    var p, rest := stack[|stack| - 1], stack[..|stack| - 1];
    var cur', stack', trail' := cur + {p}, rest + pushed, trail + [p];
    assert stack == rest + [p];
    RevealOneMore(cur, before, p);
    forall q | q in cur' - before ensures q in trail' {
      if q != p {
        assert q in trail;
      }
    }
    forall k | 0 <= k < |stack'| ensures m.Inside(stack'[k]) && stack'[k] !in m.mines {
      if k < |rest| {
        assert stack'[k] == stack[k];
      } else {
        assert stack'[k] in pushed;
      }
    }
    assert start in cur' || start in m.flags || start in stack' by {
      if start != p && start in stack {
        var i :| 0 <= i < |stack| && stack[i] == start;
        assert i < |rest| && rest[i] == start;
      }
    }
    forall u, q | u in cur' - before && m.Opens(u) && m.Inside(q) && Adjacent(u, q)
      ensures q in cur' || q in m.flags || q in m.mines || q in stack'
    {
      if u == p {
        if q !in cur' && q !in m.mines {
          assert q in pushed;
        }
      } else if q in stack && q != p {
        var i :| 0 <= i < |stack| && stack[i] == q;
        assert i < |rest| && rest[i] == q;
      }
    }
  }

  lemma FloodOpenTrail(m: Minefield, start: (int, int), stack: seq<(int, int)>, from: seq<int>,
                       trail: seq<(int, int)>, link: seq<int>, pushed: seq<(int, int)>)
    requires FloodTrail(m, start, stack, from, trail, link)
    requires |stack| > 0
    requires !m.Opens(stack[|stack| - 1]) ==> pushed == []
    requires m.Opens(stack[|stack| - 1]) ==> forall q :: q in pushed ==> Adjacent(stack[|stack| - 1], q)
    ensures FloodTrail(m, start, stack[..|stack| - 1] + pushed, from[..|from| - 1] + seq(|pushed|, _ => |trail|),
                       trail + [stack[|stack| - 1]], link + [from[|from| - 1]])
  {
    var p, rest, f := stack[|stack| - 1], stack[..|stack| - 1], from[|from| - 1];
    var stack', from', trail', link' := rest + pushed, from[..|from| - 1] + seq(|pushed|, _ => |trail|), trail + [p], link + [f];
    if trail == [] {
      assert |stack| == 1 && p == start;
    } else {
      assert 0 <= f < |trail| && m.Opens(trail[f]) && Adjacent(trail[f], p);
    }
    forall k | 0 < k < |trail'|
      ensures 0 <= link'[k] < k && m.Opens(trail'[link'[k]]) && Adjacent(trail'[link'[k]], trail'[k])
    {
      if k < |trail| {
        assert link'[k] == link[k] && trail'[k] == trail[k] && trail'[link[k]] == trail[link[k]];
      }
    }
    forall k | 0 <= k < |stack'|
      ensures (from'[k] == -1 && stack'[k] == start && trail' == []) ||
              (0 <= from'[k] < |trail'| && m.Opens(trail'[from'[k]]) && Adjacent(trail'[from'[k]], stack'[k]))
    {
      if k < |rest| {
        assert stack'[k] == stack[k] && from'[k] == from[k];
        assert trail'[from[k]] == trail[from[k]];
      } else {
        assert from'[k] == |trail| && trail'[|trail|] == p && stack'[k] in pushed;
      }
    }
  }

  /** Once the stack is empty the invariant is the result: a 0-tile has no mine
      neighbour, so every neighbour the closure still leaves open is revealed or
      flagged. */
  lemma FloodDone(m: Minefield, start: (int, int), before: set<(int, int)>, cur: set<(int, int)>,
                  trail: seq<(int, int)>, link: seq<int>)
    requires m.Consistent() && FloodInv(m, start, before, cur, [], [], trail, link)
    ensures FloodResult(m, start, before, cur, trail, link)
  {
  }

  /** Revealing tiles none of which is mined adds their number to the count of revealed
      safe tiles. */
  lemma SafeCountGrows(before: set<(int, int)>, after: set<(int, int)>, mines: set<(int, int)>)
    requires before <= after && (after - before) !! mines
    ensures |after - mines| == |before - mines| + |after - before|
  {
    var kept, added := before - mines, after - before;
    assert after - mines == kept + added;
    assert kept * added == {};
    assert |kept + added| == |kept| + |added|;
  }

  /** Inside a grid of cells, the revealed safe tiles number |cells| - |mines| exactly
      when every safe tile is revealed. */
  lemma AllSafeShown(cells: set<(int, int)>, mines: set<(int, int)>, shown: set<(int, int)>)
    requires mines <= cells && shown <= cells
    ensures |shown - mines| == |cells| - |mines| <==> cells - mines <= shown
  {
    DifferenceSize(cells, mines);
    SubsetSize(shown - mines, cells - mines);
    if |shown - mines| == |cells| - |mines| {
      SubsetSameSize(shown - mines, cells - mines);
    }
    if cells - mines <= shown {
      assert shown - mines == cells - mines;
    }
  }

  /** Every tile of the rows x cols grid is in s. */
  ghost predicate Covered(rows: int, cols: int, s: set<(int, int)>)
  {
    forall i, j :: 0 <= i < rows && 0 <= j < cols ==> (i, j) in s
  }

  /** Every member of s is a tile of the rows x cols grid. */
  ghost predicate InBounds(rows: int, cols: int, s: set<(int, int)>)
  {
    forall p :: p in s ==> 0 <= p.0 < rows && 0 <= p.1 < cols
  }

  lemma CoveredRect(rows: int, cols: int, s: set<(int, int)>)
    ensures Covered(rows, cols, s) <==> Rect(0, rows, 0, cols) <= s
  {
    if Covered(rows, cols, s) {
      forall p | p in Rect(0, rows, 0, cols) ensures p in s {
        InRect(0, rows, 0, cols, p);
      }
    }
    if Rect(0, rows, 0, cols) <= s {
      forall i, j | 0 <= i < rows && 0 <= j < cols ensures (i, j) in s {
        InRect(0, rows, 0, cols, (i, j));
      }
    }
  }

  lemma InBoundsRect(rows: int, cols: int, s: set<(int, int)>)
    requires InBounds(rows, cols, s)
    ensures s <= Rect(0, rows, 0, cols)
  {
    forall p | p in s ensures p in Rect(0, rows, 0, cols) {
      InRect(0, rows, 0, cols, p);
    }
  }

  /** On a grid whose tiles hold mines and shown, the revealed safe tiles number
      rows * cols - |mines| exactly when every tile is shown or mined. */
  lemma AllSafeCounted(rows: int, cols: int, mines: set<(int, int)>, shown: set<(int, int)>)
    requires 0 <= rows && 0 <= cols && InBounds(rows, cols, mines) && InBounds(rows, cols, shown)
    ensures |shown - mines| == rows * cols - |mines| <==> Covered(rows, cols, shown + mines)
  {
    var cells := Rect(0, rows, 0, cols);
    RectSize(0, rows, 0, cols);
    InBoundsRect(rows, cols, mines);
    InBoundsRect(rows, cols, shown);
    AllSafeShown(cells, mines, shown);
    CoveredRect(rows, cols, shown + mines);
    assert cells - mines <= shown <==> cells <= shown + mines;
  }

  /** The tiles of one game, Tile[][] of the frame: a fresh grid is made by every new
      game and its size never changes. Each tile's four mutable fields (hasMine,
      revealed, flagged, neighborMines) are kept as four parallel rows x cols arrays,
      indexed by the tile's (row, col). The ghost sets mines, shown and flags name the
      tiles whose hasMine, revealed and flagged field is set. */
  class Game {
    const rows: int
    const cols: int
    const totalMines: int
    const hasMine: array2<bool>
    const revealed: array2<bool>
    const flagged: array2<bool>
    const neighborMines: array2<int>
    ghost var mines: set<(int, int)>
    ghost var shown: set<(int, int)>
    ghost var flags: set<(int, int)>
    ghost var zeros: set<(int, int)>
    var firstClick: bool
    var running: bool
    var flagsPlaced: int
    var revealedCount: int
    var status: Status

    /** The four tile arrays are distinct and have the grid's dimensions. */
    ghost predicate Dims()
    {
      (hasMine.Length0, hasMine.Length1, revealed.Length0, revealed.Length1, flagged.Length0, flagged.Length1,
       neighborMines.Length0, neighborMines.Length1) == (rows, cols, rows, cols, rows, cols, rows, cols) &&
      hasMine != revealed && hasMine != flagged && revealed != flagged
    }

    ghost predicate InGrid(p: (int, int))
    {
      0 <= p.0 < rows && 0 <= p.1 < cols
    }

    /** The tiles of the grid. */
    ghost function Cells(): set<(int, int)>
    {
      Rect(0, rows, 0, cols)
    }

    ghost predicate MinesSync()
      reads this`mines, hasMine
      requires Dims()
    {
      (forall p :: p in mines ==> InGrid(p)) &&
      forall i, j {:trigger hasMine[i, j]} :: 0 <= i < rows && 0 <= j < cols ==> (hasMine[i, j] <==> (i, j) in mines)
    }

    /** The revealed marks are set exactly on the tiles of view. */
    ghost predicate RevealedAre(view: set<(int, int)>)
      reads revealed
      requires Dims()
    {
      forall i, j {:trigger revealed[i, j]} :: 0 <= i < rows && 0 <= j < cols ==> (revealed[i, j] <==> (i, j) in view)
    }

    ghost predicate ShownSync()
      reads this`shown, revealed
      requires Dims()
    {
      (forall p :: p in shown ==> InGrid(p)) && RevealedAre(shown)
    }

    ghost predicate FlagsSync()
      reads this`flags, flagged
      requires Dims()
    {
      (forall p :: p in flags ==> InGrid(p)) &&
      forall i, j {:trigger flagged[i, j]} :: 0 <= i < rows && 0 <= j < cols ==> (flagged[i, j] <==> (i, j) in flags)
    }

    /** Every tile's number is the count of mines in its clipped window. */
    ghost predicate NumbersCorrect()
      reads this`mines, neighborMines
      requires Dims()
    {
      forall r, c {:trigger neighborMines[r, c]} :: 0 <= r < rows && 0 <= c < cols ==>
        neighborMines[r, c] == MinesAround(mines, rows, cols, (r, c))
    }

    /** zeros holds exactly the tiles whose number is 0. */
    ghost predicate ZerosSync()
      reads this`zeros, neighborMines
      requires Dims()
    {
      (forall p :: p in zeros ==> InGrid(p)) &&
      forall i, j {:trigger neighborMines[i, j]} :: 0 <= i < rows && 0 <= j < cols ==> (neighborMines[i, j] == 0 <==> (i, j) in zeros)
    }

    /** A tile of the grid whose number is 0: the flood fill spreads from it. */
    ghost predicate Zero(p: (int, int))
      reads neighborMines
      requires Dims()
    {
      InGrid(p) && neighborMines[p.0, p.1] == 0
    }

    /** A set of tiles of the grid lies inside Cells(). */
    lemma WithinCells(tiles: set<(int, int)>)
      requires forall p :: p in tiles ==> InGrid(p)
      ensures tiles <= Cells()
    {
      forall p | p in tiles ensures p in Cells() {
        InRect(0, rows, 0, cols, p);
      }
    }

    /** The flood fill's view of this grid. */
    ghost function Field(): (m: Minefield)
      reads this`mines, this`flags, this`zeros
      ensures m.rows == rows && m.cols == cols && m.mines == mines && m.flags == flags && m.zeros == zeros
    {
      Minefield(rows, cols, mines, flags, zeros)
    }

    /** The flood fill's 0-tiles are the tiles numbered 0. */
    lemma FieldZeros()
      requires Dims() && ZerosSync()
      ensures forall p :: Field().Opens(p) <==> Zero(p)
    {
    }

    /** With correct numbers, no 0-tile has a mine next to it. */
    lemma FieldConsistent()
      requires Dims() && ZerosSync() && NumbersCorrect()
      ensures Field().Consistent()
    {
      var m := Field();
      forall p, q | m.Opens(p) && m.Inside(q) && Adjacent(p, q) ensures q !in mines {
        assert neighborMines[p.0, p.1] == 0;
        ZeroMeansNoMineAround(mines, rows, cols, p, q);
      }
    }

    /** startNewGame for a rows x cols board with totalMines mines: rows x cols new
        tiles, none mined, revealed or flagged, all numbered 0; no flag placed, no tile
        revealed, the game running and the first click still to come. */
    constructor (rows: int, cols: int, totalMines: int)
      requires 0 <= rows && 0 <= cols && 0 <= totalMines
      ensures this.rows == rows && this.cols == cols && this.totalMines == totalMines
      ensures Valid()
      ensures Model() == NewGame(rows, cols, totalMines)
      ensures fresh(hasMine) && fresh(revealed) && fresh(flagged) && fresh(neighborMines)
    {
      this.rows, this.cols, this.totalMines := rows, cols, totalMines;
      hasMine := new bool[rows, cols]((i, j) => false);
      revealed := new bool[rows, cols]((i, j) => false);
      flagged := new bool[rows, cols]((i, j) => false);
      neighborMines := new int[rows, cols]((i, j) => 0);
      mines, shown, flags, zeros := {}, {}, {}, Rect(0, rows, 0, cols);
      firstClick, running := true, true;
      flagsPlaced, revealedCount := 0, 0;
      status := Playing;
      new;
      forall r, c | 0 <= r < rows && 0 <= c < cols
        ensures MinesAround(mines, rows, cols, (r, c)) == 0
      {
        assert mines * Window(rows, cols, r, c) == {};
      }
      forall p | p in zeros ensures InGrid(p) {
        InRect(0, rows, 0, cols, p);
      }
      forall i, j | 0 <= i < rows && 0 <= j < cols ensures (i, j) in zeros {
        InRect(0, rows, 0, cols, (i, j));
      }
      NewGameInv(rows, cols, totalMines);
    }

    /** countNeighborMines: scan the 3x3 window around (r, c), skipping squares off the
        grid and counting the mined ones, (r, c) itself included. */
    method CountNeighborMines(r: int, c: int) returns (count: int)
      requires Dims() && MinesSync() && InGrid((r, c))
      ensures count == MinesAround(mines, rows, cols, (r, c))
    {
      ghost var seen: set<(int, int)> := {};
      count := 0;
      var dr := -1;
      while dr <= 1
        invariant -1 <= dr <= 2
        invariant forall q :: q in seen <==> r - 1 <= q.0 < r + dr && c - 1 <= q.1 <= c + 1
        invariant count == |mines * seen|
      {
        var dc := -1;
        while dc <= 1
          invariant -1 <= dc <= 2
          invariant forall q :: q in seen <==>
            (r - 1 <= q.0 < r + dr && c - 1 <= q.1 <= c + 1) || (q.0 == r + dr && c - 1 <= q.1 < c + dc)
          invariant count == |mines * seen|
        {
          var nr, nc := r + dr, c + dc;
          CountStep(mines, seen, (nr, nc));
          if 0 <= nr < rows && 0 <= nc < cols && hasMine[nr, nc] {
            count := count + 1;
          }
          seen := seen + {(nr, nc)};
          dc := dc + 1;
        }
        dr := dr + 1;
      }
      ScanCoversWindow(mines, rows, cols, r, c, seen);
    }

    /** placeMines: put totalMines mines on distinct tiles outside the clipped 3x3 window
        around the first-clicked tile, then write every tile's number. Each draw of the
        rejection loop is an arbitrary choice among the tiles it would accept; a rejected
        draw changes nothing. The loop ends only if enough tiles lie outside the window. */
    method PlaceMines(totalMines: int, safeRow: int, safeCol: int)
      requires Dims() && MinesSync() && ShownSync() && FlagsSync() && InGrid((safeRow, safeCol))
      requires mines == {}
      requires 0 <= totalMines <= rows * cols - WindowSize(rows, cols, safeRow, safeCol)
      modifies this`mines, this`zeros, hasMine, neighborMines
      ensures MinesSync() && NumbersCorrect() && ZerosSync() && ShownSync() && FlagsSync()
      ensures |mines| == totalMines && Model() == old(Model()).(mines := mines)
      ensures forall p :: p in mines ==> !Adjacent((safeRow, safeCol), p)
      ensures neighborMines[safeRow, safeCol] == 0
    {
      DrawMines(totalMines, safeRow, safeCol);
      ComputeNumbers();
      NoMineAround(mines, rows, cols, (safeRow, safeCol));
    }

    /** The rejection loop of placeMines. */
    method DrawMines(totalMines: int, safeRow: int, safeCol: int)
      requires Dims() && MinesSync() && InGrid((safeRow, safeCol))
      requires mines == {}
      requires 0 <= totalMines <= rows * cols - WindowSize(rows, cols, safeRow, safeCol)
      modifies this`mines, hasMine
      ensures MinesSync() && |mines| == totalMines
      ensures forall p :: p in mines ==> !Adjacent((safeRow, safeCol), p)
    {
      var placed := 0;
      while placed < totalMines
        invariant 0 <= placed <= totalMines
        invariant MinesSync() && |mines| == placed
        invariant forall p :: p in mines ==> !Adjacent((safeRow, safeCol), p)
        decreases totalMines - placed
      {
        ghost var q := FreeTileExists(mines, rows, cols, (safeRow, safeCol), totalMines);
        assert !hasMine[q.0, q.1];
        var r, c :| 0 <= r < rows && 0 <= c < cols && !hasMine[r, c] &&
                    !(-1 <= r - safeRow <= 1 && -1 <= c - safeCol <= 1);
        hasMine[r, c] := true;
        mines := mines + {(r, c)};
        placed := placed + 1;
      }
    }

    /** The second half of placeMines: every tile gets countNeighborMines as its number. */
    method ComputeNumbers()
      requires Dims() && MinesSync()
      modifies neighborMines, this`zeros
      ensures NumbersCorrect() && ZerosSync()
    {
      for r := 0 to rows
        invariant forall i, j :: 0 <= i < r && 0 <= j < cols ==>
          neighborMines[i, j] == MinesAround(mines, rows, cols, (i, j))
      {
        NumberRow(r);
      }
      zeros := set i, j | 0 <= i < rows && 0 <= j < cols && neighborMines[i, j] == 0 :: (i, j);
    }

    /** One row of the numbering pass; the other rows keep their numbers. */
    method NumberRow(r: int)
      requires Dims() && MinesSync() && 0 <= r < rows
      modifies neighborMines
      ensures forall j :: 0 <= j < cols ==> neighborMines[r, j] == MinesAround(mines, rows, cols, (r, j))
      ensures forall i, j :: 0 <= i < rows && i != r && 0 <= j < cols ==> neighborMines[i, j] == old(neighborMines[i, j])
    {
      var numbers := neighborMines;
      for c := 0 to cols
        invariant forall j :: 0 <= j < c ==> numbers[r, j] == MinesAround(mines, rows, cols, (r, j))
        invariant forall i, j :: 0 <= i < rows && i != r && 0 <= j < cols ==> numbers[i, j] == old(numbers[i, j])
      {
        var n := CountNeighborMines(r, c);
        numbers[r, c] := n;
      }
    }

    /** The inner loop of floodReveal: the in-grid squares of the 3x3 window around
        (r, c) that are neither revealed nor mined, in scan order (rows r-1..r+1, each
        from column c-1 to c+1). */
    method NeighboursToPush(r: int, c: int, ghost view: set<(int, int)>) returns (pushed: seq<(int, int)>)
      requires Dims() && MinesSync()
      requires RevealedAre(view)
      ensures forall q :: q in pushed <==> InGrid(q) && Adjacent((r, c), q) && q !in view && q !in mines
    {
      pushed := [];
      var dr := -1;
      while dr <= 1
        invariant -1 <= dr <= 2
        invariant forall q :: q in pushed <==>
          InGrid(q) && q !in view && q !in mines && r - 1 <= q.0 < r + dr && c - 1 <= q.1 <= c + 1
      {
        var dc := -1;
        while dc <= 1
          invariant -1 <= dc <= 2
          invariant forall q :: q in pushed <==>
            InGrid(q) && q !in view && q !in mines &&
            ((r - 1 <= q.0 < r + dr && c - 1 <= q.1 <= c + 1) || (q.0 == r + dr && c - 1 <= q.1 < c + dc))
        {
          var nr, nc := r + dr, c + dc;
          if 0 <= nr < rows && 0 <= nc < cols && !revealed[nr, nc] && !hasMine[nr, nc] {
            pushed := pushed + [(nr, nc)];
          }
          dc := dc + 1;
        }
        dr := dr + 1;
      }
    }

    /** floodReveal: reveal the clicked tile and, from every revealed tile whose number
        is 0, its unrevealed mine-free neighbours, working through an explicit stack of
        tiles (last pushed, first taken); revealed and flagged tiles taken from the stack
        are skipped. Returns how many tiles it revealed; trail and link witness that each
        of them was reached from the clicked tile. */
    method FloodReveal(sr: int, sc: int) returns (newly: int, ghost trail: seq<(int, int)>, ghost link: seq<int>)
      requires Dims() && MinesSync() && ShownSync() && FlagsSync() && ZerosSync() && NumbersCorrect()
      requires InGrid((sr, sc)) && (sr, sc) !in mines
      modifies revealed, this`shown
      ensures ShownSync() && MinesSync() && FlagsSync() && ZerosSync() && NumbersCorrect()
      ensures Model() == old(Model()).(shown := shown) && Field() == old(Field())
      ensures newly == |shown - old(shown)| && FloodResult(old(Field()), (sr, sc), old(shown), shown, trail, link)
    {
      ghost var m := Field();
      FieldZeros();
      FieldConsistent();
      ghost var cur;
      newly, cur, trail, link := Flood(m, sr, sc);
      shown := cur;
    }

    /** The loop of floodReveal, which touches only the revealed marks; cur is the set of
        revealed tiles it leaves behind. */
    method Flood(ghost m: Minefield, sr: int, sc: int)
      returns (newly: int, ghost cur: set<(int, int)>, ghost trail: seq<(int, int)>, ghost link: seq<int>)
      requires Dims() && MinesSync() && ShownSync() && FlagsSync()
      requires m.rows == rows && m.cols == cols && m.mines == mines && m.flags == flags && m.Consistent()
      requires forall p :: m.Opens(p) <==> Zero(p)
      requires InGrid((sr, sc)) && (sr, sc) !in mines
      modifies revealed
      ensures RevealedAre(cur)
      ensures newly == |trail| && FloodResult(m, (sr, sc), shown, cur, trail, link)
    {
      cur := shown;
      newly, trail, link := 0, [], [];
      var stack := [(sr, sc)];
      ghost var from: seq<int> := [-1];
      FloodStart(m, (sr, sc), shown);
      while |stack| > 0
        invariant FloodInv(m, (sr, sc), shown, cur, stack, from, trail, link)
        invariant RevealedAre(cur) && newly == |trail|
        decreases |Cells() - cur|, |stack|
      {
        newly, stack, cur, from, trail, link := FloodStep(m, (sr, sc), shown, newly, stack, cur, from, trail, link);
      }
      FloodDone(m, (sr, sc), shown, cur, trail, link);
    }

    /** One pass of floodReveal's loop: pop a tile; skip it when it is revealed or
        flagged, otherwise reveal it, count it and, when its number is 0, push its
        unrevealed mine-free neighbours. */
    method FloodStep(ghost m: Minefield, start: (int, int), ghost before: set<(int, int)>, newly: int, stack: seq<(int, int)>,
                     ghost cur: set<(int, int)>, ghost from: seq<int>, ghost trail: seq<(int, int)>, ghost link: seq<int>)
      returns (newly': int, stack': seq<(int, int)>,
               ghost cur': set<(int, int)>, ghost from': seq<int>, ghost trail': seq<(int, int)>, ghost link': seq<int>)
      requires Dims() && MinesSync() && FlagsSync() && RevealedAre(cur)
      requires m.rows == rows && m.cols == cols && m.mines == mines && m.flags == flags
      requires forall p :: m.Opens(p) <==> Zero(p)
      requires FloodInv(m, start, before, cur, stack, from, trail, link) && newly == |trail| && |stack| > 0
      modifies revealed
      ensures RevealedAre(cur') && FloodInv(m, start, before, cur', stack', from', trail', link') && newly' == |trail'|
      ensures |Cells() - cur'| < |Cells() - cur| || (cur' == cur && |stack'| < |stack|)
    {
      var p := stack[|stack| - 1];
      if revealed[p.0, p.1] || flagged[p.0, p.1] {
        FloodSkip(m, start, before, cur, stack, from, trail, link);
        newly', stack', cur', from', trail', link' := newly, stack[..|stack| - 1], cur, from[..|from| - 1], trail, link;
      } else {
        newly', stack', cur', from', trail', link' := FloodOpenStep(m, start, before, newly, stack, cur, from, trail, link);
      }
    }

    /** floodReveal's loop pass for a popped tile that is neither revealed nor flagged. */
    method FloodOpenStep(ghost m: Minefield, start: (int, int), ghost before: set<(int, int)>, newly: int, stack: seq<(int, int)>,
                         ghost cur: set<(int, int)>, ghost from: seq<int>, ghost trail: seq<(int, int)>, ghost link: seq<int>)
      returns (newly': int, stack': seq<(int, int)>,
               ghost cur': set<(int, int)>, ghost from': seq<int>, ghost trail': seq<(int, int)>, ghost link': seq<int>)
      requires Dims() && MinesSync() && RevealedAre(cur)
      requires m.rows == rows && m.cols == cols && m.mines == mines && m.flags == flags
      requires forall p :: m.Opens(p) <==> Zero(p)
      requires FloodInv(m, start, before, cur, stack, from, trail, link) && newly == |trail| && |stack| > 0
      requires stack[|stack| - 1] !in cur && stack[|stack| - 1] !in flags
      modifies revealed
      ensures RevealedAre(cur') && FloodInv(m, start, before, cur', stack', from', trail', link') && newly' == |trail'|
      ensures |Cells() - cur'| < |Cells() - cur|
    {
      var p := stack[|stack| - 1];
      {
        var pushed := OpenTile(p.0, p.1, cur);
        FloodOpen(m, start, before, cur, stack, from, trail, link, pushed);
        InRect(0, rows, 0, cols, p);
        UnrevealedShrinks(Cells(), cur, p);
        newly', cur', trail', link' := newly + 1, cur + {p}, trail + [p], link + [from[|from| - 1]];
        stack', from' := stack[..|stack| - 1] + pushed, from[..|from| - 1] + seq(|pushed|, _ => |trail|);
      }
    }

    /** The body of floodReveal's loop for a tile it opens: mark it revealed and, when its
        number is 0, list its unrevealed mine-free neighbours to push. */
    method OpenTile(r: int, c: int, ghost cur: set<(int, int)>) returns (pushed: seq<(int, int)>)
      requires Dims() && MinesSync() && RevealedAre(cur) && InGrid((r, c)) && (r, c) !in cur
      modifies revealed
      ensures RevealedAre(cur + {(r, c)})
      ensures !Zero((r, c)) ==> pushed == []
      ensures Zero((r, c)) ==> forall q :: q in pushed <==>
        InGrid(q) && Adjacent((r, c), q) && q !in cur + {(r, c)} && q !in mines
    {
      revealed[r, c] := true;
      pushed := [];
      if neighborMines[r, c] == 0 {
        pushed := NeighboursToPush(r, c, cur + {(r, c)});
      }
    }

    /** The clicked mined tile of revealTile is marked revealed, then revealAllMines shows
        every mine. */
    method RevealHit(r: int, c: int)
      requires Dims() && MinesSync() && ShownSync() && FlagsSync() && InGrid((r, c)) && (r, c) in mines
      modifies revealed, this`shown
      ensures ShownSync() && Model() == old(Model()).(shown := old(shown) + mines)
      ensures MinesSync() && FlagsSync() && (old(ZerosSync()) ==> ZerosSync()) && (old(NumbersCorrect()) ==> NumbersCorrect())
    {
      revealed[r, c] := true;
      shown := shown + {(r, c)};
      RevealAllMines();
      assert old(shown) + {(r, c)} + mines == old(shown) + mines;
    }

    /** revealAllMines: every mined tile is marked revealed; nothing else changes. */
    method RevealAllMines()
      requires Dims() && MinesSync() && ShownSync() && FlagsSync()
      modifies revealed, this`shown
      ensures ShownSync() && Model() == old(Model()).(shown := old(shown) + mines)
      ensures MinesSync() && FlagsSync() && (old(ZerosSync()) ==> ZerosSync()) && (old(NumbersCorrect()) ==> NumbersCorrect())
    {
      for r := 0 to rows
        invariant forall i, j :: 0 <= i < rows && 0 <= j < cols ==>
          (revealed[i, j] <==> (i, j) in shown || (i < r && (i, j) in mines))
        modifies revealed
      {
        RevealMinesInRow(r);
      }
      shown := shown + mines;
    }

    /** One row of revealAllMines. */
    method RevealMinesInRow(r: int)
      requires Dims() && MinesSync() && 0 <= r < rows
      modifies revealed
      ensures forall i, j :: 0 <= i < rows && 0 <= j < cols ==>
        (revealed[i, j] <==> old(revealed[i, j]) || (i == r && (i, j) in mines))
    {
      for c := 0 to cols
        invariant forall i, j :: 0 <= i < rows && 0 <= j < cols ==>
          (revealed[i, j] <==> old(revealed[i, j]) || (i == r && j < c && (i, j) in mines))
      {
        if hasMine[r, c] {
          revealed[r, c] := true;
        }
      }
    }


    /** The game-level view of this board. */
    ghost function Model(): GameState
      reads this
    {
      GameState(rows, cols, totalMines, firstClick, running, flagsPlaced, revealedCount,
           status, mines, shown, flags)
    }

    /** The tile arrays agree with the ghost sets, the numbers are right once mines are
        placed, and the game invariant holds. */
    ghost predicate Valid()
      reads this, hasMine, revealed, flagged, neighborMines
    {
      Dims() && MinesSync() && ShownSync() && FlagsSync() && ZerosSync() &&
      (!firstClick ==> NumbersCorrect()) && GameInv(Model())
    }

    /** The number the mines label shows (updateMinesLabel): mines minus flags, negative
        when there are more flags than mines. */
    function RemainingMines(): (n: int)
      reads this, hasMine, revealed, flagged, neighborMines
      requires Valid()
      ensures n == totalMines - |flags|
    {
      totalMines - flagsPlaced
    }

    /** A click on (r, c) does something: the game runs and the tile is neither revealed
        nor flagged. */
    ghost predicate Acts(r: int, c: int)
      reads this
    {
      running && (r, c) !in shown && (r, c) !in flags
    }

    /** revealTile: ignored once the game is over and on revealed or flagged tiles. The
        first click places the mines away from the clicked tile, so it never loses. A
        mined tile loses the game and shows every mine; otherwise the flood fill opens
        tiles, and revealing the last safe tile wins the game and shows every mine. A first
        click that is heeded needs room for all mines outside its window, or placeMines
        never returns. */
    method RevealTile(r: int, c: int)
      returns (ghost field: Minefield, ghost uncovered: set<(int, int)>, ghost trail: seq<(int, int)>, ghost link: seq<int>)
      requires Valid() && InGrid((r, c))
      requires Acts(r, c) && firstClick ==> totalMines <= rows * cols - WindowSize(rows, cols, r, c)
      modifies this`firstClick, this`running, this`status, this`revealedCount
      modifies this`mines, this`zeros, this`shown, hasMine, revealed, neighborMines
      ensures Valid()
      ensures !old(Acts(r, c)) ==> Model() == old(Model())
      ensures old(Acts(r, c) && firstClick) ==> (forall p :: p in mines ==> !Adjacent((r, c), p)) && (r, c) !in mines
      ensures old(Acts(r, c)) && (r, c) in mines ==> Model() == Ended(old(Model()), Lost)
      ensures old(Acts(r, c)) && (r, c) !in mines ==>
        Model() == Flooded(Started(old(Model()), mines), uncovered) &&
        field == Field() && FloodResult(field, (r, c), old(shown), uncovered, trail, link)
    {
      field, uncovered, trail, link := Field(), {}, [], [];
      if running && !revealed[r, c] && !flagged[r, c] {
        if firstClick {
          FirstClick(r, c);
        }
        field, uncovered, trail, link := Click(r, c);
      }
    }

    /** revealTile once the mines are placed, on a hidden, unflagged tile of a running
        game: a mine loses, any other tile starts the flood fill. */
    method Click(r: int, c: int)
      returns (ghost field: Minefield, ghost uncovered: set<(int, int)>, ghost trail: seq<(int, int)>, ghost link: seq<int>)
      requires Valid() && running && !firstClick && InGrid((r, c))
      requires (r, c) !in shown && (r, c) !in flags
      modifies this`running, this`status, this`revealedCount, this`shown, revealed
      ensures Valid()
      ensures (r, c) in mines ==> Model() == Ended(old(Model()), Lost)
      ensures (r, c) !in mines ==>
        Model() == Flooded(old(Model()), uncovered) &&
        field == Field() && FloodResult(field, (r, c), old(shown), uncovered, trail, link)
    {
      if hasMine[r, c] {
        Lose(r, c);
        field, uncovered, trail, link := Field(), {}, [], [];
      } else {
        field, uncovered, trail, link := Safe(r, c);
      }
    }

    /** revealTile on a safe tile: the flood fill, then the win check. */
    method Safe(r: int, c: int)
      returns (ghost field: Minefield, ghost uncovered: set<(int, int)>, ghost trail: seq<(int, int)>, ghost link: seq<int>)
      requires Valid() && running && !firstClick && InGrid((r, c))
      requires (r, c) !in mines && (r, c) !in shown && (r, c) !in flags
      modifies this`running, this`status, this`revealedCount, this`shown, revealed
      ensures Valid() && Model() == Flooded(old(Model()), uncovered)
      ensures field == Field() && FloodResult(field, (r, c), old(shown), uncovered, trail, link)
    {
      field, uncovered, trail, link := Open(r, c);
      if revealedCount == rows * cols - totalMines {
        Win();
        assert (uncovered + mines) - mines == uncovered;
      }
    }

    /** The first click of revealTile: placeMines around it, and firstClick is over. */
    method FirstClick(r: int, c: int)
      requires Valid() && firstClick && InGrid((r, c))
      requires totalMines <= rows * cols - WindowSize(rows, cols, r, c)
      modifies this`firstClick, this`mines, this`zeros, hasMine, neighborMines
      ensures Valid() && Model() == Placed(old(Model()), mines)
      ensures forall p :: p in mines ==> !Adjacent((r, c), p)
      ensures (r, c) !in mines
    {
      ghost var g := Model();
      PlaceMines(totalMines, r, c);
      firstClick := false;
      assert Model() == Placed(g, mines);
      PlacedInv(g, mines, Model());
    }

    /** revealTile on a mined tile: it is revealed, then every mine, and the game is lost. */
    method Lose(r: int, c: int)
      requires Valid() && running && !firstClick && InGrid((r, c)) && (r, c) in mines
      modifies this`running, this`status, this`shown, revealed
      ensures Valid() && Model() == Ended(old(Model()), Lost)
    {
      ghost var g := Model();
      RevealHit(r, c);
      running := false;
      status := Lost;
      assert Model() == Ended(g, Lost);
      EndedInv(g, Lost, Model());
    }

    /** revealTile on a safe tile: the flood fill and the count of revealed safe tiles.
        The flood fill's view of the board and the tiles revealed after it come back as
        field and uncovered; the count reaches rows * cols - totalMines exactly when
        every safe tile is revealed. */
    method Open(r: int, c: int)
      returns (ghost field: Minefield, ghost uncovered: set<(int, int)>, ghost trail: seq<(int, int)>, ghost link: seq<int>)
      requires Valid() && running && !firstClick && InGrid((r, c))
      requires (r, c) !in mines && (r, c) !in shown && (r, c) !in flags
      modifies this`revealedCount, this`shown, revealed
      ensures Valid()
      ensures Model() == Opened(old(Model()), uncovered)
      ensures field == Field() && FloodResult(field, (r, c), old(shown), uncovered, trail, link)
      ensures revealedCount == rows * cols - totalMines <==> Covered(rows, cols, uncovered + mines)
    {
      ghost var g := Model();
      field := Field();
      var newly;
      newly, trail, link := FloodReveal(r, c);
      uncovered := shown;
      OpenedInv(g, uncovered);
      AddRevealed(newly);
    }

    /** revealTile's revealedCount += revealedNow. */
    method AddRevealed(n: int)
      requires Dims() && MinesSync() && ShownSync() && FlagsSync() && ZerosSync() && NumbersCorrect() && !firstClick
      requires GameInv(Model().(revealedCount := revealedCount + n))
      modifies this`revealedCount
      ensures Valid() && Model() == old(Model()).(revealedCount := old(revealedCount) + n)
      ensures Field() == old(Field())
    {
      revealedCount := revealedCount + n;
    }

    /** The win branch of revealTile: the game stops as won and every mine is shown. */
    method Win()
      requires Valid() && running && !firstClick && Covered(rows, cols, shown + mines)
      modifies this`running, this`status, this`shown, revealed
      ensures Valid() && Model() == Ended(old(Model()), Won)
      ensures Field() == old(Field())
    {
      ghost var g := Model();
      running := false;
      status := Won;
      RevealAllMines();
      assert Model() == Ended(g, Won);
      EndedInv(g, Won, Model());
    }

    /** The flag mark of toggleFlag: tile (r, c) is flagged exactly when b holds. */
    method SetFlag(r: int, c: int, b: bool)
      requires Dims() && MinesSync() && ShownSync() && FlagsSync() && ZerosSync() && InGrid((r, c))
      modifies flagged, this`flags
      ensures MinesSync() && ShownSync() && FlagsSync() && ZerosSync() && (old(NumbersCorrect()) ==> NumbersCorrect())
      ensures Model() == old(Model()).(flags := if b then old(flags) + {(r, c)} else old(flags) - {(r, c)})
    {
      flagged[r, c] := b;
      flags := if b then flags + {(r, c)} else flags - {(r, c)};
    }

    /** toggleFlag: ignored once the game is over and on a revealed tile; otherwise the
        tile's flag is switched and flagsPlaced follows it. */
    method ToggleFlag(r: int, c: int)
      requires Valid() && InGrid((r, c))
      modifies this`flags, flagged, this`flagsPlaced
      ensures Valid()
      ensures Model() == if old(running) && (r, c) !in old(shown) then Flagged(old(Model()), (r, c)) else old(Model())
    {
      if !running || revealed[r, c] {
        return;
      }
      ghost var g := Model();
      var was := flagged[r, c];
      SetFlag(r, c, !was);
      flagsPlaced := if was then flagsPlaced - 1 else flagsPlaced + 1;
      assert Model() == Flagged(g, (r, c));
      FlaggedInv(g, (r, c), Model());
    }
  }

  /** The game-level view of a board: its counters and the tiles with a mine, revealed
      and flagged, on a rows x cols grid. */
  datatype GameState = GameState(rows: int, cols: int, totalMines: int, firstClick: bool, running: bool,
                       flagsPlaced: int, revealedCount: int, status: Status,
                       mines: set<(int, int)>, shown: set<(int, int)>, flags: set<(int, int)>)

  /** The game invariant: the counters agree with the tiles, nothing is placed before
      the first click and exactly totalMines mines after it, no mine or flagged tile is
      revealed while the game runs, a won game shows every tile and a lost one every
      mine. */
  ghost predicate GameInv(g: GameState)
  {
    0 <= g.totalMines &&
    (g.running <==> g.status == Playing) && g.status != Ready &&
    g.flagsPlaced == |g.flags| && g.revealedCount == |g.shown - g.mines| &&
    (g.firstClick ==> g.running && g.mines == {} && g.shown == {}) &&
    (!g.firstClick ==> |g.mines| == g.totalMines) &&
    (g.running ==> g.shown !! g.mines && g.shown !! g.flags) &&
    (g.status == Won ==> Covered(g.rows, g.cols, g.shown)) &&
    (g.status == Lost ==> g.mines <= g.shown)
  }

  /** The state startNewGame leaves: no mine, nothing revealed or flagged, the first
      click to come. */
  ghost function NewGame(rows: int, cols: int, totalMines: int): GameState
  {
    GameState(rows, cols, totalMines, true, true, 0, 0, Playing, {}, {}, {})
  }

  /** The first click of revealTile: the mines are placed and firstClick is over. */
  ghost function Placed(g: GameState, m: set<(int, int)>): GameState
  {
    g.(mines := m, firstClick := false)
  }

  /** The flood fill of revealTile: s is revealed and revealedCount grows by the number
      of tiles it newly revealed. */
  ghost function Opened(g: GameState, s: set<(int, int)>): GameState
  {
    g.(shown := s, revealedCount := g.revealedCount + |s - g.shown|)
  }

  /** The end of a game (a mine hit or the last safe tile revealed): the game stops
      with the given status and every mine is shown. */
  ghost function Ended(g: GameState, st: Status): GameState
  {
    g.(running := false, status := st, shown := g.shown + g.mines)
  }

  /** toggleFlag on a hidden tile of a running game: the flag flips and flagsPlaced
      follows it. */
  ghost function Flagged(g: GameState, p: (int, int)): GameState
  {
    if p in g.flags then g.(flags := g.flags - {p}, flagsPlaced := g.flagsPlaced - 1)
    else g.(flags := g.flags + {p}, flagsPlaced := g.flagsPlaced + 1)
  }

  /** The mines revealTile floods on: those placed now at the first click, the ones
      already there afterwards. */
  ghost function Started(g: GameState, m: set<(int, int)>): GameState
  {
    if g.firstClick then Placed(g, m) else g
  }

  /** revealTile on a safe tile: the flood fill reveals s; when that reveals the last
      safe tile, the game is won. */
  ghost function Flooded(g: GameState, s: set<(int, int)>): GameState
  {
    if Covered(g.rows, g.cols, s + g.mines) then Ended(Opened(g, s), Won) else Opened(g, s)
  }

  lemma NewGameInv(rows: int, cols: int, totalMines: int)
    requires 0 <= totalMines
    ensures GameInv(NewGame(rows, cols, totalMines))
  {
  }

  /** Placing totalMines mines at the first click keeps the invariant. */
  lemma PlacedInv(g: GameState, m: set<(int, int)>, h: GameState)
    requires GameInv(g) && g.firstClick && |m| == g.totalMines && h == Placed(g, m)
    ensures GameInv(h)
  {
  }

  /** A flood fill that opens safe, unflagged tiles of a running game keeps the
      invariant, and the count then reaches rows * cols - totalMines exactly when every
      safe tile is revealed. */
  lemma OpenedInv(g: GameState, s: set<(int, int)>)
    requires GameInv(g) && g.running && !g.firstClick && 0 <= g.rows && 0 <= g.cols
    requires InBounds(g.rows, g.cols, g.mines) && InBounds(g.rows, g.cols, s)
    requires g.shown <= s && (s - g.shown) !! g.mines && (s - g.shown) !! g.flags
    ensures GameInv(Opened(g, s))
    ensures Opened(g, s).revealedCount == g.rows * g.cols - g.totalMines <==> Covered(g.rows, g.cols, s + g.mines)
  {
    SafeCountGrows(g.shown, s, g.mines);
    AllSafeCounted(g.rows, g.cols, g.mines, s);
  }

  /** Hitting a mine ends the game as lost, keeping the invariant; revealing every
      safe tile ends it as won, keeping the invariant. */
  lemma EndedInv(g: GameState, st: Status, h: GameState)
    requires GameInv(g) && g.running && !g.firstClick
    requires st == Lost || (st == Won && Covered(g.rows, g.cols, g.shown + g.mines))
    requires h == Ended(g, st)
    ensures GameInv(h)
  {
    assert (g.shown + g.mines) - g.mines == g.shown - g.mines;
  }

  /** Flagging or unflagging a hidden tile of a running game keeps the invariant. */
  lemma FlaggedInv(g: GameState, p: (int, int), h: GameState)
    requires GameInv(g) && g.running && p !in g.shown && h == Flagged(g, p)
    ensures GameInv(h)
  {
    if p in g.flags {
      assert h.flags == g.flags - {p} && |h.flags| == |g.flags| - 1;
    } else {
      assert h.flags == g.flags + {p} && |h.flags| == |g.flags| + 1;
    }
  }

  /** The frame's game fields (`tiles`, `rows`, `cols`, `totalMines`, `firstClick`,
      `running`, `flagsPlaced`, `revealedCount`, `status`): the difficulty last set and the
      game in progress, which startNewGame replaces. */
  class Board {
    var difficulty: Difficulty
    var game: Game

    ghost predicate Valid()
      reads this, game, game.hasMine, game.revealed, game.flagged, game.neighborMines
    {
      game.Valid() && game.rows == difficulty.rows && game.cols == difficulty.cols &&
      game.totalMines == difficulty.mines
    }

    /** The window's constructor: setDifficulty(d) followed by startNewGame. */
    constructor (d: Difficulty)
      requires 0 <= d.rows && 0 <= d.cols && 0 <= d.mines
      ensures Valid() && difficulty == d && fresh(game)
      ensures game.firstClick && game.running && game.status == Playing
      ensures game.flagsPlaced == 0 && game.revealedCount == 0
      ensures game.mines == {} && game.shown == {} && game.flags == {}
    {
      difficulty := d;
      game := new Game(d.rows, d.cols, d.mines);
    }

    /** setDifficulty(d) followed by startNewGame (restart, a new preset or a custom
        size): a fresh game of untouched tiles, counters at 0, the first click to come. */
    method StartNewGame(d: Difficulty)
      requires 0 <= d.rows && 0 <= d.cols && 0 <= d.mines
      modifies this
      ensures Valid() && difficulty == d && fresh(game)
      ensures game.firstClick && game.running && game.status == Playing
      ensures game.flagsPlaced == 0 && game.revealedCount == 0
      ensures game.mines == {} && game.shown == {} && game.flags == {}
    {
      difficulty := d;
      game := new Game(d.rows, d.cols, d.mines);
    }
  }
}
