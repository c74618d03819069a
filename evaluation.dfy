/**
 * Static evaluation of a board from the agent's point of view: the
 * specification functions of `heuristic` and `n2_line_at`.
 *
 * `me` and `you` are the agent's fields that `go` sets: the player to move at
 * the root of the search and the other player.
 */
module Evaluation {
  import opened Boards

  /** The agent's fixed point of view, together with the board queries it uses. */
  datatype Perspective = Perspective(rules: Rules, me: int, you: int)

  /** The score of a board that `me` has won with `you` to move. */
  const WinScore: int := 1000000
  /** The score of a board that `you` has won with `me` to move. */
  const LossScore: int := -100000

  function Pow10(k: nat): (r: int)
    ensures 1 <= r
  {
    if k == 0 then 1 else 10 * Pow10(k - 1)
  }

  lemma {:induction false} Pow10Monotone(i: nat, j: nat)
    requires i <= j
    ensures Pow10(i) <= Pow10(j)
    decreases j
  {
    if i < j {
      Pow10Monotone(i, j - 1);
    }
  }

  predicate OnBoard(b: WfBoard, x: int, y: int) {
    0 <= x < b.w && 0 <= y < b.h
  }

  /** The directions the heuristic scans: dx in {0, 1} and dy in {-1, 0, 1}. */
  predicate Direction(dx: int, dy: int) {
    0 <= dx <= 1 && -1 <= dy <= 1
  }

  /** The bounds test of `n2_line_at`: the far end of the n-cell window is off the board. */
  predicate LeavesBoard(b: WfBoard, x: int, y: int, dx: int, dy: int) {
    || x + (b.n - 1) * dx >= b.w
    || y + (b.n - 1) * dy < 0
    || y + (b.n - 1) * dy >= b.h
  }

  /** An n-cell window that starts on the board and passes the bounds test. */
  predicate Window(b: WfBoard, x: int, y: int, dx: int, dy: int) {
    OnBoard(b, x, y) && Direction(dx, dy) && !LeavesBoard(b, x, y, dx, dy)
  }

  /** Every cell of a window that passes the bounds test is on the board. */
  lemma WindowCellOnBoard(b: WfBoard, x: int, y: int, dx: int, dy: int, i: int)
    requires Window(b, x, y, dx, dy) && 0 <= i < b.n
    ensures OnBoard(b, x + i * dx, y + i * dy)
  {
  }

  /** The i-th cell of the window starting at (x, y) in direction (dx, dy). */
  function WindowCell(b: WfBoard, x: int, y: int, dx: int, dy: int, i: int): int
    requires Window(b, x, y, dx, dy) && 0 <= i < b.n
  {
    WindowCellOnBoard(b, x, y, dx, dy, i);
    b.grid[y + i * dy][x + i * dx]
  }

  /**
   * The number of cells from the i-th one on that consecutively hold the
   * start cell's token: the loop of `n2_line_at` from index i, up to its break.
   */
  function Run(b: WfBoard, x: int, y: int, dx: int, dy: int, i: int): (k: nat)
    requires Window(b, x, y, dx, dy) && 1 <= i <= b.n
    decreases b.n - i
    ensures i + k <= b.n
  {
    if i == b.n then 0
    else if WindowCell(b, x, y, dx, dy, i) == b.grid[y][x] then 1 + Run(b, x, y, dx, dy, i + 1)
    else 0
  }

  /** The run from i covers cells that all repeat the start token and stops at one that does not. */
  lemma {:induction false} RunSpec(b: WfBoard, x: int, y: int, dx: int, dy: int, i: int)
    requires Window(b, x, y, dx, dy) && 1 <= i <= b.n
    decreases b.n - i
    ensures forall j :: i <= j < i + Run(b, x, y, dx, dy, i) ==> WindowCell(b, x, y, dx, dy, j) == b.grid[y][x]
    ensures i + Run(b, x, y, dx, dy, i) < b.n ==> WindowCell(b, x, y, dx, dy, i + Run(b, x, y, dx, dy, i)) != b.grid[y][x]
  {
    if i < b.n && WindowCell(b, x, y, dx, dy, i) == b.grid[y][x] {
      RunSpec(b, x, y, dx, dy, i + 1);
    }
  }

  /** +1 for a window that starts on a `me` token, -1 otherwise (an empty start cell included). */
  function Sign(p: Perspective, t: int): int {
    if t == p.me then 1 else -1
  }

  /** `n2_line_at(brd, x, y, dx, dy)`. */
  function N2Line(p: Perspective, b: WfBoard, x: int, y: int, dx: int, dy: int): (r: int)
    requires OnBoard(b, x, y) && Direction(dx, dy)
    ensures LeavesBoard(b, x, y, dx, dy) ==> r == 0
    ensures !LeavesBoard(b, x, y, dx, dy) ==> (0 < r <==> b.grid[y][x] == p.me)
    ensures !LeavesBoard(b, x, y, dx, dy) ==> 1 <= r <= Pow10(b.n - 1) || 1 <= -r <= Pow10(b.n - 1)
  {
    if LeavesBoard(b, x, y, dx, dy) then 0
    else
      var k := Run(b, x, y, dx, dy, 1);
      Pow10Monotone(k, b.n - 1);
      Sign(p, b.grid[y][x]) * Pow10(k)
  }

  /**
   * What `n2_line_at` computes, stated without its loop: a window that leaves
   * the board scores 0; otherwise, if exactly the k cells after the start cell
   * hold the start cell's token (all of the window's remaining cells, or up to
   * the first that differs), it scores 10^k, positive iff the start token is `me`.
   */
  lemma N2LineMeaning(p: Perspective, b: WfBoard, x: int, y: int, dx: int, dy: int, k: nat)
    requires Window(b, x, y, dx, dy) && k < b.n
    requires forall j :: 1 <= j <= k ==> WindowCell(b, x, y, dx, dy, j) == b.grid[y][x]
    requires k + 1 < b.n ==> WindowCell(b, x, y, dx, dy, k + 1) != b.grid[y][x]
    ensures N2Line(p, b, x, y, dx, dy) == (if b.grid[y][x] == p.me then Pow10(k) else -Pow10(k))
  {
    RunSpec(b, x, y, dx, dy, 1);
  }

  /**
   * The "defensive" term of one cell: an occupied cell with a line through it
   * costs 10^(n-1) if it holds `you`'s token and earns 10^(n-2) if it holds
   * `me`'s; every other cell adds 0.
   */
  function CellTerm(p: Perspective, b: WfBoard, c: int, r: int): int
    requires OnBoard(b, c, r)
  {
    var t := b.grid[r][c];
    if t != 0 && p.rules.anyLineAt(b, c, r) then
      if t == p.you then -Pow10(b.n - 1)
      else if t == p.me then Pow10(b.n - 2)
      else 0
    else 0
  }

  /** The defensive terms of rows 0 .. rows-1 of column c. */
  function ColumnTerms(p: Perspective, b: WfBoard, c: int, rows: nat): int
    requires 0 <= c < b.w && rows <= b.h
  {
    if rows == 0 then 0 else ColumnTerms(p, b, c, rows - 1) + CellTerm(p, b, c, rows - 1)
  }

  /** The defensive terms of all cells of columns 0 .. cols-1. */
  function Defensive(p: Perspective, b: WfBoard, cols: nat): int
    requires cols <= b.w
  {
    if cols == 0 then 0 else Defensive(p, b, cols - 1) + ColumnTerms(p, b, cols - 1, b.h)
  }

  /** The `n2_line_at` values of the windows starting at (c, r) for r in range(rLo, rHi). */
  function WindowColumn(p: Perspective, b: WfBoard, c: int, rLo: int, rHi: int, dx: int, dy: int): int
    requires 0 <= c < b.w && 0 <= rLo && (rHi <= b.h || rHi <= rLo) && Direction(dx, dy)
    decreases rHi - rLo
  {
    if rHi <= rLo then 0
    else WindowColumn(p, b, c, rLo, rHi - 1, dx, dy) + N2Line(p, b, c, rHi - 1, dx, dy)
  }

  /** The `n2_line_at` values of the windows starting at (c, r) for c in range(cLo, cHi), r in range(rLo, rHi). */
  function WindowBlock(p: Perspective, b: WfBoard, cLo: int, cHi: int, rLo: int, rHi: int, dx: int, dy: int): int
    requires 0 <= cLo && (cHi <= b.w || cHi <= cLo) && 0 <= rLo && rHi <= b.h && Direction(dx, dy)
    decreases cHi - cLo
  {
    if cHi <= cLo then 0
    else WindowBlock(p, b, cLo, cHi - 1, rLo, rHi, dx, dy) + WindowColumn(p, b, cHi - 1, rLo, rHi, dx, dy)
  }

  /**
   * The "aggressive" term: the windows scanned vertically, horizontally and
   * along both diagonals, with the loop ranges of the heuristic. The fourth
   * scan starts at columns n-1 .. w-1 and rows 0 .. h-n and goes down-right.
   */
  function Aggressive(p: Perspective, b: WfBoard): int {
    WindowBlock(p, b, 0, b.w, 0, b.h - b.n + 1, 0, 1)
    + WindowBlock(p, b, 0, b.w - b.n + 1, 0, b.h, 1, 0)
    + WindowBlock(p, b, 0, b.w - b.n + 1, 0, b.h - b.n + 1, 1, 1)
    + WindowBlock(p, b, b.n - 1, b.w, 0, b.h - b.n + 1, 1, -1)
  }

  /** `heuristic(brd)`: the two sentinels for a won board, the positional sum otherwise. */
  function Heuristic(p: Perspective, b: WfBoard): int {
    if p.rules.outcome(b) == p.me && b.player == p.you then WinScore
    else if p.rules.outcome(b) == p.you && b.player == p.me then LossScore
    else Defensive(p, b, b.w) + Aggressive(p, b)
  }

  // ---------------------------------------------------------------------------
  // The win sentinel dominates the positional score on boards that are not too large.
  // ---------------------------------------------------------------------------

  /** An upper bound on the positional part of the heuristic: five scans of w*h terms of at most 10^(n-1). */
  function PositionalBound(w: nat, h: nat, n: nat): int
    requires 1 <= n
  {
    5 * ScanCap(w, h, n)
  }

  /** w*h terms of at most 10^(n-1) each: a bound on the defensive part and on each scan. */
  function ScanCap(w: nat, h: nat, n: nat): int
    requires 1 <= n
  {
    w * (h * Pow10(n - 1))
  }

  /** The size of Python's range(lo, hi). */
  function Span(lo: int, hi: int): nat {
    if hi <= lo then 0 else hi - lo
  }

  lemma MulMonotone(a: int, b: int, c: int)
    requires a <= b && 0 <= c
    ensures a * c <= b * c
  {
  }

  lemma MulSucc(a: int, c: int)
    ensures (a + 1) * c == a * c + c
  {
  }

  lemma {:induction false} ColumnTermsBound(p: Perspective, b: WfBoard, c: int, rows: nat)
    requires 0 <= c < b.w && rows <= b.h
    ensures ColumnTerms(p, b, c, rows) <= rows * Pow10(b.n - 1)
  {
    if rows > 0 {
      ColumnTermsBound(p, b, c, rows - 1);
      Pow10Monotone(b.n - 2, b.n - 1);
    }
  }

  lemma {:induction false} DefensiveBound(p: Perspective, b: WfBoard, cols: nat)
    requires cols <= b.w
    ensures Defensive(p, b, cols) <= cols * (b.h * Pow10(b.n - 1))
  {
    if cols > 0 {
      DefensiveBound(p, b, cols - 1);
      ColumnTermsBound(p, b, cols - 1, b.h);
    }
  }

  lemma {:induction false} WindowColumnBound(p: Perspective, b: WfBoard, c: int, rLo: int, rHi: int, dx: int, dy: int)
    requires 0 <= c < b.w && 0 <= rLo && rHi <= b.h && Direction(dx, dy)
    ensures WindowColumn(p, b, c, rLo, rHi, dx, dy) <= Span(rLo, rHi) * Pow10(b.n - 1)
    decreases rHi - rLo
  {
    if rLo < rHi {
      var k := Span(rLo, rHi - 1);
      WindowColumnBound(p, b, c, rLo, rHi - 1, dx, dy);
      assert Span(rLo, rHi) == k + 1;
      MulSucc(k, Pow10(b.n - 1));
      assert N2Line(p, b, c, rHi - 1, dx, dy) <= Pow10(b.n - 1);
    }
  }

  lemma {:induction false} WindowBlockBound(p: Perspective, b: WfBoard, cLo: int, cHi: int, rLo: int, rHi: int, dx: int, dy: int)
    requires 0 <= cLo && cHi <= b.w && 0 <= rLo && rHi <= b.h && Direction(dx, dy)
    ensures WindowBlock(p, b, cLo, cHi, rLo, rHi, dx, dy) <= Span(cLo, cHi) * (b.h * Pow10(b.n - 1))
    decreases cHi - cLo
  {
    if cLo < cHi {
      var k := Span(cLo, cHi - 1);
      var m := b.h * Pow10(b.n - 1);
      WindowBlockBound(p, b, cLo, cHi - 1, rLo, rHi, dx, dy);
      WindowColumnBound(p, b, cHi - 1, rLo, rHi, dx, dy);
      MulMonotone(Span(rLo, rHi), b.h, Pow10(b.n - 1));
      assert Span(cLo, cHi) == k + 1;
      MulSucc(k, m);
    }
  }

  /** Each of the four scans of the aggressive part is at most ScanCap. */
  lemma ScanBound(p: Perspective, b: WfBoard, cLo: int, cHi: int, rLo: int, rHi: int, dx: int, dy: int)
    requires 0 <= cLo && cHi <= b.w && 0 <= rLo && rHi <= b.h && Direction(dx, dy)
    ensures WindowBlock(p, b, cLo, cHi, rLo, rHi, dx, dy) <= ScanCap(b.w, b.h, b.n)
  {
    WindowBlockBound(p, b, cLo, cHi, rLo, rHi, dx, dy);
    MulMonotone(Span(cLo, cHi), b.w, b.h * Pow10(b.n - 1));
  }

  /** The positional score never exceeds PositionalBound. */
  lemma PositionalScoreBound(p: Perspective, b: WfBoard)
    ensures Defensive(p, b, b.w) + Aggressive(p, b) <= PositionalBound(b.w, b.h, b.n)
  {
    DefensiveBound(p, b, b.w);
    ScanBound(p, b, 0, b.w, 0, b.h - b.n + 1, 0, 1);
    ScanBound(p, b, 0, b.w - b.n + 1, 0, b.h, 1, 0);
    ScanBound(p, b, 0, b.w - b.n + 1, 0, b.h - b.n + 1, 1, 1);
    ScanBound(p, b, b.n - 1, b.w, 0, b.h - b.n + 1, 1, -1);
  }

  // ---------------------------------------------------------------------------
  // The loss sentinel lies below the positional score on boards that are not too large.
  // ---------------------------------------------------------------------------

  function MinInt(a: int, b: int): int {
    if a <= b then a else b
  }

  /**
   * How far below 0 the positional part can go: each cell costs at most
   * 10^(n-1), and so does each window of the four scans that fits on the
   * board. Of the fourth scan only the windows starting at columns n-1 .. w-n
   * and rows n-1 .. h-n fit.
   */
  function LossCap(w: nat, h: nat, n: nat): int
    requires 1 <= n
  {
    var m := Pow10(n - 1);
    w * (h * m)
    + w * (Span(0, h - n + 1) * m)
    + Span(0, w - n + 1) * (h * m)
    + Span(0, w - n + 1) * (Span(0, h - n + 1) * m)
    + Span(n - 1, w - n + 1) * (Span(n - 1, h - n + 1) * m)
  }

  lemma {:induction false} ColumnTermsLower(p: Perspective, b: WfBoard, c: int, rows: nat)
    requires 0 <= c < b.w && rows <= b.h
    ensures -(rows * Pow10(b.n - 1)) <= ColumnTerms(p, b, c, rows)
  {
    if rows > 0 {
      ColumnTermsLower(p, b, c, rows - 1);
    }
  }

  lemma {:induction false} DefensiveLower(p: Perspective, b: WfBoard, cols: nat)
    requires cols <= b.w
    ensures -(cols * (b.h * Pow10(b.n - 1))) <= Defensive(p, b, cols)
  {
    if cols > 0 {
      DefensiveLower(p, b, cols - 1);
      ColumnTermsLower(p, b, cols - 1, b.h);
    }
  }

  lemma {:induction false} WindowColumnLower(p: Perspective, b: WfBoard, c: int, rLo: int, rHi: int, dx: int, dy: int)
    requires 0 <= c < b.w && 0 <= rLo && rHi <= b.h && Direction(dx, dy)
    ensures -(Span(rLo, rHi) * Pow10(b.n - 1)) <= WindowColumn(p, b, c, rLo, rHi, dx, dy)
    decreases rHi - rLo
  {
    if rLo < rHi {
      var k := Span(rLo, rHi - 1);
      WindowColumnLower(p, b, c, rLo, rHi - 1, dx, dy);
      assert Span(rLo, rHi) == k + 1;
      MulSucc(k, Pow10(b.n - 1));
      assert -Pow10(b.n - 1) <= N2Line(p, b, c, rHi - 1, dx, dy);
    }
  }

  lemma {:induction false} WindowBlockLower(p: Perspective, b: WfBoard, cLo: int, cHi: int, rLo: int, rHi: int, dx: int, dy: int)
    requires 0 <= cLo && cHi <= b.w && 0 <= rLo && rHi <= b.h && Direction(dx, dy)
    ensures -(Span(cLo, cHi) * (Span(rLo, rHi) * Pow10(b.n - 1))) <= WindowBlock(p, b, cLo, cHi, rLo, rHi, dx, dy)
    decreases cHi - cLo
  {
    if cLo < cHi {
      var k := Span(cLo, cHi - 1);
      WindowBlockLower(p, b, cLo, cHi - 1, rLo, rHi, dx, dy);
      WindowColumnLower(p, b, cHi - 1, rLo, rHi, dx, dy);
      assert Span(cLo, cHi) == k + 1;
      MulSucc(k, Span(rLo, rHi) * Pow10(b.n - 1));
    }
  }

  /**
   * A column of the fourth scan: its windows fit only from row n-1 on, and
   * none fits when the column is beyond w-n.
   */
  lemma {:induction false} Diag2ColumnLower(p: Perspective, b: WfBoard, c: int, rHi: int)
    requires 0 <= c < b.w && rHi <= b.h
    ensures -(Span(b.n - 1, rHi) * Pow10(b.n - 1)) <= WindowColumn(p, b, c, 0, rHi, 1, -1)
    ensures b.w - b.n < c ==> WindowColumn(p, b, c, 0, rHi, 1, -1) == 0
    decreases rHi
  {
    if 0 < rHi {
      Diag2ColumnLower(p, b, c, rHi - 1);
      if rHi - 1 < b.n - 1 {
        assert LeavesBoard(b, c, rHi - 1, 1, -1);
      } else {
        var k := Span(b.n - 1, rHi - 1);
        assert Span(b.n - 1, rHi) == k + 1;
        MulSucc(k, Pow10(b.n - 1));
        if b.w - b.n < c {
          assert LeavesBoard(b, c, rHi - 1, 1, -1);
        }
      }
    }
  }

  /** The fourth scan over columns n-1 .. cHi-1: only columns up to w-n contribute. */
  lemma {:induction false} Diag2BlockLower(p: Perspective, b: WfBoard, cHi: int, rHi: int)
    requires cHi <= b.w && rHi <= b.h
    ensures -(Span(b.n - 1, MinInt(cHi, b.w - b.n + 1)) * (Span(b.n - 1, rHi) * Pow10(b.n - 1)))
            <= WindowBlock(p, b, b.n - 1, cHi, 0, rHi, 1, -1)
    decreases cHi
  {
    if b.n - 1 < cHi {
      Diag2BlockLower(p, b, cHi - 1, rHi);
      Diag2ColumnLower(p, b, cHi - 1, rHi);
      if cHi - 1 <= b.w - b.n {
        var k := Span(b.n - 1, MinInt(cHi - 1, b.w - b.n + 1));
        assert Span(b.n - 1, MinInt(cHi, b.w - b.n + 1)) == k + 1;
        MulSucc(k, Span(b.n - 1, rHi) * Pow10(b.n - 1));
      }
    }
  }

  /** The positional score is never below -LossCap. */
  lemma PositionalScoreLower(p: Perspective, b: WfBoard)
    ensures -LossCap(b.w, b.h, b.n) <= Defensive(p, b, b.w) + Aggressive(p, b)
  {
    DefensiveLower(p, b, b.w);
    WindowBlockLower(p, b, 0, b.w, 0, b.h - b.n + 1, 0, 1);
    WindowBlockLower(p, b, 0, b.w - b.n + 1, 0, b.h, 1, 0);
    WindowBlockLower(p, b, 0, b.w - b.n + 1, 0, b.h - b.n + 1, 1, 1);
    Diag2BlockLower(p, b, b.w, b.h - b.n + 1);
    assert Span(0, b.w) == b.w && Span(0, b.h) == b.h;
    assert MinInt(b.w, b.w - b.n + 1) == b.w - b.n + 1;
  }

  /**
   * When LossCap is below 100000 (99000 on the standard 7 x 6 board with
   * N = 4), a score of at most -100000 means exactly that `you` has won with
   * `me` to move (and the win sentinel did not fire first).
   */
  lemma HeuristicLossDominates(p: Perspective, b: WfBoard)
    requires LossCap(b.w, b.h, b.n) < -LossScore
    ensures Heuristic(p, b) <= LossScore <==>
      && p.rules.outcome(b) == p.you && b.player == p.me
      && !(p.rules.outcome(b) == p.me && b.player == p.you)
  {
    PositionalScoreLower(p, b);
  }

  /** On the standard 7 x 6 board with N = 4 both sentinels lie outside the positional range. */
  lemma StandardBoardMargins()
    ensures PositionalBound(7, 6, 4) == 210000 < WinScore
    ensures LossCap(7, 6, 4) == 99000 < -LossScore
  {
  }

  /**
   * When the positional bound is below the win sentinel (the standard 7 x 6
   * board with N = 4 gives 210000), a score of at least 1000000 means exactly
   * that `me` has won and `you` is to move.
   */
  lemma HeuristicWinDominates(p: Perspective, b: WfBoard)
    requires PositionalBound(b.w, b.h, b.n) < WinScore
    ensures WinScore <= Heuristic(p, b) <==> p.rules.outcome(b) == p.me && b.player == p.you
  {
    PositionalScoreBound(p, b);
  }

  /**
   * On a 7 x 6 board with N = 4, the positional score of every board lies
   * between -99000 and 210000, so 1000000 and -100000 are reached exactly in
   * the win and loss cases.
   */
  lemma StandardBoardRange(p: Perspective, b: WfBoard)
    requires b.w == 7 && b.h == 6 && b.n == 4
    ensures -99000 <= Defensive(p, b, b.w) + Aggressive(p, b) <= 210000
    ensures WinScore <= Heuristic(p, b) <==> p.rules.outcome(b) == p.me && b.player == p.you
    ensures Heuristic(p, b) <= LossScore <==>
      && p.rules.outcome(b) == p.you && b.player == p.me
      && !(p.rules.outcome(b) == p.me && b.player == p.you)
  {
    StandardBoardMargins();
    PositionalScoreBound(p, b);
    PositionalScoreLower(p, b);
    HeuristicWinDominates(p, b);
    HeuristicLossDominates(p, b);
  }
}
