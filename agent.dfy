/**
 * The alpha-beta agent: `go` fixes the point of view, `max` and `min` are the
 * two halves of a depth-bounded, fail-soft alpha-beta search over the
 * successors that `get_successors` builds, and `heuristic` with `n2_line_at`
 * scores the boards at the horizon. Each method is proved to compute its
 * specification function from the modules Evaluation and Search.
 */
module Agent {
  import opened Wrappers
  import opened Boards
  import opened Scores
  import opened Evaluation
  import opened Search

  /**
   * Stands for Python's `None` in `me` and `you` before the first `go`: it is
   * equal to no player number and no outcome.
   */
  const NoPlayer: int := -1

  class AlphaBetaAgent {
    const maxDepth: nat
    /** The board queries `get_outcome` and `is_any_line_at`. */
    const rules: Rules
    var me: int
    var you: int

    constructor (maxDepth: nat, rules: Rules)
      ensures this.maxDepth == maxDepth && this.rules == rules
      ensures me == NoPlayer && you == NoPlayer
    {
      this.maxDepth := maxDepth;
      this.rules := rules;
      me := NoPlayer;
      you := NoPlayer;
    }

    /** The point of view the agent's fields currently fix. */
    function View(): Perspective
      reads this
    {
      Perspective(rules, me, you)
    }

    /** `heuristic`: the sentinels for a won board, else the defensive and aggressive sums. */
    method Heuristic(brd: WfBoard) returns (value: int)
      ensures value == Evaluation.Heuristic(View(), brd)
    {
      ghost var p := View();
      value := 0;
      if rules.outcome(brd) == me && brd.player == you {
        return WinScore;
      }
      if rules.outcome(brd) == you && brd.player == me {
        return LossScore;
      }
      var c := 0;
      while c < brd.w
        invariant 0 <= c <= brd.w
        invariant value == Defensive(p, brd, c)
      {
        var r := 0;
        while r < brd.h
          invariant 0 <= r <= brd.h
          invariant value == Defensive(p, brd, c) + ColumnTerms(p, brd, c, r)
        {
          if brd.grid[r][c] != 0 {
            if rules.anyLineAt(brd, c, r) {
              if brd.grid[r][c] == you {
                value := value - Pow10(brd.n - 1);
              } else if brd.grid[r][c] == me {
                value := value + Pow10(brd.n - 2);
              } else {
                value := value + 0;
              }
            }
          }
          r := r + 1;
        }
        c := c + 1;
      }
      assert value == Defensive(p, brd, brd.w);
      var aggressive := AggressiveScan(brd);
      value := value + aggressive;
    }

    /** The aggressive part of `heuristic`: the four scans of `n2_line_at` windows. */
    method AggressiveScan(brd: WfBoard) returns (value: int)
      ensures value == Aggressive(View(), brd)
    {
      var vertical := SumWindows(brd, 0, brd.w, 0, brd.h - brd.n + 1, 0, 1);
      var horizontal := SumWindows(brd, 0, brd.w - brd.n + 1, 0, brd.h, 1, 0);
      var diagonal1 := SumWindows(brd, 0, brd.w - brd.n + 1, 0, brd.h - brd.n + 1, 1, 1);
      var diagonal2 := SumWindows(brd, brd.n - 1, brd.w, 0, brd.h - brd.n + 1, 1, -1);
      value := vertical + horizontal + diagonal1 + diagonal2;
    }

    /**
     * One of the four scans of the aggressive part of `heuristic`: the sum of
     * `n2_line_at(brd, c, r, dx, dy)` for c in range(cLo, cHi), r in range(rLo, rHi).
     */
    method SumWindows(brd: WfBoard, cLo: int, cHi: int, rLo: int, rHi: int, dx: int, dy: int) returns (total: int)
      requires 0 <= cLo && cHi <= brd.w && 0 <= rLo && rHi <= brd.h && Direction(dx, dy)
      ensures total == WindowBlock(View(), brd, cLo, cHi, rLo, rHi, dx, dy)
    {
      total := 0;
      var c := cLo;
      while c < cHi
        invariant cLo <= c && (c <= cHi || c == cLo)
        invariant total == WindowBlock(View(), brd, cLo, c, rLo, rHi, dx, dy)
      {
        var column := SumColumn(brd, c, rLo, rHi, dx, dy);
        total := total + column;
        c := c + 1;
      }
    }

    /** The inner loop of a scan: the sum of `n2_line_at(brd, c, r, dx, dy)` for r in range(rLo, rHi). */
    method SumColumn(brd: WfBoard, c: int, rLo: int, rHi: int, dx: int, dy: int) returns (total: int)
      requires 0 <= c < brd.w && 0 <= rLo && rHi <= brd.h && Direction(dx, dy)
      ensures total == WindowColumn(View(), brd, c, rLo, rHi, dx, dy)
    {
      total := 0;
      var r := rLo;
      while r < rHi
        invariant rLo <= r && (r <= rHi || r == rLo)
        invariant total == WindowColumn(View(), brd, c, rLo, r, dx, dy)
      {
        var v := N2LineAt(brd, c, r, dx, dy);
        total := total + v;
        r := r + 1;
      }
    }

    /**
     * `n2_line_at`: 0 for a window that leaves the board, otherwise +-10^k for
     * the k cells after (x, y) that repeat its token.
     */
    method N2LineAt(brd: WfBoard, x: int, y: int, dx: int, dy: int) returns (result: int)
      requires OnBoard(brd, x, y) && Direction(dx, dy)
      ensures result == N2Line(View(), brd, x, y, dx, dy)
    {
      var n := 1;
      var sign := 0;
      if x + (brd.n - 1) * dx >= brd.w || y + (brd.n - 1) * dy < 0 || y + (brd.n - 1) * dy >= brd.h {
        return 0;
      }
      var t := brd.grid[y][x];
      if t == me {
        sign := 1;
      } else {
        sign := -1;
      }
      var i := 1;
      while i < brd.n
        invariant 1 <= i <= brd.n
        invariant n == Pow10(i - 1)
        invariant Run(brd, x, y, dx, dy, 1) == i - 1 + Run(brd, x, y, dx, dy, i)
      {
        WindowCellOnBoard(brd, x, y, dx, dy, i);
        if brd.grid[y + i * dy][x + i * dx] == t {
          n := n * 10;
        } else {
          break;
        }
        i := i + 1;
      }
      return n * sign;
    }

    /** `get_successors`: one (board, column) pair per free column, built by appending. */
    method GetSuccessors(brd: WfBoard) returns (succ: seq<(WfBoard, nat)>)
      ensures succ == Successors(brd)
    {
      var freecols := FreeCols(brd);
      if freecols == [] {
        return [];
      }
      succ := [];
      var i := 0;
      while i < |freecols|
        invariant 0 <= i <= |freecols|
        invariant succ == Successors(brd)[..i]
      {
        var col := freecols[i];
        var nb := brd;
        nb := AddToken(nb, col);
        succ := succ + [(nb, col)];
        i := i + 1;
      }
    }

    /**
     * `max`: the heuristic at depth 0; otherwise the best successor value by
     * `min`, where only a strictly greater value replaces the best, the loop
     * returns once best >= beta, and alpha only grows.
     */
    method Max(brd: WfBoard, depth: nat, alpha: Value, beta: Value) returns (value: Value, col: Option<nat>)
      decreases depth
      ensures (value, col) == AlphaBeta(View(), brd, depth, alpha, beta, true)
    {
      ghost var p := View();
      if depth == 0 {
        var h := Heuristic(brd);
        return Fin(h), None;
      }
      value, col := NegInf, None;
      var successors := GetSuccessors(brd);
      var a := alpha;
      var rest := successors;
      while rest != []
        invariant MaxLoop(p, rest, depth, a, beta, value, col) == AlphaBeta(p, brd, depth, alpha, beta, true)
      {
        var v, c := Min(rest[0].0, depth - 1, a, beta);
        ghost var best, bestCol := value, col;
        if Lt(value, v) {
          value, col := v, Some(rest[0].1);
        }
        MaxLoopStep(p, rest, depth, a, beta, best, bestCol, v, value, col);
        if Le(beta, value) {
          return;
        }
        a := MaxV(a, value);
        rest := rest[1..];
      }
    }

    /**
     * `min`: the heuristic at depth 0; otherwise the worst successor value by
     * `max`, where only a strictly smaller value replaces the best, the loop
     * returns once best <= alpha, and beta only shrinks.
     */
    method Min(brd: WfBoard, depth: nat, alpha: Value, beta: Value) returns (value: Value, col: Option<nat>)
      decreases depth
      ensures (value, col) == AlphaBeta(View(), brd, depth, alpha, beta, false)
    {
      ghost var p := View();
      if depth == 0 {
        var h := Heuristic(brd);
        return Fin(h), None;
      }
      value, col := PosInf, None;
      var successors := GetSuccessors(brd);
      var b := beta;
      var rest := successors;
      while rest != []
        invariant MinLoop(p, rest, depth, alpha, b, value, col) == AlphaBeta(p, brd, depth, alpha, beta, false)
      {
        var v, c := Max(rest[0].0, depth - 1, alpha, b);
        ghost var best, bestCol := value, col;
        if Lt(v, value) {
          value, col := v, Some(rest[0].1);
        }
        MinLoopStep(p, rest, depth, alpha, b, best, bestCol, v, value, col);
        if Le(value, alpha) {
          return;
        }
        b := MinV(b, value);
        rest := rest[1..];
      }
    }

    /**
     * `go`: fix `me` as the player to move and `you` as the other player, run
     * `max` at `maxDepth` with window (-inf, +inf) and return its column,
     * which is the column plain minimax picks.
     */
    method Go(brd: WfBoard) returns (c: Option<nat>)
      modifies this
      ensures me == brd.player && you == Other(brd.player)
      ensures c == AlphaBeta(View(), brd, maxDepth, NegInf, PosInf, true).1
      ensures c == Minimax(View(), brd, maxDepth, true).1
      ensures c == None || (0 < maxDepth && IsFree(brd, c.value))
      ensures 1 <= maxDepth <= 2 && (exists k :: IsFree(brd, k)) ==> c.Some?
    {
      me := brd.player;
      you := (if brd.player - 1 == 0 then 1 else 0) + 1;
      var alpha := NegInf;
      var beta := PosInf;
      var v;
      v, c := Max(brd, maxDepth, alpha, beta);
      RootSearchIsMinimax(View(), brd, maxDepth);
      AlphaBetaColumn(View(), brd, maxDepth, alpha, beta, true);
      if 1 <= maxDepth <= 2 && exists k :: IsFree(brd, k) {
        var k :| IsFree(brd, k);
        ShallowSearchPicksColumn(View(), brd, maxDepth, k);
      }
    }
  }
}
