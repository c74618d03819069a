/**
 * The search of the agent as specification functions: the successors that
 * `get_successors` returns, plain minimax over that successor tree, and the
 * fail-soft alpha-beta search that `max` and `min` perform. The lemmas show
 * that pruning does not change the answer.
 */
module Search {
  import opened Wrappers
  import opened Boards
  import opened Scores
  import opened Evaluation

  /** `get_successors(brd)`: one (board, column) pair per free column, in `free_cols` order. */
  function Successors(b: WfBoard): seq<(WfBoard, nat)> {
    var cols := FreeCols(b);
    seq(|cols|, i requires 0 <= i < |cols| => (AddToken(b, cols[i]), cols[i]))
  }

  /**
   * Each successor pairs a free column with the board that has a token of the
   * player to move dropped in it (so the other player moves next), and the
   * columns ascend.
   */
  lemma SuccessorEntries(b: WfBoard)
    ensures forall i :: 0 <= i < |Successors(b)| ==>
              && IsFree(b, Successors(b)[i].1)
              && Successors(b)[i].0 == AddToken(b, Successors(b)[i].1)
              && Successors(b)[i].0.player == Other(b.player)
    ensures forall i, j :: 0 <= i < j < |Successors(b)| ==> Successors(b)[i].1 < Successors(b)[j].1
  {
    FreeColsSpec(b);
  }

  /**
   * Every free column has a successor, so the successor list is empty exactly
   * when no column is free.
   */
  lemma SuccessorsCoverFree(b: WfBoard)
    ensures forall c :: IsFree(b, c) <==> exists i :: 0 <= i < |Successors(b)| && Successors(b)[i].1 == c
    ensures Successors(b) == [] <==> forall c :: !IsFree(b, c)
  {
    var s := Successors(b);
    var cols := FreeCols(b);
    FreeColsSpec(b);
    forall c | IsFree(b, c)
      ensures exists i :: 0 <= i < |s| && s[i].1 == c
    {
      assert c in cols;
      var i :| 0 <= i < |cols| && cols[i] == c;
      assert s[i].1 == c;
    }
    if s != [] {
      assert IsFree(b, cols[0]);
    }
  }

  // ---------------------------------------------------------------------------
  // Plain minimax: the same loops as `max` and `min` without the two pruning
  // lines, from the same fixed point of view.
  // ---------------------------------------------------------------------------

  /** The value and column of plain minimax over the successor tree of `b`, `depth` plies deep. */
  function Minimax(p: Perspective, b: WfBoard, depth: nat, maximizing: bool): (Value, Option<nat>)
    decreases depth, 1
  {
    if depth == 0 then (Fin(Heuristic(p, b)), None)
    else if maximizing then MaxFold(p, Successors(b), depth, NegInf, None)
    else MinFold(p, Successors(b), depth, PosInf, None)
  }

  /** The value of the successor at a maximizing node: the minimizing value one ply down. */
  function MaxChild(p: Perspective, s: seq<(WfBoard, nat)>, depth: nat, k: int): Value
    requires 1 <= depth && 0 <= k < |s|
  {
    Minimax(p, s[k].0, depth - 1, false).0
  }

  /** The value of the successor at a minimizing node: the maximizing value one ply down. */
  function MinChild(p: Perspective, s: seq<(WfBoard, nat)>, depth: nat, k: int): Value
    requires 1 <= depth && 0 <= k < |s|
  {
    Minimax(p, s[k].0, depth - 1, true).0
  }

  function MaxFold(p: Perspective, s: seq<(WfBoard, nat)>, depth: nat, best: Value, col: Option<nat>): (Value, Option<nat>)
    requires 1 <= depth
    decreases depth, 0, |s|
  {
    if s == [] then (best, col)
    else
      var v := Minimax(p, s[0].0, depth - 1, false).0;
      if Lt(best, v) then MaxFold(p, s[1..], depth, v, Some(s[0].1))
      else MaxFold(p, s[1..], depth, best, col)
  }

  function MinFold(p: Perspective, s: seq<(WfBoard, nat)>, depth: nat, best: Value, col: Option<nat>): (Value, Option<nat>)
    requires 1 <= depth
    decreases depth, 0, |s|
  {
    if s == [] then (best, col)
    else
      var v := Minimax(p, s[0].0, depth - 1, true).0;
      if Lt(v, best) then MinFold(p, s[1..], depth, v, Some(s[0].1))
      else MinFold(p, s[1..], depth, best, col)
  }

  // ---------------------------------------------------------------------------
  // Fail-soft alpha-beta: `max` and `min`.
  // ---------------------------------------------------------------------------

  /** The (value, column) that `max` (when `maximizing`) or `min` returns for window (alpha, beta). */
  function AlphaBeta(p: Perspective, b: WfBoard, depth: nat, alpha: Value, beta: Value, maximizing: bool): (Value, Option<nat>)
    decreases depth, 1
  {
    if depth == 0 then (Fin(Heuristic(p, b)), None)
    else if maximizing then MaxLoop(p, Successors(b), depth, alpha, beta, NegInf, None)
    else MinLoop(p, Successors(b), depth, alpha, beta, PosInf, None)
  }

  /**
   * The rest of the loop of `max` over the successors `s`, with the current
   * alpha, best value and best column: a strictly greater child value replaces
   * the best; once best >= beta the loop returns; otherwise alpha grows to best.
   */
  function MaxLoop(p: Perspective, s: seq<(WfBoard, nat)>, depth: nat, alpha: Value, beta: Value, best: Value, col: Option<nat>): (Value, Option<nat>)
    requires 1 <= depth
    decreases depth, 0, |s|
  {
    if s == [] then (best, col)
    else
      var v := AlphaBeta(p, s[0].0, depth - 1, alpha, beta, false).0;
      var best' := if Lt(best, v) then v else best;
      var col' := if Lt(best, v) then Some(s[0].1) else col;
      if Le(beta, best') then (best', col')
      else MaxLoop(p, s[1..], depth, MaxV(alpha, best'), beta, best', col')
  }

  /**
   * The rest of the loop of `min`: a strictly smaller child value replaces the
   * best; once best <= alpha the loop returns; otherwise beta shrinks to best.
   */
  function MinLoop(p: Perspective, s: seq<(WfBoard, nat)>, depth: nat, alpha: Value, beta: Value, best: Value, col: Option<nat>): (Value, Option<nat>)
    requires 1 <= depth
    decreases depth, 0, |s|
  {
    if s == [] then (best, col)
    else
      var v := AlphaBeta(p, s[0].0, depth - 1, alpha, beta, true).0;
      var best' := if Lt(v, best) then v else best;
      var col' := if Lt(v, best) then Some(s[0].1) else col;
      if Le(best', alpha) then (best', col')
      else MinLoop(p, s[1..], depth, alpha, MinV(beta, best'), best', col')
  }

  /**
   * One iteration of the loop of `max` over the remaining successors s: the
   * child value v of the first one updates (best, col) to (best', col'), which
   * the loop returns once best' >= beta and otherwise carries on from over the
   * rest of s with alpha raised to best'.
   */
  lemma MaxLoopStep(p: Perspective, s: seq<(WfBoard, nat)>, depth: nat, alpha: Value, beta: Value,
                    best: Value, col: Option<nat>, v: Value, best': Value, col': Option<nat>)
    requires 1 <= depth && s != []
    requires v == AlphaBeta(p, s[0].0, depth - 1, alpha, beta, false).0
    requires best' == (if Lt(best, v) then v else best)
    requires col' == (if Lt(best, v) then Some(s[0].1) else col)
    ensures Le(beta, best') ==> MaxLoop(p, s, depth, alpha, beta, best, col) == (best', col')
    ensures !Le(beta, best') ==>
      MaxLoop(p, s, depth, alpha, beta, best, col) == MaxLoop(p, s[1..], depth, MaxV(alpha, best'), beta, best', col')
  {
  }

  /**
   * One iteration of the loop of `min` over the remaining successors s: the
   * child value v of the first one updates (best, col) to (best', col'), which
   * the loop returns once best' <= alpha and otherwise carries on from over
   * the rest of s with beta lowered to best'.
   */
  lemma MinLoopStep(p: Perspective, s: seq<(WfBoard, nat)>, depth: nat, alpha: Value, beta: Value,
                    best: Value, col: Option<nat>, v: Value, best': Value, col': Option<nat>)
    requires 1 <= depth && s != []
    requires v == AlphaBeta(p, s[0].0, depth - 1, alpha, beta, true).0
    requires best' == (if Lt(v, best) then v else best)
    requires col' == (if Lt(v, best) then Some(s[0].1) else col)
    ensures Le(best', alpha) ==> MinLoop(p, s, depth, alpha, beta, best, col) == (best', col')
    ensures !Le(best', alpha) ==>
      MinLoop(p, s, depth, alpha, beta, best, col) == MinLoop(p, s[1..], depth, alpha, MinV(beta, best'), best', col')
  {
  }

  // ---------------------------------------------------------------------------
  // Plain minimax picks the first best successor.
  // ---------------------------------------------------------------------------

  /**
   * Folding the successors from (best, col) at a maximizing node ends with the
   * largest of best and the successor values; if some successor beats best,
   * the column is that of the FIRST successor reaching the largest value,
   * otherwise (best, col) is kept.
   */
  lemma {:induction false} MaxFoldChoice(p: Perspective, s: seq<(WfBoard, nat)>, depth: nat, best: Value, col: Option<nat>)
    requires 1 <= depth
    ensures Le(best, MaxFold(p, s, depth, best, col).0)
    ensures forall k :: 0 <= k < |s| ==> Le(MaxChild(p, s, depth, k), MaxFold(p, s, depth, best, col).0)
    ensures || MaxFold(p, s, depth, best, col) == (best, col)
            || exists k :: 0 <= k < |s| && FirstBest(p, s, depth, k, true, best, MaxFold(p, s, depth, best, col))
    decreases |s|
  {
    if s != [] {
      var r := MaxFold(p, s, depth, best, col);
      var v := MaxChild(p, s, depth, 0);
      var best', col' := if Lt(best, v) then v else best, if Lt(best, v) then Some(s[0].1) else col;
      MaxFoldChoice(p, s[1..], depth, best', col');
      assert r == MaxFold(p, s[1..], depth, best', col');
      forall k | 0 <= k < |s| ensures Le(MaxChild(p, s, depth, k), r.0) {
        if k > 0 {
          assert MaxChild(p, s, depth, k) == MaxChild(p, s[1..], depth, k - 1);
        }
      }
      if r != (best', col') {
        var k :| 0 <= k < |s[1..]| && FirstBest(p, s[1..], depth, k, true, best', r);
        forall j | 0 <= j < k + 1 ensures Lt(MaxChild(p, s, depth, j), r.0) {
          if j > 0 {
            assert MaxChild(p, s, depth, j) == MaxChild(p, s[1..], depth, j - 1);
          }
        }
        assert MaxChild(p, s, depth, k + 1) == MaxChild(p, s[1..], depth, k);
        assert FirstBest(p, s, depth, k + 1, true, best, r);
      } else if Lt(best, v) {
        assert FirstBest(p, s, depth, 0, true, best, r);
      }
    }
  }

  /**
   * `r` is the value and column of successor k, that value beats the initial
   * best, and every earlier successor is strictly worse (strictly smaller at a
   * maximizing node, strictly greater at a minimizing one).
   */
  predicate FirstBest(p: Perspective, s: seq<(WfBoard, nat)>, depth: nat, k: int, maximizing: bool, best: Value, r: (Value, Option<nat>))
    requires 1 <= depth && 0 <= k < |s|
  {
    if maximizing then
      && r == (MaxChild(p, s, depth, k), Some(s[k].1))
      && Lt(best, r.0)
      && forall j :: 0 <= j < k ==> Lt(MaxChild(p, s, depth, j), r.0)
    else
      && r == (MinChild(p, s, depth, k), Some(s[k].1))
      && Lt(r.0, best)
      && forall j :: 0 <= j < k ==> Lt(r.0, MinChild(p, s, depth, j))
  }

  /** The minimizing counterpart of MaxFoldChoice: the first successor reaching the smallest value. */
  lemma {:induction false} MinFoldChoice(p: Perspective, s: seq<(WfBoard, nat)>, depth: nat, best: Value, col: Option<nat>)
    requires 1 <= depth
    ensures Le(MinFold(p, s, depth, best, col).0, best)
    ensures forall k :: 0 <= k < |s| ==> Le(MinFold(p, s, depth, best, col).0, MinChild(p, s, depth, k))
    ensures || MinFold(p, s, depth, best, col) == (best, col)
            || exists k :: 0 <= k < |s| && FirstBest(p, s, depth, k, false, best, MinFold(p, s, depth, best, col))
    decreases |s|
  {
    if s != [] {
      var r := MinFold(p, s, depth, best, col);
      var v := MinChild(p, s, depth, 0);
      var best', col' := if Lt(v, best) then v else best, if Lt(v, best) then Some(s[0].1) else col;
      MinFoldChoice(p, s[1..], depth, best', col');
      assert r == MinFold(p, s[1..], depth, best', col');
      forall k | 0 <= k < |s| ensures Le(r.0, MinChild(p, s, depth, k)) {
        if k > 0 {
          assert MinChild(p, s, depth, k) == MinChild(p, s[1..], depth, k - 1);
        }
      }
      if r != (best', col') {
        var k :| 0 <= k < |s[1..]| && FirstBest(p, s[1..], depth, k, false, best', r);
        forall j | 0 <= j < k + 1 ensures Lt(r.0, MinChild(p, s, depth, j)) {
          if j > 0 {
            assert MinChild(p, s, depth, j) == MinChild(p, s[1..], depth, j - 1);
          }
        }
        assert MinChild(p, s, depth, k + 1) == MinChild(p, s[1..], depth, k);
        assert FirstBest(p, s, depth, k + 1, false, best, r);
      } else if Lt(v, best) {
        assert FirstBest(p, s, depth, 0, false, best, r);
      }
    }
  }

  // ---------------------------------------------------------------------------
  // Pruning does not change the answer.
  // ---------------------------------------------------------------------------

  /**
   * The fail-soft guarantee relating a search result r to the true value v for
   * the window (alpha, beta): exact inside the window, an upper bound at or
   * below alpha, a lower bound at or above beta.
   */
  predicate FailSoft(r: Value, v: Value, alpha: Value, beta: Value) {
    && (Lt(alpha, v) && Lt(v, beta) ==> r == v)
    && (Le(v, alpha) ==> Le(r, alpha))
    && (Le(beta, v) ==> Le(beta, r))
  }

  /**
   * One step of the loop of `max`, on values only: from best <= alpha < beta,
   * a child result v that is fail-soft for the child's minimax value m, and a
   * rest-of-loop result r that is fail-soft for the rest of the fold from the
   * new best (or the new best itself when it reaches beta), the step is
   * fail-soft for the fold from best, whose value is max(max(best, m), t).
   */
  lemma MaxStep(alpha: Value, beta: Value, best: Value, v: Value, m: Value, best': Value, t: Value, r: Value)
    requires Lt(alpha, beta) && Le(best, alpha)
    requires FailSoft(v, m, alpha, beta)
    requires best' == if Lt(best, v) then v else best
    requires Le(beta, best') ==> r == best'
    requires !Le(beta, best') ==> Le(best', r) && FailSoft(r, MaxV(best', t), MaxV(alpha, best'), beta)
    ensures Le(best, r) && FailSoft(r, MaxV(MaxV(best, m), t), alpha, beta)
  {
  }

  /** One step of the loop of `min`, on values only; the mirror image of MaxStep. */
  lemma MinStep(alpha: Value, beta: Value, best: Value, v: Value, m: Value, best': Value, t: Value, r: Value)
    requires Lt(alpha, beta) && Le(beta, best)
    requires FailSoft(v, m, alpha, beta)
    requires best' == if Lt(v, best) then v else best
    requires Le(best', alpha) ==> r == best'
    requires !Le(best', alpha) ==> Le(r, best') && FailSoft(r, MinV(best', t), alpha, MinV(beta, best'))
    ensures Le(r, best) && FailSoft(r, MinV(MinV(best, m), t), alpha, beta)
  {
  }

  /** The value of a maximizing fold from `best` is the larger of `best` and the fold from -inf. */
  lemma {:induction false} MaxFoldValue(p: Perspective, s: seq<(WfBoard, nat)>, depth: nat, best: Value, col: Option<nat>)
    requires 1 <= depth
    ensures MaxFold(p, s, depth, best, col).0 == MaxV(best, MaxFold(p, s, depth, NegInf, None).0)
    decreases |s|
  {
    if s != [] {
      var v := Minimax(p, s[0].0, depth - 1, false).0;
      MaxFoldValue(p, s[1..], depth, MaxV(best, v), if Lt(best, v) then Some(s[0].1) else col);
      MaxFoldValue(p, s[1..], depth, MaxV(NegInf, v), if Lt(NegInf, v) then Some(s[0].1) else None);
    }
  }

  /** The value of a minimizing fold from `best` is the smaller of `best` and the fold from +inf. */
  lemma {:induction false} MinFoldValue(p: Perspective, s: seq<(WfBoard, nat)>, depth: nat, best: Value, col: Option<nat>)
    requires 1 <= depth
    ensures MinFold(p, s, depth, best, col).0 == MinV(best, MinFold(p, s, depth, PosInf, None).0)
    decreases |s|
  {
    if s != [] {
      var v := Minimax(p, s[0].0, depth - 1, true).0;
      MinFoldValue(p, s[1..], depth, MinV(best, v), if Lt(v, best) then Some(s[0].1) else col);
      MinFoldValue(p, s[1..], depth, MinV(PosInf, v), if Lt(v, PosInf) then Some(s[0].1) else None);
    }
  }

  /**
   * Alpha-beta is fail-soft with respect to plain minimax: for any window with
   * alpha < beta, the pruned result equals the minimax value v when
   * alpha < v < beta, is at most alpha when v <= alpha, and at least beta when
   * v >= beta.
   */
  lemma {:induction false} AlphaBetaFailSoft(p: Perspective, b: WfBoard, depth: nat, alpha: Value, beta: Value, maximizing: bool)
    requires Lt(alpha, beta)
    ensures FailSoft(AlphaBeta(p, b, depth, alpha, beta, maximizing).0, Minimax(p, b, depth, maximizing).0, alpha, beta)
    decreases depth, 1
  {
    if depth > 0 {
      if maximizing {
        MaxLoopFailSoft(p, Successors(b), depth, alpha, beta, NegInf, None);
      } else {
        MinLoopFailSoft(p, Successors(b), depth, alpha, beta, PosInf, None);
      }
    }
  }

  /**
   * The loop of `max` from a state with best <= alpha < beta never returns less
   * than best, and is fail-soft with respect to the plain fold from best.
   */
  lemma {:induction false} MaxLoopFailSoft(p: Perspective, s: seq<(WfBoard, nat)>, depth: nat, alpha: Value, beta: Value, best: Value, col: Option<nat>)
    requires 1 <= depth
    requires Lt(alpha, beta) && Le(best, alpha)
    ensures Le(best, MaxLoop(p, s, depth, alpha, beta, best, col).0)
    ensures FailSoft(MaxLoop(p, s, depth, alpha, beta, best, col).0, MaxFold(p, s, depth, best, col).0, alpha, beta)
    decreases depth, 0, |s|
  {
    if s != [] {
      var child := s[0].0;
      AlphaBetaFailSoft(p, child, depth - 1, alpha, beta, false);
      var v := AlphaBeta(p, child, depth - 1, alpha, beta, false).0;
      var m := Minimax(p, child, depth - 1, false).0;
      var best' := if Lt(best, v) then v else best;
      var col' := if Lt(best, v) then Some(s[0].1) else col;
      var r := MaxLoop(p, s, depth, alpha, beta, best, col).0;
      var t := MaxFold(p, s[1..], depth, NegInf, None).0;
      MaxFoldValue(p, s[1..], depth, MaxV(best, m), if Lt(best, m) then Some(s[0].1) else col);
      if !Le(beta, best') {
        MaxLoopFailSoft(p, s[1..], depth, MaxV(alpha, best'), beta, best', col');
        MaxFoldValue(p, s[1..], depth, best', col');
      }
      MaxStep(alpha, beta, best, v, m, best', t, r);
    }
  }

  /**
   * The loop of `min` from a state with alpha < beta <= best never returns more
   * than best, and is fail-soft with respect to the plain fold from best.
   */
  lemma {:induction false} MinLoopFailSoft(p: Perspective, s: seq<(WfBoard, nat)>, depth: nat, alpha: Value, beta: Value, best: Value, col: Option<nat>)
    requires 1 <= depth
    requires Lt(alpha, beta) && Le(beta, best)
    ensures Le(MinLoop(p, s, depth, alpha, beta, best, col).0, best)
    ensures FailSoft(MinLoop(p, s, depth, alpha, beta, best, col).0, MinFold(p, s, depth, best, col).0, alpha, beta)
    decreases depth, 0, |s|
  {
    if s != [] {
      var child := s[0].0;
      AlphaBetaFailSoft(p, child, depth - 1, alpha, beta, true);
      var v := AlphaBeta(p, child, depth - 1, alpha, beta, true).0;
      var m := Minimax(p, child, depth - 1, true).0;
      var best' := if Lt(v, best) then v else best;
      var col' := if Lt(v, best) then Some(s[0].1) else col;
      var r := MinLoop(p, s, depth, alpha, beta, best, col).0;
      var t := MinFold(p, s[1..], depth, PosInf, None).0;
      MinFoldValue(p, s[1..], depth, MinV(best, m), if Lt(m, best) then Some(s[0].1) else col);
      if !Le(best', alpha) {
        MinLoopFailSoft(p, s[1..], depth, alpha, MinV(beta, best'), best', col');
        MinFoldValue(p, s[1..], depth, best', col');
      }
      MinStep(alpha, beta, best, v, m, best', t, r);
    }
  }

  // ---------------------------------------------------------------------------
  // The root call of `go`: window (-inf, +inf).
  // ---------------------------------------------------------------------------

  /** A maximizing fold that has reached +inf keeps its value and column. */
  lemma {:induction false} MaxFoldTop(p: Perspective, s: seq<(WfBoard, nat)>, depth: nat, col: Option<nat>)
    requires 1 <= depth
    ensures MaxFold(p, s, depth, PosInf, col) == (PosInf, col)
    decreases |s|
  {
    if s != [] {
      MaxFoldTop(p, s[1..], depth, col);
    }
  }

  /**
   * At the root, alpha is always the best value so far and beta is +inf; from
   * such a state the loop of `max` returns exactly what plain minimax returns,
   * value and column.
   */
  lemma {:induction false} RootLoopIsFold(p: Perspective, s: seq<(WfBoard, nat)>, depth: nat, best: Value, col: Option<nat>)
    requires 1 <= depth && best != PosInf
    ensures MaxLoop(p, s, depth, best, PosInf, best, col) == MaxFold(p, s, depth, best, col)
    decreases |s|
  {
    if s != [] {
      var child := s[0].0;
      AlphaBetaFailSoft(p, child, depth - 1, best, PosInf, false);
      var m := Minimax(p, child, depth - 1, false).0;
      if Lt(best, m) {
        if m == PosInf {
          MaxFoldTop(p, s[1..], depth, Some(s[0].1));
        } else {
          RootLoopIsFold(p, s[1..], depth, m, Some(s[0].1));
        }
      } else {
        RootLoopIsFold(p, s[1..], depth, best, col);
      }
    }
  }

  /**
   * The root call of `go` (maximizing, window (-inf, +inf)) returns the same
   * value AND the same column as plain minimax over the same tree.
   */
  lemma RootSearchIsMinimax(p: Perspective, b: WfBoard, depth: nat)
    ensures AlphaBeta(p, b, depth, NegInf, PosInf, true) == Minimax(p, b, depth, true)
  {
    if depth > 0 {
      RootLoopIsFold(p, Successors(b), depth, NegInf, None);
    }
  }

  /**
   * What the root call of `go` chooses: its value is at least every
   * successor's minimax value, and it is either (-inf, no column) or the value
   * and column of the FIRST successor whose minimax value is the largest.
   */
  lemma RootChoice(p: Perspective, b: WfBoard, depth: nat)
    requires 1 <= depth
    ensures var r := AlphaBeta(p, b, depth, NegInf, PosInf, true);
      && (forall k :: 0 <= k < |Successors(b)| ==> Le(MaxChild(p, Successors(b), depth, k), r.0))
      && (|| r == (NegInf, None)
          || exists k :: 0 <= k < |Successors(b)| && FirstBest(p, Successors(b), depth, k, true, NegInf, r))
  {
    RootSearchIsMinimax(p, b, depth);
    MaxFoldChoice(p, Successors(b), depth, NegInf, None);
  }

  // ---------------------------------------------------------------------------
  // The returned column.
  // ---------------------------------------------------------------------------

  lemma {:induction false} MaxLoopColumn(p: Perspective, s: seq<(WfBoard, nat)>, depth: nat, alpha: Value, beta: Value, best: Value, col: Option<nat>)
    requires 1 <= depth
    ensures || MaxLoop(p, s, depth, alpha, beta, best, col).1 == col
            || exists k :: 0 <= k < |s| && MaxLoop(p, s, depth, alpha, beta, best, col).1 == Some(s[k].1)
    decreases |s|
  {
    if s != [] {
      var v := AlphaBeta(p, s[0].0, depth - 1, alpha, beta, false).0;
      var best' := if Lt(best, v) then v else best;
      var col' := if Lt(best, v) then Some(s[0].1) else col;
      if !Le(beta, best') {
        MaxLoopColumn(p, s[1..], depth, MaxV(alpha, best'), beta, best', col');
        var r := MaxLoop(p, s, depth, alpha, beta, best, col);
        if r.1 != col' {
          var k :| 0 <= k < |s[1..]| && r.1 == Some(s[1..][k].1);
          assert r.1 == Some(s[k + 1].1);
        }
      }
    }
  }

  lemma {:induction false} MinLoopColumn(p: Perspective, s: seq<(WfBoard, nat)>, depth: nat, alpha: Value, beta: Value, best: Value, col: Option<nat>)
    requires 1 <= depth
    ensures || MinLoop(p, s, depth, alpha, beta, best, col).1 == col
            || exists k :: 0 <= k < |s| && MinLoop(p, s, depth, alpha, beta, best, col).1 == Some(s[k].1)
    decreases |s|
  {
    if s != [] {
      var v := AlphaBeta(p, s[0].0, depth - 1, alpha, beta, true).0;
      var best' := if Lt(v, best) then v else best;
      var col' := if Lt(v, best) then Some(s[0].1) else col;
      if !Le(best', alpha) {
        MinLoopColumn(p, s[1..], depth, alpha, MinV(beta, best'), best', col');
        var r := MinLoop(p, s, depth, alpha, beta, best, col);
        if r.1 != col' {
          var k :| 0 <= k < |s[1..]| && r.1 == Some(s[1..][k].1);
          assert r.1 == Some(s[k + 1].1);
        }
      }
    }
  }

  /**
   * The column `max` or `min` returns is None or a free column of the board
   * searched, and it is None at depth 0.
   */
  lemma AlphaBetaColumn(p: Perspective, b: WfBoard, depth: nat, alpha: Value, beta: Value, maximizing: bool)
    ensures var c := AlphaBeta(p, b, depth, alpha, beta, maximizing).1;
      c == None || (0 < depth && IsFree(b, c.value))
  {
    if depth > 0 {
      var s := Successors(b);
      var r := AlphaBeta(p, b, depth, alpha, beta, maximizing);
      if maximizing {
        MaxLoopColumn(p, s, depth, alpha, beta, NegInf, None);
      } else {
        MinLoopColumn(p, s, depth, alpha, beta, PosInf, None);
      }
      if r.1 != None {
        var k :| 0 <= k < |s| && r.1 == Some(s[k].1);
        SuccessorEntries(b);
        assert IsFree(b, s[k].1);
      }
    }
  }

  // ---------------------------------------------------------------------------
  // Playing a winning move.
  // ---------------------------------------------------------------------------

  /**
   * Among one-ply successors of equal size with the sentinel dominating, if
   * one scores the win sentinel then the first best one is a won board.
   */
  lemma FirstBestWins(p: Perspective, s: seq<(WfBoard, nat)>, i: int, r: (Value, Option<nat>), w: nat, h: nat, n: nat)
    requires 1 <= n && PositionalBound(w, h, n) < WinScore
    requires forall j :: 0 <= j < |s| ==> s[j].0.w == w && s[j].0.h == h && s[j].0.n == n
    requires 0 <= i < |s| && Heuristic(p, s[i].0) == WinScore
    requires forall k :: 0 <= k < |s| ==> Le(MaxChild(p, s, 1, k), r.0)
    requires r == (NegInf, None) || exists k :: 0 <= k < |s| && FirstBest(p, s, 1, k, true, NegInf, r)
    ensures exists k :: 0 <= k < |s| && r.1 == Some(s[k].1) && p.rules.outcome(s[k].0) == p.me
  {
    assert MaxChild(p, s, 1, i) == Fin(WinScore);
    assert r != (NegInf, None) by {
      assert Le(MaxChild(p, s, 1, i), r.0);
    }
    var k :| 0 <= k < |s| && FirstBest(p, s, 1, k, true, NegInf, r);
    assert MaxChild(p, s, 1, k) == Fin(Heuristic(p, s[k].0));
    HeuristicWinDominates(p, s[k].0);
  }

  /** The successor for a free column that wins for `me`, with `me` to move, scores the win sentinel. */
  lemma WinningSuccessor(p: Perspective, b: WfBoard, c: int) returns (i: int)
    requires p.me == b.player && p.you == Other(b.player)
    requires IsFree(b, c) && p.rules.outcome(AddToken(b, c)) == p.me
    ensures 0 <= i < |Successors(b)| && Successors(b)[i].1 == c
    ensures Heuristic(p, Successors(b)[i].0) == WinScore
  {
    SuccessorsCoverFree(b);
    i :| 0 <= i < |Successors(b)| && Successors(b)[i].1 == c;
    assert Successors(b)[i].0 == AddToken(b, c);
  }

  /**
   * With `me` the player to move (as `go` sets it) and a board small enough
   * for the win sentinel to dominate the positional score, a one-ply search
   * from the root picks a move that wins whenever some free column wins.
   */
  lemma WinningMoveChosen(p: Perspective, b: WfBoard, c: int)
    requires p.me == b.player && p.you == Other(b.player)
    requires PositionalBound(b.w, b.h, b.n) < WinScore
    requires IsFree(b, c) && p.rules.outcome(AddToken(b, c)) == p.me
    ensures var col := AlphaBeta(p, b, 1, NegInf, PosInf, true).1;
      col.Some? && IsFree(b, col.value) && p.rules.outcome(AddToken(b, col.value)) == p.me
  {
    var s := Successors(b);
    var i := WinningSuccessor(p, b, c);
    var r := AlphaBeta(p, b, 1, NegInf, PosInf, true);
    RootChoice(p, b, 1);
    FirstBestWins(p, s, i, r, b.w, b.h, b.n);
    var k :| 0 <= k < |s| && r.1 == Some(s[k].1) && p.rules.outcome(s[k].0) == p.me;
    SuccessorEntries(b);
  }

  // ---------------------------------------------------------------------------
  // Blocking the other player's winning reply.
  // ---------------------------------------------------------------------------

  /** After `me` drops a token in column c, `you` has no reply that wins. */
  ghost predicate NoWinningReply(p: Perspective, b: WfBoard, c: int)
    requires IsFree(b, c)
  {
    forall d :: IsFree(AddToken(b, c), d) ==> p.rules.outcome(AddToken(AddToken(b, c), d)) != p.you
  }

  /**
   * A board two plies below the root, with `me` to move again, scores at most
   * -100000 exactly when `you` has won it (the loss sentinel dominating).
   */
  lemma ReplyScore(p: Perspective, b: WfBoard, c: int, d: int)
    requires p.me == b.player && p.you == Other(b.player)
    requires LossCap(b.w, b.h, b.n) < -LossScore
    requires IsFree(b, c) && IsFree(AddToken(b, c), d)
    ensures Heuristic(p, AddToken(AddToken(b, c), d)) <= LossScore <==> p.rules.outcome(AddToken(AddToken(b, c), d)) == p.you
  {
    var b2 := AddToken(AddToken(b, c), d);
    assert b2.player == p.me;
    HeuristicLossDominates(p, b2);
  }

  /** When `you` has no winning reply to column c, its depth-1 minimizing value is above -100000. */
  lemma ReplyBlocked(p: Perspective, b: WfBoard, c: int)
    requires p.me == b.player && p.you == Other(b.player)
    requires LossCap(b.w, b.h, b.n) < -LossScore
    requires IsFree(b, c) && NoWinningReply(p, b, c)
    ensures Lt(Fin(LossScore), Minimax(p, AddToken(b, c), 1, false).0)
  {
    var b1 := AddToken(b, c);
    var s := Successors(b1);
    var r := Minimax(p, b1, 1, false);
    MinFoldChoice(p, s, 1, PosInf, None);
    if r != (PosInf, None) {
      var k :| 0 <= k < |s| && FirstBest(p, s, 1, k, false, PosInf, r);
      SuccessorEntries(b1);
      ReplyScore(p, b, c, s[k].1);
      assert MinChild(p, s, 1, k) == Fin(Heuristic(p, s[k].0));
    }
  }

  /** When `you` has a winning reply d to column c, its depth-1 minimizing value is at most -100000. */
  lemma ReplyWins(p: Perspective, b: WfBoard, c: int, d: int)
    requires p.me == b.player && p.you == Other(b.player)
    requires LossCap(b.w, b.h, b.n) < -LossScore
    requires IsFree(b, c) && IsFree(AddToken(b, c), d) && p.rules.outcome(AddToken(AddToken(b, c), d)) == p.you
    ensures Le(Minimax(p, AddToken(b, c), 1, false).0, Fin(LossScore))
  {
    var b1 := AddToken(b, c);
    var s := Successors(b1);
    SuccessorsCoverFree(b1);
    var i :| 0 <= i < |s| && s[i].1 == d;
    SuccessorEntries(b1);
    ReplyScore(p, b, c, d);
    MinFoldChoice(p, s, 1, PosInf, None);
    assert MinChild(p, s, 1, i) == Fin(Heuristic(p, s[i].0));
  }

  /**
   * With `me` to move and the loss sentinel dominating, the depth-1
   * minimizing value of column c is above -100000 exactly when `you` has no
   * winning reply to it.
   */
  lemma ReplyValue(p: Perspective, b: WfBoard, c: int)
    requires p.me == b.player && p.you == Other(b.player)
    requires LossCap(b.w, b.h, b.n) < -LossScore
    requires IsFree(b, c)
    ensures NoWinningReply(p, b, c) <==> Lt(Fin(LossScore), Minimax(p, AddToken(b, c), 1, false).0)
  {
    if NoWinningReply(p, b, c) {
      ReplyBlocked(p, b, c);
    } else {
      var d :| IsFree(AddToken(b, c), d) && p.rules.outcome(AddToken(AddToken(b, c), d)) == p.you;
      ReplyWins(p, b, c, d);
    }
  }

  /** The k-th successor of the root is a free column whose value is the depth-1 minimizing value after it. */
  lemma RootChild(p: Perspective, b: WfBoard, k: int)
    requires 0 <= k < |Successors(b)|
    ensures IsFree(b, Successors(b)[k].1)
    ensures MaxChild(p, Successors(b), 2, k) == Minimax(p, AddToken(b, Successors(b)[k].1), 1, false).0
  {
    SuccessorEntries(b);
  }

  /**
   * With `me` to move and the loss sentinel dominating, the two-ply root value
   * is above -100000 as soon as some free column leaves `you` no winning reply.
   */
  lemma RootAboveLoss(p: Perspective, b: WfBoard, c: int)
    requires p.me == b.player && p.you == Other(b.player)
    requires LossCap(b.w, b.h, b.n) < -LossScore
    requires IsFree(b, c) && NoWinningReply(p, b, c)
    ensures Lt(Fin(LossScore), AlphaBeta(p, b, 2, NegInf, PosInf, true).0)
  {
    var s := Successors(b);
    SuccessorsCoverFree(b);
    var i :| 0 <= i < |s| && s[i].1 == c;
    RootChild(p, b, i);
    ReplyValue(p, b, c);
    RootChoice(p, b, 2);
    assert Le(MaxChild(p, s, 2, i), AlphaBeta(p, b, 2, NegInf, PosInf, true).0);
  }

  /**
   * With `me` to move and the loss sentinel dominating, a two-ply search from
   * the root picks a column after which `you` has no winning reply, whenever
   * such a column exists.
   */
  lemma BlockingMoveChosen(p: Perspective, b: WfBoard, c: int)
    requires p.me == b.player && p.you == Other(b.player)
    requires LossCap(b.w, b.h, b.n) < -LossScore
    requires IsFree(b, c) && NoWinningReply(p, b, c)
    ensures var col := AlphaBeta(p, b, 2, NegInf, PosInf, true).1;
      col.Some? && IsFree(b, col.value) && NoWinningReply(p, b, col.value)
  {
    var s := Successors(b);
    var r := AlphaBeta(p, b, 2, NegInf, PosInf, true);
    RootAboveLoss(p, b, c);
    RootChoice(p, b, 2);
    var k :| 0 <= k < |s| && FirstBest(p, s, 2, k, true, NegInf, r);
    RootChild(p, b, k);
    ReplyValue(p, b, s[k].1);
  }

  // ---------------------------------------------------------------------------
  // When the root returns no column.
  // ---------------------------------------------------------------------------

  /** A one-column board two cells high, both empty, with player 1 to move. */
  const EvenEndgame: WfBoard := Board(1, 2, 2, 1, [[0], [0]])

  /**
   * As written, a three-ply search of EvenEndgame returns no column although
   * column 0 is free: both lines of play end on a full board with `max` to
   * move, which scores -inf, and at the root -inf never strictly beats the
   * initial -inf.
   */
  lemma EvenEndgameNoColumn(p: Perspective)
    ensures IsFree(EvenEndgame, 0)
    ensures AlphaBeta(p, EvenEndgame, 3, NegInf, PosInf, true) == (NegInf, None)
  {
    var b := EvenEndgame;
    var b1 := AddToken(b, 0);
    var b2 := AddToken(b1, 0);
    assert FreeCols(b) == [0];
    assert Successors(b) == [(b1, 0)];
    assert LowestEmpty(b, 0) == 0;
    assert b1.grid[0] == [1] && b1.grid[1] == [0];
    assert b1.grid == [[1], [0]];
    assert FreeColsFrom(b1, 1) == [];
    assert FreeCols(b1) == [0];
    assert Successors(b1) == [(b2, 0)];
    assert LowestEmptyFrom(b1, 0, 1) == 1;
    assert b2.grid[0] == [1] && b2.grid[1] == [2];
    assert b2.grid == [[1], [2]];
    assert !IsFree(b2, 0) && FreeColsFrom(b2, 1) == [];
    assert FreeCols(b2) == [];
    assert AlphaBeta(p, b2, 1, NegInf, PosInf, true) == (NegInf, None);
    assert AlphaBeta(p, b1, 2, NegInf, PosInf, false).0 == NegInf;
  }

  /**
   * One ply above the horizon, the minimizing value of plain minimax is +inf
   * when no column is free and otherwise the heuristic score of a successor,
   * so it is never -inf.
   */
  lemma OnePlyMinAboveNegInf(p: Perspective, b: WfBoard)
    ensures Minimax(p, b, 1, false).0 != NegInf
    ensures Minimax(p, b, 1, false).0 == PosInf <==> Successors(b) == []
    ensures Successors(b) != [] ==>
      exists k :: 0 <= k < |Successors(b)| && Minimax(p, b, 1, false).0 == Fin(Heuristic(p, Successors(b)[k].0))
  {
    var s := Successors(b);
    MinFoldChoice(p, s, 1, PosInf, None);
    if s != [] {
      assert Le(Minimax(p, b, 1, false).0, MinChild(p, s, 1, 0));
      assert MinChild(p, s, 1, 0) == Fin(Heuristic(p, s[0].0));
      var k :| 0 <= k < |s| && FirstBest(p, s, 1, k, false, PosInf, Minimax(p, b, 1, false));
      assert MinChild(p, s, 1, k) == Fin(Heuristic(p, s[k].0));
    }
  }

  /** The root returns a free column as soon as some successor's minimax value is above -inf. */
  lemma RootPicksColumn(p: Perspective, b: WfBoard, depth: nat, k: int)
    requires 1 <= depth && 0 <= k < |Successors(b)| && MaxChild(p, Successors(b), depth, k) != NegInf
    ensures var c := AlphaBeta(p, b, depth, NegInf, PosInf, true).1;
      c.Some? && IsFree(b, c.value)
  {
    RootChoice(p, b, depth);
    AlphaBetaColumn(p, b, depth, NegInf, PosInf, true);
  }

  /**
   * With one or two plies, every successor's value is above -inf, so the
   * root returns a free column whenever the board has one.
   */
  lemma ShallowSearchPicksColumn(p: Perspective, b: WfBoard, depth: nat, c: int)
    requires 1 <= depth <= 2 && IsFree(b, c)
    ensures var r := AlphaBeta(p, b, depth, NegInf, PosInf, true).1;
      r.Some? && IsFree(b, r.value)
  {
    var s := Successors(b);
    SuccessorsCoverFree(b);
    var k :| 0 <= k < |s| && s[k].1 == c;
    if depth == 2 {
      OnePlyMinAboveNegInf(p, s[k].0);
    }
    RootPicksColumn(p, b, depth, k);
  }

  // ---------------------------------------------------------------------------
  // The corrected root: `max` also takes a child while it has no column yet.
  // ---------------------------------------------------------------------------

  /**
   * The loop of `max` with the replacement test corrected to
   * `value > best_value or best_col is None`: the first child is always
   * taken, so a column is chosen even when every child scores -inf.
   */
  function MaxLoopCorrected(p: Perspective, s: seq<(WfBoard, nat)>, depth: nat, alpha: Value, beta: Value, best: Value, col: Option<nat>): (r: (Value, Option<nat>))
    requires 1 <= depth
    ensures s != [] || col.Some? ==> r.1.Some?
    ensures r.1 == col || exists i :: 0 <= i < |s| && r.1 == Some(s[i].1)
    decreases |s|
  {
    if s == [] then (best, col)
    else
      var v := AlphaBeta(p, s[0].0, depth - 1, alpha, beta, false).0;
      var take := Lt(best, v) || col.None?;
      var best' := if take then v else best;
      var col' := if take then Some(s[0].1) else col;
      if Le(beta, best') then (best', col')
      else
        var r := MaxLoopCorrected(p, s[1..], depth, MaxV(alpha, best'), beta, best', col');
        assert r.1 != col' ==> exists i :: 0 <= i < |s| && r.1 == Some(s[i].1) by {
          if r.1 != col' {
            var i :| 0 <= i < |s[1..]| && r.1 == Some(s[1..][i].1);
            assert s[1..][i] == s[i + 1];
          }
        }
        r
  }

  /** The corrected root call of `go`: `max(brd, max_depth, -inf, +inf)` with the corrected test. */
  function CorrectedRoot(p: Perspective, b: WfBoard, depth: nat): (Value, Option<nat>)
    requires 1 <= depth
  {
    MaxLoopCorrected(p, Successors(b), depth, NegInf, PosInf, NegInf, None)
  }

  /**
   * The corrected loop returns the value of the loop as written, and its
   * column too whenever the loop as written has one. `colC` and `colW` are
   * the columns of the corrected loop and of the loop as written so far.
   */
  lemma {:induction false} MaxLoopCorrectedAgrees(p: Perspective, s: seq<(WfBoard, nat)>, depth: nat, alpha: Value, beta: Value,
                                                  best: Value, colC: Option<nat>, colW: Option<nat>)
    requires 1 <= depth
    requires colC.None? ==> best == NegInf
    requires colW.Some? ==> colC == colW
    ensures MaxLoopCorrected(p, s, depth, alpha, beta, best, colC).0 == MaxLoop(p, s, depth, alpha, beta, best, colW).0
    ensures MaxLoop(p, s, depth, alpha, beta, best, colW).1.Some? ==>
              MaxLoopCorrected(p, s, depth, alpha, beta, best, colC).1 == MaxLoop(p, s, depth, alpha, beta, best, colW).1
    decreases |s|
  {
    if s != [] {
      var v := AlphaBeta(p, s[0].0, depth - 1, alpha, beta, false).0;
      var take := Lt(best, v) || colC.None?;
      var bestC := if take then v else best;
      var bestW := if Lt(best, v) then v else best;
      assert bestC == bestW;
      var colC' := if take then Some(s[0].1) else colC;
      var colW' := if Lt(best, v) then Some(s[0].1) else colW;
      if !Le(beta, bestC) {
        MaxLoopCorrectedAgrees(p, s[1..], depth, MaxV(alpha, bestC), beta, bestC, colC', colW');
      }
    }
  }

  /**
   * For every depth, the corrected root has the value of the search as
   * written (which is the minimax value), keeps its column when it has one,
   * and returns a free column exactly when the board has one.
   */
  lemma CorrectedRootPicksColumn(p: Perspective, b: WfBoard, depth: nat)
    requires 1 <= depth
    ensures var r := CorrectedRoot(p, b, depth);
      && r.0 == AlphaBeta(p, b, depth, NegInf, PosInf, true).0 == Minimax(p, b, depth, true).0
      && (AlphaBeta(p, b, depth, NegInf, PosInf, true).1.Some? ==> r.1 == AlphaBeta(p, b, depth, NegInf, PosInf, true).1)
      && (r.1.Some? <==> exists c :: IsFree(b, c))
      && (r.1.Some? ==> IsFree(b, r.1.value))
  {
    var s := Successors(b);
    MaxLoopCorrectedAgrees(p, s, depth, NegInf, PosInf, NegInf, None, None);
    RootSearchIsMinimax(p, b, depth);
    SuccessorsCoverFree(b);
    SuccessorEntries(b);
  }

  /** On EvenEndgame at depth 3, the corrected root picks column 0 where the search as written picks none. */
  lemma EvenEndgameCorrected(p: Perspective)
    ensures CorrectedRoot(p, EvenEndgame, 3) == (NegInf, Some(0))
  {
    EvenEndgameNoColumn(p);
    CorrectedRootPicksColumn(p, EvenEndgame, 3);
  }
}
