/**
 * Search values. The agent uses Python's `-math.inf` and `math.inf` only as
 * ordering sentinels around the integer heuristic scores, so a value is an
 * integer extended with the two infinities.
 */
module Scores {

  datatype Value = NegInf | Fin(n: int) | PosInf

  predicate Le(a: Value, b: Value) {
    a.NegInf? || b.PosInf? || (a.Fin? && b.Fin? && a.n <= b.n)
  }

  predicate Lt(a: Value, b: Value) {
    Le(a, b) && a != b
  }

  /** Python's `max(a, b)`: `b` only when it is strictly greater. */
  function MaxV(a: Value, b: Value): (m: Value)
    ensures Le(a, m) && Le(b, m)
    ensures m == a || m == b
  {
    if Lt(a, b) then b else a
  }

  /** Python's `min(a, b)`: `b` only when it is strictly smaller. */
  function MinV(a: Value, b: Value): (m: Value)
    ensures Le(m, a) && Le(m, b)
    ensures m == a || m == b
  {
    if Lt(b, a) then b else a
  }
}
