/** Small functions on numbers that several modules share. */
module Arithmetic {

  function Larger(a: int, b: int): int {
    if a > b then a else b
  }

  function Smaller(a: int, b: int): int {
    if a < b then a else b
  }

  function Total(values: seq<real>): real {
    if values == [] then 0.0 else values[0] + Total(values[1..])
  }

  /** How many of the values are at most `b`. */
  function AtMost(values: seq<real>, b: real): nat {
    if values == [] then 0 else (if values[0] <= b then 1 else 0) + AtMost(values[1..], b)
  }

  lemma {:induction false} TotalSnoc(values: seq<real>, v: real)
    ensures Total([]) == 0.0 && Total(values + [v]) == Total(values) + v
  {
    if values != [] {
      assert (values + [v])[1..] == values[1..] + [v];
      TotalSnoc(values[1..], v);
    }
  }

  lemma {:induction false} AtMostSnoc(values: seq<real>, v: real, b: real)
    ensures AtMost([], b) == 0 && AtMost(values + [v], b) == AtMost(values, b) + (if v <= b then 1 else 0)
  {
    if values != [] {
      assert (values + [v])[1..] == values[1..] + [v];
      AtMostSnoc(values[1..], v, b);
    }
  }
}
