/**
 * Model of `soma` (app.js), the addition helper the unit tests exercise,
 * taken over unbounded integers.
 */
module Arithmetic {

  /** `soma(a, b)`: the sum of its two arguments. */
  function Soma(a: int, b: int): (sum: int) {
    a + b
  }

  /** `Soma` is integer addition: commutative, associative, with 0 as identity and `-b` undoing `b`. */
  lemma SomaLaws(a: int, b: int, c: int)
    ensures Soma(a, b) == Soma(b, a)
    ensures Soma(Soma(a, b), c) == Soma(a, Soma(b, c))
    ensures Soma(a, 0) == a && Soma(0, a) == a
    ensures Soma(Soma(a, b), -b) == a
  {
  }

  /** The values the unit tests of `soma` expect. */
  lemma SomaTestVectors()
    ensures Soma(2, 3) == 5
    ensures Soma(-1, 1) == 0
    ensures Soma(0, 0) == 0
  {
  }
}
