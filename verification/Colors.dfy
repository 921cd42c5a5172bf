/**
 This module defines the three tile colours of the game and the order the
 on-screen keyboard uses to combine them: gray < yellow < green.
 */
module Colors {

  /** The label of one guess position: absent, present elsewhere, or exact. */
  datatype Color = Gray | Yellow | Green

  /** Position of a colour in the order gray < yellow < green. */
  function Rank(c: Color): nat
  {
    match c
    case Gray => 0
    case Yellow => 1
    case Green => 2
  }

  /** The higher of two colours: the least upper bound in the colour order. */
  function Join(a: Color, b: Color): (r: Color)
    ensures Rank(a) <= Rank(r) && Rank(b) <= Rank(r)
    ensures r == a || r == b
  {
    if Rank(a) >= Rank(b) then a else b
  }

  /** Join is the join of a semilattice: idempotent, commutative and associative. */
  lemma JoinLattice(a: Color, b: Color, c: Color)
    ensures Join(a, a) == a
    ensures Join(a, b) == Join(b, a)
    ensures Join(Join(a, b), c) == Join(a, Join(b, c))
  {
  }
}
