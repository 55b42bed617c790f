/** Small facts of ordered-field arithmetic that the solver does not find on
    its own. Products are passed in as values (`prod == a * b`) so that each
    fact is stated about the very term the caller holds. */
module RealFacts {

  lemma MulNonNeg(a: real, b: real)
    requires 0.0 <= a && 0.0 <= b
    ensures 0.0 <= a * b
  {
  }

  lemma MulPos(a: real, b: real, prod: real)
    requires prod == a * b && 0.0 < a && 0.0 < b
    ensures 0.0 < prod
  {
  }

  /** A sample in [0,1) scales a non-negative width to at most that width,
      and strictly below it when the width is positive. */
  lemma ScaleWithin(s: real, w: real)
    requires 0.0 <= s < 1.0 && 0.0 <= w
    ensures 0.0 <= s * w <= w
    ensures 0.0 < w ==> s * w < w
  {
    MulNonNeg(s, w);
    MulNonNeg(1.0 - s, w);
    if 0.0 < w {
      MulPos(1.0 - s, w, (1.0 - s) * w);
    }
  }

  /** A square is never negative. */
  lemma SquareNonNeg(a: real, sq: real)
    requires sq == a * a
    ensures 0.0 <= sq
  {
  }

  /** The square of a non-zero number is positive. */
  lemma SquarePos(a: real, sq: real)
    requires sq == a * a && a != 0.0
    ensures 0.0 < sq
  {
    if a > 0.0 {
      MulPos(a, a, sq);
    } else {
      MulPos(-a, -a, sq);
    }
  }

  /** A sum of three squares is non-negative, and positive unless all three
      are zero. */
  lemma SumSquares(p: real, q: real, r: real, s: real)
    requires s == p * p + q * q + r * r
    ensures 0.0 <= s
    ensures p != 0.0 || q != 0.0 || r != 0.0 ==> 0.0 < s
  {
    var pp, qq, rr := p * p, q * q, r * r;
    SquareNonNeg(p, pp);
    SquareNonNeg(q, qq);
    SquareNonNeg(r, rr);
    if p != 0.0 {
      SquarePos(p, pp);
    } else if q != 0.0 {
      SquarePos(q, qq);
    } else if r != 0.0 {
      SquarePos(r, rr);
    }
  }
}
