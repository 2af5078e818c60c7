/** A cyclic group of prime order, each element written as its discrete logarithm. */
module Group {
  import opened Arithmetic
  import opened Primes

  datatype Point = Point(log: nat)

  /** The curve: its order, and arbitrary functions for the x-coordinate and the recovery id of a point. */
  datatype Curve = Curve(q: pos, xOf: Point -> nat, recOf: Point -> nat) {
    ghost predicate Valid() { IsPrime(q) }

    /** `point_x_coord`: the x-coordinate reduced to a scalar. */
    function XCoord(p: Point): nat { xOf(p) % q }
  }

  const IDENTITY := Point(0)

  function MulG(s: int, q: pos): Point {
    Point(s % q)
  }

  function AddPoints(a: Point, b: Point, q: pos): Point {
    Point((a.log + b.log) % q)
  }

  function MulPoint(a: Point, s: int, q: pos): Point {
    Point((a.log * s) % q)
  }

  lemma MulPointOfG(s: int, t: int, q: pos)
    ensures MulPoint(MulG(s, q), t, q) == MulG(s * t, q)
  {
    MulMod(s, t, q);
  }

  lemma AddPointsOfG(s: int, t: int, q: pos)
    ensures AddPoints(MulG(s, q), MulG(t, q), q) == MulG(s + t, q)
  {
    AddMod(s, t, q);
  }
}
