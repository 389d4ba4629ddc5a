/**
 Kyber points and the group they form.  The laws are hypotheses: every theorem holds for any
 abelian group.  Each law is stated through a predicate, so that it is used only where a proof names it.
 */
module Group {

  /** kyber.Point */
  type Point(==, 0, !new)

  datatype Abelian = Abelian(zero: Point, add: (Point, Point) -> Point, neg: Point -> Point)
  {
    ghost predicate Commutes(a: Point, b: Point) { add(a, b) == add(b, a) }

    ghost predicate Associates(a: Point, b: Point, c: Point) { add(add(a, b), c) == add(a, add(b, c)) }

    ghost predicate Unit(a: Point) { add(a, zero) == a }

    ghost predicate Cancels(a: Point) { add(a, neg(a)) == zero }

    ghost predicate Laws() {
      && (forall a, b :: Commutes(a, b))
      && (forall a, b, c :: Associates(a, b, c))
      && (forall a :: Unit(a))
      && (forall a :: Cancels(a))
    }

    /** Adding up a list, as the CoSi structs and Verify do. */
    function Sum(s: seq<Point>): Point {
      if s == [] then zero else add(Sum(s[..|s| - 1]), s[|s| - 1])
    }
  }
}
