/**
 * The Ristretto255 group, abstracted: a point is the pair of its coefficients over the two
 * independent generators g and h, so that `Point(a, b)` stands for a·g + b·h. Group addition
 * and multiplication by a scalar act coefficient-wise modulo the group order L.
 */
module Points {
  import opened Scalars

  datatype Point = Point(gc: Scalar, hc: Scalar)

  const Identity: Point := Point(0, 0)

  /** The generator g, coefficient pair (1, 0). */
  const G: Point := Point(1, 0)

  /** The generator h, coefficient pair (0, 1). */
  const H: Point := Point(0, 1)

  function PAdd(p: Point, q: Point): Point
  {
    Point(Add(p.gc, q.gc), Add(p.hc, q.hc))
  }

  function PSub(p: Point, q: Point): Point
  {
    Point(Sub(p.gc, q.gc), Sub(p.hc, q.hc))
  }

  /** The point p·k. */
  function Scale(p: Point, k: Scalar): Point
  {
    Point(Mul(p.gc, k), Mul(p.hc, k))
  }

  /** p·a + p·b = p·(a + b). */
  lemma ScaleAdd(p: Point, a: Scalar, b: Scalar)
    ensures PAdd(Scale(p, a), Scale(p, b)) == Scale(p, Add(a, b))
  {
    MulComm(p.gc, a); MulComm(p.gc, b); MulComm(p.gc, Add(a, b));
    MulComm(p.hc, a); MulComm(p.hc, b); MulComm(p.hc, Add(a, b));
    MulDistrib(a, b, p.gc);
    MulDistrib(a, b, p.hc);
  }

  /** (p·a)·b = p·(a·b). */
  lemma ScaleScale(p: Point, a: Scalar, b: Scalar)
    ensures Scale(Scale(p, a), b) == Scale(p, Mul(a, b))
  {
    MulAssoc(p.gc, a, b);
    MulAssoc(p.hc, a, b);
  }

  lemma PAddAssoc(p: Point, q: Point, r: Point)
    ensures PAdd(PAdd(p, q), r) == PAdd(p, PAdd(q, r))
  {
  }

  /** a·g + b·h has coefficients (a, b): g and h are independent, so it is the identity only for a = b = 0. */
  lemma GeneratorsIndependent(a: Scalar, b: Scalar)
    ensures PAdd(Scale(G, a), Scale(H, b)) == Point(a, b)
    ensures PAdd(Scale(G, a), Scale(H, b)) == Identity <==> a == 0 && b == 0
  {
    MulOne(a); MulZero(a); MulOne(b); MulZero(b);
  }
}
