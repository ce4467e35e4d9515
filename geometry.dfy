/** Plane geometry used by the SIP transforms: points and extents, 2x2 linear
    transforms and affine transforms, over exact real arithmetic. */
module Geometry {

  /** A point or an extent in the plane (the model does not distinguish the two). */
  datatype Point2 = Point2(x: real, y: real)

  function Plus(a: Point2, b: Point2): Point2 { Point2(a.x + b.x, a.y + b.y) }

  function Minus(a: Point2, b: Point2): Point2 { Point2(a.x - b.x, a.y - b.y) }

  function Negate(a: Point2): Point2 { Point2(-a.x, -a.y) }

  /** The matrix [[m00, m01], [m10, m11]]. */
  datatype LinearTransform = LinearTransform(m00: real, m01: real, m10: real, m11: real)

  const IdentityLinear := LinearTransform(1.0, 0.0, 0.0, 1.0)

  function Det(m: LinearTransform): real { m.m00 * m.m11 - m.m01 * m.m10 }

  function LinearApply(m: LinearTransform, p: Point2): Point2
  {
    Point2(m.m00 * p.x + m.m01 * p.y, m.m10 * p.x + m.m11 * p.y)
  }

  /** The inverse matrix; only defined for a non-singular matrix. */
  function Invert(m: LinearTransform): (r: LinearTransform)
    requires Det(m) != 0.0
    ensures Det(r) != 0.0
  {
    var k := 1.0 / Det(m);
    var r := LinearTransform(m.m11 * k, -m.m01 * k, -m.m10 * k, m.m00 * k);
    assert Det(r) == k * (k * Det(m));
    r
  }

  lemma InvertLeft(m: LinearTransform, p: Point2)
    requires Det(m) != 0.0
    ensures LinearApply(Invert(m), LinearApply(m, p)) == p
  {
    var k := 1.0 / Det(m);
    var q := LinearApply(m, p);
    assert q.x * m.m11 - q.y * m.m01 == Det(m) * p.x;
    assert q.y * m.m00 - q.x * m.m10 == Det(m) * p.y;
    assert LinearApply(Invert(m), q).x == k * (q.x * m.m11 - q.y * m.m01);
    assert LinearApply(Invert(m), q).y == k * (q.y * m.m00 - q.x * m.m10);
  }

  lemma InvertRight(m: LinearTransform, p: Point2)
    requires Det(m) != 0.0
    ensures LinearApply(m, LinearApply(Invert(m), p)) == p
  {
    var k := 1.0 / Det(m);
    var q := LinearApply(Invert(m), p);
    assert q.x == k * (m.m11 * p.x - m.m01 * p.y);
    assert q.y == k * (m.m00 * p.y - m.m10 * p.x);
    assert m.m00 * (m.m11 * p.x - m.m01 * p.y) + m.m01 * (m.m00 * p.y - m.m10 * p.x) == Det(m) * p.x;
    assert m.m10 * (m.m11 * p.x - m.m01 * p.y) + m.m11 * (m.m00 * p.y - m.m10 * p.x) == Det(m) * p.y;
    assert LinearApply(m, q).x == k * (Det(m) * p.x);
    assert LinearApply(m, q).y == k * (Det(m) * p.y);
  }

  /** x |-> linear(x) + translation. */
  datatype AffineTransform = AffineTransform(linear: LinearTransform, translation: Point2)

  function AffineApply(a: AffineTransform, p: Point2): Point2
  {
    Plus(LinearApply(a.linear, p), a.translation)
  }

  /** The affine transform with the given linear part and no translation. */
  function FromLinear(m: LinearTransform): AffineTransform
  {
    AffineTransform(m, Point2(0.0, 0.0))
  }

  /** The pure translation by the extent t. */
  function FromTranslation(t: Point2): AffineTransform
  {
    AffineTransform(IdentityLinear, t)
  }

  /** The product a * b of two affine transforms: apply b, then a. */
  function AffineProduct(a: AffineTransform, b: AffineTransform): (r: AffineTransform)
    ensures forall p :: AffineApply(r, p) == AffineApply(a, AffineApply(b, p))
  {
    var l := a.linear;
    var k := b.linear;
    AffineTransform(
      LinearTransform(
        l.m00 * k.m00 + l.m01 * k.m10, l.m00 * k.m01 + l.m01 * k.m11,
        l.m10 * k.m00 + l.m11 * k.m10, l.m10 * k.m01 + l.m11 * k.m11),
      AffineApply(a, b.translation))
  }
}
