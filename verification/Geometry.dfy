/**
 * Affine matrices over the reals and the conversion between client and element-local
 * coordinates. Rounding is not modelled.
 */
module Geometry {
  import opened Prelude

  datatype Point = Point(x: real, y: real)

  datatype Matrix = Matrix(a: real, b: real, c: real, d: real, e: real, f: real)

  const IDENTITY := Matrix(1.0, 0.0, 0.0, 1.0, 0.0, 0.0)

  const TOLERANCE := 0.000000000001

  function Add(p: Point, q: Point): Point {
    Point(p.x + q.x, p.y + q.y)
  }

  function Subtract(p: Point, q: Point): Point {
    Point(p.x - q.x, p.y - q.y)
  }

  function Multiply(m: Matrix, n: Matrix): Matrix {
    Matrix(m.a * n.a + m.c * n.b,
           m.b * n.a + m.d * n.b,
           m.a * n.c + m.c * n.d,
           m.b * n.c + m.d * n.d,
           m.a * n.e + m.c * n.f + m.e,
           m.b * n.e + m.d * n.f + m.f)
  }

  function ApplyToPoint(m: Matrix, p: Point): Point {
    Point(m.a * p.x + m.c * p.y + m.e, m.b * p.x + m.d * p.y + m.f)
  }

  function Determinant(m: Matrix): real {
    m.a * m.d - m.b * m.c
  }

  function Abs(x: real): real {
    if x < 0.0 then -x else x
  }

  function Invert(m: Matrix, tolerance: real): Option<Matrix>
    requires tolerance >= 0.0
  {
    var det := Determinant(m);
    if Abs(det) <= tolerance then None
    else
      var k := 1.0 / det;
      Some(Matrix(m.d * k, -m.b * k, -m.c * k, m.a * k, (m.c * m.f - m.d * m.e) * k, (m.b * m.e - m.a * m.f) * k))
  }

  // ---------------------------------------------------------------- algebra

  /** One row of a product, applied to a point, is the row applied to the applied point. */
  lemma RowOfProduct(p: real, q: real, r: real, a: real, b: real, c: real, d: real, e: real, f: real, x: real, y: real)
    ensures (p * a + q * b) * x + (p * c + q * d) * y + (p * e + q * f + r)
         == p * (a * x + c * y + e) + q * (b * x + d * y + f) + r
  {
    assert (p * a + q * b) * x == p * (a * x) + q * (b * x);
    assert (p * c + q * d) * y == p * (c * y) + q * (d * y);
    assert p * (a * x + c * y + e) == p * (a * x) + p * (c * y) + p * e;
    assert q * (b * x + d * y + f) == q * (b * x) + q * (d * y) + q * f;
  }

  lemma ApplyOfMultiplyX(m: Matrix, n: Matrix, p: Point)
    ensures ApplyToPoint(Multiply(m, n), p).x == ApplyToPoint(m, ApplyToPoint(n, p)).x
  {
    RowOfProduct(m.a, m.c, m.e, n.a, n.b, n.c, n.d, n.e, n.f, p.x, p.y);
  }

  lemma ApplyOfMultiplyY(m: Matrix, n: Matrix, p: Point)
    ensures ApplyToPoint(Multiply(m, n), p).y == ApplyToPoint(m, ApplyToPoint(n, p)).y
  {
    RowOfProduct(m.b, m.d, m.f, n.a, n.b, n.c, n.d, n.e, n.f, p.x, p.y);
  }

  /** The second matrix acts first. */
  lemma ApplyOfMultiply(m: Matrix, n: Matrix, p: Point)
    ensures ApplyToPoint(Multiply(m, n), p) == ApplyToPoint(m, ApplyToPoint(n, p))
  {
    ApplyOfMultiplyX(m, n, p);
    ApplyOfMultiplyY(m, n, p);
    hide *;
  }

  lemma ThreePoints(m: Matrix)
    ensures ApplyToPoint(m, Point(0.0, 0.0)) == Point(m.e, m.f)
    ensures ApplyToPoint(m, Point(1.0, 0.0)) == Point(m.a + m.e, m.b + m.f)
    ensures ApplyToPoint(m, Point(0.0, 1.0)) == Point(m.c + m.e, m.d + m.f)
  {
  }

  /** A matrix is determined by what it does to points. */
  lemma SameAction(m: Matrix, n: Matrix)
    requires forall p :: ApplyToPoint(m, p) == ApplyToPoint(n, p)
    ensures m == n
  {
    ThreePoints(m);
    ThreePoints(n);
    hide ApplyToPoint;
    assert ApplyToPoint(m, Point(0.0, 0.0)) == ApplyToPoint(n, Point(0.0, 0.0));
    assert ApplyToPoint(m, Point(1.0, 0.0)) == ApplyToPoint(n, Point(1.0, 0.0));
    assert ApplyToPoint(m, Point(0.0, 1.0)) == ApplyToPoint(n, Point(0.0, 1.0));
  }

  lemma MultiplyAssociative(m: Matrix, n: Matrix, o: Matrix)
    ensures Multiply(Multiply(m, n), o) == Multiply(m, Multiply(n, o))
  {
    forall p
      ensures ApplyToPoint(Multiply(Multiply(m, n), o), p) == ApplyToPoint(Multiply(m, Multiply(n, o)), p)
    {
      ApplyOfMultiply(Multiply(m, n), o, p);
      ApplyOfMultiply(m, n, ApplyToPoint(o, p));
      ApplyOfMultiply(m, Multiply(n, o), p);
      ApplyOfMultiply(n, o, p);
    }
    hide Multiply;
    SameAction(Multiply(Multiply(m, n), o), Multiply(m, Multiply(n, o)));
  }

  lemma IdentityIsNeutral(m: Matrix)
    ensures Multiply(m, IDENTITY) == m && Multiply(IDENTITY, m) == m
  {
  }

  lemma DeterminantOfMultiply(m: Matrix, n: Matrix)
    ensures Determinant(Multiply(m, n)) == Determinant(m) * Determinant(n)
  {
    var (a, b, c, d) := (m.a, m.b, m.c, m.d);
    var (p, q, r, s) := (n.a, n.b, n.c, n.d);
    assert (a * p + c * q) * (b * r + d * s) == a * p * (b * r) + a * p * (d * s) + c * q * (b * r) + c * q * (d * s);
    assert (b * p + d * q) * (a * r + c * s) == b * p * (a * r) + b * p * (c * s) + d * q * (a * r) + d * q * (c * s);
    assert (a * d - b * c) * (p * s - q * r) == a * d * (p * s) - a * d * (q * r) - b * c * (p * s) + b * c * (q * r);
    assert a * p * (b * r) == b * p * (a * r);
    assert c * q * (d * s) == d * q * (c * s);
    assert a * p * (d * s) == a * d * (p * s);
    assert c * q * (b * r) == b * c * (q * r);
    assert b * p * (c * s) == b * c * (p * s);
    assert d * q * (a * r) == a * d * (q * r);
  }

  // ---------------------------------------------------------------- inverses

  lemma InverseEntries(a: real, b: real, c: real, d: real, k: real)
    requires (a * d - b * c) * k == 1.0
    ensures a * (d * k) + c * (-b * k) == 1.0 && b * (-c * k) + d * (a * k) == 1.0
    ensures b * (d * k) + d * (-b * k) == 0.0 && a * (-c * k) + c * (a * k) == 0.0
  {
    assert a * (d * k) + c * (-b * k) == (a * d - b * c) * k;
    assert b * (-c * k) + d * (a * k) == (a * d - b * c) * k;
    assert b * (d * k) == d * (b * k) && d * (-b * k) == -(d * (b * k));
    assert a * (-c * k) == -(c * (a * k));
  }

  /** The fixed part of the inverse takes back the translation. */
  lemma InverseOffset(a: real, b: real, c: real, d: real, e: real, f: real, k: real)
    requires (a * d - b * c) * k == 1.0
    ensures a * ((c * f - d * e) * k) + c * ((b * e - a * f) * k) + e == 0.0
    ensures b * ((c * f - d * e) * k) + d * ((b * e - a * f) * k) + f == 0.0
  {
    var det := a * d - b * c;
    assert a * ((c * f - d * e) * k) == (a * (c * f) - a * (d * e)) * k;
    assert c * ((b * e - a * f) * k) == (c * (b * e) - c * (a * f)) * k;
    assert a * (c * f) == c * (a * f);
    assert a * (c * f) - a * (d * e) + (c * (b * e) - c * (a * f)) == -(det * e) by {
      assert det * e == a * (d * e) - c * (b * e);
    }
    assert (-(det * e)) * k == -(det * k) * e;
    assert b * ((c * f - d * e) * k) == (b * (c * f) - b * (d * e)) * k;
    assert d * ((b * e - a * f) * k) == (d * (b * e) - d * (a * f)) * k;
    assert b * (c * f) - b * (d * e) + (d * (b * e) - d * (a * f)) == -(det * f) by {
      assert det * f == d * (a * f) - b * (c * f);
      assert b * (d * e) == d * (b * e);
    }
    assert (-(det * f)) * k == -(det * k) * f;
  }

  lemma InverseIsRight(m: Matrix, tolerance: real)
    requires tolerance >= 0.0 && Invert(m, tolerance).Some?
    ensures Multiply(m, Invert(m, tolerance).value) == IDENTITY
  {
    var k := 1.0 / Determinant(m);
    InverseEntries(m.a, m.b, m.c, m.d, k);
    InverseOffset(m.a, m.b, m.c, m.d, m.e, m.f, k);
  }

  lemma InverseIsLeft(m: Matrix, tolerance: real)
    requires tolerance >= 0.0 && Invert(m, tolerance).Some?
    ensures Multiply(Invert(m, tolerance).value, m) == IDENTITY
  {
    var k := 1.0 / Determinant(m);
    var (a, b, c, d, e, f) := (m.a, m.b, m.c, m.d, m.e, m.f);
    assert d * k * a + -c * k * b == (a * d - b * c) * k;
    assert -b * k * c + a * k * d == (a * d - b * c) * k;
    assert -b * k * a + a * k * b == 0.0;
    assert d * k * c + -c * k * d == 0.0;
    assert d * k * e + -c * k * f == -((c * f - d * e) * k);
    assert -b * k * e + a * k * f == -((b * e - a * f) * k);
  }

  /** `Invert`, when it gives a matrix, gives the two-sided inverse, and there is only one. */
  lemma InvertIsTheInverse(m: Matrix, tolerance: real)
    requires tolerance >= 0.0 && Invert(m, tolerance).Some?
    ensures var inv := Invert(m, tolerance).value;
            && Multiply(m, inv) == IDENTITY && Multiply(inv, m) == IDENTITY
            && forall n :: Multiply(m, n) == IDENTITY ==> n == inv
  {
    var inv := Invert(m, tolerance).value;
    InverseIsRight(m, tolerance);
    InverseIsLeft(m, tolerance);
    forall n | Multiply(m, n) == IDENTITY
      ensures n == inv
    {
      MultiplyAssociative(inv, m, n);
      IdentityIsNeutral(n);
      IdentityIsNeutral(inv);
    }
  }

  lemma InverseExistsExactly(m: Matrix)
    ensures (exists n :: Multiply(m, n) == IDENTITY) <==> Determinant(m) != 0.0
  {
    if Determinant(m) != 0.0 {
      InverseIsRight(m, 0.0);
    }
    forall n | Multiply(m, n) == IDENTITY
      ensures Determinant(m) != 0.0
    {
      DeterminantOfMultiply(m, n);
      assert Determinant(IDENTITY) == 1.0;
      hide Determinant, Multiply;
      assert Determinant(m) * Determinant(n) == 1.0;
    }
  }

  /** `Invert` refuses a matrix that has an inverse exactly when the determinant is small but not zero. */
  lemma InvertRefusesExactly(m: Matrix, tolerance: real)
    requires tolerance >= 0.0
    ensures Invert(m, tolerance).None? && (exists n :: Multiply(m, n) == IDENTITY)
       <==> 0.0 < Abs(Determinant(m)) <= tolerance
  {
    InverseExistsExactly(m);
    hide Multiply, Determinant;
  }

  // ---------------------------------------------------------------- coordinates

  function ClientToLocal(clientPoint: Point, transform: Matrix, origin: Point): Option<Point> {
    match Invert(transform, TOLERANCE)
    case None => None
    case Some(inverse) => Some(Add(origin, ApplyToPoint(inverse, Subtract(clientPoint, origin))))
  }

  function LocalToClient(localPoint: Point, transform: Matrix, origin: Point): Point {
    Add(origin, ApplyToPoint(transform, Subtract(localPoint, origin)))
  }

  /** The two conversions undo each other, both ways, for every transform origin. */
  lemma CoordinateRoundTrip(p: Point, transform: Matrix, origin: Point)
    requires Invert(transform, TOLERANCE).Some?
    ensures ClientToLocal(LocalToClient(p, transform, origin), transform, origin) == Some(p)
    ensures ClientToLocal(p, transform, origin).Some?
    ensures LocalToClient(ClientToLocal(p, transform, origin).value, transform, origin) == p
  {
    hide Invert, Multiply;
    var inv := Invert(transform, TOLERANCE).value;
    var q := Subtract(p, origin);
    InvertIsTheInverse(transform, TOLERANCE);
    ApplyOfMultiply(inv, transform, q);
    ApplyOfMultiply(transform, inv, q);
    assert ApplyToPoint(IDENTITY, q) == q;
    assert Subtract(Add(origin, ApplyToPoint(transform, q)), origin) == ApplyToPoint(transform, q);
    assert Subtract(Add(origin, ApplyToPoint(inv, q)), origin) == ApplyToPoint(inv, q);
    assert Add(origin, q) == p;
  }

  /** Seen from the origin, the linear part acts on the point and the translation is added. */
  lemma LocalToClientExactly(p: Point, m: Matrix, origin: Point, q: Point)
    ensures LocalToClient(p, m, origin) == q <==>
              && q.x - origin.x == m.a * (p.x - origin.x) + m.c * (p.y - origin.y) + m.e
              && q.y - origin.y == m.b * (p.x - origin.x) + m.d * (p.y - origin.y) + m.f
  {
    var offset := Subtract(p, origin);
    assert offset == Point(p.x - origin.x, p.y - origin.y);
    var moved := ApplyToPoint(m, offset);
    assert moved == Point(m.a * (p.x - origin.x) + m.c * (p.y - origin.y) + m.e, m.b * (p.x - origin.x) + m.d * (p.y - origin.y) + m.f);
    assert LocalToClient(p, m, origin) == Add(origin, moved) by { hide ApplyToPoint; }
    hide ApplyToPoint, LocalToClient;
    assert Add(origin, moved) == q <==> q.x - origin.x == moved.x && q.y - origin.y == moved.y;
  }

  /** The way back is refused exactly for a determinant that is zero up to twelve places. */
  lemma ClientToLocalRefusesExactly(p: Point, m: Matrix, origin: Point)
    ensures ClientToLocal(p, m, origin) == None <==> -0.000000000001 <= m.a * m.d - m.b * m.c <= 0.000000000001
  {
    var det := Determinant(m);
    assert det == m.a * m.d - m.b * m.c;
    assert Invert(m, TOLERANCE).None? <==> Abs(det) <= TOLERANCE;
    hide Determinant, Invert;
  }
}
