/**
 Quaternions, rotation and gravity (helper_3dmath.h and the DMP helpers), with reals for floats.
 */
module Quaternion {
  datatype Quaternion = Quaternion(w: real, x: real, y: real, z: real)

  datatype Vector = Vector(x: real, y: real, z: real)

  /** `getProduct` */
  function Product(p: Quaternion, q: Quaternion): Quaternion {
    Quaternion(
      p.w * q.w - p.x * q.x - p.y * q.y - p.z * q.z,
      p.w * q.x + p.x * q.w + p.y * q.z - p.z * q.y,
      p.w * q.y - p.x * q.z + p.y * q.w + p.z * q.x,
      p.w * q.z + p.x * q.y - p.y * q.x + p.z * q.w)
  }

  /** `getConjugate` */
  function Conjugate(q: Quaternion): Quaternion {
    Quaternion(q.w, -q.x, -q.y, -q.z)
  }

  function Norm2(q: Quaternion): real {
    q.w * q.w + q.x * q.x + q.y * q.y + q.z * q.z
  }

  function Scaled(s: real, q: Quaternion): Quaternion {
    Quaternion(s * q.w, s * q.x, s * q.y, s * q.z)
  }

  function Pure(v: Vector): Quaternion {
    Quaternion(0.0, v.x, v.y, v.z)
  }

  function Dot(u: Vector, v: Vector): real {
    u.x * v.x + u.y * v.y + u.z * v.z
  }

  /** q p q*, the quaternion that `rotate` computes. */
  function Turned(v: Vector, q: Quaternion): Quaternion {
    Product(Product(q, Pure(v)), Conjugate(q))
  }

  /** What `rotate` keeps of it. */
  function Rotated(v: Vector, q: Quaternion): Vector {
    var p := Turned(v, q);
    Vector(p.x, p.y, p.z)
  }

  /** a is the product of p and q, coefficient by coefficient. */
  predicate IsProduct(a: Quaternion, p: Quaternion, q: Quaternion) {
    && a.w == p.w * q.w - p.x * q.x - p.y * q.y - p.z * q.z
    && a.x == p.w * q.x + p.x * q.w + p.y * q.z - p.z * q.y
    && a.y == p.w * q.y - p.x * q.z + p.y * q.w + p.z * q.x
    && a.z == p.w * q.z + p.x * q.y - p.y * q.x + p.z * q.w
  }

  function Times(a: real, b: real, c: real): real {
    a * b * c
  }

  lemma ExpandLeft(a: Quaternion, p: Quaternion, q: Quaternion, m: real)
    requires IsProduct(a, p, q)
    ensures a.w * m == Times(p.w, q.w, m) - Times(p.x, q.x, m) - Times(p.y, q.y, m) - Times(p.z, q.z, m)
    ensures a.x * m == Times(p.w, q.x, m) + Times(p.x, q.w, m) + Times(p.y, q.z, m) - Times(p.z, q.y, m)
    ensures a.y * m == Times(p.w, q.y, m) - Times(p.x, q.z, m) + Times(p.y, q.w, m) + Times(p.z, q.x, m)
    ensures a.z * m == Times(p.w, q.z, m) + Times(p.x, q.y, m) - Times(p.y, q.x, m) + Times(p.z, q.w, m)
  {
  }

  lemma ExpandRight(m: real, b: Quaternion, q: Quaternion, r: Quaternion)
    requires IsProduct(b, q, r)
    ensures m * b.w == Times(m, q.w, r.w) - Times(m, q.x, r.x) - Times(m, q.y, r.y) - Times(m, q.z, r.z)
    ensures m * b.x == Times(m, q.w, r.x) + Times(m, q.x, r.w) + Times(m, q.y, r.z) - Times(m, q.z, r.y)
    ensures m * b.y == Times(m, q.w, r.y) - Times(m, q.x, r.z) + Times(m, q.y, r.w) + Times(m, q.z, r.x)
    ensures m * b.z == Times(m, q.w, r.z) + Times(m, q.x, r.y) - Times(m, q.y, r.x) + Times(m, q.z, r.w)
  {
  }

  lemma Regroup(p: Quaternion, q: Quaternion, r: Quaternion, a: Quaternion, b: Quaternion)
    requires IsProduct(a, p, q) && IsProduct(b, q, r)
    ensures a.w * r.w - a.x * r.x - a.y * r.y - a.z * r.z == p.w * b.w - p.x * b.x - p.y * b.y - p.z * b.z
    ensures a.w * r.x + a.x * r.w + a.y * r.z - a.z * r.y == p.w * b.x + p.x * b.w + p.y * b.z - p.z * b.y
    ensures a.w * r.y - a.x * r.z + a.y * r.w + a.z * r.x == p.w * b.y - p.x * b.z + p.y * b.w + p.z * b.x
    ensures a.w * r.z + a.x * r.y - a.y * r.x + a.z * r.w == p.w * b.z + p.x * b.y - p.y * b.x + p.z * b.w
  {
    hide *;
    ExpandLeft(a, p, q, r.w);
    ExpandLeft(a, p, q, r.x);
    ExpandLeft(a, p, q, r.y);
    ExpandLeft(a, p, q, r.z);
    ExpandRight(p.w, b, q, r);
    ExpandRight(p.x, b, q, r);
    ExpandRight(p.y, b, q, r);
    ExpandRight(p.z, b, q, r);
  }

  lemma Coefficients(p: Quaternion, q: Quaternion)
    ensures IsProduct(Product(p, q), p, q)
  {
  }

  lemma Associative(p: Quaternion, q: Quaternion, r: Quaternion)
    ensures Product(Product(p, q), r) == Product(p, Product(q, r))
  {
    hide Product;
    var a, b := Product(p, q), Product(q, r);
    Coefficients(p, q);
    Coefficients(q, r);
    Coefficients(a, r);
    Coefficients(p, b);
    Regroup(p, q, r, a, b);
  }

  /** Right-handed: x cross y is z. */
  function Cross(u: Vector, v: Vector): Vector {
    Vector(u.y * v.z - u.z * v.y, u.z * v.x - u.x * v.z, u.x * v.y - u.y * v.x)
  }

  function VectorPart(q: Quaternion): Vector {
    Vector(q.x, q.y, q.z)
  }

  /** r is c beside the vector parts of p and q, each times the other's scalar part, and less their inner product. */
  predicate MadeOf(r: Quaternion, p: Quaternion, q: Quaternion, c: Vector) {
    && r.w == p.w * q.w - Dot(VectorPart(p), VectorPart(q))
    && r.x == p.w * q.x + q.w * p.x + c.x && r.y == p.w * q.y + q.w * p.y + c.y && r.z == p.w * q.z + q.w * p.z + c.z
  }

  lemma PartsOf(r: Quaternion, p: Quaternion, q: Quaternion, c: Vector)
    requires IsProduct(r, p, q) && c == Cross(VectorPart(p), VectorPart(q))
    ensures MadeOf(r, p, q, c)
  {
  }

  /** The product by its scalar and vector parts, which makes the rotations right-handed too. */
  lemma ProductByParts(p: Quaternion, q: Quaternion)
    ensures MadeOf(Product(p, q), p, q, Cross(VectorPart(p), VectorPart(q)))
  {
    hide *;
    Coefficients(p, q);
    PartsOf(Product(p, q), p, q, Cross(VectorPart(p), VectorPart(q)));
  }

  lemma ConjugateProduct(p: Quaternion, q: Quaternion, a: Quaternion, b: Quaternion)
    requires IsProduct(a, p, q) && IsProduct(b, Conjugate(q), Conjugate(p))
    ensures b.w == a.w && b.x == -a.x && b.y == -a.y && b.z == -a.z
  {
  }

  lemma ConjugateOfProduct(p: Quaternion, q: Quaternion)
    ensures Conjugate(Product(p, q)) == Product(Conjugate(q), Conjugate(p))
  {
    ConjugateProduct(p, q, Product(p, q), Product(Conjugate(q), Conjugate(p)));
    hide Product;
  }

  /** A conjugate undoes its quaternion up to the squared norm. */
  lemma ConjugateInverts(q: Quaternion)
    ensures Product(Conjugate(q), q) == Quaternion(Norm2(q), 0.0, 0.0, 0.0)
    ensures Product(q, Conjugate(q)) == Quaternion(Norm2(q), 0.0, 0.0, 0.0)
    ensures Norm2(Conjugate(q)) == Norm2(q) && Conjugate(Conjugate(q)) == q
  {
  }

  lemma ScalarProduct(s: real, q: Quaternion)
    ensures Product(Quaternion(s, 0.0, 0.0, 0.0), q) == Scaled(s, q) == Product(q, Quaternion(s, 0.0, 0.0, 0.0))
  {
  }

  /** Squared norms multiply. */
  lemma NormOfProduct(p: Quaternion, q: Quaternion)
    ensures Norm2(Product(p, q)) == Norm2(p) * Norm2(q)
  {
    var n := Quaternion(Norm2(q), 0.0, 0.0, 0.0);
    ConjugateInverts(Product(p, q));
    ConjugateInverts(p);
    ConjugateInverts(q);
    ConjugateOfProduct(p, q);
    Associative(Product(p, q), Conjugate(q), Conjugate(p));
    Associative(p, q, Conjugate(q));
    ScalarProduct(Norm2(q), p);
    ScaledProduct(Norm2(q), p, Conjugate(p));
    hide *;
  }

  lemma ScaledProduct(s: real, p: Quaternion, q: Quaternion)
    ensures Product(Scaled(s, p), q).w == s * Product(p, q).w
  {
    var n := Quaternion(s, 0.0, 0.0, 0.0);
    ScalarProduct(s, p);
    Associative(n, p, q);
    ScalarProduct(s, Product(p, q));
    hide Product;
  }

  /** Nothing is lost when the scalar part is dropped: it is zero, for every q. */
  lemma TurnedIsPure(v: Vector, q: Quaternion)
    ensures Turned(v, q).w == 0.0 && Turned(v, q) == Pure(Rotated(v, q))
  {
    var p := Product(q, Pure(v));
    assert Turned(v, q).w == p.w * q.w + p.x * q.x + p.y * q.y + p.z * q.z;
  }

  /** Rotation by q stretches squared lengths by the square of q's squared norm; by a unit quaternion it keeps them. */
  lemma RotateLength(v: Vector, q: Quaternion)
    ensures Dot(Rotated(v, q), Rotated(v, q)) == Norm2(q) * Norm2(q) * Dot(v, v)
    ensures Norm2(q) == 1.0 ==> Dot(Rotated(v, q), Rotated(v, q)) == Dot(v, v)
  {
    TurnedIsPure(v, q);
    NormOfProduct(q, Pure(v));
    NormOfProduct(Product(q, Pure(v)), Conjugate(q));
    ConjugateInverts(q);
    assert Norm2(Pure(v)) == Dot(v, v);
    assert Norm2(Pure(Rotated(v, q))) == Dot(Rotated(v, q), Rotated(v, q));
    assert Turned(v, q) == Product(Product(q, Pure(v)), Conjugate(q));
    hide *;
    var n, d := Norm2(q), Dot(v, v);
    assert n * d * n == n * n * d;
  }

  /** Rotating by p and then by q is rotating by q p. */
  lemma RotateTwice(v: Vector, p: Quaternion, q: Quaternion)
    ensures Rotated(Rotated(v, p), q) == Rotated(v, Product(q, p))
  {
    TurnedIsPure(v, p);
    ConjugateOfProduct(q, p);
    var a, pc, qc := Pure(v), Conjugate(p), Conjugate(q);
    Associative(q, Product(p, a), pc);
    Associative(q, p, a);
    Associative(Product(q, Product(p, a)), pc, qc);
    hide Product, Conjugate, Pure;
    assert Turned(v, Product(q, p)) == Product(Product(Product(q, p), a), Product(pc, qc));
    assert Turned(Rotated(v, p), q) == Product(Product(q, Product(Product(p, a), pc)), qc);
  }

  lemma RotateByScalar(v: Vector, s: real)
    ensures Rotated(v, Quaternion(s, 0.0, 0.0, 0.0)) == Vector(s * s * v.x, s * s * v.y, s * s * v.z)
  {
  }

  /** Main result: a rotation by a unit quaternion is undone by its conjugate, in either order. */
  lemma RotateBack(v: Vector, q: Quaternion)
    requires Norm2(q) == 1.0
    ensures Rotated(Rotated(v, q), Conjugate(q)) == v && Rotated(Rotated(v, Conjugate(q)), q) == v
  {
    ConjugateInverts(q);
    RotateTwice(v, q, Conjugate(q));
    RotateTwice(v, Conjugate(q), q);
    RotateByScalar(v, 1.0);
    hide *;
  }

  function Sum(u: Vector, v: Vector): Vector {
    Vector(u.x + v.x, u.y + v.y, u.z + v.z)
  }

  function Plus(p: Quaternion, q: Quaternion): Quaternion {
    Quaternion(p.w + q.w, p.x + q.x, p.y + q.y, p.z + q.z)
  }

  lemma SumOnRight(p: Quaternion, q: Quaternion, r: Quaternion)
    ensures Product(p, Plus(q, r)) == Plus(Product(p, q), Product(p, r))
  {
  }

  lemma SumOnLeft(p: Quaternion, q: Quaternion, r: Quaternion)
    ensures Product(Plus(p, q), r) == Plus(Product(p, r), Product(q, r))
  {
  }

  lemma RotateSum(u: Vector, v: Vector, q: Quaternion)
    ensures Rotated(Sum(u, v), q) == Sum(Rotated(u, q), Rotated(v, q))
  {
    var p, a, b := Product(q, Pure(Sum(u, v))), Product(q, Pure(u)), Product(q, Pure(v));
    SumOnRight(q, Pure(u), Pure(v));
    SumOnLeft(a, b, Conjugate(q));
    hide Product, Conjugate;
  }

  lemma DotOfSum(u: Vector, v: Vector)
    ensures Dot(Sum(u, v), Sum(u, v)) == Dot(u, u) + 2.0 * Dot(u, v) + Dot(v, v)
  {
  }

  /** A rotation by a unit quaternion keeps every inner product, and so every angle. */
  lemma RotateKeepsDot(u: Vector, v: Vector, q: Quaternion)
    requires Norm2(q) == 1.0
    ensures Dot(Rotated(u, q), Rotated(v, q)) == Dot(u, v)
  {
    RotateSum(u, v, q);
    RotateLength(u, q);
    RotateLength(v, q);
    RotateLength(Sum(u, v), q);
    DotOfSum(u, v);
    DotOfSum(Rotated(u, q), Rotated(v, q));
    hide *;
  }

  // ---------------------------------------------------------------- gravity

  /** `dmpGetGravity(VectorFloat*, Quaternion*)` */
  function Gravity(q: Quaternion): Vector {
    Vector(
      2.0 * (q.x * q.z - q.w * q.y),
      2.0 * (q.w * q.x + q.y * q.z),
      q.w * q.w - q.x * q.x - q.y * q.y + q.z * q.z)
  }

  const UP: Vector := Vector(0.0, 0.0, 1.0)

  /** Gravity is the world's vertical seen from the sensor. */
  lemma GravityIsRotated(q: Quaternion)
    ensures Gravity(q) == Rotated(UP, Conjugate(q))
  {
  }

  /** Main result: for a unit quaternion gravity is a unit vector, and the rotation by q makes it vertical. */
  lemma GravityIsVertical(q: Quaternion)
    requires Norm2(q) == 1.0
    ensures Dot(Gravity(q), Gravity(q)) == 1.0 && Rotated(Gravity(q), q) == UP
  {
    GravityIsRotated(q);
    RotateBack(UP, q);
    ConjugateInverts(q);
    RotateLength(UP, Conjugate(q));
    assert Dot(UP, UP) == 1.0;
  }

  // ---------------------------------------------------------------- the objects

  class VectorFloat {
    var x: real
    var y: real
    var z: real

    constructor (nx: real, ny: real, nz: real)
      ensures Value() == Vector(nx, ny, nz)
    {
      x, y, z := nx, ny, nz;
    }

    function Value(): Vector
      reads this
    {
      Vector(x, y, z)
    }

    /** `rotate` */
    method Rotate(q: Quaternion)
      modifies this
      ensures Value() == Rotated(old(Value()), q)
    {
      var p := Quaternion(0.0, x, y, z);
      p := Product(q, p);
      p := Product(p, Conjugate(q));
      x := p.x;
      y := p.y;
      z := p.z;
    }

    /** `normalize`; `magnitude` is what `getMagnitude` returns, the square root of the squared length. */
    method Normalize(magnitude: real)
      requires magnitude > 0.0 && magnitude * magnitude == Dot(Value(), Value())
      modifies this
      ensures Dot(Value(), Value()) == 1.0
      ensures old(Value()) == Vector(magnitude * x, magnitude * y, magnitude * z)
    {
      var m := 1.0 / magnitude;
      ghost var v := Value();
      x := x * m;
      y := y * m;
      z := z * m;
      UnitLength(v, magnitude, m);
    }

    static lemma Undo(a: real, b: real, c: real)
      requires b * c == 1.0
      ensures b * (a * c) == a
    {
      assert b * (a * c) == a * (b * c);
    }

    static lemma UnitLength(v: Vector, magnitude: real, m: real)
      requires magnitude > 0.0 && magnitude * magnitude == Dot(v, v) && m == 1.0 / magnitude
      ensures Dot(Vector(v.x * m, v.y * m, v.z * m), Vector(v.x * m, v.y * m, v.z * m)) == 1.0
      ensures v == Vector(magnitude * (v.x * m), magnitude * (v.y * m), magnitude * (v.z * m))
    {
      assert magnitude * m == 1.0;
      assert Dot(Vector(v.x * m, v.y * m, v.z * m), Vector(v.x * m, v.y * m, v.z * m)) == m * m * Dot(v, v);
      assert m * m * (magnitude * magnitude) == (magnitude * m) * (magnitude * m);
      Undo(v.x, magnitude, m);
      Undo(v.y, magnitude, m);
      Undo(v.z, magnitude, m);
    }
  }
}
