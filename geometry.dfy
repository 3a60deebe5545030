/**
 * The geometric predicates of src/utils.rs: ray/plane intersection,
 * barycentric coordinates, and the ray/triangle and ray/square tests.
 * Coordinates are exact reals; glam's `Mat3A::inverse` is replaced by the
 * closed-form adjugate inverse of module Linear.
 */
module Geometry {
  import opened Options
  import opened Vectors
  import opened Numeric
  import opened Linear

  // ----- small vector facts -----

  lemma DotSymmetric(a: V3, b: V3)
    ensures Dot(a, b) == Dot(b, a)
  {
  }

  lemma DotZero(a: V3)
    ensures Dot(a, Zero) == 0.0
  {
  }

  /** (x - c)·n splits at any intermediate point a. */
  lemma DotSubSplit(x: V3, a: V3, c: V3, n: V3)
    ensures Dot(Sub(x, c), n) == Dot(Sub(x, a), n) + Dot(Sub(a, c), n)
  {
    assert (x.x - c.x) * n.x == (x.x - a.x) * n.x + (a.x - c.x) * n.x;
    assert (x.y - c.y) * n.y == (x.y - a.y) * n.y + (a.y - c.y) * n.y;
    assert (x.z - c.z) * n.z == (x.z - a.z) * n.z + (a.z - c.z) * n.z;
  }

  function Square(a: real): real { a * a }

  lemma SquareNonNegative(a: real)
    ensures Square(a) >= 0.0
  {
  }

  lemma SquareNonZero(a: real)
    requires a != 0.0
    ensures Square(a) != 0.0
  {
    var inverse := 1.0 / a;
    assert inverse * a == 1.0;
    assert Square(a) * inverse == a;
  }

  /** A nonzero vector has a positive squared length. */
  lemma SquaredNormPositive(v: V3)
    requires v != Zero
    ensures Dot(v, v) > 0.0
  {
    SquareNonNegative(v.x);
    SquareNonNegative(v.y);
    SquareNonNegative(v.z);
    assert Dot(v, v) == Square(v.x) + Square(v.y) + Square(v.z);
    if v.x != 0.0 {
      SquareNonZero(v.x);
    } else if v.y != 0.0 {
      SquareNonZero(v.y);
    } else {
      SquareNonZero(v.z);
    }
  }

  // ----- intersect_plane -----

  /**
   * Ray/plane intersection: None exactly when the ray is parallel to the
   * plane; otherwise a point that lies both on the plane and on the ray's line.
   */
  function IntersectPlane(point: V3, normal: V3, rayOrigin: V3, rayDirection: V3): (r: Option<V3>)
    ensures r.None? <==> Dot(rayDirection, normal) == 0.0
    ensures r.Some? ==> Dot(Sub(r.value, point), normal) == 0.0
    ensures r.Some? ==> Cross(Sub(r.value, rayOrigin), rayDirection) == Zero
  {
    var denom := Dot(rayDirection, normal);
    if denom == 0.0 then None
    else
      var t := Dot(Sub(point, rayOrigin), normal) / denom;
      var x := Add(rayOrigin, Scale(t, rayDirection));
      PlanePointOnPlane(point, normal, rayOrigin, rayDirection, t);
      PlanePointOnRay(rayOrigin, rayDirection, t);
      Some(x)
  }

  lemma PlanePointOnPlane(point: V3, normal: V3, rayOrigin: V3, rayDirection: V3, t: real)
    requires Dot(rayDirection, normal) != 0.0
    requires t == Dot(Sub(point, rayOrigin), normal) / Dot(rayDirection, normal)
    ensures Dot(Sub(Add(rayOrigin, Scale(t, rayDirection)), point), normal) == 0.0
  {
    var x := Add(rayOrigin, Scale(t, rayDirection));
    assert t * Dot(rayDirection, normal) == Dot(Sub(point, rayOrigin), normal);
    assert Dot(Scale(t, rayDirection), normal) == t * Dot(rayDirection, normal);
    assert Dot(Sub(x, point), normal) == Dot(Scale(t, rayDirection), normal) - Dot(Sub(point, rayOrigin), normal);
  }

  lemma PlanePointOnRay(rayOrigin: V3, rayDirection: V3, t: real)
    ensures Cross(Sub(Add(rayOrigin, Scale(t, rayDirection)), rayOrigin), rayDirection) == Zero
  {
    var d := rayDirection;
    assert Sub(Add(rayOrigin, Scale(t, d)), rayOrigin) == Scale(t, d);
    assert (t * d.y) * d.z == (t * d.z) * d.y;
    assert (t * d.z) * d.x == (t * d.x) * d.z;
    assert (t * d.x) * d.y == (t * d.y) * d.x;
  }

  /** Conversely, any point of the ray's line on a non-parallel plane is the point IntersectPlane returns. */
  lemma PlaneHitUnique(point: V3, normal: V3, rayOrigin: V3, rayDirection: V3, s: real)
    requires Dot(rayDirection, normal) != 0.0
    requires Dot(Sub(Add(rayOrigin, Scale(s, rayDirection)), point), normal) == 0.0
    ensures IntersectPlane(point, normal, rayOrigin, rayDirection) == Some(Add(rayOrigin, Scale(s, rayDirection)))
  {
    var denom := Dot(rayDirection, normal);
    var x := Add(rayOrigin, Scale(s, rayDirection));
    assert Dot(Scale(s, rayDirection), normal) == s * denom;
    assert Dot(Sub(x, point), normal) == Dot(Scale(s, rayDirection), normal) - Dot(Sub(point, rayOrigin), normal);
    assert s == Dot(Sub(point, rayOrigin), normal) / denom;
  }

  /** The scenario of tests/utils.rs: a vertical ray onto the plane z = 0. */
  lemma PlaneScenario()
    ensures IntersectPlane(V3(0.0, 0.0, 0.0), V3(0.0, 0.0, 1.0), V3(1.0, 1.0, 1.0), V3(0.0, 0.0, -1.0))
            == Some(V3(1.0, 1.0, 0.0))
  {
  }

  // ----- barycentric_coordinates -----

  /** Third column of the barycentric system: (a - c) × (b - c). */
  function BasisNormal(a: V3, b: V3, c: V3): V3 { Cross(Sub(a, c), Sub(b, c)) }

  /** Determinant of the barycentric system with columns a - c, b - c, (a - c) × (b - c). */
  function BasisDet(a: V3, b: V3, c: V3): real { Det(Sub(a, c), Sub(b, c), BasisNormal(a, b, c)) }

  /**
   * The coordinates (u, v) of target relative to a, b, c: for some w,
   * target - c = u (a - c) + v (b - c) + w ((a - c) × (b - c)).
   */
  function BarycentricCoordinates(target: V3, a: V3, b: V3, c: V3): (uv: (real, real))
    requires BasisDet(a, b, c) != 0.0
    ensures exists w: real :: Sub(target, c) == Apply(Sub(a, c), Sub(b, c), BasisNormal(a, b, c), V3(uv.0, uv.1, w))
  {
    var s := Solve(Sub(a, c), Sub(b, c), BasisNormal(a, b, c), Sub(target, c));
    assert V3(s.x, s.y, s.z) == s;
    (s.x, s.y)
  }

  /** The coordinates are unique: any (u, v, w) solving the system is what BarycentricCoordinates returns. */
  lemma BarycentricUnique(target: V3, a: V3, b: V3, c: V3, u: real, v: real, w: real)
    requires BasisDet(a, b, c) != 0.0
    requires Sub(target, c) == Apply(Sub(a, c), Sub(b, c), BasisNormal(a, b, c), V3(u, v, w))
    ensures BarycentricCoordinates(target, a, b, c) == (u, v)
  {
    SolveApply(Sub(a, c), Sub(b, c), BasisNormal(a, b, c), V3(u, v, w));
  }

  /** The determinant of the barycentric system is the squared length of its normal column. */
  lemma BasisDetIsSquaredNorm(a: V3, b: V3, c: V3)
    ensures BasisDet(a, b, c) == Dot(BasisNormal(a, b, c), BasisNormal(a, b, c))
  {
    TripleCyclic(Sub(a, c), Sub(b, c), BasisNormal(a, b, c));
  }

  /** For a target in the plane of a, b, c, the out-of-plane coordinate w is 0. */
  lemma InPlaneCoordinate(target: V3, a: V3, b: V3, c: V3, s: V3)
    requires BasisNormal(a, b, c) != Zero
    requires Dot(Sub(target, c), BasisNormal(a, b, c)) == 0.0
    requires Sub(target, c) == Apply(Sub(a, c), Sub(b, c), BasisNormal(a, b, c), s)
    ensures s.z == 0.0
  {
    var n := BasisNormal(a, b, c);
    CrossOrthogonal(Sub(a, c), Sub(b, c));
    DotApply(n, Sub(a, c), Sub(b, c), n, s);
    DotSymmetric(n, Sub(a, c));
    DotSymmetric(n, Sub(b, c));
    DotSymmetric(n, Sub(target, c));
    SquaredNormPositive(n);
    assert s.z * Dot(n, n) == 0.0;
  }

  // ----- intersect_triangle -----

  /** Face normal of a triangle as src/utils.rs computes it: (P2 - P1) × (P3 - P1). */
  function TriangleNormal(p1: V3, p2: V3, p3: V3): V3 { Cross(Sub(p2, p1), Sub(p3, p1)) }

  lemma CrossSubScalar(a0: real, a1: real, b0: real, b1: real, c0: real, c1: real)
    ensures (a0 - c0) * (b1 - c1) - (a1 - c1) * (b0 - c0) == (b0 - a0) * (c1 - a1) - (b1 - a1) * (c0 - a0)
  {
  }

  /** The normal of the barycentric system taken at P3 is the face normal. */
  lemma BasisNormalIsTriangleNormal(p1: V3, p2: V3, p3: V3)
    ensures BasisNormal(p1, p2, p3) == TriangleNormal(p1, p2, p3)
  {
    CrossSubScalar(p1.y, p1.z, p2.y, p2.z, p3.y, p3.z);
    CrossSubScalar(p1.z, p1.x, p2.z, p2.x, p3.z, p3.x);
    CrossSubScalar(p1.x, p1.y, p2.x, p2.y, p3.x, p3.y);
  }

  /** When the ray is not parallel to the face, the barycentric system is solvable. */
  lemma NonParallelSolvable(p1: V3, p2: V3, p3: V3, rayDirection: V3)
    requires Dot(rayDirection, TriangleNormal(p1, p2, p3)) != 0.0
    ensures BasisNormal(p1, p2, p3) != Zero
    ensures BasisDet(p1, p2, p3) > 0.0
  {
    BasisNormalIsTriangleNormal(p1, p2, p3);
    DotZero(rayDirection);
    BasisDetIsSquaredNorm(p1, p2, p3);
    SquaredNormPositive(BasisNormal(p1, p2, p3));
  }

  /** The containment test of src/utils.rs, in the source's order of conjuncts. */
  predicate InUnitTriangle(u: real, v: real)
  {
    u + v <= 1.0 && 0.0 <= u && u <= 1.0 && 0.0 <= v && v <= 1.0
  }

  /** The affine combination u a + v b + (1 - u - v) c. */
  function Affine(u: real, v: real, a: V3, b: V3, c: V3): V3
  {
    Add(Add(Scale(u, a), Scale(v, b)), Scale(1.0 - u - v, c))
  }

  /** p is a convex combination of the three vertices. */
  ghost predicate InTriangle(p: V3, a: V3, b: V3, c: V3)
  {
    exists u: real, v: real :: 0.0 <= u && 0.0 <= v && u + v <= 1.0 && p == Affine(u, v, a, b, c)
  }

  /** With a zero third coordinate the system reads off the affine combination, whatever its third column. */
  lemma ApplyInPlane(a: V3, b: V3, c: V3, n: V3, u: real, v: real)
    ensures Apply(Sub(a, c), Sub(b, c), n, V3(u, v, 0.0)) == Sub(Affine(u, v, a, b, c), c)
  {
    InPlaneScalar(a.x, b.x, c.x, n.x, u, v);
    InPlaneScalar(a.y, b.y, c.y, n.y, u, v);
    InPlaneScalar(a.z, b.z, c.z, n.z, u, v);
  }

  lemma InPlaneScalar(a: real, b: real, c: real, n: real, u: real, v: real)
    ensures u * (a - c) + v * (b - c) + 0.0 * n == u * a + v * b + (1.0 - u - v) * c - c
  {
  }

  /** In-plane barycentric coordinates (u, v, 0) describe exactly the point Affine(u, v, a, b, c). */
  lemma AffineAsSystem(p: V3, a: V3, b: V3, c: V3, u: real, v: real)
    ensures Sub(p, c) == Apply(Sub(a, c), Sub(b, c), BasisNormal(a, b, c), V3(u, v, 0.0)) <==> p == Affine(u, v, a, b, c)
  {
    ApplyInPlane(a, b, c, BasisNormal(a, b, c), u, v);
  }

  /** Ray/triangle intersection: the plane point, kept only when its (u, v) lie in the unit triangle. */
  function IntersectTriangle(p1: V3, p2: V3, p3: V3, rayOrigin: V3, rayDirection: V3): (r: Option<V3>)
    ensures r.Some? ==> r == IntersectPlane(p1, TriangleNormal(p1, p2, p3), rayOrigin, rayDirection)
    ensures IntersectPlane(p1, TriangleNormal(p1, p2, p3), rayOrigin, rayDirection).None? ==> r.None?
  {
    var normal := TriangleNormal(p1, p2, p3);
    match IntersectPlane(p1, normal, rayOrigin, rayDirection)
    case None => None
    case Some(x) =>
      NonParallelSolvable(p1, p2, p3, rayDirection);
      var uv := BarycentricCoordinates(x, p1, p2, p3);
      if InUnitTriangle(uv.0, uv.1) then Some(x) else None
  }

  /** A plane hit of a face lies in the plane through P3 with the barycentric normal. */
  lemma HitInBasisPlane(p1: V3, p2: V3, p3: V3, x: V3)
    requires Dot(Sub(x, p1), TriangleNormal(p1, p2, p3)) == 0.0
    ensures Dot(Sub(x, p3), BasisNormal(p1, p2, p3)) == 0.0
  {
    var n := BasisNormal(p1, p2, p3);
    BasisNormalIsTriangleNormal(p1, p2, p3);
    DotSubSplit(x, p1, p3, n);
    CrossOrthogonal(Sub(p1, p3), Sub(p2, p3));
    DotSymmetric(n, Sub(p1, p3));
  }

  /**
   * The triangle test is exact: it returns a point if and only if the ray
   * meets the face's plane at a convex combination of the three vertices.
   */
  lemma TriangleContainment(p1: V3, p2: V3, p3: V3, rayOrigin: V3, rayDirection: V3)
    ensures var plane := IntersectPlane(p1, TriangleNormal(p1, p2, p3), rayOrigin, rayDirection);
            IntersectTriangle(p1, p2, p3, rayOrigin, rayDirection).Some? <==>
            (plane.Some? && InTriangle(plane.value, p1, p2, p3))
  {
    var plane := IntersectPlane(p1, TriangleNormal(p1, p2, p3), rayOrigin, rayDirection);
    if plane.Some? {
      var x := plane.value;
      NonParallelSolvable(p1, p2, p3, rayDirection);
      HitInBasisPlane(p1, p2, p3, x);
      var uv := BarycentricCoordinates(x, p1, p2, p3);
      var w :| Sub(x, p3) == Apply(Sub(p1, p3), Sub(p2, p3), BasisNormal(p1, p2, p3), V3(uv.0, uv.1, w));
      InPlaneCoordinate(x, p1, p2, p3, V3(uv.0, uv.1, w));
      AffineAsSystem(x, p1, p2, p3, uv.0, uv.1);
      if InTriangle(x, p1, p2, p3) {
        var u, v :| 0.0 <= u && 0.0 <= v && u + v <= 1.0 && x == Affine(u, v, p1, p2, p3);
        AffineAsSystem(x, p1, p2, p3, u, v);
        BarycentricUnique(x, p1, p2, p3, u, v, 0.0);
      }
    }
  }

  /** The facts that pin down one accepted ray/triangle hit x = origin + t * direction. */
  predicate TriangleHitWitness(p1: V3, p2: V3, p3: V3, rayOrigin: V3, rayDirection: V3,
                               n: V3, x: V3, t: real, u: real, v: real)
  {
    && n == TriangleNormal(p1, p2, p3)
    && x == Add(rayOrigin, Scale(t, rayDirection))
    && Dot(rayDirection, n) != 0.0
    && Dot(Sub(x, p1), n) == 0.0
    && Sub(x, p3) == Apply(Sub(p1, p3), Sub(p2, p3), n, V3(u, v, 0.0))
    && InUnitTriangle(u, v)
  }

  /**
   * A point of the ray on the face's plane whose coordinates (u, v) lie in the
   * unit triangle is exactly what the triangle test returns.
   */
  lemma TriangleAccepts(p1: V3, p2: V3, p3: V3, rayOrigin: V3, rayDirection: V3,
                        n: V3, x: V3, t: real, u: real, v: real)
    requires TriangleHitWitness(p1, p2, p3, rayOrigin, rayDirection, n, x, t, u, v)
    ensures IntersectTriangle(p1, p2, p3, rayOrigin, rayDirection) == Some(x)
  {
    PlaneHitUnique(p1, n, rayOrigin, rayDirection, t);
    BasisNormalIsTriangleNormal(p1, p2, p3);
    NonParallelSolvable(p1, p2, p3, rayDirection);
    BarycentricUnique(x, p1, p2, p3, u, v, 0.0);
  }

  // The triangle scenario of tests/utils.rs, computed in small steps:
  // (1, 1, 0) = (59/78) (-2, -1, 0) + (3/13) (11, 7, 0) + (1/78) (-2, 11, 0).

  lemma ScenarioCoordinates() returns (u: real, v: real)
    ensures 78.0 * u == 59.0 && 13.0 * v == 3.0
    ensures InUnitTriangle(u, v)
  {
    u, v := 59.0 / 78.0, 3.0 / 13.0;
  }

  lemma ScenarioNormal()
    ensures TriangleNormal(V3(-2.0, -1.0, 0.0), V3(11.0, 7.0, 0.0), V3(-2.0, 11.0, 0.0)) == V3(0.0, 0.0, 156.0)
  {
    ScenarioEdgeA();
    ScenarioEdgeB();
    ScenarioCross();
  }

  lemma ScenarioEdgeA()
    ensures Sub(V3(11.0, 7.0, 0.0), V3(-2.0, -1.0, 0.0)) == V3(13.0, 8.0, 0.0)
  {
  }

  lemma ScenarioEdgeB()
    ensures Sub(V3(-2.0, 11.0, 0.0), V3(-2.0, -1.0, 0.0)) == V3(0.0, 12.0, 0.0)
  {
  }

  lemma ScenarioCross()
    ensures Cross(V3(13.0, 8.0, 0.0), V3(0.0, 12.0, 0.0)) == V3(0.0, 0.0, 156.0)
  {
  }

  lemma ScenarioPlane()
    ensures V3(1.0, 1.0, 0.0) == Add(V3(1.0, 1.0, 1.0), Scale(1.0, V3(0.0, 0.0, -1.0)))
    ensures Dot(V3(0.0, 0.0, -1.0), V3(0.0, 0.0, 156.0)) != 0.0
    ensures Dot(Sub(V3(1.0, 1.0, 0.0), V3(-2.0, -1.0, 0.0)), V3(0.0, 0.0, 156.0)) == 0.0
  {
  }

  lemma ScenarioSystem(u: real, v: real)
    requires 78.0 * u == 59.0 && 13.0 * v == 3.0
    ensures Sub(V3(1.0, 1.0, 0.0), V3(-2.0, 11.0, 0.0)) ==
            Apply(Sub(V3(-2.0, -1.0, 0.0), V3(-2.0, 11.0, 0.0)), Sub(V3(11.0, 7.0, 0.0), V3(-2.0, 11.0, 0.0)),
                  V3(0.0, 0.0, 156.0), V3(u, v, 0.0))
  {
    ApplyRows(V3(0.0, -12.0, 0.0), V3(13.0, -4.0, 0.0), V3(0.0, 0.0, 156.0), V3(u, v, 0.0));
  }

  lemma ScenarioWitness() returns (u: real, v: real)
    ensures TriangleHitWitness(V3(-2.0, -1.0, 0.0), V3(11.0, 7.0, 0.0), V3(-2.0, 11.0, 0.0),
                               V3(1.0, 1.0, 1.0), V3(0.0, 0.0, -1.0),
                               V3(0.0, 0.0, 156.0), V3(1.0, 1.0, 0.0), 1.0, u, v)
  {
    u, v := ScenarioCoordinates();
    ScenarioNormal();
    ScenarioPlane();
    ScenarioSystem(u, v);
  }

  /** The scenario of tests/utils.rs: a vertical ray through (1, 1) hits the triangle in z = 0. */
  lemma TriangleScenario()
    ensures IntersectTriangle(V3(-2.0, -1.0, 0.0), V3(11.0, 7.0, 0.0), V3(-2.0, 11.0, 0.0),
                              V3(1.0, 1.0, 1.0), V3(0.0, 0.0, -1.0)) == Some(V3(1.0, 1.0, 0.0))
  {
    var u, v := ScenarioWitness();
    TriangleAccepts(V3(-2.0, -1.0, 0.0), V3(11.0, 7.0, 0.0), V3(-2.0, 11.0, 0.0),
                    V3(1.0, 1.0, 1.0), V3(0.0, 0.0, -1.0), V3(0.0, 0.0, 156.0), V3(1.0, 1.0, 0.0), 1.0, u, v);
  }

  // ----- the triangle test does not depend on which vertex comes first -----

  lemma EdgeCrossScalar(a0: real, a1: real, b0: real, b1: real, c0: real, c1: real)
    ensures (c0 - b0) * (a1 - b1) - (c1 - b1) * (a0 - b0) == (b0 - a0) * (c1 - a1) - (b1 - a1) * (c0 - a0)
  {
  }

  /** Rotating the vertices keeps the face normal. */
  lemma TriangleNormalRotate(p1: V3, p2: V3, p3: V3)
    ensures TriangleNormal(p2, p3, p1) == TriangleNormal(p1, p2, p3)
  {
    EdgeCrossScalar(p1.y, p1.z, p2.y, p2.z, p3.y, p3.z);
    EdgeCrossScalar(p1.z, p1.x, p2.z, p2.x, p3.z, p3.x);
    EdgeCrossScalar(p1.x, p1.y, p2.x, p2.y, p3.x, p3.y);
  }

  /** Two points of the same plane give the same ray/plane intersection. */
  lemma PlaneAnyPoint(p: V3, q: V3, normal: V3, rayOrigin: V3, rayDirection: V3)
    requires Dot(Sub(q, p), normal) == 0.0
    ensures IntersectPlane(p, normal, rayOrigin, rayDirection) == IntersectPlane(q, normal, rayOrigin, rayDirection)
  {
    var denom := Dot(rayDirection, normal);
    if denom != 0.0 {
      var t := Dot(Sub(p, rayOrigin), normal) / denom;
      var x := Add(rayOrigin, Scale(t, rayDirection));
      assert IntersectPlane(p, normal, rayOrigin, rayDirection) == Some(x);
      DotSubSplit(x, p, q, normal);
      DotSubSplit(q, p, q, normal);
      assert Dot(Sub(q, q), normal) == 0.0;
      assert Dot(Sub(p, q), normal) == 0.0;
      PlaneHitUnique(q, normal, rayOrigin, rayDirection, t);
    }
  }

  lemma AffineRotateScalar(u: real, v: real, a: real, b: real, c: real)
    ensures u * a + v * b + (1.0 - u - v) * c == v * b + (1.0 - v - (1.0 - u - v)) * a + (1.0 - u - v) * c
  {
  }

  /** u a + v b + (1 - u - v) c, with the vertices rotated to b, c, a. */
  lemma AffineRotate(u: real, v: real, a: V3, b: V3, c: V3)
    ensures Affine(u, v, a, b, c) == Affine(v, 1.0 - u - v, b, c, a)
  {
    AffineRotateScalar(u, v, a.x, b.x, c.x);
    AffineRotateScalar(u, v, a.y, b.y, c.y);
    AffineRotateScalar(u, v, a.z, b.z, c.z);
  }

  lemma InTriangleRotate(x: V3, a: V3, b: V3, c: V3)
    requires InTriangle(x, a, b, c)
    ensures InTriangle(x, b, c, a)
  {
    var u, v :| 0.0 <= u && 0.0 <= v && u + v <= 1.0 && x == Affine(u, v, a, b, c);
    AffineRotate(u, v, a, b, c);
    assert 0.0 <= v && 0.0 <= 1.0 - u - v && v + (1.0 - u - v) <= 1.0 && x == Affine(v, 1.0 - u - v, b, c, a);
  }

  /**
   * The triangle test gives the same answer for the vertex orders P1 P2 P3
   * and P2 P3 P1 (and so, applied twice, for P3 P1 P2).
   */
  lemma TriangleRotation(p1: V3, p2: V3, p3: V3, rayOrigin: V3, rayDirection: V3)
    ensures IntersectTriangle(p2, p3, p1, rayOrigin, rayDirection) == IntersectTriangle(p1, p2, p3, rayOrigin, rayDirection)
  {
    var n := TriangleNormal(p1, p2, p3);
    TriangleNormalRotate(p1, p2, p3);
    CrossOrthogonal(Sub(p2, p1), Sub(p3, p1));
    DotSymmetric(n, Sub(p2, p1));
    PlaneAnyPoint(p1, p2, n, rayOrigin, rayDirection);
    var plane := IntersectPlane(p1, n, rayOrigin, rayDirection);
    TriangleContainment(p1, p2, p3, rayOrigin, rayDirection);
    TriangleContainment(p2, p3, p1, rayOrigin, rayDirection);
    if plane.Some? {
      var x := plane.value;
      if InTriangle(x, p1, p2, p3) {
        InTriangleRotate(x, p1, p2, p3);
      }
      if InTriangle(x, p2, p3, p1) {
        InTriangleRotate(x, p2, p3, p1);
        InTriangleRotate(x, p3, p1, p2);
      }
    }
  }

  // ----- intersect_square -----

  /** The centre of the quadrilateral: a quarter of the sum of its corners. */
  function QuadCenter(p1: V3, p2: V3, p3: V3, p4: V3): V3
  {
    Scale(0.25, Add(Add(Add(p1, p2), p3), p4))
  }

  /**
   * x lies in the "diamond" of the basis {a - c, b - c}: its first two
   * coordinates in the barycentric system satisfy |u| + |v| <= 1.
   */
  ghost predicate InDiamond(x: V3, a: V3, b: V3, c: V3)
  {
    BasisDet(a, b, c) != 0.0 &&
    exists u: real, v: real, w: real :: Abs(u) + Abs(v) <= 1.0 &&
      Sub(x, c) == Apply(Sub(a, c), Sub(b, c), BasisNormal(a, b, c), V3(u, v, w))
  }

  /**
   * Ray/square intersection: the plane through P1 with the normal of P1, P2, P3,
   * and the diamond test |u| + |v| <= 1 in the basis {P1 - center, P2 - center}.
   * When that basis is degenerate, glam's inverse yields non-finite coordinates,
   * every comparison on them is false, and the point is rejected.
   */
  function IntersectSquare(p1: V3, p2: V3, p3: V3, p4: V3, rayOrigin: V3, rayDirection: V3): (r: Option<V3>)
    ensures r.Some? ==> r == IntersectPlane(p1, TriangleNormal(p1, p2, p3), rayOrigin, rayDirection)
    ensures IntersectPlane(p1, TriangleNormal(p1, p2, p3), rayOrigin, rayDirection).None? ==> r.None?
  {
    var normal := TriangleNormal(p1, p2, p3);
    match IntersectPlane(p1, normal, rayOrigin, rayDirection)
    case None => None
    case Some(x) =>
      var center := QuadCenter(p1, p2, p3, p4);
      if BasisDet(p1, p2, center) == 0.0 then None
      else
        var uv := BarycentricCoordinates(x, p1, p2, center);
        var u := Abs(uv.0);
        var v := Abs(uv.1);
        if InUnitTriangle(u, v) then Some(x) else None
  }

  /** A point of the diamond passes the absolute-value test of intersect_square. */
  lemma DiamondAccepts(x: V3, a: V3, b: V3, c: V3, u: real, v: real, w: real)
    requires BasisDet(a, b, c) != 0.0
    requires Abs(u) + Abs(v) <= 1.0
    requires Sub(x, c) == Apply(Sub(a, c), Sub(b, c), BasisNormal(a, b, c), V3(u, v, w))
    ensures var uv := BarycentricCoordinates(x, a, b, c);
            InUnitTriangle(Abs(uv.0), Abs(uv.1))
  {
    BarycentricUnique(x, a, b, c, u, v, w);
  }

  /** A point passing the absolute-value test lies in the diamond. */
  lemma DiamondWitness(x: V3, a: V3, b: V3, c: V3)
    requires BasisDet(a, b, c) != 0.0
    requires var uv := BarycentricCoordinates(x, a, b, c);
             InUnitTriangle(Abs(uv.0), Abs(uv.1))
    ensures InDiamond(x, a, b, c)
  {
    var uv := BarycentricCoordinates(x, a, b, c);
    var w :| Sub(x, c) == Apply(Sub(a, c), Sub(b, c), BasisNormal(a, b, c), V3(uv.0, uv.1, w));
    assert Abs(uv.0) + Abs(uv.1) <= 1.0;
  }

  /** On a solvable basis, the absolute-value test of intersect_square is exactly the diamond predicate. */
  lemma DiamondTest(x: V3, a: V3, b: V3, c: V3)
    requires BasisDet(a, b, c) != 0.0
    ensures var uv := BarycentricCoordinates(x, a, b, c);
            InUnitTriangle(Abs(uv.0), Abs(uv.1)) <==> InDiamond(x, a, b, c)
  {
    var uv := BarycentricCoordinates(x, a, b, c);
    if InUnitTriangle(Abs(uv.0), Abs(uv.1)) {
      DiamondWitness(x, a, b, c);
    }
    if InDiamond(x, a, b, c) {
      var u, v, w :| Abs(u) + Abs(v) <= 1.0 &&
        Sub(x, c) == Apply(Sub(a, c), Sub(b, c), BasisNormal(a, b, c), V3(u, v, w));
      DiamondAccepts(x, a, b, c, u, v, w);
    }
  }

  /** The square test returns a point if and only if the plane point lies in the diamond. */
  lemma SquareContainment(p1: V3, p2: V3, p3: V3, p4: V3, rayOrigin: V3, rayDirection: V3)
    ensures var plane := IntersectPlane(p1, TriangleNormal(p1, p2, p3), rayOrigin, rayDirection);
            IntersectSquare(p1, p2, p3, p4, rayOrigin, rayDirection).Some? <==>
            (plane.Some? && InDiamond(plane.value, p1, p2, QuadCenter(p1, p2, p3, p4)))
  {
    var plane := IntersectPlane(p1, TriangleNormal(p1, p2, p3), rayOrigin, rayDirection);
    var center := QuadCenter(p1, p2, p3, p4);
    if plane.Some? && BasisDet(p1, p2, center) != 0.0 {
      DiamondTest(plane.value, p1, p2, center);
    }
  }
}
