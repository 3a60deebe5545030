/**
 * 3x3 linear systems over exact reals: the determinant, the matrix-vector
 * product, and the closed-form (adjugate) inverse that stands in for glam's
 * `Mat3A::inverse` in src/utils.rs.
 */
module Linear {
  import opened Vectors

  /** Determinant of the matrix whose columns are c0, c1, c2. */
  function Det(c0: V3, c1: V3, c2: V3): real { Dot(c0, Cross(c1, c2)) }

  /** The matrix with columns c0, c1, c2 applied to s: s.x c0 + s.y c1 + s.z c2. */
  function Apply(c0: V3, c1: V3, c2: V3, s: V3): V3
  {
    Add(Add(Scale(s.x, c0), Scale(s.y, c1)), Scale(s.z, c2))
  }

  // ----- scalar identities, stated without vectors so that the solver sees pure polynomials -----

  lemma DiagonalScalar(p: real, q: real, r: real, det: real,
                       ax: real, ay: real, az: real, ex: real, ey: real, ez: real, fx: real, fy: real, fz: real)
    requires p == ey * fz - ez * fy && q == fy * az - fz * ay && r == ay * ez - az * ey
    requires det == ax * (ey * fz - ez * fy) + ay * (ez * fx - ex * fz) + az * (ex * fy - ey * fx)
    ensures p * ax + q * ex + r * fx == det
  {
  }

  lemma NextOffDiagonalScalar(p: real, q: real, r: real,
                              ax: real, ay: real, az: real, ex: real, ey: real, ez: real, fx: real, fy: real, fz: real)
    requires p == ez * fx - ex * fz && q == fz * ax - fx * az && r == az * ex - ax * ez
    ensures p * ax + q * ex + r * fx == 0.0
  {
  }

  lemma PrevOffDiagonalScalar(p: real, q: real, r: real,
                              ax: real, ay: real, az: real, ex: real, ey: real, ez: real, fx: real, fy: real, fz: real)
    requires p == ex * fy - ey * fx && q == fx * ay - fy * ax && r == ax * ey - ay * ex
    ensures p * ax + q * ex + r * fx == 0.0
  {
  }

  lemma DotExpansionScalar(d: real, ax: real, ay: real, az: real, nx: real, ny: real, nz: real,
                           ex: real, ey: real, ez: real, fx: real, fy: real, fz: real)
    requires nx == ey * fz - ez * fy && ny == ez * fx - ex * fz && nz == ex * fy - ey * fx
    requires d == ax * nx + ay * ny + az * nz
    ensures d == ax * (ey * fz - ez * fy) + ay * (ez * fx - ex * fz) + az * (ex * fy - ey * fx)
  {
  }

  lemma DivideRow(a0: real, a1: real, a2: real, k0: real, k1: real, k2: real, d: real, bi: real)
    requires d != 0.0
    requires a0 * k0 + a1 * k1 + a2 * k2 == d * bi
    ensures (a0 / d) * k0 + (a1 / d) * k1 + (a2 / d) * k2 == bi
  {
    assert (a0 / d) * k0 + (a1 / d) * k1 + (a2 / d) * k2 == (a0 * k0 + a1 * k1 + a2 * k2) / d;
  }

  lemma DotApplyScalar(d: real, e0: real, e1: real, e2: real, vx: real, vy: real, vz: real,
                       nx: real, ny: real, nz: real, ax: real, ay: real, az: real, ex: real, ey: real, ez: real,
                       fx: real, fy: real, fz: real, sx: real, sy: real, sz: real)
    requires vx == sx * ax + sy * ex + sz * fx && vy == sx * ay + sy * ey + sz * fy && vz == sx * az + sy * ez + sz * fz
    requires d == nx * vx + ny * vy + nz * vz
    requires e0 == nx * ax + ny * ay + nz * az && e1 == nx * ex + ny * ey + nz * ez && e2 == nx * fx + ny * fy + nz * fz
    ensures d == sx * e0 + sy * e1 + sz * e2
  {
  }

  /** Regrouping of one component of the adjugate product, given one column of entries. */
  lemma Regroup(s0: real, s1: real, s2: real, n0: V3, n1: V3, n2: V3, b: V3, k0: real, k1: real, k2: real,
                d0: real, d1: real, d2: real)
    requires s0 == Dot(n0, b) && s1 == Dot(n1, b) && s2 == Dot(n2, b)
    requires n0.x * k0 + n1.x * k1 + n2.x * k2 == d0
    requires n0.y * k0 + n1.y * k1 + n2.y * k2 == d1
    requires n0.z * k0 + n1.z * k1 + n2.z * k2 == d2
    ensures s0 * k0 + s1 * k1 + s2 * k2 == d0 * b.x + d1 * b.y + d2 * b.z
  {
  }

  /** The cross product written out. */
  lemma CrossRows(a: V3, b: V3)
    ensures Cross(a, b).x == a.y * b.z - a.z * b.y
    ensures Cross(a, b).y == a.z * b.x - a.x * b.z
    ensures Cross(a, b).z == a.x * b.y - a.y * b.x
  {
  }

  lemma DetExpansion(c0: V3, c1: V3, c2: V3)
    ensures Det(c0, c1, c2) == c0.x * (c1.y * c2.z - c1.z * c2.y) + c0.y * (c1.z * c2.x - c1.x * c2.z) + c0.z * (c1.x * c2.y - c1.y * c2.x)
  {
    var n := Cross(c1, c2);
    CrossRows(c1, c2);
    DotExpansionScalar(Det(c0, c1, c2), c0.x, c0.y, c0.z, n.x, n.y, n.z, c1.x, c1.y, c1.z, c2.x, c2.y, c2.z);
  }

  /** The three cross products that make up the rows of the adjugate, written out. */
  lemma AdjugateCrosses(c0: V3, c1: V3, c2: V3)
    ensures Cross(c1, c2).x == c1.y * c2.z - c1.z * c2.y
    ensures Cross(c1, c2).y == c1.z * c2.x - c1.x * c2.z
    ensures Cross(c1, c2).z == c1.x * c2.y - c1.y * c2.x
    ensures Cross(c2, c0).x == c2.y * c0.z - c2.z * c0.y
    ensures Cross(c2, c0).y == c2.z * c0.x - c2.x * c0.z
    ensures Cross(c2, c0).z == c2.x * c0.y - c2.y * c0.x
    ensures Cross(c0, c1).x == c0.y * c1.z - c0.z * c1.y
    ensures Cross(c0, c1).y == c0.z * c1.x - c0.x * c1.z
    ensures Cross(c0, c1).z == c0.x * c1.y - c0.y * c1.x
  {
    CrossRows(c1, c2);
    CrossRows(c2, c0);
    CrossRows(c0, c1);
  }

  lemma AdjugateEntryXX(c0: V3, c1: V3, c2: V3)
    ensures Cross(c1, c2).x * c0.x + Cross(c2, c0).x * c1.x + Cross(c0, c1).x * c2.x == Det(c0, c1, c2)
  {
    AdjugateCrosses(c0, c1, c2);
    DetExpansion(c0, c1, c2);
    DiagonalScalar(Cross(c1, c2).x, Cross(c2, c0).x, Cross(c0, c1).x, Det(c0, c1, c2), c0.x, c0.y, c0.z, c1.x, c1.y, c1.z, c2.x, c2.y, c2.z);
  }

  lemma AdjugateEntryXY(c0: V3, c1: V3, c2: V3)
    ensures Cross(c1, c2).y * c0.x + Cross(c2, c0).y * c1.x + Cross(c0, c1).y * c2.x == 0.0
  {
    AdjugateCrosses(c0, c1, c2);
    NextOffDiagonalScalar(Cross(c1, c2).y, Cross(c2, c0).y, Cross(c0, c1).y, c0.x, c0.y, c0.z, c1.x, c1.y, c1.z, c2.x, c2.y, c2.z);
  }

  lemma AdjugateEntryXZ(c0: V3, c1: V3, c2: V3)
    ensures Cross(c1, c2).z * c0.x + Cross(c2, c0).z * c1.x + Cross(c0, c1).z * c2.x == 0.0
  {
    AdjugateCrosses(c0, c1, c2);
    PrevOffDiagonalScalar(Cross(c1, c2).z, Cross(c2, c0).z, Cross(c0, c1).z, c0.x, c0.y, c0.z, c1.x, c1.y, c1.z, c2.x, c2.y, c2.z);
  }

  lemma AdjugateEntryYX(c0: V3, c1: V3, c2: V3)
    ensures Cross(c1, c2).x * c0.y + Cross(c2, c0).x * c1.y + Cross(c0, c1).x * c2.y == 0.0
  {
    AdjugateCrosses(c0, c1, c2);
    PrevOffDiagonalScalar(Cross(c1, c2).x, Cross(c2, c0).x, Cross(c0, c1).x, c0.y, c0.z, c0.x, c1.y, c1.z, c1.x, c2.y, c2.z, c2.x);
  }

  lemma AdjugateEntryYY(c0: V3, c1: V3, c2: V3)
    ensures Cross(c1, c2).y * c0.y + Cross(c2, c0).y * c1.y + Cross(c0, c1).y * c2.y == Det(c0, c1, c2)
  {
    AdjugateCrosses(c0, c1, c2);
    DetExpansion(c0, c1, c2);
    DiagonalScalar(Cross(c1, c2).y, Cross(c2, c0).y, Cross(c0, c1).y, Det(c0, c1, c2), c0.y, c0.z, c0.x, c1.y, c1.z, c1.x, c2.y, c2.z, c2.x);
  }

  lemma AdjugateEntryYZ(c0: V3, c1: V3, c2: V3)
    ensures Cross(c1, c2).z * c0.y + Cross(c2, c0).z * c1.y + Cross(c0, c1).z * c2.y == 0.0
  {
    AdjugateCrosses(c0, c1, c2);
    NextOffDiagonalScalar(Cross(c1, c2).z, Cross(c2, c0).z, Cross(c0, c1).z, c0.y, c0.z, c0.x, c1.y, c1.z, c1.x, c2.y, c2.z, c2.x);
  }

  lemma AdjugateEntryZX(c0: V3, c1: V3, c2: V3)
    ensures Cross(c1, c2).x * c0.z + Cross(c2, c0).x * c1.z + Cross(c0, c1).x * c2.z == 0.0
  {
    AdjugateCrosses(c0, c1, c2);
    NextOffDiagonalScalar(Cross(c1, c2).x, Cross(c2, c0).x, Cross(c0, c1).x, c0.z, c0.x, c0.y, c1.z, c1.x, c1.y, c2.z, c2.x, c2.y);
  }

  lemma AdjugateEntryZY(c0: V3, c1: V3, c2: V3)
    ensures Cross(c1, c2).y * c0.z + Cross(c2, c0).y * c1.z + Cross(c0, c1).y * c2.z == 0.0
  {
    AdjugateCrosses(c0, c1, c2);
    PrevOffDiagonalScalar(Cross(c1, c2).y, Cross(c2, c0).y, Cross(c0, c1).y, c0.z, c0.x, c0.y, c1.z, c1.x, c1.y, c2.z, c2.x, c2.y);
  }

  lemma AdjugateEntryZZ(c0: V3, c1: V3, c2: V3)
    ensures Cross(c1, c2).z * c0.z + Cross(c2, c0).z * c1.z + Cross(c0, c1).z * c2.z == Det(c0, c1, c2)
  {
    AdjugateCrosses(c0, c1, c2);
    DetExpansion(c0, c1, c2);
    DiagonalScalar(Cross(c1, c2).z, Cross(c2, c0).z, Cross(c0, c1).z, Det(c0, c1, c2), c0.z, c0.x, c0.y, c1.z, c1.x, c1.y, c2.z, c2.x, c2.y);
  }

  lemma AdjugateComponentX(c0: V3, c1: V3, c2: V3, b: V3)
    ensures Apply(c0, c1, c2, Adjugate(c0, c1, c2, b)).x == Det(c0, c1, c2) * b.x
  {
    var a := Adjugate(c0, c1, c2, b);
    ApplyRows(c0, c1, c2, a);
    AdjugateEntryXX(c0, c1, c2);
    AdjugateEntryXY(c0, c1, c2);
    AdjugateEntryXZ(c0, c1, c2);
    Regroup(a.x, a.y, a.z, Cross(c1, c2), Cross(c2, c0), Cross(c0, c1), b, c0.x, c1.x, c2.x, Det(c0, c1, c2), 0.0, 0.0);
  }


  lemma AdjugateComponentY(c0: V3, c1: V3, c2: V3, b: V3)
    ensures Apply(c0, c1, c2, Adjugate(c0, c1, c2, b)).y == Det(c0, c1, c2) * b.y
  {
    var a := Adjugate(c0, c1, c2, b);
    ApplyRows(c0, c1, c2, a);
    AdjugateEntryYX(c0, c1, c2);
    AdjugateEntryYY(c0, c1, c2);
    AdjugateEntryYZ(c0, c1, c2);
    Regroup(a.x, a.y, a.z, Cross(c1, c2), Cross(c2, c0), Cross(c0, c1), b, c0.y, c1.y, c2.y, 0.0, Det(c0, c1, c2), 0.0);
  }


  lemma AdjugateComponentZ(c0: V3, c1: V3, c2: V3, b: V3)
    ensures Apply(c0, c1, c2, Adjugate(c0, c1, c2, b)).z == Det(c0, c1, c2) * b.z
  {
    var a := Adjugate(c0, c1, c2, b);
    ApplyRows(c0, c1, c2, a);
    AdjugateEntryZX(c0, c1, c2);
    AdjugateEntryZY(c0, c1, c2);
    AdjugateEntryZZ(c0, c1, c2);
    Regroup(a.x, a.y, a.z, Cross(c1, c2), Cross(c2, c0), Cross(c0, c1), b, c0.z, c1.z, c2.z, 0.0, 0.0, Det(c0, c1, c2));
  }


  /** The adjugate matrix (rows c1 × c2, c2 × c0, c0 × c1) applied to b. */
  function Adjugate(c0: V3, c1: V3, c2: V3, b: V3): V3
  {
    V3(Dot(Cross(c1, c2), b), Dot(Cross(c2, c0), b), Dot(Cross(c0, c1), b))
  }

  /** matrix × adjugate = det × identity. */
  lemma AdjugateIdentity(c0: V3, c1: V3, c2: V3, b: V3)
    ensures Apply(c0, c1, c2, Adjugate(c0, c1, c2, b)) == Scale(Det(c0, c1, c2), b)
  {
    AdjugateComponentX(c0, c1, c2, b);
    AdjugateComponentY(c0, c1, c2, b);
    AdjugateComponentZ(c0, c1, c2, b);
  }

  lemma DotApply(n: V3, c0: V3, c1: V3, c2: V3, s: V3)
    ensures Dot(n, Apply(c0, c1, c2, s)) == s.x * Dot(n, c0) + s.y * Dot(n, c1) + s.z * Dot(n, c2)
  {
    var v := Apply(c0, c1, c2, s);
    ApplyRows(c0, c1, c2, s);
    DotApplyScalar(Dot(n, v), Dot(n, c0), Dot(n, c1), Dot(n, c2), v.x, v.y, v.z, n.x, n.y, n.z,
                   c0.x, c0.y, c0.z, c1.x, c1.y, c1.z, c2.x, c2.y, c2.z, s.x, s.y, s.z);
  }

  /** Apply written out row by row. */
  lemma ApplyRows(c0: V3, c1: V3, c2: V3, s: V3)
    ensures Apply(c0, c1, c2, s) == V3(s.x * c0.x + s.y * c1.x + s.z * c2.x, s.x * c0.y + s.y * c1.y + s.z * c2.y,
                                       s.x * c0.z + s.y * c1.z + s.z * c2.z)
  {
  }

  /** Component-wise division by a non-zero scalar. */
  function Divide(a: V3, d: real): V3
    requires d != 0.0
  {
    V3(a.x / d, a.y / d, a.z / d)
  }

  /** The rows of matrix × adjugate = det × identity, written out. */
  lemma AdjugateRows(c0: V3, c1: V3, c2: V3, b: V3)
    ensures var a := Adjugate(c0, c1, c2, b);
            && a.x * c0.x + a.y * c1.x + a.z * c2.x == Det(c0, c1, c2) * b.x
            && a.x * c0.y + a.y * c1.y + a.z * c2.y == Det(c0, c1, c2) * b.y
            && a.x * c0.z + a.y * c1.z + a.z * c2.z == Det(c0, c1, c2) * b.z
  {
    AdjugateIdentity(c0, c1, c2, b);
    ApplyRows(c0, c1, c2, Adjugate(c0, c1, c2, b));
  }

  /** A vector whose three rows match b solves the system for b. */
  lemma RowsSolve(c0: V3, c1: V3, c2: V3, b: V3, q: V3)
    requires q.x * c0.x + q.y * c1.x + q.z * c2.x == b.x
    requires q.x * c0.y + q.y * c1.y + q.z * c2.y == b.y
    requires q.x * c0.z + q.y * c1.z + q.z * c2.z == b.z
    ensures Apply(c0, c1, c2, q) == b
  {
    ApplyRows(c0, c1, c2, q);
  }

  lemma RowOfQuotient(a: V3, det: real, k0: real, k1: real, k2: real, bi: real)
    requires det != 0.0
    requires a.x * k0 + a.y * k1 + a.z * k2 == det * bi
    ensures Divide(a, det).x * k0 + Divide(a, det).y * k1 + Divide(a, det).z * k2 == bi
  {
    DivideRow(a.x, a.y, a.z, k0, k1, k2, det, bi);
  }

  /** Dividing a vector whose rows give det × b by det solves the system for b. */
  lemma QuotientSolves(c0: V3, c1: V3, c2: V3, b: V3, a: V3, det: real)
    requires det != 0.0
    requires a.x * c0.x + a.y * c1.x + a.z * c2.x == det * b.x
    requires a.x * c0.y + a.y * c1.y + a.z * c2.y == det * b.y
    requires a.x * c0.z + a.y * c1.z + a.z * c2.z == det * b.z
    ensures Apply(c0, c1, c2, Divide(a, det)) == b
  {
    RowOfQuotient(a, det, c0.x, c1.x, c2.x, b.x);
    RowOfQuotient(a, det, c0.y, c1.y, c2.y, b.y);
    RowOfQuotient(a, det, c0.z, c1.z, c2.z, b.z);
    RowsSolve(c0, c1, c2, b, Divide(a, det));
  }

  lemma AdjugateSolves(c0: V3, c1: V3, c2: V3, b: V3)
    requires Det(c0, c1, c2) != 0.0
    ensures Apply(c0, c1, c2, Divide(Adjugate(c0, c1, c2, b), Det(c0, c1, c2))) == b
  {
    AdjugateRows(c0, c1, c2, b);
    QuotientSolves(c0, c1, c2, b, Adjugate(c0, c1, c2, b), Det(c0, c1, c2));
  }

  /**
   * The inverse of the matrix with columns c0, c1, c2 applied to b: the unique
   * s with Apply(c0, c1, c2, s) == b (uniqueness is SolveApply).
   */
  function Solve(c0: V3, c1: V3, c2: V3, b: V3): (s: V3)
    requires Det(c0, c1, c2) != 0.0
    ensures Apply(c0, c1, c2, s) == b
  {
    AdjugateSolves(c0, c1, c2, b);
    Divide(Adjugate(c0, c1, c2, b), Det(c0, c1, c2))
  }


  lemma CrossOrthogonal(a: V3, b: V3)
    ensures Dot(Cross(a, b), a) == 0.0 && Dot(Cross(a, b), b) == 0.0
  {
  }

  lemma TripleScalar(a0: real, a1: real, a2: real, b0: real, b1: real, b2: real, c0: real, c1: real, c2: real)
    ensures (b1 * c2 - b2 * c1) * a0 + (b2 * c0 - b0 * c2) * a1 + (b0 * c1 - b1 * c0) * a2 == a0 * (b1 * c2 - b2 * c1) + a1 * (b2 * c0 - b0 * c2) + a2 * (b0 * c1 - b1 * c0)
    ensures (c1 * a2 - c2 * a1) * b0 + (c2 * a0 - c0 * a2) * b1 + (c0 * a1 - c1 * a0) * b2 == a0 * (b1 * c2 - b2 * c1) + a1 * (b2 * c0 - b0 * c2) + a2 * (b0 * c1 - b1 * c0)
    ensures (a1 * b2 - a2 * b1) * c0 + (a2 * b0 - a0 * b2) * c1 + (a0 * b1 - a1 * b0) * c2 == a0 * (b1 * c2 - b2 * c1) + a1 * (b2 * c0 - b0 * c2) + a2 * (b0 * c1 - b1 * c0)
  {
  }

  /** Dot(u × v, w) written out. */
  lemma DotCrossExpansion(u: V3, v: V3, w: V3)
    ensures Dot(Cross(u, v), w) == (u.y * v.z - u.z * v.y) * w.x + (u.z * v.x - u.x * v.z) * w.y + (u.x * v.y - u.y * v.x) * w.z
  {
  }

  /** The scalar triple product is invariant under cyclic permutation. */
  lemma TripleCyclic(a: V3, b: V3, c: V3)
    ensures Dot(Cross(b, c), a) == Det(a, b, c)
    ensures Dot(Cross(c, a), b) == Det(a, b, c)
    ensures Dot(Cross(a, b), c) == Det(a, b, c)
  {
    DetExpansion(a, b, c);
    DotCrossExpansion(b, c, a);
    DotCrossExpansion(c, a, b);
    DotCrossExpansion(a, b, c);
    TripleScalar(a.x, a.y, a.z, b.x, b.y, b.z, c.x, c.y, c.z);
  }

  lemma CancelDivide(p: real, d: real)
    requires d != 0.0
    ensures (p * d) / d == p
  {
  }

  /** Dot(n, Apply(s)) once the three products Dot(n, ci) are known. */
  lemma DotApplyKnown(n: V3, c0: V3, c1: V3, c2: V3, s: V3, e0: real, e1: real, e2: real)
    requires Dot(n, c0) == e0 && Dot(n, c1) == e1 && Dot(n, c2) == e2
    ensures Dot(n, Apply(c0, c1, c2, s)) == s.x * e0 + s.y * e1 + s.z * e2
  {
    DotApply(n, c0, c1, c2, s);
  }

  /** adjugate × matrix = det × identity, one row at a time. */
  lemma AdjugateApplyX(c0: V3, c1: V3, c2: V3, s: V3)
    ensures Adjugate(c0, c1, c2, Apply(c0, c1, c2, s)).x == s.x * Det(c0, c1, c2)
  {
    CrossOrthogonal(c1, c2);
    TripleCyclic(c0, c1, c2);
    DotApplyKnown(Cross(c1, c2), c0, c1, c2, s, Det(c0, c1, c2), 0.0, 0.0);
  }

  lemma AdjugateApplyY(c0: V3, c1: V3, c2: V3, s: V3)
    ensures Adjugate(c0, c1, c2, Apply(c0, c1, c2, s)).y == s.y * Det(c0, c1, c2)
  {
    CrossOrthogonal(c2, c0);
    TripleCyclic(c0, c1, c2);
    DotApplyKnown(Cross(c2, c0), c0, c1, c2, s, 0.0, Det(c0, c1, c2), 0.0);
  }

  lemma AdjugateApplyZ(c0: V3, c1: V3, c2: V3, s: V3)
    ensures Adjugate(c0, c1, c2, Apply(c0, c1, c2, s)).z == s.z * Det(c0, c1, c2)
  {
    CrossOrthogonal(c0, c1);
    TripleCyclic(c0, c1, c2);
    DotApplyKnown(Cross(c0, c1), c0, c1, c2, s, 0.0, 0.0, Det(c0, c1, c2));
  }

  /** Dividing det × s by det gives s back. */
  lemma DivideScaled(a: V3, s: V3, det: real)
    requires det != 0.0
    requires a.x == s.x * det && a.y == s.y * det && a.z == s.z * det
    ensures Divide(a, det) == s
  {
    CancelDivide(s.x, det);
    CancelDivide(s.y, det);
    CancelDivide(s.z, det);
  }

  /** Solve is the only solution: solving for Apply(s) gives s back. */
  lemma SolveApply(c0: V3, c1: V3, c2: V3, s: V3)
    requires Det(c0, c1, c2) != 0.0
    ensures Solve(c0, c1, c2, Apply(c0, c1, c2, s)) == s
  {
    AdjugateApplyX(c0, c1, c2, s);
    AdjugateApplyY(c0, c1, c2, s);
    AdjugateApplyZ(c0, c1, c2, s);
    DivideScaled(Adjugate(c0, c1, c2, Apply(c0, c1, c2, s)), s, Det(c0, c1, c2));
  }


}
