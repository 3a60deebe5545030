/**
 * The triangle mesh of src/mesh.rs. A mesh is built once (`Mesh::new`) and
 * then only read, so it is a datatype; construction, the shell search and the
 * shell-by-shell intersection are methods with the loops of the source.
 *
 * Triangle centres are grouped into concentric "shells" around the mesh
 * centre: a centre at distance r belongs to the shell whose key is
 * `(r * 100000) as u32`. `radii` lists the keys in increasing order and
 * `rtree` maps each key to the centres of that shell.
 *
 * The Euclidean length (a square root), the sphere intersections and the
 * R-tree's nearest-neighbour query are passed in as functions.
 */
module MeshIndex {
  import opened Options
  import opened Vectors
  import opened Numeric
  import opened Geometry

  /** A facet as read from the STL file: the stored normal and three vertices. */
  datatype Facet = Facet(normal: V3, v1: V3, v2: V3, v3: V3)

  datatype Triangle = Triangle(p1: V3, p2: V3, p3: V3, normal: V3, center: V3)

  /** The `[Vec3A; 2]` returned by `intersect`: the hit point and the triangle's normal. */
  datatype Hit = Hit(point: V3, normal: V3)

  datatype Mesh = Mesh(
    triangles: seq<Triangle>,
    center: V3,
    rtree: map<U32, seq<V3>>,
    radii: seq<U32>,
    maxRadius: Option<real>)  // None stands for the NaN of an empty mesh

  // ---------------------------------------------------------------- ordering

  predicate Sorted(s: seq<U32>)
  {
    forall i, j :: 0 <= i <= j < |s| ==> s[i] <= s[j]
  }

  predicate StrictlyIncreasing(s: seq<U32>)
  {
    forall i, j :: 0 <= i < j < |s| ==> s[i] < s[j]
  }

  /** Inserts x into a strictly increasing sequence that does not contain it. */
  function Insert(s: seq<U32>, x: U32): (r: seq<U32>)
    requires StrictlyIncreasing(s) && x !in s
    ensures StrictlyIncreasing(r)
    ensures |r| == |s| + 1
    ensures forall y :: y in r <==> y in s || y == x
  {
    if s == [] then [x]
    else if x < s[0] then [x] + s
    else
      assert forall y :: y in s[1..] ==> y in s;
      var rest := Insert(s[1..], x);
      assert forall k :: 0 <= k < |rest| ==> s[0] < rest[k] by {
        forall k | 0 <= k < |rest| ensures s[0] < rest[k] {
          assert rest[k] in rest;
        }
      }
      [s[0]] + rest
  }

  /**
   * `Vec::from_iter(hs)` followed by `sort()`: the set's elements, taken in
   * whatever order the hash set yields them, end up strictly increasing.
   */
  method SortSet(hs: set<U32>) returns (radii: seq<U32>)
    ensures StrictlyIncreasing(radii)
    ensures forall r :: r in radii <==> r in hs
  {
    radii := [];
    var rest := hs;
    while rest != {}
      invariant StrictlyIncreasing(radii)
      invariant forall r :: r in hs <==> r in radii || r in rest
      invariant forall r :: r in radii ==> r !in rest
      decreases |rest|
    {
      var r :| r in rest;
      radii := Insert(radii, r);
      rest := rest - {r};
    }
  }

  /** Two strictly increasing sequences with the same elements are equal. */
  lemma {:induction false} SortedUnique(a: seq<U32>, b: seq<U32>)
    requires StrictlyIncreasing(a) && StrictlyIncreasing(b)
    requires forall r :: r in a <==> r in b
    ensures a == b
    decreases |a|
  {
    SameEmptiness(a, b);
    if a != [] {
      HeadLeast(a, b[0]);
      HeadLeast(b, a[0]);
      forall r ensures r in a[1..] <==> r in b[1..] {
        TailMembers(a, r);
        TailMembers(b, r);
      }
      SortedUnique(a[1..], b[1..]);
      assert a == [a[0]] + a[1..];
      assert b == [b[0]] + b[1..];
    }
  }

  lemma SameEmptiness(a: seq<U32>, b: seq<U32>)
    requires forall r :: r in a <==> r in b
    ensures a == [] <==> b == []
  {
    if a != [] {
      assert a[0] in b;
    }
    if b != [] {
      assert b[0] in a;
    }
  }

  /** The head of a strictly increasing sequence is its least element. */
  lemma HeadLeast(s: seq<U32>, x: U32)
    requires StrictlyIncreasing(s) && x in s
    ensures s[0] <= x
  {
    var k :| 0 <= k < |s| && s[k] == x;
    assert s[0] <= s[k];
  }

  /** The tail of a strictly increasing sequence holds exactly its elements above the head. */
  lemma TailMembers(s: seq<U32>, r: U32)
    requires StrictlyIncreasing(s) && s != []
    ensures r in s[1..] <==> r in s && s[0] < r
  {
    if r in s && s[0] < r {
      var k :| 0 <= k < |s| && s[k] == r;
      assert k != 0;
      assert s[1..][k - 1] == r;
    }
  }

  // ------------------------------------------------------------- triangles

  /** `_to_triangle`, and the body of the first loop of `Mesh::new`. */
  function ToTriangle(f: Facet): (t: Triangle)
    ensures t.p1 == f.v1 && t.p2 == f.v2 && t.p3 == f.v3 && t.normal == f.normal
    ensures Add(Add(Sub(t.p1, t.center), Sub(t.p2, t.center)), Sub(t.p3, t.center)) == Zero
  {
    Triangle(f.v1, f.v2, f.v3, f.normal, Scale(1.0 / 3.0, Add(Add(f.v1, f.v2), f.v3)))
  }

  // ------------------------------------------------------ maximum distance

  /** `f32::max`, with None standing for NaN: a NaN operand yields the other one. */
  function FMax(a: Option<real>, b: Option<real>): Option<real>
  {
    if a.None? then b else if b.None? then a else Some(Max(a.value, b.value))
  }

  /** `xs.fold(f32::NAN, f32::max)`. */
  function FoldMax(xs: seq<Option<real>>): (r: Option<real>)
    ensures r.None? <==> forall k :: 0 <= k < |xs| ==> xs[k].None?
    ensures r.Some? ==> forall k :: 0 <= k < |xs| && xs[k].Some? ==> xs[k].value <= r.value
    ensures r.Some? ==> exists k :: 0 <= k < |xs| && xs[k] == r
  {
    if xs == [] then None
    else
      var init := xs[..|xs| - 1];
      assert forall k :: 0 <= k < |init| ==> init[k] == xs[k];
      FMax(FoldMax(init), xs[|xs| - 1])
  }

  /** The distance of v from c, as `(v - c).length()`. */
  function Distance(length: V3 -> real, v: V3, c: V3): real { length(Sub(v, c)) }

  /** `get_radii`: the largest distance of the triangle's vertices from c. */
  function TriangleRadius(t: Triangle, c: V3, length: V3 -> real): Option<real>
  {
    FoldMax([Some(Distance(length, t.p1, c)), Some(Distance(length, t.p2, c)), Some(Distance(length, t.p3, c))])
  }

  predicate Within(t: Triangle, c: V3, length: V3 -> real, r: real)
  {
    Distance(length, t.p1, c) <= r && Distance(length, t.p2, c) <= r && Distance(length, t.p3, c) <= r
  }

  predicate Reaches(t: Triangle, c: V3, length: V3 -> real, r: real)
  {
    Distance(length, t.p1, c) == r || Distance(length, t.p2, c) == r || Distance(length, t.p3, c) == r
  }

  lemma TriangleRadiusIsMax(t: Triangle, c: V3, length: V3 -> real)
    ensures TriangleRadius(t, c, length).Some?
    ensures Within(t, c, length, TriangleRadius(t, c, length).value)
    ensures Reaches(t, c, length, TriangleRadius(t, c, length).value)
  {
    var xs := [Some(Distance(length, t.p1, c)), Some(Distance(length, t.p2, c)), Some(Distance(length, t.p3, c))];
    assert xs[0].Some?;
    var r := FoldMax(xs);
    assert xs[0].value <= r.value && xs[1].value <= r.value && xs[2].value <= r.value;
    var k :| 0 <= k < 3 && xs[k] == r;
  }

  /** `max_radius`: the fold of `get_radii` over all triangles. */
  function MaxRadius(ts: seq<Triangle>, c: V3, length: V3 -> real): Option<real>
  {
    FoldMax(seq(|ts|, k requires 0 <= k < |ts| => TriangleRadius(ts[k], c, length)))
  }

  /**
   * For a non-empty mesh the maximum radius is the largest vertex distance
   * from the centre: every vertex lies within it and some vertex reaches it.
   * An empty mesh has no radius (NaN).
   */
  lemma MaxRadiusBounds(ts: seq<Triangle>, c: V3, length: V3 -> real)
    ensures MaxRadius(ts, c, length).None? <==> ts == []
    ensures ts != [] ==> forall k :: 0 <= k < |ts| ==> Within(ts[k], c, length, MaxRadius(ts, c, length).value)
    ensures ts != [] ==> exists k :: 0 <= k < |ts| && Reaches(ts[k], c, length, MaxRadius(ts, c, length).value)
  {
    var xs := seq(|ts|, k requires 0 <= k < |ts| => TriangleRadius(ts[k], c, length));
    forall k | 0 <= k < |ts|
      ensures xs[k].Some? && Within(ts[k], c, length, xs[k].value) && Reaches(ts[k], c, length, xs[k].value)
    {
      TriangleRadiusIsMax(ts[k], c, length);
    }
    if ts != [] {
      assert xs[0].Some?;
      var r := FoldMax(xs).value;
      forall k | 0 <= k < |ts| ensures Within(ts[k], c, length, r) {
        assert xs[k].value <= r;
      }
      var k :| 0 <= k < |xs| && xs[k] == FoldMax(xs);
      assert Reaches(ts[k], c, length, r);
    }
  }

  // ------------------------------------------------------------ shell keys

  /** `(x * 100_000.) as u32`: the key of a distance (`to_u32` in `intersect`). */
  function RadiusKey(x: real): U32
  {
    CastU32(x * 100000.0)
  }

  /** The shell key of a triangle centre, as computed in the second loop of `Mesh::new`. */
  function ShellKey(length: V3 -> real, meshCenter: V3, c: V3): U32
  {
    RadiusKey(Distance(length, c, meshCenter))
  }

  /** The centres of the triangles of ts. */
  function Centers(ts: seq<Triangle>): set<V3>
  {
    set k | 0 <= k < |ts| :: ts[k].center
  }

  /** Every centre of the first n triangles is filed in the shell of its key. */
  predicate Filed(length: V3 -> real, meshCenter: V3, ts: seq<Triangle>, n: nat, rtree: map<U32, seq<V3>>)
    requires n <= |ts|
  {
    forall k :: 0 <= k < n ==>
      ShellKey(length, meshCenter, ts[k].center) in rtree &&
      ts[k].center in rtree[ShellKey(length, meshCenter, ts[k].center)]
  }

  /** Every point of a shell is a triangle centre whose key is that shell's. */
  predicate OnlyCenters(length: V3 -> real, meshCenter: V3, ts: seq<Triangle>, rtree: map<U32, seq<V3>>)
  {
    forall r, c :: r in rtree && c in rtree[r] ==> ShellKey(length, meshCenter, c) == r && c in Centers(ts)
  }

  /** Filing the centre of triangle i in its shell keeps both properties and files one more centre. */
  lemma FiledStep(length: V3 -> real, meshCenter: V3, ts: seq<Triangle>, i: nat,
                  before: map<U32, seq<V3>>, after: map<U32, seq<V3>>)
    requires i < |ts|
    requires Filed(length, meshCenter, ts, i, before) && OnlyCenters(length, meshCenter, ts, before)
    requires var key := ShellKey(length, meshCenter, ts[i].center);
      after == before[key := (if key in before then before[key] else []) + [ts[i].center]]
    ensures Filed(length, meshCenter, ts, i + 1, after) && OnlyCenters(length, meshCenter, ts, after)
  {
    var key := ShellKey(length, meshCenter, ts[i].center);
    assert ts[i].center in Centers(ts);
    forall k | 0 <= k < i + 1
      ensures ShellKey(length, meshCenter, ts[k].center) in after &&
              ts[k].center in after[ShellKey(length, meshCenter, ts[k].center)]
    {
      if k < i && ShellKey(length, meshCenter, ts[k].center) == key {
        assert ts[k].center in before[key];
      }
    }
    forall r, c | r in after && c in after[r]
      ensures ShellKey(length, meshCenter, c) == r && c in Centers(ts)
    {
      if r == key && c != ts[i].center {
        assert c in before[key];
      }
    }
  }

  /** Every key in `radii` names a shell of `rtree`. */
  predicate Shelved(m: Mesh)
  {
    forall r :: r in m.radii ==> r in m.rtree
  }

  /** What `Mesh::new` guarantees and the lookups of `intersect` rely on. */
  predicate Coherent(m: Mesh)
  {
    && StrictlyIncreasing(m.radii)
    && Shelved(m)
    && (forall r :: r in m.rtree ==> r in m.radii)
    && (m.maxRadius.Some? ==> m.radii != [])
  }

  /** The second loop of `Mesh::new`: files every triangle centre in the shell of its key. */
  method FileCenters(triangles: seq<Triangle>, length: V3 -> real, meshCenter: V3)
    returns (rtree: map<U32, seq<V3>>, hs: set<U32>)
    ensures forall r :: r in hs <==> r in rtree
    ensures Filed(length, meshCenter, triangles, |triangles|, rtree)
    ensures OnlyCenters(length, meshCenter, triangles, rtree)
  {
    rtree := map[];
    hs := {};
    for i := 0 to |triangles|
      invariant forall r :: r in hs <==> r in rtree
      invariant Filed(length, meshCenter, triangles, i, rtree)
      invariant OnlyCenters(length, meshCenter, triangles, rtree)
    {
      var center := triangles[i].center;
      var radius := RadiusKey(Distance(length, center, meshCenter));
      hs := hs + {radius};
      ghost var before := rtree;
      if radius !in rtree {
        rtree := rtree[radius := []];
      }
      rtree := rtree[radius := rtree[radius] + [center]];
      FiledStep(length, meshCenter, triangles, i, before, rtree);
    }
  }

  /**
   * `Mesh::new`, after the STL file has been read: builds the triangles, the
   * (never accumulated) mesh centre, the maximum radius, the shells and the
   * sorted list of shell keys. `length` is the Euclidean norm.
   */
  method NewMesh(facets: seq<Facet>, length: V3 -> real) returns (mesh: Mesh)
    ensures |mesh.triangles| == |facets|
    ensures forall i :: 0 <= i < |facets| ==> mesh.triangles[i] == ToTriangle(facets[i])
    ensures |facets| > 0 ==> mesh.center == Zero
    ensures mesh.maxRadius == MaxRadius(mesh.triangles, Zero, length)
    ensures StrictlyIncreasing(mesh.radii)
    ensures forall r :: r in mesh.radii <==> r in mesh.rtree
    ensures Filed(length, Zero, mesh.triangles, |mesh.triangles|, mesh.rtree)
    ensures OnlyCenters(length, Zero, mesh.triangles, mesh.rtree)
    ensures Coherent(mesh)
  {
    var triangles: seq<Triangle> := [];
    var meshCenter := Zero;
    for i := 0 to |facets|
      invariant |triangles| == i
      invariant forall k :: 0 <= k < i ==> triangles[k] == ToTriangle(facets[k])
    {
      triangles := triangles + [ToTriangle(facets[i])];
    }
    if |facets| != 0 {
      meshCenter := Scale(1.0 / (|facets| as real), meshCenter);
    }
    var maxRadius := MaxRadius(triangles, meshCenter, length);

    var rtree, hs := FileCenters(triangles, length, meshCenter);
    var radii := SortSet(hs);

    assert meshCenter == Zero;
    if triangles != [] {
      assert ShellKey(length, Zero, triangles[0].center) in radii;
    }
    MaxRadiusBounds(triangles, meshCenter, length);
    mesh := Mesh(triangles, meshCenter, rtree, radii, maxRadius);
  }

  // ---------------------------------------------------------------- search

  /**
   * What `_search` promises about the index m it returns for target: 0 below
   * the first key, the last index from the last key on, and otherwise an
   * index whose left neighbour is at most the target and which is at least
   * the target, unless the loop stopped at two equal neighbours.
   */
  predicate Located(radii: seq<U32>, target: U32, m: nat)
    requires radii != []
  {
    var n := |radii|;
    && m < n
    && (radii[0] > target ==> m == 0)
    && (radii[0] <= target && radii[n - 1] <= target ==> m == n - 1)
    && (radii[0] <= target < radii[n - 1] ==>
          1 <= m && (radii[m - 1] <= target <= radii[m] || radii[m - 1] == radii[m]))
  }

  /** The sum q + q/2 + q/4 + ... of the remaining jump widths when `length / d` is q. */
  function Jumps(q: nat): nat
  {
    if q == 0 then 0 else q + Jumps(q / 2)
  }

  lemma {:induction false} JumpsBound(q: nat)
    ensures q >= 1 ==> Jumps(q) <= 2 * q - 1
  {
    if q >= 2 {
      JumpsBound(q / 2);
    }
  }

  /** Division by a positive k is the unique quotient with a remainder below k. */
  lemma DivUnique(n: int, k: int, q: int, r: int)
    requires k > 0 && n == q * k + r && 0 <= r < k
    ensures n / k == q
  {
    var q0, r0 := n / k, n % k;
    assert n == q0 * k + r0 && 0 <= r0 < k;
    assert (q - q0) * k == r0 - r;
    if q > q0 {
      MulAtLeast(q - q0, k);
    } else if q < q0 {
      MulAtLeast(q0 - q, k);
    }
  }

  lemma MulAtLeast(a: int, k: int)
    requires a >= 1 && k > 0
    ensures a * k >= k
  {
  }

  lemma HalveQuotient(n: nat, d: nat)
    requires d > 0
    ensures n / (2 * d) == (n / d) / 2
  {
    var q, r := n / d, n % d;
    var q2, r2 := q / 2, q % 2;
    assert n == q * d + r;
    assert q * d == q2 * (2 * d) + r2 * d by {
      assert q == 2 * q2 + r2;
    }
    assert 0 <= r2 * d + r < 2 * d by {
      assert r2 == 0 || r2 == 1;
    }
    DivUnique(n, 2 * d, q2, r2 * d + r);
  }

  lemma QuotientZero(n: nat, d: nat)
    requires d > n
    ensures n / d == 0
  {
  }

  lemma QuotientPositive(n: nat, d: nat)
    requires 0 < d <= n
    ensures n / d >= 1
  {
    assert n == (n / d) * d + n % d;
  }

  lemma StartBounds(n: nat)
    requires n >= 2
    ensures 1 + Jumps(n / 4) <= n / 2
    ensures n / 2 + Jumps(n / 4) <= n - 1
  {
    JumpsBound(n / 4);
    HalveQuotient(n, 2);
  }

  /**
   * How far the search index is from a bracketing position once the jumps are
   * used up: the distance to the keys on the target's side.
   */
  function Off(radii: seq<U32>, target: U32, m: nat): nat
    requires 1 <= m < |radii|
  {
    if target < radii[m - 1] then m
    else if target > radii[m] then |radii| - m
    else 0
  }

  /**
   * `_search`. It first halves its jump width `length / d` down to zero and
   * then walks one position at a time; every index it reads stays within
   * the sequence, and with strictly increasing keys it always stops on a
   * bracketing index (the equal-neighbours break cannot fire).
   */
  method Search(radii: seq<U32>, target: U32) returns (m: nat)
    requires radii != []
    requires Sorted(radii)
    ensures Located(radii, target, m)
    ensures StrictlyIncreasing(radii) && radii[0] <= target < radii[|radii| - 1] ==>
      1 <= m < |radii| && radii[m - 1] <= target <= radii[m]
  {
    var length := |radii|;
    if radii[0] > target {
      return 0;
    } else if radii[length - 1] <= target {
      return length - 1;
    }
    var d: nat := 4;
    m := length / 2;
    StartBounds(length);
    while !(radii[m - 1] <= target && target <= radii[m])
      invariant d >= 4
      invariant 1 + Jumps(length / d) <= m && m + Jumps(length / d) <= length - 1
      decreases length / d, Off(radii, target, m)
    {
      var a := length / d;
      ghost var before, dBefore := m, d;
      if radii[m - 1] == radii[m] {
        break;
      } else if target < radii[m] {
        m := m - (if a != 0 then a else 1);
      } else {
        m := m + (if a != 0 then a else 1);
      }
      d := 2 * (if d <= length then d else length);
      if dBefore <= length {
        JumpStep(length, dBefore, d);
      } else {
        QuotientZero(length, dBefore);
        QuotientZero(length, d);
        WalkStep(radii, target, before, m);
      }
    }
  }

  /** While the width `length / d` is positive, one jump spends it and the next width is its half. */
  lemma JumpStep(n: nat, d: nat, d': nat)
    requires 4 <= d <= n && d' == 2 * d
    ensures n / d >= 1 && n / d' == (n / d) / 2
    ensures Jumps(n / d) == n / d + Jumps(n / d')
  {
    QuotientPositive(n, d);
    HalveQuotient(n, d);
  }

  /**
   * Once the width is zero the search walks one step toward the target's
   * side; it stays within the sequence and gets closer to a bracketing index.
   */
  lemma WalkStep(radii: seq<U32>, target: U32, m: nat, m': nat)
    requires Sorted(radii) && 1 <= m < |radii|
    requires radii[0] <= target < radii[|radii| - 1]
    requires !(radii[m - 1] <= target && target <= radii[m])
    requires m' == if target < radii[m] then m - 1 else m + 1
    ensures 1 <= m' < |radii|
    ensures Off(radii, target, m') < Off(radii, target, m)
  {
  }

  // ------------------------------------------------------------- intersect

  /**
   * `_smallest_spherical_intersection`: the foot of the perpendicular from
   * the mesh centre onto the ray's line, if it lies ahead of the origin. A
   * zero direction gives NaN and so no point.
   */
  function SmallestSpherical(center: V3, o: V3, d: V3): Option<V3>
  {
    var ls := Dot(d, d);
    if ls == 0.0 then None
    else
      var i := Sub(o, Scale(Dot(d, Sub(o, center)) / ls, d));
      if Dot(Sub(i, o), d) > 0.0 then Some(i) else None
  }

  lemma DotScaleRight(d: V3, t: real)
    ensures Dot(Scale(t, d), d) == t * Dot(d, d)
  {
  }

  lemma DotSubSwap(d: V3, a: V3, b: V3)
    ensures Dot(d, Sub(a, b)) == -Dot(d, Sub(b, a))
  {
  }

  lemma PositiveProduct(t: real, ls: real)
    requires ls > 0.0
    ensures t * ls > 0.0 <==> t > 0.0
  {
    if t > 0.0 {
      assert t * ls > 0.0;
    } else {
      assert t * ls <= 0.0;
    }
  }

  /** The point o + t d, where t d is the projection of the centre's offset onto the direction. */
  lemma ProjectionFacts(center: V3, o: V3, d: V3, t: real)
    requires Dot(d, d) > 0.0
    requires t * Dot(d, d) == Dot(d, Sub(center, o))
    ensures Dot(Sub(Add(o, Scale(t, d)), o), d) > 0.0 <==> Dot(d, Sub(center, o)) > 0.0
    ensures Dot(Sub(Add(o, Scale(t, d)), center), d) == 0.0
  {
    var i := Add(o, Scale(t, d));
    assert Sub(i, o) == Scale(t, d);
    DotScaleRight(d, t);
    PositiveProduct(t, Dot(d, d));
    assert Dot(Sub(i, center), d) == Dot(Sub(o, center), d) + Dot(Scale(t, d), d);
    DotSubSwap(d, o, center);
  }

  lemma SmallestSphericalForm(center: V3, o: V3, d: V3)
    requires Dot(d, d) != 0.0
    ensures var t := Dot(d, Sub(center, o)) / Dot(d, d);
      && t * Dot(d, d) == Dot(d, Sub(center, o))
      && SmallestSpherical(center, o, d) ==
         (if Dot(Sub(Add(o, Scale(t, d)), o), d) > 0.0 then Some(Add(o, Scale(t, d))) else None)
  {
    var ls := Dot(d, d);
    var s := Dot(d, Sub(o, center));
    DotSubSwap(d, o, center);
    var t := Dot(d, Sub(center, o)) / ls;
    assert t == -(s / ls);
    assert Sub(o, Scale(s / ls, d)) == Add(o, Scale(t, d));
  }

  /**
   * The closest-approach point exists exactly when the centre lies ahead of
   * the origin; it is on the ray, ahead of the origin, and the
   * centre-to-point vector is perpendicular to the direction.
   */
  lemma SmallestSphericalSpec(center: V3, o: V3, d: V3)
    ensures SmallestSpherical(center, o, d).Some? <==> Dot(d, Sub(center, o)) > 0.0
    ensures SmallestSpherical(center, o, d).Some? ==>
      var i := SmallestSpherical(center, o, d).value;
      (exists t: real :: t > 0.0 && i == Add(o, Scale(t, d))) && Dot(Sub(i, center), d) == 0.0
  {
    if d != Zero {
      SquaredNormPositive(d);
    }
    if Dot(d, d) != 0.0 {
      SmallestSphericalForm(center, o, d);
      var t := Dot(d, Sub(center, o)) / Dot(d, d);
      ProjectionFacts(center, o, d, t);
      PositiveProduct(t, Dot(d, d));
    }
  }

  /** `to_f32` as written (src/mesh.rs:154): a key times 1e-6. */
  function ShellRadiusAsWritten(key: U32): real
  {
    key as real * 0.000001
  }

  /** With the 1e-6 factor, the sphere probed for shell k has the radius of shell k/10. */
  lemma ShellRadiusAsWrittenShrinks(key: U32)
    ensures RadiusKey(ShellRadiusAsWritten(key)) == key / 10
  {
    var q := key / 10;
    var x := ShellRadiusAsWritten(key) * 100000.0;
    assert x == key as real / 10.0;
    assert q as real <= x < q as real + 1.0;
  }

  lemma ShellRadiusAsWrittenCounterexample()
    ensures RadiusKey(ShellRadiusAsWritten(100)) == 10
  {
    ShellRadiusAsWrittenShrinks(100);
  }

  /** `to_f32` as intended: the inverse of `to_u32`, a key divided by 100000. */
  function ShellRadius(key: U32): (r: real)
    ensures RadiusKey(r) == key
  {
    key as real / 100000.0
  }

  /** A distance lies within the shell its key names: at most 1e-5 beyond the shell radius. */
  lemma ShellRadiusCell(x: real)
    requires 0.0 <= x * 100000.0 < U32Max as real
    ensures ShellRadius(RadiusKey(x)) <= x < ShellRadius(RadiusKey(x)) + 0.00001
  {
  }

  /** `intersect_triangle` on one triangle, keeping its normal. */
  function TriangleHit(t: Triangle, o: V3, d: V3): Option<Hit>
  {
    match IntersectTriangle(t.p1, t.p2, t.p3, o, d)
    case None => None
    case Some(x) => Some(Hit(x, t.normal))
  }

  /** The first candidate the ray hits, in the order given. */
  function FirstHit(ts: seq<Triangle>, o: V3, d: V3): Option<Hit>
  {
    if ts == [] then None
    else if TriangleHit(ts[0], o, d).Some? then TriangleHit(ts[0], o, d)
    else FirstHit(ts[1..], o, d)
  }

  /** There is no first hit exactly when the ray misses every candidate. */
  lemma {:induction false} FirstHitNone(ts: seq<Triangle>, o: V3, d: V3)
    ensures FirstHit(ts, o, d).None? <==> forall k :: 0 <= k < |ts| ==> TriangleHit(ts[k], o, d).None?
  {
    if ts != [] && TriangleHit(ts[0], o, d).None? {
      FirstHitNone(ts[1..], o, d);
      assert forall k :: 1 <= k < |ts| ==> ts[1..][k - 1] == ts[k];
    }
  }

  /** The first hit is the hit of some candidate k, and every candidate before k is missed. */
  lemma {:induction false} FirstHitIndex(ts: seq<Triangle>, o: V3, d: V3) returns (k: nat)
    requires FirstHit(ts, o, d).Some?
    ensures k < |ts| && FirstHit(ts, o, d) == TriangleHit(ts[k], o, d)
    ensures forall j :: 0 <= j < k ==> TriangleHit(ts[j], o, d).None?
  {
    if TriangleHit(ts[0], o, d).Some? {
      k := 0;
    } else {
      var k' := FirstHitIndex(ts[1..], o, d);
      k := k' + 1;
      assert ts[k] == ts[1..][k'];
      forall j | 0 <= j < k ensures TriangleHit(ts[j], o, d).None? {
        if j > 0 {
          assert ts[j] == ts[1..][j - 1];
        }
      }
    }
  }

  /** The inner `for` loop of `intersect`: stops at the first candidate the ray hits. */
  method FirstCandidateHit(cands: seq<Triangle>, o: V3, d: V3) returns (result: Option<Hit>, found: bool)
    ensures result == FirstHit(cands, o, d)
    ensures found <==> result.Some?
  {
    result, found := None, false;
    for j := 0 to |cands|
      invariant result.None? && !found
      invariant FirstHit(cands[j..], o, d) == FirstHit(cands, o, d)
    {
      assert cands[j..][0] == cands[j] && cands[j..][1..] == cands[j + 1..];
      match IntersectTriangle(cands[j].p1, cands[j].p2, cands[j].p3, o, d)
      case Some(sol) =>
        result := Some(Hit(sol, cands[j].normal));
        found := true;
        break;
      case None =>
    }
  }

  /** The shell search's first point: None when either sphere test fails (or the radius is NaN). */
  function Entry(m: Mesh, o: V3, d: V3, sphere: real -> Option<V3>): Option<V3>
  {
    if SmallestSpherical(m.center, o, d).None? || m.maxRadius.None? then None
    else sphere(m.maxRadius.value)
  }

  /**
   * The outer loop of `intersect`, from shell index i with query point p:
   * the first hit among the candidates of that shell; failing that, the
   * next smaller shell, queried at the ray's point on the sphere whose
   * radius `radiusOf` gives for that shell's key, unless i is 0 or the ray
   * misses that sphere. `intersect` itself converts with
   * `ShellRadiusAsWritten`.
   */
  function Scan(m: Mesh, o: V3, d: V3, sphere: real -> Option<V3>, radiusOf: U32 -> real,
                candidates: (seq<V3>, V3) -> seq<Triangle>, i: nat, p: V3): Option<Hit>
    requires i < |m.radii| && Shelved(m)
    decreases i
  {
    var hit := FirstHit(candidates(m.rtree[m.radii[i]], p), o, d);
    if hit.Some? || i == 0 then hit
    else match sphere(radiusOf(m.radii[i - 1]))
      case None => None
      case Some(q) => Scan(m, o, d, sphere, radiusOf, candidates, i - 1, q)
  }

  /** The query points of the shells the scan visits, from shell i downwards. */
  function Visits(m: Mesh, o: V3, d: V3, sphere: real -> Option<V3>, radiusOf: U32 -> real,
                  candidates: (seq<V3>, V3) -> seq<Triangle>, i: nat, p: V3): seq<V3>
    requires i < |m.radii| && Shelved(m)
    decreases i
  {
    var hit := FirstHit(candidates(m.rtree[m.radii[i]], p), o, d);
    if hit.Some? || i == 0 then [p]
    else match sphere(radiusOf(m.radii[i - 1]))
      case None => [p]
      case Some(q) => [p] + Visits(m, o, d, sphere, radiusOf, candidates, i - 1, q)
  }

  /** One step down: the sphere chain of the shells below i-1 extends to shell i. */
  lemma DescentChain(m: Mesh, sphere: real -> Option<V3>, radiusOf: U32 -> real,
                     i: nat, j: nat, q: V3, p: V3, qs': seq<V3>)
    requires 0 < i < |m.radii| && j <= i - 1 && |qs'| == i - j && qs'[0] == q
    requires sphere(radiusOf(m.radii[i - 1])) == Some(q)
    requires forall k :: 1 <= k <= (i - 1) - j ==> sphere(radiusOf(m.radii[(i - 1) - k])) == Some(qs'[k])
    ensures forall k :: 1 <= k <= i - j ==> sphere(radiusOf(m.radii[i - k])) == Some(([p] + qs')[k])
  {
    forall k | 1 <= k <= i - j
      ensures sphere(radiusOf(m.radii[i - k])) == Some(([p] + qs')[k])
    {
      var k' := k - 1;
      assert ([p] + qs')[k] == qs'[k'];
      if k' > 0 {
        assert sphere(radiusOf(m.radii[(i - 1) - k'])) == Some(qs'[k']);
      }
    }
  }

  /** One step down: the shells missed below i-1, together with shell i missed at p. */
  lemma DescentMisses(m: Mesh, o: V3, d: V3, candidates: (seq<V3>, V3) -> seq<Triangle>,
                      i: nat, j: nat, p: V3, qs': seq<V3>)
    requires 0 < i < |m.radii| && Shelved(m) && j <= i - 1 && |qs'| == i - j
    requires FirstHit(candidates(m.rtree[m.radii[i]], p), o, d).None?
    requires forall k :: 0 <= k < (i - 1) - j ==>
      FirstHit(candidates(m.rtree[m.radii[(i - 1) - k]], qs'[k]), o, d).None?
    ensures forall k :: 0 <= k < i - j ==>
      FirstHit(candidates(m.rtree[m.radii[i - k]], ([p] + qs')[k]), o, d).None?
  {
    forall k | 0 <= k < i - j
      ensures FirstHit(candidates(m.rtree[m.radii[i - k]], ([p] + qs')[k]), o, d).None?
    {
      if k > 0 {
        var k' := k - 1;
        assert ([p] + qs')[k] == qs'[k'];
        assert FirstHit(candidates(m.rtree[m.radii[(i - 1) - k']], qs'[k']), o, d).None?;
      }
    }
  }

  /**
   * The descent of the scan: it visits shells i, i-1, ..., j (qs[k] is the
   * query point of shell i-k, the first being p and each next one the
   * ray's point on the sphere of the next shell down); every shell before
   * the last one visited is missed; a hit is the first hit of shell j at
   * its query point; and a scan that finds nothing missed shell j too and
   * stopped because j is 0 or the ray misses the sphere of shell j-1.
   */
  lemma {:induction false} ScanDescent(m: Mesh, o: V3, d: V3, sphere: real -> Option<V3>,
                                       radiusOf: U32 -> real,
                                       candidates: (seq<V3>, V3) -> seq<Triangle>, i: nat, p: V3)
    returns (j: nat, qs: seq<V3>)
    requires i < |m.radii| && Shelved(m)
    ensures qs == Visits(m, o, d, sphere, radiusOf, candidates, i, p)
    ensures j <= i && |qs| == i - j + 1 && qs[0] == p
    ensures forall k :: 1 <= k <= i - j ==> sphere(radiusOf(m.radii[i - k])) == Some(qs[k])
    ensures forall k :: 0 <= k < i - j ==> FirstHit(candidates(m.rtree[m.radii[i - k]], qs[k]), o, d).None?
    ensures var last := FirstHit(candidates(m.rtree[m.radii[j]], qs[i - j]), o, d);
      && (last.Some? ==> Scan(m, o, d, sphere, radiusOf, candidates, i, p) == last)
      && (last.None? ==> Scan(m, o, d, sphere, radiusOf, candidates, i, p).None?
                         && (j == 0 || sphere(radiusOf(m.radii[j - 1])).None?))
    decreases i
  {
    var hit := FirstHit(candidates(m.rtree[m.radii[i]], p), o, d);
    if hit.Some? || i == 0 || sphere(radiusOf(m.radii[i - 1])).None? {
      j, qs := i, [p];
    } else {
      var q := sphere(radiusOf(m.radii[i - 1])).value;
      var j', qs' := ScanDescent(m, o, d, sphere, radiusOf, candidates, i - 1, q);
      j, qs := j', [p] + qs';
      DescentChain(m, sphere, radiusOf, i, j, q, p, qs');
      DescentMisses(m, o, d, candidates, i, j, p, qs');
      assert qs[i - j] == qs'[(i - 1) - j];
    }
  }

  /** h is where the ray meets triangle t, reported with t's normal. */
  predicate HitOf(t: Triangle, o: V3, d: V3, h: Hit)
  {
    IntersectTriangle(t.p1, t.p2, t.p3, o, d) == Some(h.point) && h.normal == t.normal
  }

  /** The first hit comes from one of the candidates. */
  lemma FirstHitSound(ts: seq<Triangle>, o: V3, d: V3) returns (t: Triangle)
    requires FirstHit(ts, o, d).Some?
    ensures t in ts && HitOf(t, o, d, FirstHit(ts, o, d).value)
  {
    var k := FirstHitIndex(ts, o, d);
    t := ts[k];
  }

  /**
   * What the scan returns is a genuine hit of a triangle t that is one of
   * the candidates of some shell k at or below i, for a query point q,
   * carrying that triangle's normal.
   */
  lemma {:induction false} ScanSound(m: Mesh, o: V3, d: V3, sphere: real -> Option<V3>,
                                     radiusOf: U32 -> real,
                                     candidates: (seq<V3>, V3) -> seq<Triangle>, i: nat, p: V3)
    returns (t: Triangle, k: nat, q: V3)
    requires i < |m.radii| && Shelved(m)
    requires Scan(m, o, d, sphere, radiusOf, candidates, i, p).Some?
    ensures k <= i && t in candidates(m.rtree[m.radii[k]], q)
    ensures HitOf(t, o, d, Scan(m, o, d, sphere, radiusOf, candidates, i, p).value)
    decreases i
  {
    var ts := candidates(m.rtree[m.radii[i]], p);
    if FirstHit(ts, o, d).Some? || i == 0 {
      t := FirstHitSound(ts, o, d);
      k, q := i, p;
    } else {
      var q' := sphere(radiusOf(m.radii[i - 1])).value;
      t, k, q := ScanSound(m, o, d, sphere, radiusOf, candidates, i - 1, q');
    }
  }

  /** A scan that finds nothing has found no hit among the candidates of its first shell. */
  lemma ScanMissMeansFirstShellMissed(m: Mesh, o: V3, d: V3, sphere: real -> Option<V3>,
                                      radiusOf: U32 -> real,
                                      candidates: (seq<V3>, V3) -> seq<Triangle>, i: nat, p: V3)
    requires i < |m.radii| && Shelved(m)
    ensures Scan(m, o, d, sphere, radiusOf, candidates, i, p).None? ==>
      var ts := candidates(m.rtree[m.radii[i]], p);
      forall k :: 0 <= k < |ts| ==> IntersectTriangle(ts[k].p1, ts[k].p2, ts[k].p3, o, d).None?
  {
    var ts := candidates(m.rtree[m.radii[i]], p);
    if Scan(m, o, d, sphere, radiusOf, candidates, i, p).None? {
      assert FirstHit(ts, o, d).None?;
      FirstHitNone(ts, o, d);
      forall k | 0 <= k < |ts| ensures IntersectTriangle(ts[k].p1, ts[k].p2, ts[k].p3, o, d).None? {
        assert TriangleHit(ts[k], o, d).None?;
      }
    }
  }

  function MinNat(a: nat, b: nat): nat { if a <= b then a else b }

  /**
   * `intersect`. The ray is given by its origin o and direction d. The
   * ray/sphere intersection for a radius, the R-tree's candidate triangles
   * for a shell and a query point (nearest first), and the vector length
   * are parameters. The ghost `start` is the shell index found by the
   * search on the outer sphere's point, and the ghost `lowest` is
   * `index_min`, the lowest shell index the loop may reach. Lower shells
   * are probed at radius `ShellRadiusAsWritten`, as `to_f32` does.
   */
  method Intersect(m: Mesh, o: V3, d: V3, length: V3 -> real, sphere: real -> Option<V3>,
                   candidates: (seq<V3>, V3) -> seq<Triangle>)
    returns (result: Option<Hit>, ghost start: nat, ghost lowest: int)
    requires Coherent(m)
    ensures Entry(m, o, d, sphere).None? ==> result.None?
    ensures Entry(m, o, d, sphere).Some? ==>
      && start < |m.radii|
      && Located(m.radii, RadiusKey(Distance(length, Entry(m, o, d, sphere).value, m.center)), start)
      && lowest == 0
      && result == Scan(m, o, d, sphere, ShellRadiusAsWritten, candidates, start, Entry(m, o, d, sphere).value)
  {
    start, lowest := 0, 0;
    match SmallestSpherical(m.center, o, d) {
    case None => return None, start, lowest;
    case Some(imin) =>
      if m.maxRadius.None? {
        return None, start, lowest;
      }
      match sphere(m.maxRadius.value)
      case None => return None, start, lowest;
      case Some(imax) =>
        var indexMin := Search(m.radii, RadiusKey(Distance(length, imin, m.center)));
        indexMin := if indexMin > 0 then MinNat(0, indexMin - 1) else indexMin;
        lowest := indexMin;
        var index := Search(m.radii, RadiusKey(Distance(length, imax, m.center)));
        start := index;
        var radius := m.radii[index];
        var current := imax;
        result := None;
        var found := false;
        ghost var goal := Scan(m, o, d, sphere, ShellRadiusAsWritten, candidates, start, imax);
        while index >= indexMin
          invariant index < |m.radii| && radius == m.radii[index]
          invariant indexMin == 0 && result.None? && !found
          invariant Scan(m, o, d, sphere, ShellRadiusAsWritten, candidates, index, current) == goal
          decreases index
        {
          var cands := candidates(m.rtree[radius], current);
          result, found := FirstCandidateHit(cands, o, d);
          if found {
            break;
          }
          if index == 0 {
            break;
          } else {
            index := index - 1;
          }
          radius := m.radii[index];
          match sphere(ShellRadiusAsWritten(radius))
          case Some(point) =>
            current := point;
          case None =>
            break;
        }
    }
  }
}
