/**
 * The sphere ray tracer of src/engine.rs: ray/sphere distances, the nearest
 * object along a ray, the bounded reflection loop that colours one pixel,
 * clipping, and the pixel-by-pixel rendering into a two-dimensional array.
 *
 * Square roots, normalisation, vector lengths and `powf` are parameters
 * (`Ops`); everything else is computed over the reals.
 */
module Engine {
  import opened Options
  import opened Vectors
  import opened Numeric

  datatype Sphere = Sphere(center: V3, radius: real)

  datatype Material = Material(ambiant: V3, diffuse: V3, specular: V3, shininess: real, reflection: real)

  /** The engine's state. Nothing in it is changed by rendering. */
  datatype RTEngine = RTEngine(
    posCamera: V3,
    posPixels: array2<V3>,
    posLight: V3,
    objects: seq<Sphere>,
    material: seq<Material>)

  /** The floating-point operations the model does not compute. */
  datatype Ops = Ops(sqrt: real -> real, normalize: V3 -> V3, length: V3 -> real, powf: (real, real) -> real)

  /** An `f32` that may be `f32::INFINITY`. */
  datatype Extended = Finite(value: real) | Infinity

  const One: V3 := V3(1.0, 1.0, 1.0)

  /** `f32::is_sign_positive` on a non-NaN value (the sign of -0.0 is not modelled). */
  predicate SignPositive(x: real) { x >= 0.0 }

  /** `x < m` when m may be infinite. */
  predicate Below(x: real, m: Extended) { m.Infinity? || x < m.value }

  // ------------------------------------------------------------ sphere test

  /** The quantities of `sphere_intersect`: b, c and the discriminant. */
  function QuadB(s: Sphere, o: V3, d: V3): real { Dot(d, Sub(o, s.center)) * 2.0 }

  function QuadC(s: Sphere, o: V3): real
  {
    Dot(Sub(o, s.center), Sub(o, s.center)) - s.radius * s.radius
  }

  function Delta(s: Sphere, o: V3, d: V3): real
  {
    QuadB(s, o, d) * QuadB(s, o, d) - 4.0 * QuadC(s, o)
  }

  /**
   * `sphere_intersect`: the smaller ray parameter at which the ray meets the
   * sphere, or -1 when the discriminant is not positive (no hit, or a
   * tangent ray).
   */
  function SphereIntersect(s: Sphere, o: V3, d: V3, sqrt: real -> real): real
  {
    var b := QuadB(s, o, d);
    var delta := Delta(s, o, d);
    if delta > 0.0 then
      var root := sqrt(delta);
      Min((-b + root) * 0.5, (-b - root) * 0.5)
    else -1.0
  }

  /** sqrt returns the positive square root of every positive argument. */
  ghost predicate IsSqrt(sqrt: real -> real)
  {
    forall x: real :: x > 0.0 ==> sqrt(x) > 0.0 && sqrt(x) * sqrt(x) == x
  }

  /** The point at parameter t lies on the sphere's surface. */
  predicate OnSphere(s: Sphere, o: V3, d: V3, t: real)
  {
    var p := Sub(Add(o, Scale(t, d)), s.center);
    Dot(p, p) == s.radius * s.radius
  }

  lemma SquareOfSum(a: real, b: real, t: real)
    ensures (a + t * b) * (a + t * b) == a * a + 2.0 * t * (b * a) + t * t * (b * b)
  {
  }

  /** The squared distance from the centre along the ray, as a polynomial in t. */
  lemma DistanceAlongRay(w: V3, d: V3, t: real)
    ensures Dot(Add(w, Scale(t, d)), Add(w, Scale(t, d))) == Dot(w, w) + 2.0 * t * Dot(d, w) + t * t * Dot(d, d)
  {
    SquareOfSum(w.x, d.x, t);
    SquareOfSum(w.y, d.y, t);
    SquareOfSum(w.z, d.z, t);
  }

  /** For a unit direction, the squared distance to the surface is a monic quadratic in t. */
  lemma SurfaceQuadratic(s: Sphere, o: V3, d: V3, t: real)
    requires Dot(d, d) == 1.0
    ensures OnSphere(s, o, d, t) <==> t * t + QuadB(s, o, d) * t + QuadC(s, o) == 0.0
  {
    var w := Sub(o, s.center);
    assert Sub(Add(o, Scale(t, d)), s.center) == Add(w, Scale(t, d));
    DistanceAlongRay(w, d, t);
  }

  /** The roots of t^2 + b t + c, given a positive root s of the discriminant. */
  lemma QuadraticRoots(b: real, c: real, s: real, t: real)
    requires s > 0.0 && s * s == b * b - 4.0 * c
    ensures t * t + b * t + c == 0.0 <==> t == (-b + s) * 0.5 || t == (-b - s) * 0.5
  {
    var t1, t2 := (-b + s) * 0.5, (-b - s) * 0.5;
    assert t * t + b * t + c == (t - t1) * (t - t2);
    ZeroProduct(t - t1, t - t2);
  }

  lemma ZeroProduct(x: real, y: real)
    ensures x * y == 0.0 <==> x == 0.0 || y == 0.0
  {
  }

  /** A negative discriminant leaves the quadratic positive everywhere. */
  lemma NoRealRoot(b: real, c: real, t: real)
    requires b * b - 4.0 * c < 0.0
    ensures t * t + b * t + c > 0.0
  {
    var u := t + b * 0.5;
    assert t * t + b * t + c == u * u + (4.0 * c - b * b) * 0.25;
    assert u * u >= 0.0;
  }

  /** A negative discriminant: the line through the ray misses the sphere. */
  lemma MissesSphere(s: Sphere, o: V3, d: V3, t: real)
    requires Dot(d, d) == 1.0 && Delta(s, o, d) < 0.0
    ensures !OnSphere(s, o, d, t)
  {
    SurfaceQuadratic(s, o, d, t);
    NoRealRoot(QuadB(s, o, d), QuadC(s, o), t);
  }

  /** A positive discriminant: the result is a root, and no root is smaller. */
  lemma NearestRoot(s: Sphere, o: V3, d: V3, sqrt: real -> real, t: real)
    requires IsSqrt(sqrt) && Dot(d, d) == 1.0 && Delta(s, o, d) > 0.0
    ensures OnSphere(s, o, d, SphereIntersect(s, o, d, sqrt))
    ensures OnSphere(s, o, d, t) ==> SphereIntersect(s, o, d, sqrt) <= t
  {
    var b, c := QuadB(s, o, d), QuadC(s, o);
    var root := sqrt(Delta(s, o, d));
    assert root > 0.0 && root * root == b * b - 4.0 * c;
    var r := SphereIntersect(s, o, d, sqrt);
    assert r == (-b - root) * 0.5;
    QuadraticRoots(b, c, root, r);
    SurfaceQuadratic(s, o, d, r);
    QuadraticRoots(b, c, root, t);
    SurfaceQuadratic(s, o, d, t);
  }

  /**
   * For a unit direction and a true square root, a result other than the
   * no-hit value is the smaller of the ray parameters on the surface, and a
   * negative discriminant means the line misses the sphere altogether.
   */
  lemma SphereIntersectRoot(s: Sphere, o: V3, d: V3, sqrt: real -> real)
    requires IsSqrt(sqrt) && Dot(d, d) == 1.0
    ensures Delta(s, o, d) <= 0.0 ==> SphereIntersect(s, o, d, sqrt) == -1.0
    ensures Delta(s, o, d) < 0.0 ==> forall t: real :: !OnSphere(s, o, d, t)
    ensures Delta(s, o, d) > 0.0 ==>
      && OnSphere(s, o, d, SphereIntersect(s, o, d, sqrt))
      && forall t: real :: OnSphere(s, o, d, t) ==> SphereIntersect(s, o, d, sqrt) <= t
  {
    if Delta(s, o, d) < 0.0 {
      forall t: real ensures !OnSphere(s, o, d, t) {
        MissesSphere(s, o, d, t);
      }
    } else if Delta(s, o, d) > 0.0 {
      NearestRoot(s, o, d, sqrt, SphereIntersect(s, o, d, sqrt));
      forall t: real | OnSphere(s, o, d, t) ensures SphereIntersect(s, o, d, sqrt) <= t {
        NearestRoot(s, o, d, sqrt, t);
      }
    }
  }

  // --------------------------------------------------------- nearest object

  /** One `sphere_intersect` distance per object, as pushed by the first loop. */
  function Distances(objects: seq<Sphere>, o: V3, d: V3, sqrt: real -> real): (ds: seq<real>)
    ensures |ds| == |objects|
  {
    seq(|objects|, k requires 0 <= k < |objects| => SphereIntersect(objects[k], o, d, sqrt))
  }

  /**
   * The scan of `_nearest_intersected_object` over a list of distances: -1
   * and infinity when no distance is sign-positive, otherwise the index of
   * the least sign-positive distance (the lowest such index on ties) and
   * that distance.
   */
  function NearestOf(ds: seq<real>): (r: (int, Extended))
    ensures -1 <= r.0 < |ds|
    ensures r.0 == -1 ==> r.1 == Infinity
    ensures r.0 >= 0 ==> SignPositive(ds[r.0]) && r.1 == Finite(ds[r.0])
  {
    if ds == [] then (-1, Infinity)
    else
      var best := NearestOf(ds[..|ds| - 1]);
      var x := ds[|ds| - 1];
      if SignPositive(x) && Below(x, best.1) then (|ds| - 1, Finite(x)) else best
  }

  /** Some distance is sign-positive. */
  predicate AnyAhead(ds: seq<real>)
  {
    exists k :: 0 <= k < |ds| && SignPositive(ds[k])
  }

  /** ds[n] is no larger than any sign-positive distance, and smaller than every earlier one. */
  predicate Nearest(ds: seq<real>, n: nat)
    requires n < |ds|
  {
    && (forall k :: 0 <= k < |ds| && SignPositive(ds[k]) ==> ds[n] <= ds[k])
    && (forall k :: 0 <= k < n && SignPositive(ds[k]) ==> ds[n] < ds[k])
  }

  /**
   * The scan finds no object exactly when no distance is sign-positive, and
   * otherwise the least sign-positive distance, at its lowest index.
   */
  lemma {:induction false} NearestOfSpec(ds: seq<real>)
    ensures NearestOf(ds).0 == -1 <==> !AnyAhead(ds)
    ensures NearestOf(ds).0 >= 0 ==> Nearest(ds, NearestOf(ds).0)
  {
    if ds != [] {
      var init := ds[..|ds| - 1];
      NearestOfSpec(init);
      assert forall k :: 0 <= k < |init| ==> init[k] == ds[k];
      if AnyAhead(init) {
        var k :| 0 <= k < |init| && SignPositive(init[k]);
        assert SignPositive(ds[k]);
      }
    }
  }

  /** `_nearest_intersected_object`. */
  method NearestIntersectedObject(objects: seq<Sphere>, o: V3, d: V3, sqrt: real -> real)
    returns (nearestObject: int, minDistance: Extended)
    ensures (nearestObject, minDistance) == NearestOf(Distances(objects, o, d, sqrt))
  {
    var distances: seq<real> := [];
    for i := 0 to |objects|
      invariant distances == Distances(objects[..i], o, d, sqrt)
    {
      distances := distances + [SphereIntersect(objects[i], o, d, sqrt)];
      assert objects[..i + 1][..i] == objects[..i];
    }
    assert objects[..|objects|] == objects;
    nearestObject, minDistance := -1, Infinity;
    for index := 0 to |distances|
      invariant (nearestObject, minDistance) == NearestOf(distances[..index])
    {
      var distance := distances[index];
      assert distances[..index + 1][..index] == distances[..index];
      if SignPositive(distance) && Below(distance, minDistance) {
        minDistance := Finite(distance);
        nearestObject := index;
      }
    }
    assert distances[..|distances|] == distances;
  }

  // ------------------------------------------------------ vectors and clip

  /** `reflected`: the mirror image of a vector in the plane with normal `axis`. */
  function Reflected(v: V3, axis: V3): V3
  {
    Sub(v, Scale(2.0 * Dot(v, axis), axis))
  }

  lemma DotScale(k: real, a: V3, b: V3)
    ensures Dot(Scale(k, a), b) == k * Dot(a, b)
  {
  }

  lemma DotSub(a: V3, b: V3, c: V3)
    ensures Dot(Sub(a, b), c) == Dot(a, c) - Dot(b, c)
  {
  }

  /** For a unit normal, reflection reverses the normal component and keeps the length. */
  lemma ReflectedSpec(v: V3, axis: V3)
    requires Dot(axis, axis) == 1.0
    ensures Dot(Reflected(v, axis), axis) == -Dot(v, axis)
    ensures Dot(Reflected(v, axis), Reflected(v, axis)) == Dot(v, v)
  {
    var k := 2.0 * Dot(v, axis);
    var r := Reflected(v, axis);
    DotSub(v, Scale(k, axis), axis);
    DotScale(k, axis, axis);
    assert Dot(r, axis) == -Dot(v, axis);
    DotSub(v, Scale(k, axis), r);
    DotScale(k, axis, r);
    assert Dot(r, r) == Dot(v, r) - k * Dot(axis, r);
    assert Dot(v, r) == Dot(v, v) - k * Dot(v, axis) by {
      assert Dot(v, r) == Dot(r, v);
      DotSub(v, Scale(k, axis), v);
      DotScale(k, axis, v);
    }
    assert Dot(axis, r) == Dot(r, axis);
  }

  /** For a unit normal, reflecting twice gives the vector back. */
  lemma ReflectedInvolution(v: V3, axis: V3)
    requires Dot(axis, axis) == 1.0
    ensures Reflected(Reflected(v, axis), axis) == v
  {
    ReflectedSpec(v, axis);
  }

  /** One component of `clip`: `x.min(a_max).max(a_min)`. */
  function ClipComponent(x: real, aMin: real, aMax: real): real
  {
    Max(Min(x, aMax), aMin)
  }

  /** `clip`: each component limited to the range from aMin to aMax. */
  function Clip(v: V3, aMin: real, aMax: real): V3
  {
    V3(ClipComponent(v.x, aMin, aMax), ClipComponent(v.y, aMin, aMax), ClipComponent(v.z, aMin, aMax))
  }

  /**
   * Every component of a clipped vector lies in the range, components inside
   * it are kept, and those outside it become the nearer bound.
   */
  lemma ClipSpec(v: V3, aMin: real, aMax: real)
    ensures aMin <= aMax ==> forall i :: 0 <= i < 3 ==> aMin <= At(Clip(v, aMin, aMax), i) <= aMax
    ensures forall i :: 0 <= i < 3 && aMin <= At(v, i) <= aMax ==> At(Clip(v, aMin, aMax), i) == At(v, i)
    ensures forall i :: 0 <= i < 3 && aMin <= aMax && At(v, i) > aMax ==> At(Clip(v, aMin, aMax), i) == aMax
    ensures forall i :: 0 <= i < 3 && At(v, i) < aMin ==> At(Clip(v, aMin, aMax), i) == aMin
  {
  }

  // ------------------------------------------------------------- one pixel

  /**
   * The light reaching the camera from a hit point: ambient, diffuse and
   * specular terms, all three lights being `Vec3A::ONE`.
   */
  function Illumination(e: RTEngine, ops: Ops, m: Material, intersection: V3, normal: V3, toLight: V3): V3
  {
    var toCamera := ops.normalize(Sub(e.posCamera, intersection));
    var h := ops.normalize(Add(toLight, toCamera));
    var ambiant := Mul(m.ambiant, One);
    var diffuse := Scale(Dot(toLight, normal), Mul(m.diffuse, One));
    var specular := Scale(ops.powf(Dot(normal, h), m.shininess * 0.25), Mul(m.specular, One));
    Add(Add(Add(Zero, ambiant), diffuse), specular)
  }

  /** The state the reflection loop carries from one bounce to the next. */
  datatype Bounce = Bounce(origin: V3, direction: V3, color: V3, reflection: real)

  /** What one pass through the loop body does: stop, or move on to the reflected ray. */
  datatype Step = Stop | Continue(next: Bounce)

  predicate WellMatched(e: RTEngine) { |e.objects| <= |e.material| }

  function Advance(b: Bounce, shifted: V3, normal: V3, illumination: V3, weight: real): Bounce
  {
    Bounce(shifted, Reflected(b.direction, normal), Add(b.color, Scale(b.reflection, illumination)), b.reflection * weight)
  }

  function StepOf(e: RTEngine, ops: Ops, b: Bounce): Step
    requires WellMatched(e)
  {
    var hit := NearestOf(Distances(e.objects, b.origin, b.direction, ops.sqrt));
    if hit.0 <= -1 then Stop
    else
      var target := e.objects[hit.0];
      var m := e.material[hit.0];
      var intersection := Add(b.origin, Scale(hit.1.value, b.direction));
      var normal := ops.normalize(Sub(intersection, target.center));
      var shifted := Add(intersection, Scale(0.00001, normal));
      var toLight := ops.normalize(Sub(e.posLight, shifted));
      var shadow := NearestOf(Distances(e.objects, shifted, toLight, ops.sqrt));
      if !shadow.1.Finite? || ops.length(Sub(e.posLight, intersection)) <= shadow.1.value then
        var illumination := Illumination(e, ops, m, intersection, normal, toLight);
        Continue(Advance(b, shifted, normal, illumination, m.reflection))
      else Stop
  }

  /** The loop body's step when the ray hits object target and the light is visible. */
  lemma StepContinues(e: RTEngine, ops: Ops, b: Bounce, target: int, dist: real,
                      intersection: V3, normal: V3, shifted: V3, toLight: V3, lightDistance: Extended)
    requires WellMatched(e)
    requires NearestOf(Distances(e.objects, b.origin, b.direction, ops.sqrt)) == (target, Finite(dist))
    requires 0 <= target < |e.objects|
    requires intersection == Add(b.origin, Scale(dist, b.direction))
    requires normal == ops.normalize(Sub(intersection, e.objects[target].center))
    requires shifted == Add(intersection, Scale(0.00001, normal))
    requires toLight == ops.normalize(Sub(e.posLight, shifted))
    requires NearestOf(Distances(e.objects, shifted, toLight, ops.sqrt)).1 == lightDistance
    requires !(lightDistance.Finite? && lightDistance.value < ops.length(Sub(e.posLight, intersection)))
    ensures StepOf(e, ops, b) == Continue(Advance(b, shifted, normal,
      Illumination(e, ops, e.material[target], intersection, normal, toLight), e.material[target].reflection))
  {
  }

  /** The colour accumulated by at most `fuel` passes of the loop body from b. */
  function Trace(e: RTEngine, ops: Ops, b: Bounce, fuel: nat): V3
    requires WellMatched(e)
    decreases fuel, 1
  {
    if fuel == 0 then b.color else TraceFrom(e, ops, b, fuel)
  }

  /** Trace when at least one pass is left: the pass runs, then the rest follows. */
  function TraceFrom(e: RTEngine, ops: Ops, b: Bounce, fuel: nat): V3
    requires WellMatched(e) && fuel > 0
    decreases fuel, 0
  {
    match StepOf(e, ops, b)
    case Stop => b.color
    case Continue(next) => Trace(e, ops, next, fuel - 1)
  }

  /** The number of passes of `for _ in 0..max_depth`. */
  function Passes(maxDepth: int): nat { if maxDepth <= 0 then 0 else maxDepth }

  /** The colour `_color_contribution` returns for a pixel. */
  function PixelColor(e: RTEngine, ops: Ops, pixel: V3, maxDepth: int): V3
    requires WellMatched(e)
  {
    var direction := ops.normalize(Sub(pixel, e.posCamera));
    Clip(Scale(255.0, Trace(e, ops, Bounce(e.posCamera, direction, Zero, 1.0), Passes(maxDepth))), 0.0, 255.0)
  }

  /**
   * With a zero reflection weight a trace adds nothing: the colour stays as
   * it is, however many bounces remain.
   */
  lemma {:induction false} ZeroReflectionAddsNothing(e: RTEngine, ops: Ops, b: Bounce, fuel: nat)
    requires WellMatched(e) && b.reflection == 0.0
    ensures Trace(e, ops, b, fuel) == b.color
    decreases fuel
  {
    if fuel > 0 {
      match StepOf(e, ops, b)
      case Stop =>
      case Continue(next) =>
        assert next.color == b.color && next.reflection == 0.0;
        ZeroReflectionAddsNothing(e, ops, next, fuel - 1);
    }
  }

  /** With no objects, or no passes, every pixel is black. */
  lemma EmptySceneIsBlack(e: RTEngine, ops: Ops, pixel: V3, maxDepth: int)
    requires WellMatched(e)
    requires e.objects == [] || maxDepth <= 0
    ensures PixelColor(e, ops, pixel, maxDepth) == Zero
  {
    var direction := ops.normalize(Sub(pixel, e.posCamera));
    var b := Bounce(e.posCamera, direction, Zero, 1.0);
    if maxDepth > 0 {
      assert NearestOf(Distances(e.objects, b.origin, b.direction, ops.sqrt)).0 == -1;
    }
    assert Trace(e, ops, b, Passes(maxDepth)) == Zero;
  }

  /** The loop body's step when the ray hits an object that hides the light. */
  lemma StepShadowed(e: RTEngine, ops: Ops, b: Bounce, target: int, dist: real,
                     intersection: V3, shifted: V3, toLight: V3, lightDistance: Extended)
    requires WellMatched(e)
    requires NearestOf(Distances(e.objects, b.origin, b.direction, ops.sqrt)) == (target, Finite(dist))
    requires 0 <= target < |e.objects|
    requires intersection == Add(b.origin, Scale(dist, b.direction))
    requires shifted == Add(intersection, Scale(0.00001, ops.normalize(Sub(intersection, e.objects[target].center))))
    requires toLight == ops.normalize(Sub(e.posLight, shifted))
    requires NearestOf(Distances(e.objects, shifted, toLight, ops.sqrt)).1 == lightDistance
    requires lightDistance.Finite? && lightDistance.value < ops.length(Sub(e.posLight, intersection))
    ensures StepOf(e, ops, b) == Stop
  {
  }

  /**
   * One pass of the loop body of `_color_contribution` from the state b:
   * whether it breaks out of the loop, and otherwise the state it leaves for
   * the next pass.
   */
  method Pass(e: RTEngine, ops: Ops, b: Bounce) returns (stop: bool, next: Bounce)
    requires WellMatched(e)
    ensures stop <==> StepOf(e, ops, b) == Stop
    ensures !stop ==> StepOf(e, ops, b) == Continue(next)
  {
    next := b;
    var targetIndex, minDistance := NearestIntersectedObject(e.objects, b.origin, b.direction, ops.sqrt);
    if targetIndex <= -1 {
      return true, next;
    }
    var nearestObject := e.objects[targetIndex];
    var material := e.material[targetIndex];

    var intersection := Add(b.origin, Scale(minDistance.value, b.direction));
    var normalToSurface := ops.normalize(Sub(intersection, nearestObject.center));
    var shiftedPoint := Add(intersection, Scale(0.00001, normalToSurface));
    var intersectionToLight := ops.normalize(Sub(e.posLight, shiftedPoint));

    var _, lightDistance := NearestIntersectedObject(e.objects, shiftedPoint, intersectionToLight, ops.sqrt);
    var intersectionToLightDistance := ops.length(Sub(e.posLight, intersection));
    if lightDistance.Finite? && lightDistance.value < intersectionToLightDistance {
      StepShadowed(e, ops, b, targetIndex, minDistance.value, intersection, shiftedPoint,
                   intersectionToLight, lightDistance);
      return true, next;
    }

    var illumination := Illumination(e, ops, material, intersection, normalToSurface, intersectionToLight);
    next := Advance(b, shiftedPoint, normalToSurface, illumination, material.reflection);
    StepContinues(e, ops, b, targetIndex, minDistance.value, intersection, normalToSurface, shiftedPoint,
                  intersectionToLight, lightDistance);
    stop := false;
  }

  /** A pass that moves on leaves the rest of the trace to the next state. */
  lemma TraceContinues(e: RTEngine, ops: Ops, b: Bounce, next: Bounce, fuel: nat)
    requires WellMatched(e) && fuel > 0 && StepOf(e, ops, b) == Continue(next)
    ensures Trace(e, ops, b, fuel) == Trace(e, ops, next, fuel - 1)
  {
    assert Trace(e, ops, b, fuel) == TraceFrom(e, ops, b, fuel);
  }

  /** A pass that stops ends the trace with the colour so far. */
  lemma TraceStops(e: RTEngine, ops: Ops, b: Bounce, fuel: nat)
    requires WellMatched(e) && StepOf(e, ops, b) == Stop
    ensures Trace(e, ops, b, fuel) == b.color
  {
    if fuel > 0 {
      assert Trace(e, ops, b, fuel) == TraceFrom(e, ops, b, fuel);
    }
  }

  /**
   * `_color_contribution`: follows the ray from the camera through the
   * pixel for at most `max_depth` bounces, stopping when nothing is hit or
   * the light is hidden, and returns the accumulated colour scaled to 255
   * and clipped.
   */
  method ColorContribution(e: RTEngine, ops: Ops, pixel: V3, maxDepth: int) returns (r: V3)
    requires WellMatched(e)
    ensures r == PixelColor(e, ops, pixel, maxDepth)
    ensures forall i :: 0 <= i < 3 ==> 0.0 <= At(r, i) <= 255.0
  {
    var b := Bounce(e.posCamera, ops.normalize(Sub(pixel, e.posCamera)), V3(0.0, 0.0, 0.0), 1.0);
    ghost var goal := Trace(e, ops, b, Passes(maxDepth));
    var k := 0;
    while k < maxDepth
      invariant 0 <= k <= Passes(maxDepth)
      invariant Trace(e, ops, b, Passes(maxDepth) - k) == goal
      decreases maxDepth - k
    {
      var stop, next := Pass(e, ops, b);
      if stop {
        TraceStops(e, ops, b, Passes(maxDepth) - k);
        break;
      }
      TraceContinues(e, ops, b, next, Passes(maxDepth) - k);
      b := next;
      k := k + 1;
    }
    r := Clip(Scale(255.0, b.color), 0.0, 255.0);
    ClipSpec(Scale(255.0, b.color), 0.0, 255.0);
  }

  // ------------------------------------------------------------- the image

  /** The image `path_tracing` is to produce: each pixel's colour with at most 3 bounces. */
  ghost function Picture(e: RTEngine, ops: Ops): (p: seq<seq<V3>>)
    requires WellMatched(e)
    reads e.posPixels
    ensures |p| == e.posPixels.Length0
    ensures forall i :: 0 <= i < |p| ==> |p[i]| == e.posPixels.Length1
    ensures forall i, j :: 0 <= i < e.posPixels.Length0 && 0 <= j < e.posPixels.Length1 ==>
      p[i][j] == PixelColor(e, ops, e.posPixels[i, j], 3)
  {
    seq(e.posPixels.Length0, i reads e.posPixels requires 0 <= i < e.posPixels.Length0 => seq(e.posPixels.Length1,
      j reads e.posPixels requires 0 <= i < e.posPixels.Length0 && 0 <= j < e.posPixels.Length1 =>
        PixelColor(e, ops, e.posPixels[i, j], 3)))
  }

  /** Every cell before (i, j), row by row, holds its colour in the picture. */
  ghost predicate Painted(colors: array2<V3>, picture: seq<seq<V3>>, i: int, j: int)
    reads colors
  {
    && |picture| == colors.Length0
    && (forall i' :: 0 <= i' < |picture| ==> |picture[i']| == colors.Length1)
    && forall i', j' :: 0 <= i' < colors.Length0 && 0 <= j' < colors.Length1 && (i' < i || (i' == i && j' < j)) ==>
         colors[i', j'] == picture[i'][j']
  }

  /** `colors[[i, j]] = color`, the next cell of the picture. */
  method Paint(colors: array2<V3>, ghost picture: seq<seq<V3>>, i: int, j: int, color: V3)
    requires 0 <= i < colors.Length0 && 0 <= j < colors.Length1
    requires Painted(colors, picture, i, j) && color == picture[i][j]
    modifies colors
    ensures Painted(colors, picture, i, j + 1)
  {
    colors[i, j] := color;
  }

  /**
   * `path_tracing`: a new array of the shape of `pos_pixels`, holding for
   * every pixel its colour with at most 3 bounces.
   */
  method PathTracing(e: RTEngine, ops: Ops) returns (colors: array2<V3>)
    requires WellMatched(e)
    ensures fresh(colors)
    ensures colors.Length0 == e.posPixels.Length0 && colors.Length1 == e.posPixels.Length1
    ensures forall i, j :: 0 <= i < colors.Length0 && 0 <= j < colors.Length1 ==>
      colors[i, j] == PixelColor(e, ops, e.posPixels[i, j], 3)
  {
    var width := e.posPixels.Length0;
    var height := e.posPixels.Length1;
    ghost var picture := Picture(e, ops);
    colors := new V3[width, height]((i, j) => Zero);
    for i := 0 to width
      invariant Painted(colors, picture, i, 0)
      invariant picture == Picture(e, ops)
    {
      for j := 0 to height
        invariant Painted(colors, picture, i, j)
        invariant picture == Picture(e, ops)
      {
        var color := ColorContribution(e, ops, e.posPixels[i, j], 3);
        assert color == picture[i][j];
        Paint(colors, picture, i, j, color);
      }
    }
  }
}
