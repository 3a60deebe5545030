# Grid walk, shell index and ray predicates of a small Rust ray tracer

This project is a Dafny model of the core of a Rust ray tracer. The core has
four parts:

- `Path` in `src/path.rs` walks the cells of a regular grid that a segment
  crosses. A cell is named by a packed `u32` key `dl0*dl1*z + dl0*y + x`. Each
  axis has a counter of the grid lines still to cross and a "border", the next
  line on that axis.
- `Mesh` in `src/mesh.rs` groups triangle centres into concentric shells
  around the mesh centre. It keeps the strictly increasing list of shell keys
  (`radii`) and a map from each key to that shell's centres (`rtree`). It also
  has a bracketing search (`_search`) and a shell-by-shell ray query
  (`intersect`).
- The ray/plane, ray/triangle and ray/square predicates in `src/utils.rs`.
  They use barycentric coordinates from a 3x3 inverse.
- The sphere tracer in `src/engine.rs`: the ray/sphere distance, the nearest
  object along a ray, clipping, the bounded reflection loop for one pixel, and
  rendering into a 2-D array.

Coordinates are exact `real`s, not IEEE floats. Rust's `as` casts and `u32`
arithmetic are written out:

- A float cast to `u32` or `i32` truncates and saturates.
- `u32` arithmetic wraps around, as in a release build.
- `f32::signum` is +1 for 0.0.
- `f32::EPSILON` is 2^-23.

Files:

| file | models |
|---|---|
| `options.dfy`, `numeric.dfy`, `vectors.dfy` | `Option`, scalar casts, glam's `Vec3A` |
| `linear.dfy` | the closed-form (adjugate) inverse that replaces `Mat3A::inverse` |
| `geometry.dfy` | `src/utils.rs` |
| `path.dfy` | `src/path.rs`: `Path` is a class whose `div` is an `array<int>` |
| `path_trace.dfy` | the walk of `tests/path.rs`, step by step |
| `mesh.dfy` | `src/mesh.rs`: a mesh is built once and then only read, so it is a datatype |
| `engine.dfy` | `src/engine.rs` |

`Path::next` is proved against the function `NextSpec`. The walk's sequence of
keys is `Run`. Its length is bounded by `Measure`, which is 1 plus the sum of
`|div|`, so every walk ends.

Where the test and the code disagree, the model follows the code. In
`tests/path.rs:22-23`, the test expects key 5 right after the first `next()`.
But the first call only clears the `first` flag (`src/path.rs:79`), so the key
is still 4. Under the code, the calls return true four times, with keys 4, 5,
1 and 3, and the fifth call returns false (`PathTrace.TraceRun`).

## Model

| member | source | states |
|---|---|---|
| Numeric.Signum | src/path.rs:40 | `signum` is +1 or -1, and +1 exactly for values >= 0, including 0 |
| GridPath.UnitRoundUp | src/path.rs:19-21 | moving up, the border is the least multiple of `unit` strictly above the value (so at most one `unit` above) |
| GridPath.UnitRoundDown | src/path.rs:22-25 | moving down, the border is the multiple k·`unit` with value − (k+1)·`unit` < 2·EPSILON ≤ value − k·`unit` (or value ≥ (k+1)·`unit`) and value < (k+2)·`unit`: the floor multiple, or one `unit` lower when the value is within 2·EPSILON above it |
| GridPath.RoundValueAhead | src/path.rs:28-34 | each border from `round_value` lies on the side of the point that its axis's sign points to |
| GridPath.CounterValue | src/path.rs:41-45 | each counter is `floor(|d|/unit)` with the sign of `signum(d)`, is 0 when `|d| < unit`, and stays in the i32 range |
| GridPath.StartInv | src/path.rs:37-50 | `Path::new` sets up a consistent walk: signs are ±1, and counters carry their sign and are 0 on axes without movement |
| GridPath.Path.constructor | src/path.rs:37-50 | the new path holds `in_key`, `in_point`, `first = true`, `direction = out − in`, the counters and the `round_value` borders |
| GridPath.CutValueQuotient | src/path.rs:53-65 | `_cut_value` is `floor(value/unit)`, minus one when the sign is not positive, the quotient is non-zero and the remainder is 0 |
| GridPath.CutValueCell | src/path.rs:53-65 | for `0 <= value` within the u32 grid, the cut value names the cell holding the value: half-open upward, or closed on top when walking down |
| GridPath.PackUnpack | src/path.rs:67-74 | inside a grid whose cell count fits in u32, the key `dl0*dl1*z + dl0*y + x` does not wrap and decodes back to `(x, y, z)` |
| GridPath.MinBy | src/path.rs:85-88 | the `min_by` scan returns an index within the list, if any |
| GridPath.MinByArgMin | src/path.rs:84-88 | the scan returns None exactly when no axis is eligible, else an eligible index of least `t`, strictly below every earlier eligible one |
| GridPath.ChooseSpec | src/path.rs:84-88 | the axis chosen is the unique eligible axis of minimal `t` with the lowest index among ties, and None exactly when no counter is non-zero |
| GridPath.NextFirst | src/path.rs:79 | the first `next()` returns true and changes nothing but clearing `first` |
| GridPath.NextAtExit | src/path.rs:80 | after that, at the exit key `next()` returns false and changes nothing |
| GridPath.NextExhausted | src/path.rs:84-98 | with all counters at 0 no axis is eligible: `next()` returns false and changes nothing |
| GridPath.MoveCounters | src/path.rs:91 | a step moves the chosen counter exactly one step toward 0 and leaves the others alone, so the measure drops by 1 |
| GridPath.MoveGeometry | src/path.rs:89-92 | the new point lies on the chosen axis's border; only that border moves, by its sign (a unit-vector step, not `unit`), and only while its counter is non-zero |
| GridPath.NextStep | src/path.rs:84-97 | a successful step combines these: the minimal-`t` axis, one counter step, the point on the border, the key recomputed from the point, and one border move |
| GridPath.NextDecreases | src/path.rs:76-99 | `next()` keeps the walk consistent; each true result uses up one unit of the measure; a false result changes nothing |
| GridPath.Run | src/path.rs:76-99 | the keys reported before the first false number at most `1 + Σ|div|`, so the walk terminates |
| GridPath.Path.Next | src/path.rs:76-99 | the in-place `next()` returns and leaves exactly the result and state of `NextSpec`, and keeps `Valid()` |
| PathTrace.TraceStart | tests/path.rs:8-9 | for the test path, `Path::new` starts at key 4 with counters (1, 1, −1) and borders (1, 1, 1) |
| PathTrace.Step1 | src/path.rs:84-97 | on the test path, the second call crosses x = 1 at t = 5/12 and reaches key 5 |
| PathTrace.Step2 | src/path.rs:84-97 | the third call crosses z = 1 (the x axis is spent) and reaches key 1 |
| PathTrace.Step3 | src/path.rs:84-97 | the fourth call crosses y = 1 and reaches the exit key 3 |
| PathTrace.TraceRun | tests/path.rs:20-28 | the calls of `next()` on the test path report keys 4, 5, 1, 3 and then return false |
| Linear.Solve | src/utils.rs:8-9 | the adjugate/determinant inverse applied to b solves the system for b |
| Linear.SolveApply | src/utils.rs:8-9 | the solution is unique: solving for `M s` gives `s` back |
| Geometry.IntersectPlane | src/utils.rs:13-20 | None exactly when `direction·normal == 0`; otherwise a point on the plane (`(r − point)·normal = 0`) and on the ray's line |
| Geometry.PlaneHitUnique | src/utils.rs:18 | any point of the ray's line on a non-parallel plane is the one returned, `origin + t·direction` |
| Geometry.PlaneScenario | tests/utils.rs:7-16 | point (0,0,0), normal (0,0,1), origin (1,1,1), direction (0,0,−1) gives (1,1,0) |
| Geometry.BarycentricCoordinates | src/utils.rs:4-11 | for a non-singular system, `target − C = u(A−C) + v(B−C) + w((A−C)×(B−C))` for some `w` |
| Geometry.BarycentricUnique | src/utils.rs:4-11 | any `(u, v, w)` solving that system is what `barycentric_coordinates` returns |
| Geometry.NonParallelSolvable | src/utils.rs:23-28 | when the plane test passes, the barycentric system of the face is non-singular |
| Geometry.IntersectTriangle | src/utils.rs:23-35 | a returned point is the plane point unchanged; None when the plane test fails |
| Geometry.TriangleContainment | src/utils.rs:23-35 | the test returns a point iff the ray meets the face's plane at a convex combination of the vertices (`0≤u, 0≤v, u+v≤1`) |
| Geometry.TriangleAccepts | src/utils.rs:29-31 | a ray point on the plane whose `(u, v)` lie in the unit triangle is exactly what is returned |
| Geometry.TriangleRotation | src/utils.rs:23-35 | the test gives the same result for vertex orders P1 P2 P3 and P2 P3 P1 |
| Geometry.TriangleScenario | tests/utils.rs:19-29 | triangle (−2,−1,0), (11,7,0), (−2,11,0) with origin (1,1,1) and direction (0,0,−1) gives (1,1,0) |
| Geometry.IntersectSquare | src/utils.rs:39-52 | the normal comes from P1, P2, P3; a returned point is the plane point unchanged; None when the plane test fails |
| Geometry.DiamondTest | src/utils.rs:44-48 | on a solvable basis {P1 − centre, P2 − centre}, the absolute-value test is exactly `|u| + |v| ≤ 1` |
| Geometry.SquareContainment | src/utils.rs:39-52 | the square test returns a point iff the plane point lies in the diamond around `centre = ¼ΣPi` |
| MeshIndex.ToTriangle | src/mesh.rs:55-60 | a triangle keeps the facet's vertices and normal, and its centre is their mean |
| MeshIndex.FoldMax | src/mesh.rs:63-64 | `fold(NAN, f32::max)` is NaN only for all-NaN input, else the largest value, which is one of the inputs |
| MeshIndex.MaxRadiusBounds | src/mesh.rs:63-64 | for a non-empty mesh, every vertex lies within `max_radius` of the centre and some vertex reaches it; an empty mesh has NaN |
| MeshIndex.FileCenters | src/mesh.rs:67-75 | every centre is filed in the shell of its key; every shell holds only centres with that key; the key set equals the map's keys |
| MeshIndex.Insert | src/mesh.rs:77-78 | inserting a new key into a strictly increasing list keeps it strictly increasing and adds exactly that key |
| MeshIndex.SortSet | src/mesh.rs:77-78 | `Vec::from_iter(hs)` then `sort()` gives a strictly increasing list of exactly the set's keys |
| MeshIndex.SortedUnique | src/mesh.rs:77-78 | the sorted list does not depend on the hash set's iteration order |
| MeshIndex.NewMesh | src/mesh.rs:47-81 | `radii` is strictly increasing and has exactly the `rtree` keys; centres are filed by key; for a non-empty mesh `center` is the zero vector (it is never accumulated); `max_radius` is the fold over the triangles |
| MeshIndex.Search | src/mesh.rs:119-143 | 0 below `radii[0]`; `len−1` from `radii[len−1]` on; otherwise `radii[m−1] ≤ target ≤ radii[m]` with `1 ≤ m ≤ len−1`; every access stays in bounds, the loop terminates, and with strictly increasing keys the break is never taken |
| MeshIndex.JumpStep | src/mesh.rs:131-139 | while `length / d` is positive, the next jump width is its half |
| MeshIndex.WalkStep | src/mesh.rs:134-138 | once the jump width is 0, the step of 1 stays in bounds and gets closer to a bracketing index |
| MeshIndex.SmallestSphericalSpec | src/mesh.rs:87-90 | the closest-approach point exists iff the centre lies ahead of the origin; it is on the ray, and the centre-to-point vector is perpendicular to the direction |
| MeshIndex.ShellRadiusAsWrittenShrinks | src/mesh.rs:153-154 | with the source's `to_f32`, the sphere probed for shell key k has key k/10 |
| MeshIndex.ShellRadiusAsWrittenCounterexample | src/mesh.rs:153-154 | key 100 is probed at a radius whose key is 10 |
| MeshIndex.ShellRadius | src/mesh.rs:153-154 | the corrected `to_f32` inverts `to_u32`: the key of the shell radius is the key |
| MeshIndex.ShellRadiusCell | src/mesh.rs:70 | a distance lies within 1e-5 above the radius of the shell its key names |
| MeshIndex.FirstHitNone | src/mesh.rs:165-170 | the candidates yield no hit iff every candidate misses |
| MeshIndex.FirstHitIndex | src/mesh.rs:165-170 | a first hit is the hit of some candidate k, and every candidate before k misses |
| MeshIndex.FirstCandidateHit | src/mesh.rs:165-170 | the inner loop stops at the first candidate hit, `[sol, triangle.normal]`, and sets `found` exactly when there is one |
| MeshIndex.ScanDescent | src/mesh.rs:163-178 | for every key-to-radius conversion: the descent visits shells i, i−1, …, j with query points qs (qs[0] = p, qs[k] the ray's point on the sphere of shell i−k); every shell before j misses at its query point; a hit is the first hit of shell j; no result means shell j missed too and the walk stopped at index 0 or at a missed sphere |
| MeshIndex.ScanSound | src/mesh.rs:163-178 | for every key-to-radius conversion, a result of the shell descent is a real hit of a triangle t that is among the candidates of some shell k ≤ i at some query point, carrying t's normal |
| MeshIndex.ScanMissMeansFirstShellMissed | src/mesh.rs:163-178 | for every key-to-radius conversion, a descent with no result has missed every candidate of its first shell |
| MeshIndex.Intersect | src/mesh.rs:145-186 | None when either sphere test fails; otherwise the start index is the search result for the outer hit's key, `index_min` (returned as the ghost `lowest`) is 0, and the result is the shell descent with the source's `to_f32` (`ShellRadiusAsWritten`) in strictly decreasing index order that stops at the first hit, at index 0, or at a missed sphere |
| Engine.SphereIntersectRoot | src/engine.rs:158-170 | for a unit direction: −1 when `b² − 4c ≤ 0`, and then the line misses the sphere if negative; otherwise a surface point's parameter no larger than any other |
| Engine.NearestOf | src/engine.rs:137-145 | the scan returns −1 with infinity, or a sign-positive distance's index with that distance |
| Engine.NearestOfSpec | src/engine.rs:137-145 | (−1, +∞) iff no distance is sign-positive; otherwise the least sign-positive distance at its lowest index (strict `<`) |
| Engine.NearestIntersectedObject | src/engine.rs:127-146 | the two loops compute one distance per object and return that scan's result |
| Engine.ReflectedSpec | src/engine.rs:180-182 | for a unit normal, reflection negates the normal component and keeps the length |
| Engine.ReflectedInvolution | src/engine.rs:180-182 | for a unit normal, reflecting twice gives the vector back |
| Engine.ClipSpec | src/engine.rs:213-216 | with `a_min ≤ a_max`, every component is in range; in-range components are kept; others become the nearer bound |
| Engine.StepShadowed | src/engine.rs:86-91 | the loop stops when an object lies nearer than the light |
| Engine.StepContinues | src/engine.rs:71-116 | with the light visible, the colour gains `reflection · illumination`, the weight is multiplied by the material's, and the ray reflects from the shifted point |
| Engine.Pass | src/engine.rs:71-116 | one pass of the loop body stops exactly when no object is hit or the light is hidden, and otherwise leaves the next bounce |
| Engine.ZeroReflectionAddsNothing | src/engine.rs:109-111 | with zero reflection weight, later bounces add no colour |
| Engine.EmptySceneIsBlack | src/engine.rs:70-75 | with no objects, or `max_depth ≤ 0`, the pixel is black |
| Engine.ColorContribution | src/engine.rs:59-118 | runs at most `max_depth` passes and stops early on a miss or a shadow; the result is the traced colour, scaled by 255 and clipped into [0, 255] |
| Engine.PathTracing | src/engine.rs:41-51 | returns a new array of the shape of `pos_pixels`, holding each pixel's colour with at most 3 bounces |

## Left out

- Reading the STL file (`read_stl`, `src/mesh.rs:48`) and the I/O error path of `Mesh::new`. `NewMesh` takes the facets as a sequence. Image creation and saving in `src/lib.rs` are also left out.
- The R-tree (`rstar::RTree`) and its nearest-neighbour iteration are a foreign data structure. A shell stores its centres as a sequence. The candidate triangles for a shell and a query point are a parameter (`candidates`).
- `hash_function` and `hashtable`: the float-to-`i32` hash and its collisions depend on f32 precision. The candidate oracle returns triangles directly.
- `_spherical_intersection` uses sqrt-based float numerics and is a parameter (`sphere`). The vector length is also a parameter (`length`). `_smallest_spherical_intersection` has no square root and is modelled.
- The shading numerics of `_color_contribution` are parameters (`Ops`): `normalize`, `length`, `sqrt`, `powf`. The structure of the light terms is kept. `transmitted` is dead code and is not modelled.
- IEEE-754 behaviour: rounding, NaN, infinities other than the nearest-object sentinel, and `−0.0`. `is_sign_positive` is modelled as `>= 0`. `div_euclid` is exact. `max_radius` NaN is modelled as `None`.
- `Mat3A::inverse` is replaced by the exact adjugate inverse. A singular square basis would give non-finite coordinates that fail every comparison; it is modelled as None.
- GridPath.Path.constructor: requires `unit > 0`. The source would divide by zero and produce NaN or infinite counters and borders, which is not modelled.
- GridPath.PackUnpack: `u32` overflow in `_compute_key` is modelled as release-build wrap-around. The debug-build panic is not modelled.
- MeshIndex.Search: requires the keys sorted, which `Mesh::new` guarantees for every call. On unsorted keys the source may loop forever or index out of range, and that is not modelled.
- MeshIndex.NewMesh: for an empty facet list the source divides the zero centre by 0 and gets a NaN centre and a NaN `max_radius`. The model keeps the zero centre (so `NewMesh` states the zero centre only for a non-empty mesh) and gives `max_radius` as None, so `Intersect` on such a mesh returns None.
- Engine.ColorContribution: requires at least as many materials as objects. The source panics on an out-of-range material index.
- Engine.SphereIntersectRoot: the root property assumes a unit direction and a true square root. The source assumes a normalised direction too.

## Findings

| source | as written | input that shows it | evidently intended | confidence | as-written member | corrected member |
|---|---|---|---|---|---|---|
| src/mesh.rs:153-154 | `to_f32` multiplies a shell key by 1e-6, but `to_u32` multiplies a distance by 1e5 | shell key 100 (distance 0.001) is probed at radius 0.0001, whose key is 10 | `to_f32` divides by 100000, the inverse of `to_u32`; the descent lemmas hold for either conversion (`radiusOf`), and `Intersect` uses the one as written | medium, not executed | MeshIndex.ShellRadiusAsWrittenCounterexample | MeshIndex.ShellRadius |
