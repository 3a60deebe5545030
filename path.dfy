/**
 * The grid walk of src/path.rs. A cursor visits, one after another, the cells
 * of a regular grid that the segment from an entry point to an exit point
 * crosses. A cell is named by a packed `u32` key, and per axis a counter holds
 * the number of grid lines still to cross.
 */
module GridPath {
  import opened Options
  import opened Vectors
  import opened Numeric

  // ----- unit_round and round_value -----

  /**
   * The grid line next to `value` in the direction `sign`. Moving up, it is
   * the multiple of `unit` strictly above. Moving down, it is the multiple at or
   * below, or one cell further down when `value` is within 2 EPSILON of a line.
   */
  function UnitRound(value: real, sign: real, unit: real): real
    requires unit > 0.0
  {
    if sign > 0.0 then (DivEuclid(value, unit) + 1.0) * unit
    else
      var divisor := DivEuclid(value, unit);
      divisor * unit - (if value - divisor * unit < 2.0 * Epsilon then unit else 0.0)
  }

  lemma MulMonotone(a: real, b: real, c: real)
    requires a <= b && c > 0.0
    ensures a * c <= b * c
  {
  }

  lemma MulStrict(a: real, b: real, c: real)
    requires a < b && c > 0.0
    ensures a * c < b * c
  {
  }

  lemma BelowQuotient(x: real, u: real, y: real)
    requires u > 0.0 && y <= x / u
    ensures y * u <= x
  {
  }

  lemma AboveQuotient(x: real, u: real, y: real)
    requires u > 0.0 && x / u < y
    ensures x < y * u
  {
  }

  lemma QuotientBelow(x: real, u: real, y: real)
    requires u > 0.0 && x < y * u
    ensures x / u < y
  {
  }

  /** The floor multiple of unit: q * unit <= value < (q + 1) * unit. */
  lemma DivEuclidBounds(value: real, unit: real)
    requires unit > 0.0
    ensures DivEuclid(value, unit) * unit <= value < (DivEuclid(value, unit) + 1.0) * unit
  {
    var q := DivEuclid(value, unit);
    BelowQuotient(value, unit, q);
    AboveQuotient(value, unit, q + 1.0);
  }

  /** Moving up, the border is the least multiple of unit strictly above value. */
  lemma UnitRoundUp(value: real, sign: real, unit: real) returns (k: int)
    requires unit > 0.0 && sign > 0.0
    ensures UnitRound(value, sign, unit) == k as real * unit
    ensures value < k as real * unit && (k - 1) as real * unit <= value
  {
    DivEuclidBounds(value, unit);
    k := (value / unit).Floor + 1;
    assert (k - 1) as real == DivEuclid(value, unit);
  }

  /**
   * Moving down, the border is the greatest multiple of unit that lies at least
   * 2 EPSILON below value (or a whole unit below, when unit is below 2 EPSILON).
   */
  lemma UnitRoundDown(value: real, sign: real, unit: real) returns (k: int)
    requires unit > 0.0 && sign <= 0.0
    ensures UnitRound(value, sign, unit) == k as real * unit
    ensures value - k as real * unit >= 2.0 * Epsilon || value - k as real * unit >= unit
    ensures value - (k + 1) as real * unit < 2.0 * Epsilon
    ensures value < (k + 2) as real * unit
  {
    DivEuclidBounds(value, unit);
    var q := (value / unit).Floor;
    assert q as real == DivEuclid(value, unit);
    if value - q as real * unit < 2.0 * Epsilon {
      k := q - 1;
      assert (k + 1) as real * unit == q as real * unit;
      assert k as real * unit == q as real * unit - unit;
      assert (k + 2) as real * unit == q as real * unit + unit;
    } else {
      k := q;
      assert (k + 1) as real * unit == q as real * unit + unit;
      assert (k + 2) as real * unit == q as real * unit + unit + unit;
    }
  }

  /** round_value: unit_round on each axis, each with its own sign. */
  function RoundValue(v: V3, signnum: V3, unit: real): (r: V3)
    requires unit > 0.0
  {
    V3(UnitRound(v.x, signnum.x, unit), UnitRound(v.y, signnum.y, unit), UnitRound(v.z, signnum.z, unit))
  }

  /** Each border of round_value lies ahead of the point on the side its sign points to. */
  lemma RoundValueAhead(v: V3, signnum: V3, unit: real, i: nat)
    requires unit > 0.0 && i < 3
    ensures At(signnum, i) > 0.0 ==> At(v, i) < At(RoundValue(v, signnum, unit), i) <= At(v, i) + unit
    ensures At(signnum, i) <= 0.0 ==> At(RoundValue(v, signnum, unit), i) < At(v, i)
  {
    var value := At(v, i);
    var sign := At(signnum, i);
    assert At(RoundValue(v, signnum, unit), i) == UnitRound(value, sign, unit);
    if sign > 0.0 {
      var k := UnitRoundUp(value, sign, unit);
      assert k as real * unit == (k - 1) as real * unit + unit;
    } else {
      var k := UnitRoundDown(value, sign, unit);
    }
  }

  // ----- _cut_value and _compute_key -----

  /**
   * The cell index of `value` along one axis: the floor of value / unit, except
   * that a value exactly on a grid line (other than 0) belongs to the lower cell
   * when the walk goes down. The result is cast to u32 as in the source: a
   * negative quotient saturates to 0, and 0 - 1 wraps around.
   */
  function CutValue(value: real, sign: real, unit: real): U32
    requires unit > 0.0
  {
    var divisor := DivEuclid(value, unit);
    var rest := value - divisor * unit;
    if divisor == 0.0 then CastU32(divisor)
    else if sign > 0.0 then CastU32(divisor)
    else if rest > 0.0 then CastU32(divisor)
    else WrapU32(CastU32(divisor) - 1)
  }

  /**
   * k names the grid cell that holds the value: the half-open cell [k, k + 1)
   * when going up (or in the first cell), and (k, k + 1] when going down.
   */
  predicate InCell(value: real, sign: real, unit: real, k: int)
  {
    && ((sign > 0.0 || value < unit) ==> k as real * unit <= value < (k as real + 1.0) * unit)
    && ((sign <= 0.0 && value >= unit) ==> k as real * unit < value <= (k as real + 1.0) * unit)
  }

  /** On a grid that fits in u32, the cut value names the cell that holds the value. */
  lemma CutValueCell(value: real, sign: real, unit: real)
    requires unit > 0.0 && 0.0 <= value < U32Max as real * unit
    ensures InCell(value, sign, unit, CutValue(value, sign, unit))
  {
    var q := CutValueQuotient(value, sign, unit);
    CellBounds(value, sign, unit, q, CutValue(value, sign, unit));
  }

  /** The cut value in terms of the floor quotient q of value by unit. */
  lemma CutValueQuotient(value: real, sign: real, unit: real) returns (q: nat)
    requires unit > 0.0 && 0.0 <= value < U32Max as real * unit
    ensures q as real * unit <= value < (q as real + 1.0) * unit
    ensures CutValue(value, sign, unit) == if q != 0 && sign <= 0.0 && value - q as real * unit <= 0.0 then q - 1 else q
  {
    var d := DivEuclid(value, unit);
    DivEuclidBounds(value, unit);
    QuotientBelow(value, unit, U32Max as real);
    assert 0.0 <= value / unit;
    q := (value / unit).Floor;
    assert d == q as real < U32Max as real;
  }

  lemma CellBounds(value: real, sign: real, unit: real, q: nat, k: int)
    requires unit > 0.0 && q as real * unit <= value < (q as real + 1.0) * unit
    requires k == if q != 0 && sign <= 0.0 && value - q as real * unit <= 0.0 then q - 1 else q
    ensures InCell(value, sign, unit, k)
  {
    if q == 0 {
      assert k == 0;
    } else if sign > 0.0 || value - q as real * unit > 0.0 {
      MulMonotone(1.0, q as real, unit);
    } else {
      assert k as real * unit == q as real * unit - unit;
      assert (k as real + 1.0) * unit == q as real * unit;
      MulMonotone(1.0, q as real, unit);
    }
  }

  /** The grid dimensions `dl`, in cells per axis. */
  datatype Dims = Dims(x: U32, y: U32, z: U32)

  /** `dl[0] * dl[1] * z + dl[0] * y + x` in u32 arithmetic (wrap-around, as in a release build). */
  function Pack(dl: Dims, x: U32, y: U32, z: U32): U32
  {
    WrapU32(dl.x * dl.y * z + dl.x * y + x)
  }

  /** The cell coordinates named by a key, for a grid with positive extent. */
  function Unpack(dl: Dims, key: int): (int, int, int)
    requires dl.x > 0 && dl.y > 0
  {
    (key % dl.x, (key / dl.x) % dl.y, key / (dl.x * dl.y))
  }

  lemma ProductBelow(d: int, k: int)
    requires d > 0 && d * k < d
    ensures k < 1
  {
  }

  lemma ProductAbove(d: int, k: int)
    requires d > 0 && d * k > -d
    ensures k > -1
  {
  }

  lemma DivModUnique(n: int, d: int, q: int, r: int)
    requires d > 0 && 0 <= r < d && n == d * q + r
    ensures n / d == q && n % d == r
  {
    var q' := n / d;
    var r' := n % d;
    assert n == d * q' + r';
    assert d * (q' - q) == r - r';
    ProductBelow(d, q' - q);
    ProductAbove(d, q' - q);
  }

  lemma MulIntMonotone(a: int, b: int, d: int)
    requires a <= b && d > 0
    ensures d * a <= d * b
  {
  }

  /** The packed index of a cell of the grid is below the number of cells. */
  lemma PackBelow(dl: Dims, x: nat, y: nat, z: nat)
    requires x < dl.x && y < dl.y && z < dl.z
    ensures dl.x * dl.y * z + dl.x * y + x < dl.x * dl.y * dl.z
  {
    var plane := dl.x * dl.y;
    MulIntMonotone(y + 1, dl.y, dl.x);
    assert dl.x * y + x < plane;
    MulIntMonotone(z + 1, dl.z, plane);
    assert plane * z + plane <= plane * dl.z;
  }

  /** Division by the row and plane sizes recovers the coordinates of a packed index. */
  lemma UnpackIndex(dl: Dims, x: nat, y: nat, z: nat)
    requires x < dl.x && y < dl.y
    ensures Unpack(dl, dl.x * dl.y * z + dl.x * y + x) == (x, y, z)
  {
    var n := dl.x * dl.y * z + dl.x * y + x;
    MulIntMonotone(y + 1, dl.y, dl.x);
    assert n == dl.x * (dl.y * z + y) + x;
    DivModUnique(n, dl.x, dl.y * z + y, x);
    DivModUnique(dl.y * z + y, dl.y, z, y);
    DivModUnique(n, dl.x * dl.y, z, dl.x * y + x);
  }

  /** Inside a grid that fits in u32, the key does not wrap and names its cell uniquely. */
  lemma PackUnpack(dl: Dims, x: U32, y: U32, z: U32)
    requires x < dl.x && y < dl.y && z < dl.z
    requires dl.x * dl.y * dl.z <= U32Modulus
    ensures Pack(dl, x, y, z) == dl.x * dl.y * z + dl.x * y + x
    ensures Unpack(dl, Pack(dl, x, y, z)) == (x, y, z)
  {
    PackBelow(dl, x, y, z);
    UnpackIndex(dl, x, y, z);
  }

  // ----- the state of a walk -----

  /** What new fixes for the whole walk: the keys, direction, unit, grid and signs. */
  datatype PathSetup = PathSetup(inKey: U32, outKey: U32, direction: V3, unit: real, dl: Dims, signnum: V3)

  /** What next changes: the first flag, current key and point, counters and borders. */
  datatype Cursor = Cursor(first: bool, key: U32, point: V3, div: seq<int>, borders: V3)

  /** _compute_key: the packed key of the cell holding v. */
  function ComputeKey(setup: PathSetup, v: V3): U32
    requires setup.unit > 0.0
  {
    Pack(setup.dl, CutValue(v.x, setup.signnum.x, setup.unit), CutValue(v.y, setup.signnum.y, setup.unit),
         CutValue(v.z, setup.signnum.z, setup.unit))
  }

  /** The counter of one axis: (|d| div_euclid unit) * signum(d), cast to i32. */
  function Counter(d: real, unit: real): int
    requires unit > 0.0
  {
    CastI32(DivEuclid(Abs(d), unit) * Signum(d))
  }

  /**
   * The counter carries the sign of signum(d); its magnitude is the number of
   * whole units in |d|, and it is 0 for a component shorter than one unit.
   */
  lemma CounterValue(d: real, unit: real)
    requires unit > 0.0
    ensures Signum(d) > 0.0 ==> 0 <= Counter(d, unit) <= I32Max
    ensures Signum(d) < 0.0 ==> I32Min <= Counter(d, unit) <= 0
    ensures (Abs(d) / unit).Floor <= I32Max ==>
              Counter(d, unit) == if d >= 0.0 then (Abs(d) / unit).Floor else -(Abs(d) / unit).Floor
    ensures Abs(d) < unit ==> Counter(d, unit) == 0
  {
    var q := (Abs(d) / unit).Floor;
    assert Abs(d) / unit >= 0.0;
    if Abs(d) < unit {
      QuotientBelow(Abs(d), unit, 1.0);
    }
  }

  /** The setup of Path::new. */
  function StartSetup(inKey: U32, inPoint: V3, outKey: U32, outPoint: V3, unit: real, dl: Dims): PathSetup
  {
    var direction := Sub(outPoint, inPoint);
    PathSetup(inKey, outKey, direction, unit, dl, V3(Signum(direction.x), Signum(direction.y), Signum(direction.z)))
  }

  /** The cursor of Path::new: at the entry point and key, with the first flag set. */
  function StartCursor(setup: PathSetup, inPoint: V3): Cursor
    requires setup.unit > 0.0
  {
    var d := setup.direction;
    Cursor(true, setup.inKey, inPoint, [Counter(d.x, setup.unit), Counter(d.y, setup.unit), Counter(d.z, setup.unit)],
           RoundValue(inPoint, setup.signnum, setup.unit))
  }

  /**
   * One axis is consistent: its sign is +1 or -1, its counter is an i32 that
   * has that sign (or is 0), and an axis the segment does not move along has no
   * line to cross.
   */
  predicate AxisInv(setup: PathSetup, div: seq<int>, i: nat)
    requires i < 3 && |div| == 3
  {
    && (At(setup.signnum, i) == 1.0 || At(setup.signnum, i) == -1.0)
    && (At(setup.signnum, i) == 1.0 ==> 0 <= div[i] <= I32Max)
    && (At(setup.signnum, i) == -1.0 ==> I32Min <= div[i] <= 0)
    && (At(setup.direction, i) == 0.0 ==> div[i] == 0)
  }

  /** The three counters, each consistent with its axis. */
  predicate Counters(setup: PathSetup, div: seq<int>)
  {
    |div| == 3 && forall i: nat :: i < 3 ==> AxisInv(setup, div, i)
  }

  predicate Inv(setup: PathSetup, c: Cursor)
  {
    setup.unit > 0.0 && Counters(setup, c.div)
  }

  lemma StartAxis(setup: PathSetup, c: Cursor, i: nat)
    requires setup.unit > 0.0 && |c.div| == 3 && i < 3
    requires At(setup.signnum, i) == Signum(At(setup.direction, i))
    requires c.div[i] == Counter(At(setup.direction, i), setup.unit)
    ensures AxisInv(setup, c.div, i)
  {
    CounterValue(At(setup.direction, i), setup.unit);
  }

  /** Path::new sets up a consistent walk. */
  lemma StartInv(inKey: U32, inPoint: V3, outKey: U32, outPoint: V3, unit: real, dl: Dims)
    requires unit > 0.0
    ensures var setup := StartSetup(inKey, inPoint, outKey, outPoint, unit, dl);
            Inv(setup, StartCursor(setup, inPoint))
  {
    var setup := StartSetup(inKey, inPoint, outKey, outPoint, unit, dl);
    var c := StartCursor(setup, inPoint);
    StartAxis(setup, c, 0);
    StartAxis(setup, c, 1);
    StartAxis(setup, c, 2);
  }

  // ----- choosing the axis: filter(div != 0).min_by(t) -----

  /**
   * The parameter t at which the ray reaches the border of axis i. An axis
   * without movement has no finite t (the float quotient is infinite or NaN);
   * such an axis is never eligible, so its value here is immaterial.
   */
  function Ratio(setup: PathSetup, c: Cursor, i: nat): real
    requires i < 3
  {
    if At(setup.direction, i) == 0.0 then 0.0
    else (At(c.borders, i) - At(c.point, i)) / At(setup.direction, i)
  }

  function Ratios(setup: PathSetup, c: Cursor): seq<real>
  {
    [Ratio(setup, c, 0), Ratio(setup, c, 1), Ratio(setup, c, 2)]
  }

  /** The axes kept by the filter: those whose counter is not 0. */
  function Eligible(c: Cursor): seq<bool>
    requires |c.div| == 3
  {
    [c.div[0] != 0, c.div[1] != 0, c.div[2] != 0]
  }

  /**
   * Iterator::min_by over the eligible indices from i on, starting from the
   * best index so far: a later element replaces it only when strictly smaller.
   */
  function MinBy(ts: seq<real>, ok: seq<bool>, i: nat, best: Option<nat>): (r: Option<nat>)
    requires |ok| == |ts| && i <= |ts|
    requires best.Some? ==> best.value < i
    ensures r.Some? ==> r.value < |ts|
    decreases |ts| - i
  {
    if i == |ts| then best
    else if ok[i] && (best.None? || ts[i] < ts[best.value]) then MinBy(ts, ok, i + 1, Some(i))
    else MinBy(ts, ok, i + 1, best)
  }

  function Choose(ts: seq<real>, ok: seq<bool>): (r: Option<nat>)
    requires |ok| == |ts|
    ensures r.Some? ==> r.value < |ts|
  {
    MinBy(ts, ok, 0, None)
  }

  /** k is eligible, minimal among the eligible of ts[..n], and strictly below every eligible one before it. */
  predicate PrefixArgMin(ts: seq<real>, ok: seq<bool>, n: nat, k: nat)
    requires |ok| == |ts| && n <= |ts|
  {
    && k < n && ok[k]
    && (forall j :: 0 <= j < n && ok[j] ==> ts[k] <= ts[j])
    && (forall j :: 0 <= j < k && ok[j] ==> ts[k] < ts[j])
  }

  predicate NoneEligible(ok: seq<bool>, n: nat)
    requires n <= |ok|
  {
    forall j :: 0 <= j < n ==> !ok[j]
  }

  lemma {:induction false} MinByArgMin(ts: seq<real>, ok: seq<bool>, i: nat, best: Option<nat>)
    requires |ok| == |ts| && i <= |ts|
    requires best.Some? ==> best.value < i
    requires best.None? ==> NoneEligible(ok, i)
    requires best.Some? ==> PrefixArgMin(ts, ok, i, best.value)
    ensures var r := MinBy(ts, ok, i, best);
            (r.None? <==> NoneEligible(ok, |ts|)) && (r.Some? ==> PrefixArgMin(ts, ok, |ts|, r.value))
    decreases |ts| - i
  {
    if i < |ts| {
      if ok[i] && (best.None? || ts[i] < ts[best.value]) {
        MinByArgMin(ts, ok, i + 1, Some(i));
      } else {
        MinByArgMin(ts, ok, i + 1, best);
      }
    }
  }

  /**
   * The axis the step takes: None exactly when no axis is eligible, and
   * otherwise the unique eligible axis of minimal t that comes first among equals.
   */
  lemma ChooseSpec(ts: seq<real>, ok: seq<bool>)
    requires |ok| == |ts|
    ensures Choose(ts, ok).None? <==> NoneEligible(ok, |ts|)
    ensures forall k: nat :: PrefixArgMin(ts, ok, |ts|, k) <==> Choose(ts, ok) == Some(k)
  {
    MinByArgMin(ts, ok, 0, None);
    forall k: nat | PrefixArgMin(ts, ok, |ts|, k)
      ensures Choose(ts, ok) == Some(k)
    {
      var m := Choose(ts, ok).value;
      assert PrefixArgMin(ts, ok, |ts|, m);
      assert k == m;
    }
  }

  // ----- next -----

  /**
   * The move of one step along axis i, before the key is recomputed: the point
   * advances by t along the direction, that axis's counter steps one toward 0,
   * and its border moves one unit-vector step (not one `unit`) while the
   * counter stays non-zero.
   */
  function Move(setup: PathSetup, c: Cursor, i: nat, t: real): Cursor
    requires |c.div| == 3 && i < 3
  {
    var div := StepCounter(setup, c.div, i);
    Cursor(false, c.key, Add(c.point, Scale(t, setup.direction)), div, StepBorder(setup, c.borders, div, i))
  }

  /** `div[i] -= signnum[i] as i32`. */
  function StepCounter(setup: PathSetup, div: seq<int>, i: nat): seq<int>
    requires |div| == 3 && i < 3
  {
    div[i := div[i] - SignStep(At(setup.signnum, i))]
  }

  /** `borders += signnum * BASE[i] * (1 or 0)`, after the counter has stepped. */
  function StepBorder(setup: PathSetup, borders: V3, div: seq<int>, i: nat): V3
    requires |div| == 3 && i < 3
  {
    if div[i] != 0 then Add(borders, Mul(setup.signnum, Axis(i))) else borders
  }

  /** `signnum[i] as i32` for a sign that is +1 or -1. */
  function SignStep(sign: real): int
  {
    if sign > 0.0 then 1 else -1
  }

  lemma SignStepCast(sign: real)
    requires sign == 1.0 || sign == -1.0
    ensures CastI32(sign) == SignStep(sign)
  {
  }

  /** Adding the signed unit vector scaled by 1 or 0 is adding it or nothing. */
  lemma BorderStep(b: V3, signnum: V3, i: nat, nonZero: bool)
    requires i < 3
    ensures Add(b, Scale(if nonZero then 1.0 else 0.0, Mul(signnum, Axis(i))))
         == if nonZero then Add(b, Mul(signnum, Axis(i))) else b
  {
  }

  /**
   * Path::next on values. The first call only clears the flag. At the exit
   * key, or with no eligible axis, the call returns false and changes nothing.
   * Otherwise the cursor makes the Move of the chosen axis, by that axis's
   * ratio, and takes the key of the cell of its new point.
   */
  function NextSpec(setup: PathSetup, c: Cursor): (bool, Cursor)
    requires Inv(setup, c)
  {
    if c.first then (true, c.(first := false))
    else if c.key == setup.outKey then (false, c)
    else
      match Choose(Ratios(setup, c), Eligible(c))
      case None => (false, c)
      case Some(i) =>
        var d := Move(setup, c, i, Ratio(setup, c, i));
        (true, d.(key := ComputeKey(setup, d.point)))
  }

  /** The first call returns true and changes nothing but the flag. */
  lemma NextFirst(setup: PathSetup, c: Cursor)
    requires Inv(setup, c) && c.first
    ensures NextSpec(setup, c) == (true, c.(first := false))
  {
  }

  /** After the first call, at the exit key, next returns false and changes nothing. */
  lemma NextAtExit(setup: PathSetup, c: Cursor)
    requires Inv(setup, c) && !c.first && c.key == setup.outKey
    ensures NextSpec(setup, c) == (false, c)
  {
  }

  /** With every counter at 0 there is no axis left to step: false, nothing changes. */
  lemma NextExhausted(setup: PathSetup, c: Cursor)
    requires Inv(setup, c) && !c.first && c.div == [0, 0, 0]
    ensures NextSpec(setup, c) == (false, c)
  {
    ChooseSpec(Ratios(setup, c), Eligible(c));
  }

  function Size(d: int): nat
  {
    if d < 0 then -d else d
  }

  /** What is left of the walk: the pending first call and the lines still to cross. */
  function Measure(c: Cursor): nat
    requires |c.div| == 3
  {
    (if c.first then 1 else 0) + Size(c.div[0]) + Size(c.div[1]) + Size(c.div[2])
  }

  lemma StepAxisInv(setup: PathSetup, c: Cursor, d: Cursor, i: nat, j: nat)
    requires Inv(setup, c) && |d.div| == 3 && i < 3 && j < 3
    requires c.div[i] != 0
    requires d.div == c.div[i := c.div[i] - SignStep(At(setup.signnum, i))]
    ensures AxisInv(setup, d.div, j)
    ensures Size(d.div[i]) + 1 == Size(c.div[i])
  {
    assert AxisInv(setup, c.div, i);
    assert AxisInv(setup, c.div, j);
  }

  /**
   * Moving along an axis with lines left to cross keeps the walk consistent,
   * uses up exactly one line of that axis and leaves the other counters alone.
   */
  lemma MoveCounters(setup: PathSetup, c: Cursor, i: nat, t: real)
    requires Inv(setup, c) && !c.first && i < 3 && c.div[i] != 0
    ensures var d := Move(setup, c, i, t);
            && Inv(setup, d) && Size(d.div[i]) + 1 == Size(c.div[i])
            && (forall j :: 0 <= j < 3 && j != i ==> d.div[j] == c.div[j])
            && Measure(d) + 1 == Measure(c)
  {
    var d := Move(setup, c, i, t);
    StepAxisInv(setup, c, d, i, 0);
    StepAxisInv(setup, c, d, i, 1);
    StepAxisInv(setup, c, d, i, 2);
    AxesInv(setup, d);
    assert forall j :: 0 <= j < 3 && j != i ==> d.div[j] == c.div[j];
    assert Measure(d) + 1 == Measure(c);
  }

  lemma AxesInv(setup: PathSetup, c: Cursor)
    requires setup.unit > 0.0 && |c.div| == 3
    requires AxisInv(setup, c.div, 0) && AxisInv(setup, c.div, 1) && AxisInv(setup, c.div, 2)
    ensures Inv(setup, c)
  {
  }

  lemma StepReachesBorder(p: real, b: real, d: real)
    requires d != 0.0
    ensures p + ((b - p) / d) * d == b
  {
  }

  /**
   * The point of a move along an eligible axis lies on that axis's border, and
   * the border of that axis alone moves, by its sign while its counter is non-zero.
   */
  lemma MoveGeometry(setup: PathSetup, c: Cursor, i: nat)
    requires Inv(setup, c) && i < 3 && c.div[i] != 0
    ensures var d := Move(setup, c, i, Ratio(setup, c, i));
            && At(d.point, i) == At(c.borders, i)
            && (forall j :: 0 <= j < 3 && j != i ==> At(d.borders, j) == At(c.borders, j))
            && At(d.borders, i) == At(c.borders, i) + (if d.div[i] != 0 then At(setup.signnum, i) else 0.0)
  {
    assert AxisInv(setup, c.div, i);
    StepReachesBorder(At(c.point, i), At(c.borders, i), At(setup.direction, i));
  }

  /** A true result after the first call comes from the Move of the chosen axis. */
  lemma NextMoves(setup: PathSetup, c: Cursor) returns (i: nat)
    requires Inv(setup, c) && !c.first && NextSpec(setup, c).0
    ensures i < 3 && Choose(Ratios(setup, c), Eligible(c)) == Some(i) && c.div[i] != 0
    ensures PrefixArgMin(Ratios(setup, c), Eligible(c), 3, i)
    ensures var d := Move(setup, c, i, Ratio(setup, c, i)); NextSpec(setup, c).1 == d.(key := ComputeKey(setup, d.point))
  {
    ChooseSpec(Ratios(setup, c), Eligible(c));
    i := Choose(Ratios(setup, c), Eligible(c)).value;
    assert Eligible(c)[i];
  }

  /**
   * A successful step after the first call: the axis taken is the eligible one
   * of least t (lowest index on ties); only its counter changes, one step toward
   * 0; the point reaches that axis's border; the key is that of the new point;
   * and only that axis's border moves, by its sign, while its counter is non-zero.
   */
  lemma NextStep(setup: PathSetup, c: Cursor) returns (i: nat)
    requires Inv(setup, c) && !c.first && NextSpec(setup, c).0
    ensures i < 3 && PrefixArgMin(Ratios(setup, c), Eligible(c), 3, i)
    ensures var d := NextSpec(setup, c).1;
            && |d.div| == 3 && Size(d.div[i]) + 1 == Size(c.div[i])
            && (forall j :: 0 <= j < 3 && j != i ==> d.div[j] == c.div[j])
            && At(d.point, i) == At(c.borders, i)
            && d.key == ComputeKey(setup, d.point)
            && (forall j :: 0 <= j < 3 && j != i ==> At(d.borders, j) == At(c.borders, j))
            && At(d.borders, i) == At(c.borders, i) + (if d.div[i] != 0 then At(setup.signnum, i) else 0.0)
  {
    i := NextMoves(setup, c);
    MoveCounters(setup, c, i, Ratio(setup, c, i));
    MoveGeometry(setup, c, i);
  }

  /** next keeps the walk consistent, and each true result uses up one unit of Measure. */
  lemma NextDecreases(setup: PathSetup, c: Cursor)
    requires Inv(setup, c)
    ensures Inv(setup, NextSpec(setup, c).1)
    ensures NextSpec(setup, c).0 ==> Measure(NextSpec(setup, c).1) + 1 == Measure(c)
    ensures !NextSpec(setup, c).0 ==> NextSpec(setup, c).1 == c
  {
    if c.first {
    } else if NextSpec(setup, c).0 {
      var i := NextMoves(setup, c);
      MoveCounters(setup, c, i, Ratio(setup, c, i));
    }
  }

  /**
   * The keys reported by the successive calls of next that return true, until
   * the first that returns false. There are at most Measure(c) of them, that is
   * 1 + the sum of |div| for a new path: the walk always ends.
   */
  function Run(setup: PathSetup, c: Cursor): (keys: seq<U32>)
    requires Inv(setup, c)
    ensures |keys| <= Measure(c)
    decreases Measure(c)
  {
    NextDecreases(setup, c);
    var (ok, d) := NextSpec(setup, c);
    if !ok then [] else [d.key] + Run(setup, d)
  }

  // ----- the object -----

  /** Path, with the fields of the Rust struct; `div` is the `[i32; 3]` buffer. */
  class Path {
    const inKey: U32
    const outKey: U32
    const direction: V3
    const unit: real
    const dl: Dims
    const signnum: V3
    const div: array<int>
    var currentKey: U32
    var currentPoint: V3
    var borders: V3
    var first: bool

    function Setup(): PathSetup
    {
      PathSetup(inKey, outKey, direction, unit, dl, signnum)
    }

    function State(): Cursor
      reads this, div
    {
      Cursor(first, currentKey, currentPoint, div[..], borders)
    }

    predicate Valid()
      reads this, div
    {
      div.Length == 3 && Inv(Setup(), State())
    }

    /** Path::new. The unit must be positive (div_euclid by 0 is not a number). */
    constructor (inKey: U32, inPoint: V3, outKey: U32, outPoint: V3, unit: real, dx: U32, dy: U32, dz: U32)
      requires unit > 0.0
      ensures Valid() && fresh(div)
      ensures Setup() == StartSetup(inKey, inPoint, outKey, outPoint, unit, Dims(dx, dy, dz))
      ensures State() == StartCursor(Setup(), inPoint)
    {
      var direction := Sub(outPoint, inPoint);
      var signnum := V3(Signum(direction.x), Signum(direction.y), Signum(direction.z));
      this.inKey := inKey;
      this.outKey := outKey;
      this.direction := direction;
      this.unit := unit;
      this.dl := Dims(dx, dy, dz);
      this.signnum := signnum;
      this.div := new int[3] [Counter(direction.x, unit), Counter(direction.y, unit), Counter(direction.z, unit)];
      this.currentKey := inKey;
      this.currentPoint := inPoint;
      this.borders := RoundValue(inPoint, signnum, unit);
      this.first := true;
      new;
      assert div[..] == [Counter(direction.x, unit), Counter(direction.y, unit), Counter(direction.z, unit)];
      assert Setup() == StartSetup(inKey, inPoint, outKey, outPoint, unit, Dims(dx, dy, dz));
      assert State() == StartCursor(Setup(), inPoint);
      StartInv(inKey, inPoint, outKey, outPoint, unit, Dims(dx, dy, dz));
    }

    /** Path::next: one step of the walk, as NextSpec describes it. */
    method Next() returns (r: bool)
      requires Valid()
      modifies this, div
      ensures Valid()
      ensures (r, State()) == NextSpec(Setup(), old(State()))
    {
      NextDecreases(Setup(), State());
      if first {
        first := false;
        return true;
      }
      if currentKey == outKey {
        return false;
      }
      var choice := Choose(Ratios(Setup(), State()), Eligible(State()));
      match choice
      case None =>
        r := false;
      case Some(i) =>
        var t := Ratio(Setup(), State(), i);
        currentPoint := Add(currentPoint, Scale(t, direction));
        currentKey := ComputeKey(Setup(), currentPoint);
        assert AxisInv(Setup(), div[..], i);
        SignStepCast(At(signnum, i));
        div[i] := div[i] - CastI32(At(signnum, i));
        BorderStep(borders, signnum, i, div[i] != 0);
        borders := Add(borders, Scale(if div[i] != 0 then 1.0 else 0.0, Mul(signnum, Axis(i))));
        r := true;
    }
  }
}
