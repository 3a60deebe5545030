/**
 * The walk of tests/path.rs: from (0.5, 0.3, 1.5) in cell 4 to (1.7, 1.7, 0.4)
 * in cell 3, on a 2 x 2 x 2 grid of unit cells. Each step is computed by hand
 * and checked against NextSpec.
 */
module PathTrace {
  import opened Options
  import opened Vectors
  import opened Numeric
  import opened GridPath

  const InPoint: V3 := V3(0.5, 0.3, 1.5)
  const OutPoint: V3 := V3(1.7, 1.7, 0.4)

  const Setup: PathSetup := PathSetup(4, 3, V3(1.2, 1.4, -1.1), 1.0, Dims(2, 2, 2), V3(1.0, 1.0, -1.0))

  /** Path::new: at the entry point, one line to cross per axis, borders at 1. */
  const C0: Cursor := Cursor(true, 4, InPoint, [1, 1, -1], V3(1.0, 1.0, 1.0))
  const C1: Cursor := Cursor(false, 4, InPoint, [1, 1, -1], V3(1.0, 1.0, 1.0))
  /** After crossing x = 1 at t = 5/12. */
  const C2: Cursor := Cursor(false, 5, V3(1.0, 53.0 / 60.0, 25.0 / 24.0), [0, 1, -1], V3(1.0, 1.0, 1.0))
  /** After crossing z = 1 at t = 5/132. */
  const C3: Cursor := Cursor(false, 1, V3(23.0 / 22.0, 103.0 / 110.0, 1.0), [0, 1, 0], V3(1.0, 1.0, 1.0))
  /** After crossing y = 1 at t = 1/22: the exit cell. */
  const C4: Cursor := Cursor(false, 3, V3(1.1, 1.0, 0.95), [0, 0, 0], V3(1.0, 1.0, 1.0))

  lemma StartDirection()
    ensures StartSetup(4, InPoint, 3, OutPoint, 1.0, Dims(2, 2, 2)) == Setup
  {
  }

  lemma StartCounters()
    ensures StartCursor(Setup, InPoint).div == C0.div
  {
    assert Counter(1.2, 1.0) == 1;
    assert Counter(1.4, 1.0) == 1;
    assert Counter(-1.1, 1.0) == -1;
  }

  lemma StartBorders()
    ensures StartCursor(Setup, InPoint).borders == C0.borders
  {
    assert UnitRound(1.5, -1.0, 1.0) == 1.0;
  }

  /** The test's initialization: Path::new starts in the entry cell, key 4. */
  lemma TraceStart()
    ensures StartSetup(4, InPoint, 3, OutPoint, 1.0, Dims(2, 2, 2)) == Setup
    ensures StartCursor(Setup, InPoint) == C0
    ensures C0.key == 4
  {
    StartDirection();
    StartCounters();
    StartBorders();
  }

  lemma TraceInv()
    ensures Inv(Setup, C0) && Inv(Setup, C1) && Inv(Setup, C2) && Inv(Setup, C3) && Inv(Setup, C4)
  {
    StartInv(4, InPoint, 3, OutPoint, 1.0, Dims(2, 2, 2));
    TraceStart();
  }

  /** Once the counter of the axis reaches 0, its border stays where it is. */
  lemma BorderStays(setup: PathSetup, borders: V3, div: seq<int>, i: nat)
    requires |div| == 3 && i < 3 && div[i] == 0
    ensures StepBorder(setup, borders, div, i) == borders
  {
  }

  /** A ratio known from its defining product. */
  lemma RatioIs(setup: PathSetup, c: Cursor, i: nat, t: real)
    requires i < 3 && At(setup.direction, i) != 0.0
    requires At(c.borders, i) - At(c.point, i) == t * At(setup.direction, i)
    ensures Ratio(setup, c, i) == t
  {
  }

  // ----- the second call: x = 1 is the nearest border -----

  lemma Ratios1()
    ensures Ratios(Setup, C1) == [5.0 / 12.0, 0.5, 5.0 / 11.0]
  {
    RatioIs(Setup, C1, 0, 5.0 / 12.0);
    RatioIs(Setup, C1, 1, 0.5);
    RatioIs(Setup, C1, 2, 5.0 / 11.0);
  }

  lemma Choose1()
    ensures Choose([5.0 / 12.0, 0.5, 5.0 / 11.0], [true, true, true]) == Some(0)
  {
  }

  lemma Point1()
    ensures Move(Setup, C1, 0, 5.0 / 12.0).point == C2.point
  {
  }

  lemma Counters1()
    ensures StepCounter(Setup, C1.div, 0) == C2.div
    ensures StepBorder(Setup, C1.borders, C2.div, 0) == C2.borders
  {
    BorderStays(Setup, C1.borders, C2.div, 0);
  }

  lemma Move1()
    ensures Move(Setup, C1, 0, 5.0 / 12.0) == Cursor(false, 4, C2.point, C2.div, C2.borders)
  {
    Point1();
    Counters1();
  }

  lemma Key1()
    ensures ComputeKey(Setup, C2.point) == 5
  {
    assert CutValue(1.0, 1.0, 1.0) == 1;
    assert CutValue(53.0 / 60.0, 1.0, 1.0) == 0;
    assert CutValue(25.0 / 24.0, -1.0, 1.0) == 1;
  }

  lemma Step1()
    ensures Inv(Setup, C1) && NextSpec(Setup, C1) == (true, C2)
  {
    TraceInv();
    Ratios1();
    Choose1();
    Move1();
    Key1();
  }

  // ----- the third call: z = 1 is nearer than y = 1 -----

  lemma Ratios2()
    ensures Ratios(Setup, C2) == [0.0, 1.0 / 12.0, 5.0 / 132.0]
  {
    RatioIs(Setup, C2, 0, 0.0);
    RatioIs(Setup, C2, 1, 1.0 / 12.0);
    RatioIs(Setup, C2, 2, 5.0 / 132.0);
  }

  lemma Choose2()
    ensures Choose([0.0, 1.0 / 12.0, 5.0 / 132.0], [false, true, true]) == Some(2)
  {
  }

  lemma Point2()
    ensures Move(Setup, C2, 2, 5.0 / 132.0).point == C3.point
  {
  }

  lemma Counters2()
    ensures StepCounter(Setup, C2.div, 2) == C3.div
    ensures StepBorder(Setup, C2.borders, C3.div, 2) == C3.borders
  {
    BorderStays(Setup, C2.borders, C3.div, 2);
  }

  lemma Move2()
    ensures Move(Setup, C2, 2, 5.0 / 132.0) == Cursor(false, 5, C3.point, C3.div, C3.borders)
  {
    Point2();
    Counters2();
  }

  lemma Key2()
    ensures ComputeKey(Setup, C3.point) == 1
  {
    assert CutValue(23.0 / 22.0, 1.0, 1.0) == 1;
    assert CutValue(103.0 / 110.0, 1.0, 1.0) == 0;
    assert CutValue(1.0, -1.0, 1.0) == 0;
  }

  lemma Step2()
    ensures Inv(Setup, C2) && NextSpec(Setup, C2) == (true, C3)
  {
    TraceInv();
    Ratios2();
    Choose2();
    Move2();
    Key2();
  }

  // ----- the fourth call: only y is left -----

  lemma Ratios3()
    ensures Ratios(Setup, C3) == [-5.0 / 132.0, 1.0 / 22.0, 0.0]
  {
    RatioIs(Setup, C3, 0, -5.0 / 132.0);
    RatioIs(Setup, C3, 1, 1.0 / 22.0);
    RatioIs(Setup, C3, 2, 0.0);
  }

  lemma Choose3()
    ensures Choose([-5.0 / 132.0, 1.0 / 22.0, 0.0], [false, true, false]) == Some(1)
  {
  }

  lemma Point3()
    ensures Move(Setup, C3, 1, 1.0 / 22.0).point == C4.point
  {
  }

  lemma Counters3()
    ensures StepCounter(Setup, C3.div, 1) == C4.div
    ensures StepBorder(Setup, C3.borders, C4.div, 1) == C4.borders
  {
    BorderStays(Setup, C3.borders, C4.div, 1);
  }

  lemma Move3()
    ensures Move(Setup, C3, 1, 1.0 / 22.0) == Cursor(false, 1, C4.point, C4.div, C4.borders)
  {
    Point3();
    Counters3();
  }

  lemma Key3()
    ensures ComputeKey(Setup, C4.point) == 3
  {
    assert CutValue(1.1, 1.0, 1.0) == 1;
    assert CutValue(1.0, 1.0, 1.0) == 1;
    assert CutValue(0.95, -1.0, 1.0) == 0;
  }

  lemma Step3()
    ensures Inv(Setup, C3) && NextSpec(Setup, C3) == (true, C4)
  {
    TraceInv();
    Ratios3();
    Choose3();
    Move3();
    Key3();
  }

  // ----- the whole walk -----

  /** One successful call of next puts its key in front of the rest of the run. */
  lemma RunStep(setup: PathSetup, c: Cursor, d: Cursor)
    requires Inv(setup, c) && Inv(setup, d) && NextSpec(setup, c) == (true, d)
    ensures Run(setup, c) == [d.key] + Run(setup, d)
  {
  }

  lemma RunStop(setup: PathSetup, c: Cursor)
    requires Inv(setup, c) && !NextSpec(setup, c).0
    ensures Run(setup, c) == []
  {
  }

  /** Four successful calls and a failing one give a run of four keys. */
  lemma RunOfSteps(setup: PathSetup, c0: Cursor, c1: Cursor, c2: Cursor, c3: Cursor, c4: Cursor)
    requires Inv(setup, c0) && Inv(setup, c1) && Inv(setup, c2) && Inv(setup, c3) && Inv(setup, c4)
    requires NextSpec(setup, c0) == (true, c1) && NextSpec(setup, c1) == (true, c2)
    requires NextSpec(setup, c2) == (true, c3) && NextSpec(setup, c3) == (true, c4)
    requires !NextSpec(setup, c4).0
    ensures Run(setup, c0) == [c1.key, c2.key, c3.key, c4.key]
  {
    RunStop(setup, c4);
    RunStep(setup, c3, c4);
    RunStep(setup, c2, c3);
    RunStep(setup, c1, c2);
    RunStep(setup, c0, c1);
  }

  /**
   * The calls of next on the test's path report the keys 4, 5, 1 and 3 and
   * then return false: the first call keeps the entry key 4, so the exit key 3
   * comes with the fourth call and only the fifth returns false.
   */
  lemma TraceRun()
    ensures Inv(Setup, C0) && Run(Setup, C0) == [4, 5, 1, 3]
  {
    TraceInv();
    NextFirst(Setup, C0);
    Step1();
    Step2();
    Step3();
    NextAtExit(Setup, C4);
    RunOfSteps(Setup, C0, C1, C2, C3, C4);
  }
}
