/**
 * The quality ladder of converter.py: every step index gives a row
 * (width, height, quality, fps, colors), index 0 holding the highest values
 * and index `steps` the lowest.  pow() on floats is not interpreted: the
 * caller supplies it, and the facts the proofs need about it are stated as
 * preconditions.  Python's float arithmetic is modelled by exact rationals.
 */
module StepLadder {
  import opened Base
  import opened CompOptions

  /** math.pow(x, p), left uninterpreted. */
  type Pow = (real, real) -> real

  /**
   * For a base x in (0, 1], x * pow(x, p) lies in [0, 1]: the real power
   * does this for every exponent p >= -1, which covers the range
   * "between -1 and positive infinity" that the comment at line 34 allows.
   */
  ghost predicate ShapeInUnit(pow: Pow, p: real)
  {
    forall x: real :: 0.0 < x <= 1.0 ==> 0.0 <= x * pow(x, p) <= 1.0
  }

  /** The shaping factor of line 39-42: pow(step / steps, power) for a positive step, 0 otherwise. */
  function Factor(pow: Pow, step: int, steps: int, power: real): real
    requires steps > 0
  {
    if step > 0 then pow(Ratio(step, steps), power) else 0.0
  }

  /** step / steps as a float division. */
  function Ratio(step: int, steps: int): real
    requires steps > 0
  {
    step as real / steps as real
  }

  /** The `even` adjustment of line 46: an odd value is raised by one. */
  function MakeEven(v: int, even: bool): (r: int)
    ensures even ==> r % 2 == 0
    ensures r == v || (even && r == v + 1)
  {
    if even && v % 2 == 1 then v + 1 else v
  }

  /** (hi - lo) * u + lo */
  function Lerp(lo: int, hi: int, u: real): real
  {
    (hi - lo) as real * u + lo as real
  }

  /**
   * get_step_value: round((max - min) * step / steps * factor + min), with
   * Python's round, made even on request; unconstrained (None) when a bound
   * is missing.  Over exact rationals the product can be grouped freely, so
   * it is written as an interpolation at step / steps * factor.
   */
  function GetStepValue(max: Option<int>, min: Option<int>, step: int, steps: int,
                        power: real, even: bool, pow: Pow): (r: Option<int>)
    requires steps > 0
    ensures r.None? <==> max.None? || min.None?
    ensures r.Some? && even ==> r.value % 2 == 0
  {
    if max.Some? && min.Some? then
      var factor := Factor(pow, step, steps, power);
      var v := RoundHalfEven(Lerp(min.value, max.value, Ratio(step, steps) * factor));
      Some(MakeEven(v, even))
    else
      None
  }

  /** Step 0 gives the lower bound itself (made even on request). */
  lemma StepValueAtZero(max: int, min: int, steps: int, power: real, even: bool, pow: Pow)
    requires steps > 0
    ensures GetStepValue(Some(max), Some(min), 0, steps, power, even, pow) == Some(MakeEven(min, even))
  {
    assert Factor(pow, 0, steps, power) == 0.0;
    RoundHalfEvenOfInt(min);
  }

  /** The last step gives the upper bound itself, since pow(1, p) is 1. */
  lemma StepValueAtSteps(max: int, min: int, steps: int, power: real, even: bool, pow: Pow)
    requires steps > 0
    requires pow(1.0, power) == 1.0
    ensures GetStepValue(Some(max), Some(min), steps, steps, power, even, pow) == Some(MakeEven(max, even))
  {
    var t := Ratio(steps, steps);
    assert t == 1.0;
    var f := Factor(pow, steps, steps, power);
    assert f == 1.0;
    assert Lerp(min, max, t * f) == max as real;
    RoundHalfEvenOfInt(max);
  }

  lemma ScaledBetween(d: real, u: real)
    requires 0.0 <= u <= 1.0
    ensures d >= 0.0 ==> 0.0 <= d * u <= d
    ensures d < 0.0 ==> d <= d * u <= 0.0
  {
  }

  /**
   * Every value on the ladder lies between the two bounds (in either order);
   * `even` can add one more.
   */
  lemma StepValueBetween(max: int, min: int, step: int, steps: int, power: real, even: bool, pow: Pow)
    requires 0 <= step <= steps && steps > 0
    requires ShapeInUnit(pow, power)
    ensures var r := GetStepValue(Some(max), Some(min), step, steps, power, even, pow);
            r.Some? && Min(min, max) <= r.value <= Max(min, max) + (if even then 1 else 0)
  {
    var u := Ratio(step, steps) * Factor(pow, step, steps, power);
    ShapedInUnit(pow, step, steps, power);
    RoundedLerpBetween(max, min, u);
    assert GetStepValue(Some(max), Some(min), step, steps, power, even, pow)
        == Some(MakeEven(RoundHalfEven(Lerp(min, max, u)), even));
  }

  lemma RoundedLerpBetween(max: int, min: int, u: real)
    requires 0.0 <= u <= 1.0
    ensures Min(min, max) <= RoundHalfEven(Lerp(min, max, u)) <= Max(min, max)
  {
    AffineBetween(max, min, u);
    RoundHalfEvenBetween(Lerp(min, max, u), Min(min, max), Max(min, max));
  }

  /** step / steps * factor, the interpolation weight, lies in [0, 1]. */
  lemma ShapedInUnit(pow: Pow, step: int, steps: int, power: real)
    requires 0 <= step <= steps && steps > 0
    requires ShapeInUnit(pow, power)
    ensures 0.0 <= Ratio(step, steps) * Factor(pow, step, steps, power) <= 1.0
  {
    UnitRatio(step, steps);
    if step > 0 {
      assert 0.0 < Ratio(step, steps);
    }
  }

  lemma UnitRatio(step: int, steps: int)
    requires 0 <= step <= steps && steps > 0
    ensures 0.0 <= Ratio(step, steps) <= 1.0
  {
  }

  lemma AffineBetween(max: int, min: int, u: real)
    requires 0.0 <= u <= 1.0
    ensures Min(min, max) as real <= Lerp(min, max, u) <= Max(min, max) as real
  {
    ScaledBetween((max - min) as real, u);
  }

  /**
   * At power 1 the formula is quadratic in the step, not linear as the
   * comment at line 36 says: halfway along 0..100 gives 25.
   */
  lemma PowerOneIsQuadratic(pow: Pow)
    requires pow(0.5, 1.0) == 0.5
    ensures GetStepValue(Some(100), Some(0), 5, 10, 1.0, false, pow) == Some(25)
  {
    assert Ratio(5, 10) == 0.5;
    assert Lerp(0, 100, 0.5 * 0.5) == 25.0;
    RoundHalfEvenOfInt(25);
  }

  /** One row of the ladder (the tuple built at lines 291-330); only resolution is made even. */
  datatype StepParams = StepParams(
    resW: Option<int>, resH: Option<int>, quality: Option<int>, fps: Option<int>, colors: Option<int>)

  function Row(opt: CompOption, pow: Pow, step: int): (r: StepParams)
    requires opt.steps > 0
    ensures r.resW.Some? <==> opt.resWMax.Some? && opt.resWMin.Some?
    ensures r.resH.Some? <==> opt.resHMax.Some? && opt.resHMin.Some?
    ensures r.quality.Some? <==> opt.qualityMax.Some? && opt.qualityMin.Some?
    ensures r.fps.Some? <==> opt.fpsMax.Some? && opt.fpsMin.Some?
    ensures r.colors.Some? <==> opt.colorMax.Some? && opt.colorMin.Some?
    ensures r.resW.Some? ==> r.resW.value % 2 == 0
    ensures r.resH.Some? ==> r.resH.value % 2 == 0
  {
    StepParams(
      GetStepValue(opt.resWMax, opt.resWMin, step, opt.steps, opt.resPower, true, pow),
      GetStepValue(opt.resHMax, opt.resHMin, step, opt.steps, opt.resPower, true, pow),
      GetStepValue(opt.qualityMax, opt.qualityMin, step, opt.steps, opt.qualityPower, false, pow),
      GetStepValue(opt.fpsMax, opt.fpsMin, step, opt.steps, opt.fpsPower, false, pow),
      GetStepValue(opt.colorMax, opt.colorMin, step, opt.steps, opt.colorPower, false, pow))
  }

  /** Row k of the ladder is built from step = steps - k. */
  function Ladder(opt: CompOption, pow: Pow): (rows: seq<StepParams>)
    requires opt.steps > 0
  {
    seq(opt.steps + 1, k requires 0 <= k <= opt.steps => Row(opt, pow, opt.steps - k))
  }

  function AtMax(max: Option<int>, min: Option<int>, even: bool): Option<int>
  {
    if max.Some? && min.Some? then Some(MakeEven(max.value, even)) else None
  }

  function AtMin(max: Option<int>, min: Option<int>, even: bool): Option<int>
  {
    if max.Some? && min.Some? then Some(MakeEven(min.value, even)) else None
  }

  /**
   * The ladder has steps + 1 rows; its first row holds every bounded
   * dimension at its maximum and its last row at its minimum; an
   * unbounded dimension is None throughout.
   */
  lemma LadderEnds(opt: CompOption, pow: Pow)
    requires opt.steps > 0
    requires pow(1.0, opt.resPower) == 1.0 && pow(1.0, opt.qualityPower) == 1.0
    requires pow(1.0, opt.fpsPower) == 1.0 && pow(1.0, opt.colorPower) == 1.0
    ensures |Ladder(opt, pow)| == opt.steps + 1
    ensures Ladder(opt, pow)[0] == StepParams(
              AtMax(opt.resWMax, opt.resWMin, true), AtMax(opt.resHMax, opt.resHMin, true),
              AtMax(opt.qualityMax, opt.qualityMin, false), AtMax(opt.fpsMax, opt.fpsMin, false),
              AtMax(opt.colorMax, opt.colorMin, false))
    ensures Ladder(opt, pow)[opt.steps] == StepParams(
              AtMin(opt.resWMax, opt.resWMin, true), AtMin(opt.resHMax, opt.resHMin, true),
              AtMin(opt.qualityMax, opt.qualityMin, false), AtMin(opt.fpsMax, opt.fpsMin, false),
              AtMin(opt.colorMax, opt.colorMin, false))
  {
    var s := opt.steps;
    assert Ladder(opt, pow)[0] == Row(opt, pow, s);
    assert Ladder(opt, pow)[s] == Row(opt, pow, 0);
    if opt.resWMax.Some? && opt.resWMin.Some? {
      StepValueAtSteps(opt.resWMax.value, opt.resWMin.value, s, opt.resPower, true, pow);
      StepValueAtZero(opt.resWMax.value, opt.resWMin.value, s, opt.resPower, true, pow);
    }
    if opt.resHMax.Some? && opt.resHMin.Some? {
      StepValueAtSteps(opt.resHMax.value, opt.resHMin.value, s, opt.resPower, true, pow);
      StepValueAtZero(opt.resHMax.value, opt.resHMin.value, s, opt.resPower, true, pow);
    }
    if opt.qualityMax.Some? && opt.qualityMin.Some? {
      StepValueAtSteps(opt.qualityMax.value, opt.qualityMin.value, s, opt.qualityPower, false, pow);
      StepValueAtZero(opt.qualityMax.value, opt.qualityMin.value, s, opt.qualityPower, false, pow);
    }
    if opt.fpsMax.Some? && opt.fpsMin.Some? {
      StepValueAtSteps(opt.fpsMax.value, opt.fpsMin.value, s, opt.fpsPower, false, pow);
      StepValueAtZero(opt.fpsMax.value, opt.fpsMin.value, s, opt.fpsPower, false, pow);
    }
    if opt.colorMax.Some? && opt.colorMin.Some? {
      StepValueAtSteps(opt.colorMax.value, opt.colorMin.value, s, opt.colorPower, false, pow);
      StepValueAtZero(opt.colorMax.value, opt.colorMin.value, s, opt.colorPower, false, pow);
    }
  }

  /** With non-negative bounds and an fps power of at least -1, every fps on the ladder is at least 0. */
  lemma LadderFpsNonNegative(opt: CompOption, pow: Pow, k: int)
    requires WellFormed(opt) && 0 <= k <= opt.steps
    requires ShapeInUnit(pow, opt.fpsPower)
    ensures Ladder(opt, pow)[k].fps.Some? ==> Ladder(opt, pow)[k].fps.value >= 0
  {
    assert Ladder(opt, pow)[k] == Row(opt, pow, opt.steps - k);
    if opt.fpsMax.Some? && opt.fpsMin.Some? {
      StepValueBetween(opt.fpsMax.value, opt.fpsMin.value, opt.steps - k, opt.steps, opt.fpsPower, false, pow);
    }
  }
}
