/**
 * The older converter of sticker_convert/utils/sticker_convert.py: the
 * choice of conversion routine, and compress_to_size, a bisection over a
 * linear quality ladder against a size limit with a strict "under" test.
 *
 * A conversion is an oracle from the ladder row to the size of the file it
 * writes and whether that file is animated (FormatVerify.is_anim, which
 * picks the video or the image limit).  The temporary directory is the set
 * of step numbers whose file was written.  An exception anywhere in the
 * body is caught and the function returns None; the model reports which
 * one as Crashed.
 */
module Legacy {
  import opened Base

  // ---------------------------------------------------------------------
  // get_convert_method
  // ---------------------------------------------------------------------

  datatype ConvertMethod =
    | ConvertTgs
    | ConvertFromWebpAnim
    | ConvertToApngAnim
    | ConvertGenericAnim
    | ConvertGenericImage

  /**
   * Lottie (.tgs) on either side wins; otherwise an animated input goes by
   * its own extension (.webp) or the output's (.png/.apng), and a still
   * input is converted as an image.  `inAnimated` is FormatVerify.is_anim(in_f).
   */
  function GetConvertMethod(inF: string, outF: string, inAnimated: bool): (m: ConvertMethod)
    ensures m == ConvertTgs <==> Lower(SplitExt(inF)) == ".tgs" || Lower(SplitExt(outF)) == ".tgs"
    ensures m == ConvertGenericImage <==> !(m == ConvertTgs) && !inAnimated
    ensures m == ConvertFromWebpAnim <==> !(m == ConvertTgs) && inAnimated && Lower(SplitExt(inF)) == ".webp"
    ensures m == ConvertToApngAnim <==>
              !(m == ConvertTgs) && inAnimated && Lower(SplitExt(inF)) != ".webp"
              && Lower(SplitExt(outF)) in {".png", ".apng"}
    ensures m == ConvertGenericAnim <==>
              !(m == ConvertTgs) && inAnimated && Lower(SplitExt(inF)) != ".webp"
              && Lower(SplitExt(outF)) !in {".png", ".apng"}
  {
    var inExt := Lower(SplitExt(inF));
    var outExt := Lower(SplitExt(outF));
    if inExt == ".tgs" || outExt == ".tgs" then ConvertTgs
    else if inAnimated then
      if inExt == ".webp" then ConvertFromWebpAnim
      else if outExt == ".png" || outExt == ".apng" then ConvertToApngAnim
      else ConvertGenericAnim
    else ConvertGenericImage
  }

  // ---------------------------------------------------------------------
  // The linear ladder (lines 72-83)
  // ---------------------------------------------------------------------

  /** The keyword arguments of compress_to_size that shape the ladder. */
  datatype Bounds = Bounds(
    resMax: int, resMin: int, qualityMax: int, qualityMin: int,
    fpsMax: int, fpsMin: int, colorMax: int, colorMin: int)

  /** One row: res, quality, fps, color. */
  datatype Row = Row(res: int, quality: int, fps: int, color: int)

  /** The inner get_step_value: round((max - min) * step / steps + min), true division, round half to even. */
  function StepValue(max: int, min: int, step: int, steps: int): int
    requires steps != 0
  {
    RoundHalfEven(((max - min) * step) as real / steps as real + min as real)
  }

  /** Step 0 gives min and the last step gives max; every step in between stays within the two. */
  lemma StepValueRange(max: int, min: int, step: int, steps: int)
    requires 0 <= step <= steps && steps > 0
    ensures StepValue(max, min, 0, steps) == min
    ensures StepValue(max, min, steps, steps) == max
    ensures Min(min, max) <= StepValue(max, min, step, steps) <= Max(min, max)
  {
    StepValueAtZero(max, min, steps);
    StepValueAtSteps(max, min, steps);
    StepValueWithin(max, min, step, steps);
  }

  lemma StepValueAtZero(max: int, min: int, steps: int)
    requires steps > 0
    ensures StepValue(max, min, 0, steps) == min
  {
    assert ((max - min) * 0) as real / steps as real + min as real == min as real;
    RoundHalfEvenOfInt(min);
  }

  lemma StepValueWithin(max: int, min: int, step: int, steps: int)
    requires 0 <= step <= steps && steps > 0
    ensures Min(min, max) <= StepValue(max, min, step, steps) <= Max(min, max)
  {
    var x := ((max - min) * step) as real / steps as real + min as real;
    StepArgumentWithin(max, min, step, steps);
    RoundHalfEvenBetween(x, Min(min, max), Max(min, max));
  }

  /** The value handed to round() lies between min and max. */
  lemma StepArgumentWithin(max: int, min: int, step: int, steps: int)
    requires 0 <= step <= steps && steps > 0
    ensures Min(min, max) as real <= ((max - min) * step) as real / steps as real + min as real <= Max(min, max) as real
  {
    var d, u := (max - min) as real, step as real / steps as real;
    Quotient(max - min, step, steps);
    ScaledWithin(d, u);
  }

  lemma StepValueAtSteps(max: int, min: int, steps: int)
    requires steps > 0
    ensures StepValue(max, min, steps, steps) == max
  {
    var d := (max - min) as real;
    assert ((max - min) * steps) as real == d * steps as real;
    assert d * steps as real / steps as real == d;
    RoundHalfEvenOfInt(max);
  }

  lemma Quotient(d: int, step: int, steps: int)
    requires 0 <= step <= steps && steps > 0
    ensures 0.0 <= step as real / steps as real <= 1.0
    ensures (d * step) as real / steps as real == d as real * (step as real / steps as real)
  {
    assert (d * step) as real == d as real * step as real;
  }

  lemma ScaledWithin(d: real, u: real)
    requires 0.0 <= u <= 1.0
    ensures d >= 0.0 ==> 0.0 <= d * u <= d
    ensures d < 0.0 ==> d <= d * u <= 0.0
  {
  }

  function RowAt(b: Bounds, step: int, steps: int): Row
    requires steps != 0
  {
    Row(StepValue(b.resMax, b.resMin, step, steps), StepValue(b.qualityMax, b.qualityMin, step, steps),
        StepValue(b.fpsMax, b.fpsMin, step, steps), StepValue(b.colorMax, b.colorMin, step, steps))
  }

  /** Row k is built from step = steps - k, so the list runs from the max bounds down to the min bounds. */
  function Ladder(b: Bounds, steps: int): (rows: seq<Row>)
    requires steps > 0
  {
    seq(steps + 1, k requires 0 <= k <= steps => RowAt(b, steps - k, steps))
  }

  /** The first row holds the maxima and the last row the minima. */
  lemma LadderEnds(b: Bounds, steps: int)
    requires steps > 0
    ensures |Ladder(b, steps)| == steps + 1
    ensures Ladder(b, steps)[0] == Row(b.resMax, b.qualityMax, b.fpsMax, b.colorMax)
    ensures Ladder(b, steps)[steps] == Row(b.resMin, b.qualityMin, b.fpsMin, b.colorMin)
  {
    assert Ladder(b, steps)[0] == RowAt(b, steps, steps);
    assert Ladder(b, steps)[steps] == RowAt(b, 0, steps);
    StepValueRange(b.resMax, b.resMin, 0, steps);
    StepValueRange(b.qualityMax, b.qualityMin, 0, steps);
    StepValueRange(b.fpsMax, b.fpsMin, 0, steps);
    StepValueRange(b.colorMax, b.colorMin, 0, steps);
  }

  /**
   * The for loop of lines 76-83.  steps == 0 divides by zero at the first
   * row; a negative steps gives an empty range and so an empty list.
   */
  method StepsList(b: Bounds, steps: int) returns (r: Result<seq<Row>>)
    ensures steps == 0 ==> r == Err(ZeroDivision)
    ensures steps < 0 ==> r == Ok([])
    ensures steps > 0 ==> r == Ok(Ladder(b, steps))
  {
    if steps == 0 {
      return Err(ZeroDivision);
    }
    var rows: seq<Row> := [];
    var step := steps;
    while step >= 0
      invariant steps < 0 ==> rows == [] && step == steps
      invariant steps > 0 ==> -1 <= step <= steps && |rows| == steps - step
      invariant steps > 0 ==> forall k :: 0 <= k < |rows| ==> rows[k] == RowAt(b, steps - k, steps)
      decreases step + 1
    {
      rows := rows + [RowAt(b, step, steps)];
      step := step - 1;
    }
    if steps > 0 {
      assert rows == Ladder(b, steps);
    }
    return Ok(rows);
  }

  // ---------------------------------------------------------------------
  // The bisection (lines 85-127)
  // ---------------------------------------------------------------------

  /** What a conversion to a temporary file produced. */
  datatype Probe = Probe(size: nat, animated: bool)

  /** The conversion routine run on one ladder row. */
  type Converter = Row -> Probe

  /** The limits and the conversion, as compress_to_size receives them. */
  datatype Env = Env(convert: Converter, vidSizeMax: Option<int>, imgSizeMax: Option<int>)

  /** Why the body raised (and compress_to_size returned None). */
  datatype Crash =
    | DivisionByZero     // steps == 0 in get_step_value
    | EmptyLadder        // steps < 0: steps_list[step_current] on an empty list
    | NoneLimit          // `size < size_max` with the other limit None
    | MissingFile(step: int)  // shutil.move of a temporary file never written

  datatype Outcome =
    | Moved(step: int)   // True; out_f is the file converted at that step
    | Unlimited          // True right after one conversion; nothing is moved
    | Failed             // False
    | Crashed(why: Crash)   // None

  /** The value compress_to_size returns. */
  function Returned(o: Outcome): (r: Option<bool>)
    ensures r == Some(true) <==> o.Moved? || o.Unlimited?
    ensures r.None? <==> o.Crashed?
  {
    match o
    case Moved(_) => Some(true)
    case Unlimited => Some(true)
    case Failed => Some(false)
    case Crashed(_) => None
  }

  /** The limit that applies to a probe: the video limit for animated output, else the image limit. */
  function LimitFor(env: Env, p: Probe): Option<int>
  {
    if p.animated then env.vidSizeMax else env.imgSizeMax
  }

  /** Step k's file fits: its limit is set and the size is strictly below it. */
  predicate Under(env: Env, rows: seq<Row>, k: int)
  {
    0 <= k < |rows| && LimitFor(env, env.convert(rows[k])).Some?
    && env.convert(rows[k]).size < LimitFor(env, env.convert(rows[k])).value
  }

  /** round((lower + upper) / 2), the initial and the upward midpoint. */
  function MidUp(lower: int, upper: int): int
  {
    RoundHalfEven((lower + upper) as real / 2.0)
  }

  /** int((lower + upper) / 2), the downward midpoint. */
  function MidDown(lower: int, upper: int): int
  {
    Trunc((lower + upper) as real / 2.0)
  }

  /** Both midpoints stay in the bracket, and strictly inside it once the gap is at least 2. */
  lemma MidpointsInside(lower: int, upper: int)
    requires 0 <= lower <= upper
    ensures lower <= MidUp(lower, upper) <= upper && lower <= MidDown(lower, upper) <= upper
    ensures upper - lower >= 2 ==> lower < MidUp(lower, upper) < upper && lower < MidDown(lower, upper) < upper
  {
    var x := (lower + upper) as real / 2.0;
    RoundHalfEvenBetween(x, lower, upper);
    if upper - lower >= 2 {
      RoundHalfEvenBetween(x, lower + 1, upper - 1);
      assert (lower + 1) as real <= x <= (upper - 1) as real;
    }
  }

  /** Banker's rounding makes the two midpoints differ: for the bracket 2..3 round(2.5) is 2, not 3. */
  lemma MidUpHalfEven()
    ensures MidUp(2, 3) == 2 && MidUp(0, 1) == 0 && MidUp(0, 3) == 2
  {
  }

  /** The loop's bracket invariant. */
  predicate Bracket(steps: int, lower: int, current: int, upper: int)
  {
    0 <= lower <= current <= upper <= steps && (upper - lower >= 2 ==> lower < current < upper)
  }

  /**
   * Once the bracket has collapsed and the last probe did not fit: the code
   * as written moves the temporary file of step current + 1 without
   * checking that it was written.
   */
  function SettleAsWritten(steps: int, current: int, written: set<int>): (o: Outcome)
    ensures o.Crashed? <==> current < steps && current + 1 !in written
    ensures o.Moved? ==> o.step == current + 1 && o.step in written
  {
    if current < steps then
      if current + 1 in written then Moved(current + 1) else Crashed(MissingFile(current + 1))
    else Failed
  }

  /** Step k's file was converted and is at or over its (set) limit. */
  predicate Over(env: Env, rows: seq<Row>, k: int)
  {
    0 <= k < |rows| && LimitFor(env, env.convert(rows[k])).Some?
    && env.convert(rows[k]).size >= LimitFor(env, env.convert(rows[k])).value
  }

  /**
   * Convert step k, which has no file yet, and move its file when it fits;
   * False when it does not (a TypeError when its limit is None).
   */
  function FallBack(env: Env, rows: seq<Row>, k: int): (o: Outcome)
    requires 0 <= k < |rows|
    ensures o.Moved? <==> Under(env, rows, k)
    ensures o.Moved? ==> o.step == k
    ensures o == Failed <==> Over(env, rows, k)
  {
    var p := env.convert(rows[k]);
    var limit := LimitFor(env, p);
    if limit.None? then Crashed(NoneLimit)
    else if p.size < limit.value then Moved(k)
    else Failed
  }

  /**
   * The same decision, corrected: the file of step current + 1 is moved
   * when it was written, and otherwise that step is converted first.
   */
  function Settle(env: Env, rows: seq<Row>, current: int, written: set<int>): (o: Outcome)
    requires 0 <= current < |rows|
    ensures !(o.Crashed? && o.why.MissingFile?)
    ensures o.Moved? ==> o.step == current + 1 && (o.step in written || Under(env, rows, o.step))
    ensures current == |rows| - 1 ==> o == Failed
  {
    if current < |rows| - 1 then
      if current + 1 in written then Moved(current + 1) else FallBack(env, rows, current + 1)
    else Failed
  }

  /**
   * The rest of the loop from a bracket and a set of written files: convert
   * at current, return True at once when neither limit is set, compare with
   * the limit that applies (a TypeError when that one is None), and narrow
   * or settle.  `asWritten` selects SettleAsWritten over Settle.
   */
  function Continue(rows: seq<Row>, env: Env, lower: int, current: int, upper: int,
                    written: set<int>, asWritten: bool): (o: Outcome)
    requires Bracket(|rows| - 1, lower, current, upper)
    ensures o == Unlimited <==> env.vidSizeMax.None? && env.imgSizeMax.None?
    decreases upper - lower
  {
    var p := env.convert(rows[current]);
    var w := written + {current};
    var limit := LimitFor(env, p);
    if env.vidSizeMax.None? && env.imgSizeMax.None? then Unlimited
    else if limit.None? then Crashed(NoneLimit)
    else if p.size < limit.value then
      if upper - lower > 1 then
        MidpointsInside(lower, current);
        Continue(rows, env, lower, MidDown(lower, current), current, w, asWritten)
      else Moved(current)
    else if upper - lower > 1 then
      MidpointsInside(current, upper);
      Continue(rows, env, current, MidUp(current, upper), upper, w, asWritten)
    else if asWritten then SettleAsWritten(|rows| - 1, current, w)
    else Settle(env, rows, current, w)
  }

  /** The whole of compress_to_size as a function of its arguments. */
  function Compress(b: Bounds, steps: int, env: Env, asWritten: bool): (o: Outcome)
    ensures steps == 0 ==> o == Crashed(DivisionByZero)
    ensures steps < 0 ==> o == Crashed(EmptyLadder)
    ensures o == Unlimited <==> steps > 0 && env.vidSizeMax.None? && env.imgSizeMax.None?
  {
    if steps == 0 then Crashed(DivisionByZero)
    else if steps < 0 then Crashed(EmptyLadder)
    else
      MidpointsInside(0, steps);
      Continue(Ladder(b, steps), env, 0, MidUp(0, steps), steps, {}, asWritten)
  }

  /** compress_to_size as written. */
  function CompressAsWritten(b: Bounds, steps: int, env: Env): (o: Outcome)
    ensures steps == 0 ==> o == Crashed(DivisionByZero)
    ensures steps < 0 ==> o == Crashed(EmptyLadder)
    ensures o == Unlimited <==> steps > 0 && env.vidSizeMax.None? && env.imgSizeMax.None?
  {
    Compress(b, steps, env, true)
  }

  /**
   * compress_to_size: build the ladder, then bisect.  Each probe writes its
   * temporary file; an under-limit probe narrows upward in quality (towards
   * row 0) with int(), an over-limit one downward with round(); a collapsed
   * bracket moves the current file when it fits and otherwise falls back
   * to step current + 1, converting it first when its file was not written.
   */
  method CompressToSize(b: Bounds, steps: int, env: Env) returns (o: Outcome)
    ensures o == Compress(b, steps, env, false)
  {
    var listed := StepsList(b, steps);
    if listed.Err? {
      return Crashed(DivisionByZero);
    }
    var rows := listed.value;
    if steps < 0 {
      return Crashed(EmptyLadder);
    }
    var lower := 0;
    var upper := steps;
    var current := MidUp(lower, upper);
    MidpointsInside(lower, upper);
    var written: set<int> := {};
    while true
      invariant |rows| == steps + 1 && Bracket(steps, lower, current, upper)
      invariant Compress(b, steps, env, false) == Continue(rows, env, lower, current, upper, written, false)
      decreases upper - lower
    {
      var p := env.convert(rows[current]);
      written := written + {current};
      if env.vidSizeMax.None? && env.imgSizeMax.None? {
        return Unlimited;
      }
      var limit := if p.animated then env.vidSizeMax else env.imgSizeMax;
      if limit.None? {
        return Crashed(NoneLimit);
      }
      if p.size < limit.value {
        if upper - lower > 1 {
          MidpointsInside(lower, current);
          upper := current;
          current := MidDown(lower, upper);
        } else {
          return Moved(current);
        }
      } else {
        if upper - lower > 1 {
          MidpointsInside(current, upper);
          lower := current;
          current := MidUp(lower, upper);
        } else if current < steps && current + 1 in written {
          return Moved(current + 1);
        } else if current < steps {
          var q := env.convert(rows[current + 1]);
          var qLimit := if q.animated then env.vidSizeMax else env.imgSizeMax;
          if qLimit.None? {
            return Crashed(NoneLimit);
          }
          if q.size < qLimit.value {
            return Moved(current + 1);
          }
          return Failed;
        } else {
          return Failed;
        }
      }
    }
  }

  // ---------------------------------------------------------------------
  // What the bisection guarantees
  // ---------------------------------------------------------------------

  /** Every written step above the lower end fitted: an over-limit probe becomes the lower end. */
  predicate AboveLowerFits(env: Env, rows: seq<Row>, lower: int, written: set<int>)
  {
    forall k :: k in written && k > lower ==> Under(env, rows, k)
  }

  lemma {:induction false} ContinueMovesFitting(rows: seq<Row>, env: Env, lower: int, current: int, upper: int,
                                                written: set<int>, asWritten: bool)
    requires Bracket(|rows| - 1, lower, current, upper)
    requires AboveLowerFits(env, rows, lower, written)
    ensures var o := Continue(rows, env, lower, current, upper, written, asWritten);
            o.Moved? ==> 0 <= o.step < |rows| && Under(env, rows, o.step)
    decreases upper - lower
  {
    var p := env.convert(rows[current]);
    var w := written + {current};
    var limit := LimitFor(env, p);
    if env.vidSizeMax.None? && env.imgSizeMax.None? {
    } else if limit.None? {
    } else if p.size < limit.value {
      assert Under(env, rows, current);
      if upper - lower > 1 {
        MidpointsInside(lower, current);
        ContinueMovesFitting(rows, env, lower, MidDown(lower, current), current, w, asWritten);
      }
    } else if upper - lower > 1 {
      MidpointsInside(current, upper);
      ContinueMovesFitting(rows, env, current, MidUp(current, upper), upper, w, asWritten);
    } else {
      if current + 1 in w {
        assert current + 1 in written && current + 1 > lower;
      }
    }
  }

  /**
   * The corrected loop returns False only when the lowest-quality file is
   * over its limit: the upper end of the bracket is either the last step
   * or a step whose file fitted.
   */
  lemma {:induction false} ContinueFailsAtLowest(rows: seq<Row>, env: Env, lower: int, current: int, upper: int,
                                                 written: set<int>)
    requires Bracket(|rows| - 1, lower, current, upper)
    requires upper == |rows| - 1 || Under(env, rows, upper)
    ensures Continue(rows, env, lower, current, upper, written, false) == Failed ==> Over(env, rows, |rows| - 1)
    decreases upper - lower
  {
    var p := env.convert(rows[current]);
    var w := written + {current};
    var limit := LimitFor(env, p);
    if env.vidSizeMax.None? && env.imgSizeMax.None? {
    } else if limit.None? {
    } else if p.size < limit.value {
      if upper - lower > 1 {
        MidpointsInside(lower, current);
        ContinueFailsAtLowest(rows, env, lower, MidDown(lower, current), current, w);
      }
    } else if upper - lower > 1 {
      MidpointsInside(current, upper);
      ContinueFailsAtLowest(rows, env, current, MidUp(current, upper), upper, w);
    }
  }

  /**
   * The message of line 126: the corrected routine returns False only when
   * even the last, lowest-quality row gives a file at or over its limit.
   */
  lemma FailedAtLowest(b: Bounds, steps: int, env: Env)
    ensures Compress(b, steps, env, false) == Failed ==> Over(env, Ladder(b, steps), steps)
  {
    if steps > 0 {
      MidpointsInside(0, steps);
      ContinueFailsAtLowest(Ladder(b, steps), env, 0, MidUp(0, steps), steps, {});
    }
  }

  /** A True with a moved file always delivers a step whose file fitted its limit (either version). */
  lemma MovedFits(b: Bounds, steps: int, env: Env, asWritten: bool)
    ensures var o := Compress(b, steps, env, asWritten);
            o.Moved? ==> steps > 0 && 0 <= o.step <= steps && Under(env, Ladder(b, steps), o.step)
  {
    if steps > 0 {
      MidpointsInside(0, steps);
      ContinueMovesFitting(Ladder(b, steps), env, 0, MidUp(0, steps), steps, {}, asWritten);
    }
  }

  lemma {:induction false} ContinueNeverCrashes(rows: seq<Row>, env: Env, lower: int, current: int, upper: int,
                                                written: set<int>)
    requires Bracket(|rows| - 1, lower, current, upper)
    requires env.vidSizeMax.Some? && env.imgSizeMax.Some?
    ensures !Continue(rows, env, lower, current, upper, written, false).Crashed?
    decreases upper - lower
  {
    var p := env.convert(rows[current]);
    var w := written + {current};
    if p.size < LimitFor(env, p).value {
      if upper - lower > 1 {
        MidpointsInside(lower, current);
        ContinueNeverCrashes(rows, env, lower, MidDown(lower, current), current, w);
      }
    } else if upper - lower > 1 {
      MidpointsInside(current, upper);
      ContinueNeverCrashes(rows, env, current, MidUp(current, upper), upper, w);
    }
  }

  /** With both limits set and steps > 0 the corrected search never raises: it moves a fitting file or returns False. */
  lemma NeverCrashes(b: Bounds, steps: int, env: Env)
    requires steps > 0 && env.vidSizeMax.Some? && env.imgSizeMax.Some?
    ensures Compress(b, steps, env, false).Moved? || Compress(b, steps, env, false).Failed?
  {
    MidpointsInside(0, steps);
    ContinueNeverCrashes(Ladder(b, steps), env, 0, MidUp(0, steps), steps, {});
  }

  lemma {:induction false} ContinueVersionsAgree(rows: seq<Row>, env: Env, lower: int, current: int, upper: int,
                                                 written: set<int>)
    requires Bracket(|rows| - 1, lower, current, upper)
    ensures var asWritten := Continue(rows, env, lower, current, upper, written, true);
            var corrected := Continue(rows, env, lower, current, upper, written, false);
            && (!(asWritten.Crashed? && asWritten.why.MissingFile?) ==> corrected == asWritten)
            && (asWritten.Crashed? && asWritten.why.MissingFile? ==>
                  0 <= asWritten.why.step < |rows| && corrected == FallBack(env, rows, asWritten.why.step))
    decreases upper - lower
  {
    var p := env.convert(rows[current]);
    var w := written + {current};
    var limit := LimitFor(env, p);
    if env.vidSizeMax.None? && env.imgSizeMax.None? {
    } else if limit.None? {
    } else if p.size < limit.value {
      if upper - lower > 1 {
        MidpointsInside(lower, current);
        ContinueVersionsAgree(rows, env, lower, MidDown(lower, current), current, w);
      }
    } else if upper - lower > 1 {
      MidpointsInside(current, upper);
      ContinueVersionsAgree(rows, env, current, MidUp(current, upper), upper, w);
    }
  }

  /**
   * The correction changes exactly the runs that end by moving a file that
   * was never written: those convert that step instead of raising.
   */
  lemma VersionsAgree(b: Bounds, steps: int, env: Env)
    ensures var o := CompressAsWritten(b, steps, env);
            && (!(o.Crashed? && o.why.MissingFile?) ==> Compress(b, steps, env, false) == o)
            && (o.Crashed? && o.why.MissingFile? ==>
                  0 <= o.why.step <= steps && Compress(b, steps, env, false) == FallBack(env, Ladder(b, steps), o.why.step))
  {
    if steps > 0 {
      MidpointsInside(0, steps);
      ContinueVersionsAgree(Ladder(b, steps), env, 0, MidUp(0, steps), steps, {});
    }
  }

  /** A conversion whose files are always above both limits. */
  function TooLarge(p: Row): Probe { Probe(1000, false) }

  /**
   * With one step and nothing fitting, the code as written probes step 0
   * (round(0.5) is 0), finds it too large with the bracket already
   * collapsed, and moves the file of step 1, which was never written; the
   * corrected search returns False.
   */
  lemma OneStepMissingFile(b: Bounds)
    ensures CompressAsWritten(b, 1, Env(TooLarge, Some(10), Some(10))) == Crashed(MissingFile(1))
    ensures Compress(b, 1, Env(TooLarge, Some(10), Some(10)), false) == Failed
  {
    assert MidUp(0, 1) == 0;
  }

  /**
   * Three steps, nothing fitting: probes at 2 and again at 2 (round(2.5) is 2)
   * leave lower = 2, upper = 3, and the file of step 3 is moved unwritten.
   */
  lemma ThreeStepsMissingFile(b: Bounds)
    ensures CompressAsWritten(b, 3, Env(TooLarge, Some(10), Some(10))) == Crashed(MissingFile(3))
  {
    var env := Env(TooLarge, Some(10), Some(10));
    var rows := Ladder(b, 3);
    assert MidUp(0, 3) == 2 && MidUp(2, 3) == 2;
    assert Continue(rows, env, 2, 2, 3, {2}, true) == Crashed(MissingFile(3));
  }
}
