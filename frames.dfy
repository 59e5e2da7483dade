/**
 * The per-frame arithmetic of converter.py: the letterbox geometry of
 * frames_resize, the temporal resampling of frames_drop and the frame-rate
 * fixing of fix_fps.  Frames are opaque: only their size and where they
 * came from are kept.
 */
module Frames {
  import opened Base
  import opened CompOptions

  // ---------------------------------------------------------------------
  // Frames and the resampling filter
  // ---------------------------------------------------------------------

  datatype Resample = Nearest | Bilinear | Bicubic | Lanczos

  /** Where a frame's pixels come from. */
  datatype Pixels =
    | Decoded(id: nat)
    | Letterboxed(src: Frame, filter: Resample, scaledW: int, scaledH: int, offX: int, offY: int)

  datatype Frame = Frame(width: nat, height: nat, pixels: Pixels)

  /** The scale_filter option (lines 529-539); an unknown name falls back to Lanczos. */
  function ResampleFilter(name: string): (f: Resample)
    ensures f == Nearest <==> name == "nearest"
    ensures f == Bilinear <==> name == "bilinear"
    ensures f == Bicubic <==> name == "bicubic"
    ensures f == Lanczos <==> name !in {"nearest", "bilinear", "bicubic"}
  {
    if name == "nearest" then Nearest
    else if name == "bilinear" then Bilinear
    else if name == "bicubic" then Bicubic
    else Lanczos
  }

  // ---------------------------------------------------------------------
  // Letterbox geometry (frames_resize)
  // ---------------------------------------------------------------------

  /** The scaled size of a frame and where it is pasted on the canvas. */
  datatype Geometry = Geometry(width: int, height: int, offX: int, offY: int)

  /**
   * Image.resize to (w, h): a side below 1 is a ValueError, except that
   * an unchanged size returns a copy before the size is looked at.
   */
  predicate Resizable(width: nat, height: nat, w: int, h: int)
  {
    (w >= 1 && h >= 1) || (w == width && h == height)
  }

  /**
   * A landscape frame is scaled to the canvas width, any other to the
   * canvas height, the other side by floor division; the scaled frame is
   * centred with floor division.  A 0 x 0 frame divides by zero; a scaled
   * side below 1 (Image.resize) or a negative canvas side (Image.new) is a
   * ValueError.
   */
  function Letterbox(width: nat, height: nat, resW: int, resH: int): (g: Result<Geometry>)
    ensures width == 0 && height == 0 ==> g == Err(ZeroDivision)
    ensures g.Err? ==> g.error == ZeroDivision || g.error == BadValue
    ensures g.Ok? ==> resW >= 0 && resH >= 0
    ensures g.Ok? && width > height ==>
              g.value.width == resW
              && g.value.height * width <= height * resW < (g.value.height + 1) * width
    ensures g.Ok? && width <= height ==>
              g.value.height == resH
              && g.value.width * height <= width * resH < (g.value.width + 1) * height
    ensures g.Ok? ==> 2 * g.value.offX <= resW - g.value.width <= 2 * g.value.offX + 1
    ensures g.Ok? ==> 2 * g.value.offY <= resH - g.value.height <= 2 * g.value.offY + 1
  {
    if width > height then
      var h := height * resW / width;
      FloorDivBounds(height * resW, width);
      if !Resizable(width, height, resW, h) || resH < 0 then Err(BadValue)
      else Ok(Geometry(resW, h, (resW - resW) / 2, (resH - h) / 2))
    else if height == 0 then
      Err(ZeroDivision)
    else
      var w := width * resH / height;
      FloorDivBounds(width * resH, height);
      if !Resizable(width, height, w, resH) || resW < 0 then Err(BadValue)
      else Ok(Geometry(w, resH, (resW - w) / 2, (resH - resH) / 2))
  }

  /**
   * Which canvases a frame can be letterboxed onto: a landscape frame needs
   * a canvas width of at least 1 that keeps the scaled height at least 1
   * (or leaves a 0-high frame at its own size), a portrait frame the same
   * with the sides exchanged, and the other canvas side must not be negative.
   */
  lemma LetterboxAccepts(width: nat, height: nat, resW: int, resH: int)
    ensures width > height ==>
              (Letterbox(width, height, resW, resH).Ok? <==>
                 resW >= 1 && resH >= 0 && (height * resW >= width || (height == 0 && resW == width)))
    ensures 0 < height && width <= height ==>
              (Letterbox(width, height, resW, resH).Ok? <==>
                 resH >= 1 && resW >= 0 && (width * resH >= height || (width == 0 && resH == height)))
  {
    if width > height {
      ScaledSide(height, resW, width);
    } else if height > 0 {
      ScaledSide(width, resH, height);
    }
  }

  lemma FloorDivBounds(a: int, b: int)
    requires b > 0
    ensures (a / b) * b <= a < (a / b + 1) * b
  {
  }

  /** side * res // full is at least 1 exactly when side * res >= full, and has the sign of res. */
  lemma ScaledSide(side: nat, res: int, full: int)
    requires full > 0
    ensures side * res / full >= 1 <==> side * res >= full
    ensures res < 0 ==> side * res / full <= 0
    ensures side == 0 ==> side * res / full == 0
  {
    var q := side * res / full;
    assert q * full <= side * res < (q + 1) * full;
    if q >= 1 {
      MulAtLeast(q, full);
    }
    if res < 0 {
      assert side * res <= 0;
      if q >= 1 {
        MulAtLeast(q, full);
      }
    }
  }

  lemma MulAtLeast(q: int, full: int)
    requires q >= 1 && full > 0
    ensures q * full >= full
  {
  }

  lemma FloorBelow(a: int, b: int, c: int, q: int)
    requires b > 0 && q * b <= a && a <= c * b
    ensures q <= c
  {
  }

  /**
   * A landscape frame on a canvas at least as tall (relative to its width)
   * as the frame fits: scaled height within the canvas, offsets non-negative,
   * and the frame fills the canvas width.
   */
  lemma LetterboxFitsLandscape(width: nat, height: nat, resW: int, resH: int)
    requires width > height && Letterbox(width, height, resW, resH).Ok?
    requires resW * height <= resH * width
    ensures var g := Letterbox(width, height, resW, resH).value;
            g.width == resW && g.offX == 0 && 0 <= g.height <= resH && g.offY >= 0
  {
    var g := Letterbox(width, height, resW, resH).value;
    assert height * resW <= resH * width;
    FloorBelow(height * resW, width, resH, g.height);
  }

  /** The portrait (or square) counterpart: the frame fills the canvas height. */
  lemma LetterboxFitsPortrait(width: nat, height: nat, resW: int, resH: int)
    requires width <= height && Letterbox(width, height, resW, resH).Ok?
    requires resH * width <= resW * height
    ensures var g := Letterbox(width, height, resW, resH).value;
            g.height == resH && g.offY == 0 && 0 <= g.width <= resW && g.offX >= 0
  {
    var g := Letterbox(width, height, resW, resH).value;
    var w := width * resH / height;
    assert g == Geometry(w, resH, (resW - w) / 2, 0);
    assert w * height <= width * resH;
    assert width * resH <= resW * height;
    FloorBelow(width * resH, height, resW, w);
  }

  /** The letterboxed canvas that frames_resize appends for one frame. */
  function Canvas(src: Frame, filter: Resample, resW: nat, resH: nat, g: Geometry): (f: Frame)
    ensures f.width == resW && f.height == resH && f.pixels.Letterboxed? && f.pixels.src == src
  {
    Frame(resW, resH, Letterboxed(src, filter, g.width, g.height, g.offX, g.offY))
  }

  // ---------------------------------------------------------------------
  // Temporal resampling (frames_drop)
  // ---------------------------------------------------------------------

  /** speed_ratio (lines 583-594): stretch a too-short clip, squeeze a too-long one. */
  function SpeedRatio(duration: int, opt: CompOption): (r: real)
    ensures Truthy(opt.durationMin) && duration < opt.durationMin.value ==>
              r * opt.durationMin.value as real == duration as real
    ensures (!(Truthy(opt.durationMin) && duration < opt.durationMin.value)
             && Truthy(opt.durationMax) && duration > opt.durationMax.value) ==>
              r * opt.durationMax.value as real == duration as real
    ensures (!(Truthy(opt.durationMin) && duration < opt.durationMin.value)
             && !(Truthy(opt.durationMax) && duration > opt.durationMax.value)) ==> r == 1.0
  {
    if Truthy(opt.durationMin) && duration < opt.durationMin.value then
      duration as real / opt.durationMin.value as real
    else if Truthy(opt.durationMax) && duration > opt.durationMax.value then
      duration as real / opt.durationMax.value as real
    else 1.0
  }

  /** frame_increment: source frames to advance per output frame (lines 580-597). */
  function FrameIncrement(srcFps: real, fps: real, duration: int, opt: CompOption): real
    requires fps != 0.0
  {
    srcFps / fps * SpeedRatio(duration, opt)
  }

  /** frames_out_min = ceil(fps * duration_min / 1000), when duration_min is set. */
  function FramesOutMin(fps: real, opt: CompOption): (r: Option<int>)
    ensures r.Some? <==> Truthy(opt.durationMin)
    ensures r.Some? ==> fps * opt.durationMin.value as real / 1000.0 <= r.value as real
                        < fps * opt.durationMin.value as real / 1000.0 + 1.0
  {
    if Truthy(opt.durationMin) then Some(Ceil(fps * opt.durationMin.value as real / 1000.0)) else None
  }

  /** frames_out_max = floor(fps * duration_max / 1000), when duration_max is set. */
  function FramesOutMax(fps: real, opt: CompOption): (r: Option<int>)
    ensures r.Some? <==> Truthy(opt.durationMax)
    ensures r.Some? ==> r.value as real <= fps * opt.durationMax.value as real / 1000.0
                        < r.value as real + 1.0
  {
    if Truthy(opt.durationMax) then Some((fps * opt.durationMax.value as real / 1000.0).Floor) else None
  }

  /**
   * The number of k >= 1 with round_half_up(k * inc) <= n - 1, that is with
   * k * inc < n - 1/2.
   */
  function Reachable(n: nat, inc: real): (r: nat)
    requires n >= 1 && inc > 0.0
  {
    var q := (n as real - 0.5) / inc;
    assert q > 0.0;
    Ceil(q) - 1
  }

  lemma PositiveMul(k: real, inc: real, q: real)
    requires inc > 0.0 && q * inc > 0.0
    ensures k < q <==> k * inc < q * inc
  {
  }

  /** The accumulator's k-th index is in range exactly for the first Reachable steps. */
  lemma ReachableMeaning(n: nat, inc: real, k: nat)
    requires n >= 1 && inc > 0.0
    ensures RoundHalfUp((k + 1) as real * inc) <= n - 1 <==> k < Reachable(n, inc)
  {
    var q := (n as real - 0.5) / inc;
    var x := (k + 1) as real * inc;
    assert x >= 0.0;
    assert q * inc == n as real - 0.5;
    PositiveMul((k + 1) as real, inc, q);
    // round_half_up(x) <= n - 1  <==>  x < n - 1/2  <==>  k + 1 < q  <==>  k + 1 < Ceil(q)
    assert RoundHalfUp(x) <= n - 1 <==> x < n as real - 0.5;
    assert x < n as real - 0.5 <==> (k + 1) as real < q;
    var c := Ceil(q);
    assert (k + 1) as real < q <==> k + 1 < c;
    assert Reachable(n, inc) == c - 1;
  }

  /**
   * The accumulator loop stops: it advances (a positive increment), or it
   * stands on frame 0 and frames_out_max is positive, so the length check
   * ends it.  A zero increment with no positive frames_out_max loops forever.
   */
  predicate DropEnds(inc: real, outMax: Option<int>)
  {
    inc > 0.0 || (inc == 0.0 && Truthy(outMax) && outMax.value > 0)
  }

  /** How many frames the accumulator loop takes before it stops. */
  function SelectedCount(n: nat, inc: real, outMax: Option<int>): (m: nat)
    requires n >= 1 && DropEnds(inc, outMax)
    ensures inc > 0.0 ==> m <= Reachable(n, inc)
    ensures Truthy(outMax) && outMax.value > 0 ==> m <= outMax.value
    ensures (inc > 0.0 && m == Reachable(n, inc)) || (Truthy(outMax) && m == outMax.value)
  {
    if inc == 0.0 then outMax.value
    else if Truthy(outMax) && 0 < outMax.value < Reachable(n, inc) then outMax.value else Reachable(n, inc)
  }

  /** The final length once the output is padded to be non-empty and at least frames_out_min. */
  function PaddedCount(m: nat, outMin: Option<int>): (l: nat)
    ensures l >= m && l >= 1
    ensures Truthy(outMin) ==> l >= outMin.value
    ensures l == m || l == 1 || (Truthy(outMin) && l == outMin.value)
  {
    var floor := if Truthy(outMin) then outMin.value else 0;
    Max(Max(m, 1), floor)
  }

  /** The accumulator's index after k + 1 increments. */
  function Picked(inc: real, k: nat): int
  {
    RoundHalfUp((k + 1) as real * inc)
  }

  /** Which source frame each output frame is: the selected ones, then the last frame as padding. */
  function DropIndices(n: nat, inc: real, outMin: Option<int>, outMax: Option<int>): (idx: seq<int>)
    requires n >= 1 && DropEnds(inc, outMax)
  {
    var m := SelectedCount(n, inc, outMax);
    seq(PaddedCount(m, outMin), k requires 0 <= k => if k < m then Picked(inc, k) else n - 1)
  }

  lemma DropIndicesInRange(n: nat, inc: real, outMin: Option<int>, outMax: Option<int>)
    requires n >= 1 && DropEnds(inc, outMax)
    ensures forall k :: 0 <= k < |DropIndices(n, inc, outMin, outMax)| ==>
              0 <= DropIndices(n, inc, outMin, outMax)[k] < n
  {
    var idx := DropIndices(n, inc, outMin, outMax);
    var m := SelectedCount(n, inc, outMax);
    forall k | 0 <= k < |idx| ensures 0 <= idx[k] < n {
      if k < m {
        PickedInRange(n, inc, outMax, k);
      }
    }
  }

  lemma RoundHalfUpMonotone(x: real, y: real)
    requires 0.0 <= x <= y
    ensures RoundHalfUp(x) <= RoundHalfUp(y)
  {
  }

  /** Output frames keep the source order: the source indices never decrease. */
  lemma DropIndicesSorted(n: nat, inc: real, outMin: Option<int>, outMax: Option<int>, i: int, j: int)
    requires n >= 1 && DropEnds(inc, outMax)
    requires 0 <= i <= j < |DropIndices(n, inc, outMin, outMax)|
    ensures DropIndices(n, inc, outMin, outMax)[i] <= DropIndices(n, inc, outMin, outMax)[j]
  {
    var m := SelectedCount(n, inc, outMax);
    DropIndexAt(n, inc, outMin, outMax, i);
    DropIndexAt(n, inc, outMin, outMax, j);
    if j < m {
      PickedMonotone(inc, i, j);
    } else if i < m {
      PickedInRange(n, inc, outMax, i);
    }
  }

  lemma PickedMonotone(inc: real, i: nat, j: nat)
    requires inc >= 0.0 && i <= j
    ensures Picked(inc, i) <= Picked(inc, j)
  {
    var x, y := (i + 1) as real * inc, (j + 1) as real * inc;
    MulMonotone((i + 1) as real, (j + 1) as real, inc);
    RoundHalfUpMonotone(x, y);
    assert Picked(inc, i) == RoundHalfUp(x) && Picked(inc, j) == RoundHalfUp(y);
  }

  lemma PickedInRange(n: nat, inc: real, outMax: Option<int>, k: nat)
    requires n >= 1 && DropEnds(inc, outMax) && k < SelectedCount(n, inc, outMax)
    ensures 0 <= Picked(inc, k) <= n - 1
  {
    if inc > 0.0 {
      ReachableMeaning(n, inc, k);
      MulMonotone(0.0, (k + 1) as real, inc);
    } else {
      assert Picked(inc, k) == RoundHalfUp(0.0) == 0;
    }
  }

  lemma DropIndexAt(n: nat, inc: real, outMin: Option<int>, outMax: Option<int>, k: int)
    requires n >= 1 && DropEnds(inc, outMax)
    requires 0 <= k < |DropIndices(n, inc, outMin, outMax)|
    ensures var m := SelectedCount(n, inc, outMax);
            DropIndices(n, inc, outMin, outMax)[k] == if k < m then Picked(inc, k) else n - 1
  {
  }

  lemma MulMonotone(a: real, b: real, c: real)
    requires 0.0 <= a <= b && c >= 0.0
    ensures 0.0 <= a * c <= b * c
  {
  }

  /** The frames frames_drop returns in the general (animated) case. */
  function Dropped(framesIn: seq<Frame>, inc: real, outMin: Option<int>, outMax: Option<int>): (out: seq<Frame>)
    requires |framesIn| >= 1 && DropEnds(inc, outMax)
    ensures |out| == |DropIndices(|framesIn|, inc, outMin, outMax)|
  {
    var idx := DropIndices(|framesIn|, inc, outMin, outMax);
    DropIndicesInRange(|framesIn|, inc, outMin, outMax);
    seq(|idx|, k requires 0 <= k < |idx| => framesIn[idx[k]])
  }

  /**
   * Every output frame is an input frame, the output is never empty, never
   * shorter than frames_out_min, and never holds more selected frames than
   * frames_out_max.
   */
  lemma DroppedProperties(framesIn: seq<Frame>, inc: real, outMin: Option<int>, outMax: Option<int>)
    requires |framesIn| >= 1 && DropEnds(inc, outMax)
    ensures var out := Dropped(framesIn, inc, outMin, outMax);
            && |out| >= 1
            && (Truthy(outMin) ==> |out| >= outMin.value)
            && (Truthy(outMax) && outMax.value > 0 ==> |out| <= Max(outMax.value, Max(1, if Truthy(outMin) then outMin.value else 0)))
            && (forall k :: 0 <= k < |out| ==> out[k] in framesIn)
  {
    var out := Dropped(framesIn, inc, outMin, outMax);
    var idx := DropIndices(|framesIn|, inc, outMin, outMax);
    DropIndicesInRange(|framesIn|, inc, outMin, outMax);
    forall k | 0 <= k < |out| ensures out[k] in framesIn {
      assert out[k] == framesIn[idx[k]];
    }
  }

  /**
   * A zero increment (a zero-length clip stretched to duration_min) stands
   * on frame 0: frames_out_max copies of the first frame come out, padded
   * with the last frame up to frames_out_min.
   */
  lemma ZeroIncrementRepeatsFirst(framesIn: seq<Frame>, outMin: Option<int>, outMax: Option<int>)
    requires |framesIn| >= 1 && DropEnds(0.0, outMax)
    ensures var out := Dropped(framesIn, 0.0, outMin, outMax);
            && |out| == PaddedCount(outMax.value, outMin)
            && forall k :: 0 <= k < |out| ==> out[k] == if k < outMax.value then framesIn[0] else framesIn[|framesIn| - 1]
  {
    var out := Dropped(framesIn, 0.0, outMin, outMax);
    var idx := DropIndices(|framesIn|, 0.0, outMin, outMax);
    forall k | 0 <= k < |out|
      ensures out[k] == if k < outMax.value then framesIn[0] else framesIn[|framesIn| - 1]
    {
      DropIndexAt(|framesIn|, 0.0, outMin, outMax, k);
      if k < outMax.value {
        assert idx[k] == Picked(0.0, k) == RoundHalfUp(0.0) == 0;
      }
    }
  }

  /**
   * At an unchanged rate (increment 1, no duration bounds) the first source
   * frame is never taken: the accumulator is advanced before it is read, so
   * frames 1 .. n-1 come out.
   */
  lemma SameRateSkipsFirstFrame(framesIn: seq<Frame>)
    requires |framesIn| >= 2
    ensures Dropped(framesIn, 1.0, None, None) == framesIn[1..]
  {
    var n := |framesIn|;
    var q := (n as real - 0.5) / 1.0;
    assert q == n as real - 0.5;
    assert Ceil(q) == n;
    assert Reachable(n, 1.0) == n - 1;
    var out := Dropped(framesIn, 1.0, None, None);
    assert |out| == n - 1;
    forall k | 0 <= k < n - 1 ensures out[k] == framesIn[1..][k] {
      assert RoundHalfUp((k + 1) as real * 1.0) == k + 1;
    }
  }

  // ---------------------------------------------------------------------
  // Frame-rate fixing (fix_fps)
  // ---------------------------------------------------------------------

  /** Fraction(num, den) as a value; a zero denominator is a ZeroDivisionError. */
  function Fraction(num: int, den: int): (r: Result<real>)
    ensures r.Ok? <==> den != 0
    ensures r.Ok? ==> r.value * den as real == num as real
  {
    if den == 0 then Err(ZeroDivision) else Ok(num as real / den as real)
  }

  /**
   * _fix_fps_duration: the frame delay is a whole number of 1/den seconds,
   * the nearest one (ties away from zero); one tick more when the resulting
   * rate is above fps_max, one tick less when it is below fps_min.
   */
  function FixFpsDuration(fps: real, den: int, opt: CompOption): (r: Result<real>)
    ensures fps == 0.0 ==> r == Err(ZeroDivision)
    ensures r.Err? ==> r.error == ZeroDivision
  {
    if fps == 0.0 then Err(ZeroDivision)
    else
      var delay := RoundHalfUp(den as real / fps);
      if delay == 0 then Err(ZeroDivision)
      else
        var f := den as real / delay as real;
        if Truthy(opt.fpsMax) && f > opt.fpsMax.value as real then Fraction(den, delay + 1)
        else if Truthy(opt.fpsMin) && f < opt.fpsMin.value as real then Fraction(den, delay - 1)
        else Ok(f)
  }

  /** The delay option that fix_fps picks for an output suffix (lines 811-825). */
  function FpsDenominator(suffix: string): Option<int>
  {
    if suffix == ".gif" then Some(100)
    else if suffix in [".webp", ".apng", ".png"] then Some(1000)
    else None
  }

  /** fix_fps: whole hundredths for GIF, whole milliseconds for WebP/APNG/PNG, whole fps otherwise. */
  function FixFps(suffix: string, fps: real, opt: CompOption): (r: Result<real>)
    ensures r.Err? ==> r.error == ZeroDivision && FpsDenominator(suffix).Some?
    ensures FpsDenominator(suffix).None? ==>
              r.Ok? && r.value == r.value.Floor as real && fps - 0.5 <= r.value <= fps + 0.5
  {
    match FpsDenominator(suffix)
    case Some(den) => FixFpsDuration(fps, den, opt)
    case None => Ok(RoundHalfUp(fps) as real)
  }

  /**
   * The fixed rate is den / d for a whole, non-zero delay d that is within
   * one tick of the nearest delay round_half_up(den / fps); it is exactly
   * round_half_up(den / fps) when the bounds did not fire, and it is an
   * error only when a delay of 0 ticks would be asked for.
   */
  lemma FixFpsDurationDelay(fps: real, den: int, opt: CompOption)
    requires fps != 0.0
    ensures var r := FixFpsDuration(fps, den, opt);
            var delay := RoundHalfUp(den as real / fps);
            && (r.Err? ==> r.error == ZeroDivision)
            && (r.Ok? ==> exists d: int :: delay - 1 <= d <= delay + 1 && WholeTicks(r.value, den, d))
            && (delay != 0 && !Truthy(opt.fpsMax) && !Truthy(opt.fpsMin) ==>
                  r.Ok? && r.value * delay as real == den as real)
  {
    var r := FixFpsDuration(fps, den, opt);
    var delay := RoundHalfUp(den as real / fps);
    if r.Ok? {
      var f := den as real / delay as real;
      if Truthy(opt.fpsMax) && f > opt.fpsMax.value as real {
        assert WholeTicks(r.value, den, delay + 1);
      } else if Truthy(opt.fpsMin) && f < opt.fpsMin.value as real {
        assert WholeTicks(r.value, den, delay - 1);
      } else {
        assert WholeTicks(r.value, den, delay);
      }
    }
  }

  lemma RoundHalfUpOfInt(n: int)
    ensures RoundHalfUp(n as real) == n
  {
  }

  /**
   * Without fps bounds, fixing is idempotent: a rate that is already a whole
   * number of ticks stays where it is.
   */
  lemma FixFpsIdempotent(suffix: string, fps: real, opt: CompOption)
    requires !Truthy(opt.fpsMax) && !Truthy(opt.fpsMin)
    requires FixFps(suffix, fps, opt).Ok?
    ensures var once := FixFps(suffix, fps, opt).value;
            FixFps(suffix, once, opt) == Ok(once)
  {
    var once := FixFps(suffix, fps, opt).value;
    match FpsDenominator(suffix)
    case Some(den) =>
      var delay := RoundHalfUp(den as real / fps);
      assert den > 0;
      assert once == den as real / delay as real;
      assert den as real / once == delay as real;
      RoundHalfUpOfInt(delay);
    case None =>
      RoundHalfUpOfInt(RoundHalfUp(fps));
  }

  /** A frame rate whose frame delay is d ticks of 1/den second. */
  predicate WholeTicks(rate: real, den: int, d: int)
  {
    d != 0 && rate * d as real == den as real
  }

  /** A GIF's fixed rate has a whole number of hundredths of a second per frame. */
  lemma GifDelayInHundredths(fps: real, opt: CompOption)
    requires fps != 0.0 && FixFps(".gif", fps, opt).Ok?
    ensures exists d: int :: WholeTicks(FixFps(".gif", fps, opt).value, 100, d)
  {
    FixFpsDurationDelay(fps, 100, opt);
  }
}
