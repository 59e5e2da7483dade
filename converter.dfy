/**
 * StickerConvert (converter.py): one conversion of one input file.  The
 * object resolves the output name, builds the quality ladder, and then
 * bisects over it: each probe resamples, letterboxes and exports the
 * frames, and the encoded size decides where the next probe goes, as the
 * Search module describes.  Decoding, the compatibility check and the
 * encoders are outside the model: the decoded frames, the verdict of the
 * check and the encoder (a function from an export plan to bytes) are
 * parameters.
 */
module Converter {
  import opened Base
  import opened CompOptions
  import opened StepLadder
  import opened Search
  import opened Frames
  import opened Export

  /** An output path: its directory and its last component (the only part pathlib's suffix logic sees). */
  datatype OutPath = OutPath(dir: string, name: string)

  /** What CodecInfo reports about the input. */
  datatype SourceInfo = SourceInfo(isAnimated: bool, fps: real, duration: int)

  /** The third element of convert's result: None, the bytes, or the path written. */
  datatype Payload = NoOutput | Data(bytes: seq<byte>) | File(path: OutPath)

  datatype ConvertResult = ConvertResult(success: bool, inPath: string, out: Payload, size: int)

  /** The encoder behind frames_export: the bytes written to tmp_f for a plan. */
  type Encoder = ExportPlan -> seq<byte>

  // ---------------------------------------------------------------------
  // Output name (__init__, lines 108-123)
  // ---------------------------------------------------------------------

  /**
   * An output name whose suffix is accepted (or any name when no format is
   * configured) is kept; otherwise the first video format (animated input
   * or fake_vid) or the first image format replaces the suffix.
   */
  function ResolveOut(outF: OutPath, opt: CompOption, isAnimated: bool): (r: Result<OutPath>)
    ensures |ValidFormats(opt)| == 0 || Suffix(outF.name) in ValidFormats(opt) ==> r == Ok(outF)
    ensures r.Ok? ==> r.value.dir == outF.dir
    ensures r.Err? ==> r.error in {IndexOut, BadValue}
    ensures r.Err? && r.error == IndexOut <==>
              |ValidFormats(opt)| > 0 && Suffix(outF.name) !in ValidFormats(opt)
              && |if isAnimated || opt.fakeVid then opt.formatVid else opt.formatImg| == 0
  {
    var valid := ValidFormats(opt);
    if |valid| == 0 || Suffix(outF.name) in valid then Ok(outF)
    else
      var formats := if isAnimated || opt.fakeVid then opt.formatVid else opt.formatImg;
      if |formats| == 0 then Err(IndexOut)
      else match WithSuffix(outF.name, formats[0])
        case Ok(n) => Ok(OutPath(outF.dir, n))
        case Err(e) => Err(BadValue)
  }

  /** Every format is a plain ".ext" suffix. */
  predicate PlainFormats(opt: CompOption)
  {
    forall i :: 0 <= i < |ValidFormats(opt)| ==> PlainSuffix(ValidFormats(opt)[i])
  }

  /**
   * With formats configured, the resolved output always carries one of
   * them as its suffix, and resolving an already resolved name changes
   * nothing.
   */
  lemma ResolveOutAccepted(outF: OutPath, opt: CompOption, isAnimated: bool)
    requires |ValidFormats(opt)| > 0 && PlainFormats(opt) && outF.name != ""
    requires ResolveOut(outF, opt, isAnimated).Ok?
    ensures Suffix(ResolveOut(outF, opt, isAnimated).value.name) in ValidFormats(opt)
    ensures ResolveOut(ResolveOut(outF, opt, isAnimated).value, opt, isAnimated) == ResolveOut(outF, opt, isAnimated)
  {
    var valid := ValidFormats(opt);
    if Suffix(outF.name) !in valid {
      var formats := if isAnimated || opt.fakeVid then opt.formatVid else opt.formatImg;
      var ext := formats[0];
      if isAnimated || opt.fakeVid {
        assert ext == valid[|opt.formatImg|];
      } else {
        assert ext == valid[0];
      }
      WithSuffixSuffix(outF.name, ext);
    }
  }

  /** compress_done's destination: stem "none" discards, stem "bytes" returns the data, anything else is a file. */
  function Deliver(outF: OutPath, data: seq<byte>): (p: Payload)
    ensures p.NoOutput? <==> Stem(outF.name) == "none"
    ensures p.Data? <==> Stem(outF.name) == "bytes"
    ensures p.Data? ==> p.bytes == data
    ensures p.File? ==> p.path == outF
  {
    if Stem(outF.name) == "none" then NoOutput
    else if Stem(outF.name) == "bytes" then Data(data)
    else File(outF)
  }

  // ---------------------------------------------------------------------
  // Probe parameters
  // ---------------------------------------------------------------------

  /** The fps of one probe (lines 200-204): fix_fps(min(step fps, source fps)) when both are truthy, else 0. */
  function ProbeRate(suffix: string, stepFps: Option<int>, srcFps: real, opt: CompOption): (r: Result<real>)
    ensures !(Truthy(stepFps) && srcFps != 0.0) ==> r == Ok(0.0)
  {
    if Truthy(stepFps) && srcFps != 0.0 then
      var p := stepFps.value as real;
      FixFps(suffix, if srcFps < p then srcFps else p, opt)
    else Ok(0.0)
  }

  /** A positive rate stays positive through fix_fps, or becomes 0 when rounded down to whole fps. */
  lemma FixFpsNonNegative(suffix: string, x: real, opt: CompOption)
    requires x > 0.0
    ensures FixFps(suffix, x, opt).Ok? ==> FixFps(suffix, x, opt).value >= 0.0
  {
    match FpsDenominator(suffix)
    case Some(den) =>
      var delay := RoundHalfUp(den as real / x);
      assert den > 0;
      assert den as real / x > 0.0;
      assert delay >= 0;
    case None =>
  }

  /** With non-negative rates on both sides, the probe's fps is never negative. */
  lemma ProbeRateNonNegative(suffix: string, stepFps: Option<int>, srcFps: real, opt: CompOption)
    requires srcFps >= 0.0 && NonNegative(stepFps)
    ensures ProbeRate(suffix, stepFps, srcFps, opt).Ok? ==> ProbeRate(suffix, stepFps, srcFps, opt).value >= 0.0
  {
    if Truthy(stepFps) && srcFps != 0.0 {
      var p := stepFps.value as real;
      FixFpsNonNegative(suffix, if srcFps < p then srcFps else p, opt);
    }
  }

  /**
   * With positive rates, a non-negative duration and a non-negative
   * duration_max, frames are advanced by a non-negative step, which is 0
   * exactly for a zero-length clip that duration_min stretches.
   */
  lemma IncrementSign(srcFps: real, fps: real, duration: int, opt: CompOption)
    requires srcFps > 0.0 && fps > 0.0 && duration >= 0 && NonNegative(opt.durationMax)
    ensures FrameIncrement(srcFps, fps, duration, opt) >= 0.0
    ensures FrameIncrement(srcFps, fps, duration, opt) == 0.0 <==>
              duration == 0 && Truthy(opt.durationMin) && opt.durationMin.value > 0
  {
    var s := SpeedRatio(duration, opt);
    if Truthy(opt.durationMin) && duration < opt.durationMin.value {
      assert s * opt.durationMin.value as real == duration as real;
      assert opt.durationMin.value > 0;
      assert s >= 0.0 && (s == 0.0 <==> duration == 0);
    } else if Truthy(opt.durationMax) && duration > opt.durationMax.value {
      assert s * opt.durationMax.value as real == duration as real;
      assert s > 0.0;
    } else {
      assert s == 1.0;
    }
    assert srcFps / fps > 0.0;
  }

  /** Every fps on the ladder is non-negative when its bounds are. */
  lemma LadderFpsSound(opt: CompOption, pow: Pow, k: int)
    requires opt.steps > 0 && 0 <= k <= opt.steps
    requires NonNegative(opt.fpsMin) && NonNegative(opt.fpsMax) && ShapeInUnit(pow, opt.fpsPower)
    ensures NonNegative(Ladder(opt, pow)[k].fps)
  {
    assert Ladder(opt, pow)[k] == Row(opt, pow, opt.steps - k);
    if opt.fpsMax.Some? && opt.fpsMin.Some? {
      StepValueBetween(opt.fpsMax.value, opt.fpsMin.value, opt.steps - k, opt.steps, opt.fpsPower, false, pow);
    }
  }

  // ---------------------------------------------------------------------
  // frames_drop
  // ---------------------------------------------------------------------

  /** The single-frame shortcut of lines 572-577 (frames_processed is the previous probe's output). */
  predicate DropShortcut(isAnimated: bool, fps: real, prevCount: nat)
  {
    !isAnimated || fps == 0.0 || prevCount == 1
  }

  /**
   * The frames frames_drop returns; an empty input is an IndexError on
   * either path, and a loop that never ends is Diverges.
   */
  function DropSpec(framesIn: seq<Frame>, src: SourceInfo, fps: real, prevCount: nat, opt: CompOption): Result<seq<Frame>>
    requires |framesIn| > 0 && !DropShortcut(src.isAnimated, fps, prevCount) ==>
               FrameIncrement(src.fps, fps, src.duration, opt) >= 0.0
  {
    if |framesIn| == 0 then Err(IndexOut)
    else if DropShortcut(src.isAnimated, fps, prevCount) then Ok([framesIn[0]])
    else
      var inc := FrameIncrement(src.fps, fps, src.duration, opt);
      if !DropEnds(inc, FramesOutMax(fps, opt)) then Err(Diverges)
      else Ok(Dropped(framesIn, inc, FramesOutMin(fps, opt), FramesOutMax(fps, opt)))
  }

  /**
   * frames_drop fails exactly on an empty input and on a loop that never
   * ends; otherwise it returns a non-empty sequence of input frames.
   */
  lemma DropSpecProperties(framesIn: seq<Frame>, src: SourceInfo, fps: real, prevCount: nat, opt: CompOption)
    requires |framesIn| > 0 && !DropShortcut(src.isAnimated, fps, prevCount) ==>
               FrameIncrement(src.fps, fps, src.duration, opt) >= 0.0
    ensures DropSpec(framesIn, src, fps, prevCount, opt) == Err(IndexOut) <==> |framesIn| == 0
    ensures DropSpec(framesIn, src, fps, prevCount, opt) == Err(Diverges) <==>
              |framesIn| > 0 && !DropShortcut(src.isAnimated, fps, prevCount)
              && !DropEnds(FrameIncrement(src.fps, fps, src.duration, opt), FramesOutMax(fps, opt))
    ensures var r := DropSpec(framesIn, src, fps, prevCount, opt);
            r.Err? ==> r.error == IndexOut || r.error == Diverges
    ensures var r := DropSpec(framesIn, src, fps, prevCount, opt);
            r.Ok? ==> |r.value| >= 1 && forall k :: 0 <= k < |r.value| ==> r.value[k] in framesIn
  {
    if |framesIn| > 0 && !DropShortcut(src.isAnimated, fps, prevCount)
       && DropEnds(FrameIncrement(src.fps, fps, src.duration, opt), FramesOutMax(fps, opt)) {
      DroppedProperties(framesIn, FrameIncrement(src.fps, fps, src.duration, opt), FramesOutMin(fps, opt), FramesOutMax(fps, opt));
    }
  }

  /**
   * The accumulator loop of lines 607-621: advance by inc, round half up,
   * take that frame while it exists and frames_out_max is not reached;
   * then pad with the last frame to at least one frame and frames_out_min.
   */
  method DropFrames(framesIn: seq<Frame>, inc: real, outMin: Option<int>, outMax: Option<int>) returns (out: seq<Frame>)
    requires |framesIn| >= 1 && DropEnds(inc, outMax)
    ensures out == Dropped(framesIn, inc, outMin, outMax)
  {
    var n := |framesIn|;
    ghost var m := SelectedCount(n, inc, outMax);
    ghost var idx := DropIndices(n, inc, outMin, outMax);
    DropIndicesInRange(n, inc, outMin, outMax);
    out := [];
    var acc := 0.0;
    assert acc == Scaled(0, inc);
    while true
      invariant |out| <= m && m <= |idx|
      invariant forall k :: 0 <= k < |idx| ==> 0 <= idx[k] < n
      invariant acc == Scaled(|out|, inc)
      invariant forall j :: 0 <= j < |out| ==> out[j] == framesIn[idx[j]]
      decreases m - |out|
    {
      AccumulatorStep(acc, inc, |out|);
      acc := acc + inc;
      var cur := RoundHalfUp(acc);
      DropStep(n, inc, outMin, outMax, |out|);
      if cur <= n - 1 && !(Truthy(outMax) && |out| == outMax.value) {
        assert idx[|out|] == cur;
        out := out + [framesIn[cur]];
      } else {
        break;
      }
    }
    while |out| == 0 || (Truthy(outMin) && |out| < outMin.value)
      invariant m <= |out| <= |idx|
      invariant forall k :: 0 <= k < |idx| ==> 0 <= idx[k] < n
      invariant forall j :: 0 <= j < |out| ==> out[j] == framesIn[idx[j]]
      decreases |idx| - |out|
    {
      DropIndexAt(n, inc, outMin, outMax, |out|);
      out := out + [framesIn[n - 1]];
    }
  }

  /** k * inc, the accumulator after k rounds. */
  function Scaled(k: nat, inc: real): real
  {
    k as real * inc
  }

  lemma AccumulatorStep(acc: real, inc: real, k: nat)
    requires acc == Scaled(k, inc)
    ensures acc + inc == Scaled(k + 1, inc)
    ensures RoundHalfUp(acc + inc) == Picked(inc, k)
  {
  }

  /**
   * One round of the accumulator loop: it takes a frame exactly while
   * fewer than SelectedCount frames are taken, and that frame is the
   * DropIndices entry.
   */
  lemma DropStep(n: nat, inc: real, outMin: Option<int>, outMax: Option<int>, k: nat)
    requires n >= 1 && DropEnds(inc, outMax) && k <= SelectedCount(n, inc, outMax)
    ensures var idx := DropIndices(n, inc, outMin, outMax);
            && SelectedCount(n, inc, outMax) <= |idx|
            && ((Picked(inc, k) <= n - 1 && !(Truthy(outMax) && k == outMax.value)) <==> k < SelectedCount(n, inc, outMax))
            && (k < SelectedCount(n, inc, outMax) ==> idx[k] == Picked(inc, k))
            && (k == SelectedCount(n, inc, outMax) ==> k == |idx| || (k < |idx| && idx[k] == n - 1))
  {
    var idx := DropIndices(n, inc, outMin, outMax);
    var m := SelectedCount(n, inc, outMax);
    assert |idx| == PaddedCount(m, outMin) >= m;
    if inc == 0.0 {
      assert m == outMax.value;
      assert Picked(inc, k) == RoundHalfUp(0.0) == 0;
    } else if Truthy(outMax) && 0 < outMax.value < Reachable(n, inc) {
      ReachableMeaning(n, inc, k);
      assert m == outMax.value;
    } else {
      ReachableMeaning(n, inc, k);
      assert m == Reachable(n, inc);
    }
    if k < |idx| {
      DropIndexAt(n, inc, outMin, outMax, k);
    }
  }

  // ---------------------------------------------------------------------
  // frames_resize
  // ---------------------------------------------------------------------

  /** res_w / res_h: the probe's own value, or the first frame's size when the ladder leaves it unset. */
  function FillFrom(v: Option<int>, frames: seq<Frame>, width: bool): Option<int>
  {
    if v.Some? || |frames| == 0 then v else Some(if width then frames[0].width else frames[0].height)
  }

  /** The geometry of frame f on a w x h canvas. */
  function Fit(f: Frame, w: int, h: int): Result<Geometry>
  {
    Letterbox(f.width, f.height, w, h)
  }

  /**
   * Every frame letterboxed onto a w x h canvas, in order; the first frame
   * whose letterbox fails decides the error.
   */
  function CanvasAll(frames: seq<Frame>, filter: Resample, w: int, h: int): (r: Result<seq<Frame>>)
    ensures r.Ok? ==> |r.value| == |frames|
    decreases |frames|
  {
    if |frames| == 0 then Ok([])
    else
      match Fit(frames[0], w, h)
      case Err(e) => Err(e)
      case Ok(g) =>
        match CanvasAll(frames[1..], filter, w, h)
        case Err(e) => Err(e)
        case Ok(rest) => Ok([Canvas(frames[0], filter, w, h, g)] + rest)
  }

  /**
   * CanvasAll fails exactly when some frame does not fit, with the error of
   * the first such frame; otherwise frame k of the output is frame k of the
   * input pasted onto the canvas at its own letterbox geometry.
   */
  lemma {:induction false} CanvasAllProperties(frames: seq<Frame>, filter: Resample, w: int, h: int)
    ensures CanvasAll(frames, filter, w, h).Err? <==> exists k :: 0 <= k < |frames| && Fit(frames[k], w, h).Err?
    ensures var r := CanvasAll(frames, filter, w, h);
            r.Err? ==> exists k :: 0 <= k < |frames| && Fit(frames[k], w, h) == Err(r.error)
                                   && forall j :: 0 <= j < k ==> Fit(frames[j], w, h).Ok?
    ensures var r := CanvasAll(frames, filter, w, h);
            r.Ok? ==> forall k :: 0 <= k < |frames| ==>
                        && Fit(frames[k], w, h).Ok?
                        && r.value[k] == Canvas(frames[k], filter, w, h, Fit(frames[k], w, h).value)
    decreases |frames|
  {
    if |frames| > 0 {
      var tail := frames[1..];
      CanvasAllProperties(tail, filter, w, h);
      assert forall k :: 1 <= k < |frames| ==> frames[k] == tail[k - 1];
      var r := CanvasAll(frames, filter, w, h);
      match Fit(frames[0], w, h)
      case Err(e) =>
        assert Fit(frames[0], w, h) == Err(r.error);
      case Ok(g) =>
        if CanvasAll(tail, filter, w, h).Err? {
          var k :| 0 <= k < |tail| && Fit(tail[k], w, h) == Err(r.error)
                   && forall j :: 0 <= j < k ==> Fit(tail[j], w, h).Ok?;
          assert Fit(frames[k + 1], w, h) == Err(r.error);
          assert forall j :: 0 <= j < k + 1 ==> Fit(frames[j], w, h).Ok? by {
            forall j | 0 <= j < k + 1 ensures Fit(frames[j], w, h).Ok? {
              if j > 0 {
                assert frames[j] == tail[j - 1];
              }
            }
          }
        } else {
          forall k | 0 <= k < |frames| ensures Fit(frames[k], w, h).Ok? {
            if k > 0 {
              assert frames[k] == tail[k - 1];
            }
          }
          var rest := CanvasAll(tail, filter, w, h).value;
          assert r.value == [Canvas(frames[0], filter, w, h, g)] + rest;
          forall k | 0 <= k < |frames|
            ensures r.value[k] == Canvas(frames[k], filter, w, h, Fit(frames[k], w, h).value)
          {
            if k > 0 {
              assert r.value[k] == rest[k - 1];
            }
          }
        }
    }
  }

  /**
   * The frames frames_resize returns: each one letterboxed onto a
   * res_w x res_h canvas, an unset side taken from the first frame.
   */
  function Resized(frames: seq<Frame>, filter: Resample, resW: Option<int>, resH: Option<int>): (r: Result<seq<Frame>>)
    ensures |frames| == 0 ==> r == Ok([])
  {
    if |frames| == 0 then Ok([])
    else CanvasAll(frames, filter, FillFrom(resW, frames, true).value, FillFrom(resH, frames, false).value)
  }

  /**
   * Every resized frame is the canvas of the input frame at the same
   * position, all of one size; the resize fails exactly when some frame
   * does not fit the canvas (a 0 x 0 frame, a scaled side below 1, a
   * negative canvas side), with the first such frame's error.
   */
  lemma ResizedProperties(frames: seq<Frame>, filter: Resample, resW: Option<int>, resH: Option<int>)
    requires |frames| > 0
    ensures var r := Resized(frames, filter, resW, resH);
            var w := FillFrom(resW, frames, true).value;
            var h := FillFrom(resH, frames, false).value;
            && (r.Err? <==> exists k :: 0 <= k < |frames| && Fit(frames[k], w, h).Err?)
            && (r.Err? ==> exists k :: 0 <= k < |frames| && Fit(frames[k], w, h) == Err(r.error)
                                       && forall j :: 0 <= j < k ==> Fit(frames[j], w, h).Ok?)
            && (r.Ok? ==> |r.value| == |frames|
                          && forall k :: 0 <= k < |frames| ==>
                               && r.value[k].width == w && r.value[k].height == h
                               && r.value[k].pixels.Letterboxed?
                               && r.value[k].pixels.src == frames[k]
                               && r.value[k].pixels.filter == filter)
  {
    CanvasAllProperties(frames, filter, FillFrom(resW, frames, true).value, FillFrom(resH, frames, false).value);
  }

  /** out in front of a result sequence; an error stays the error. */
  function Prepend(out: seq<Frame>, r: Result<seq<Frame>>): Result<seq<Frame>>
  {
    match r
    case Err(e) => Err(e)
    case Ok(rest) => Ok(out + rest)
  }

  /** One turn of the letterbox loop: frame i either fails to fit or joins the output. */
  lemma CanvasAllStep(frames: seq<Frame>, filter: Resample, w: int, h: int, i: int, out: seq<Frame>)
    requires 0 <= i < |frames|
    ensures Fit(frames[i], w, h).Err? ==> CanvasAll(frames[i..], filter, w, h) == Err(Fit(frames[i], w, h).error)
    ensures Fit(frames[i], w, h).Ok? ==>
              Prepend(out, CanvasAll(frames[i..], filter, w, h))
              == Prepend(out + [Canvas(frames[i], filter, w, h, Fit(frames[i], w, h).value)], CanvasAll(frames[i + 1..], filter, w, h))
  {
    assert frames[i..][0] == frames[i] && frames[i..][1..] == frames[i + 1..];
    var rest := CanvasAll(frames[i + 1..], filter, w, h);
    if Fit(frames[i], w, h).Ok? && rest.Ok? {
      var c := Canvas(frames[i], filter, w, h, Fit(frames[i], w, h).value);
      assert out + ([c] + rest.value) == (out + [c]) + rest.value;
    }
  }

  /** The loop of frames_resize once the canvas size is known (lines 541-565). */
  method LetterboxFrames(frames: seq<Frame>, filter: Resample, w: int, h: int) returns (r: Result<seq<Frame>>)
    ensures r == CanvasAll(frames, filter, w, h)
  {
    var out: seq<Frame> := [];
    var i := 0;
    assert frames[0..] == frames;
    assert CanvasAll(frames, filter, w, h).Ok? ==> [] + CanvasAll(frames, filter, w, h).value == CanvasAll(frames, filter, w, h).value;
    while i < |frames|
      invariant 0 <= i <= |frames|
      invariant CanvasAll(frames, filter, w, h) == Prepend(out, CanvasAll(frames[i..], filter, w, h))
    {
      var f := frames[i];
      var g := Fit(f, w, h);
      CanvasAllStep(frames, filter, w, h, i, out);
      if g.Err? {
        return Err(g.error);
      }
      out := out + [Canvas(f, filter, w, h, g.value)];
      i := i + 1;
    }
    assert frames[i..] == [];
    assert out + [] == out;
    return Ok(out);
  }

  // ---------------------------------------------------------------------
  // One probe, as a specification
  // ---------------------------------------------------------------------

  /** What the source must satisfy for every frames_drop call to be defined. */
  predicate SourceSound(source: SourceInfo, opt: CompOption)
  {
    source.fps >= 0.0 && source.duration >= 0 && NonNegative(opt.durationMax)
  }

  /** A rate of 0 takes the shortcut; any other rate advances by a non-negative increment. */
  lemma DropDefined(source: SourceInfo, fps: real, prevCount: nat, opt: CompOption)
    requires SourceSound(source, opt) && fps >= 0.0 && (fps != 0.0 ==> source.fps != 0.0)
    ensures !DropShortcut(source.isAnimated, fps, prevCount) ==>
              FrameIncrement(source.fps, fps, source.duration, opt) >= 0.0
  {
    if !DropShortcut(source.isAnimated, fps, prevCount) {
      IncrementSign(source.fps, fps, source.duration, opt);
    }
  }

  /** What one probe leaves behind: the frames in frames_processed and the plan handed to the encoder. */
  datatype ProbeOut = ProbeOut(frames: seq<Frame>, plan: ExportPlan)

  /**
   * One probe of ladder row `row` (lines 197-224): the probe's fps, then
   * frames_drop of the decoded frames (against the previous probe's frame
   * count), frames_resize, and frames_export; the first error wins.  A
   * successful probe leaves at least one letterboxed frame, each made from
   * a decoded frame.
   */
  function ProbeSpec(outF: OutPath, opt: CompOption, source: SourceInfo, framesRaw: seq<Frame>, prevCount: nat,
                     row: StepParams, ok: QuantOracle): (r: Result<ProbeOut>)
    requires SourceSound(source, opt) && NonNegative(row.fps)
    ensures r.Ok? ==> && |r.value.frames| >= 1
                      && forall k :: 0 <= k < |r.value.frames| ==>
                           r.value.frames[k].pixels.Letterboxed? && r.value.frames[k].pixels.src in framesRaw
  {
    var suffix := Suffix(outF.name);
    var filter := ResampleFilter(opt.scaleFilter);
    match ProbeRate(suffix, row.fps, source.fps, opt)
    case Err(e) => Err(e)
    case Ok(fps) =>
      ProbeRateNonNegative(suffix, row.fps, source.fps, opt);
      DropDefined(source, fps, prevCount, opt);
      DropSpecProperties(framesRaw, source, fps, prevCount, opt);
      match DropSpec(framesRaw, source, fps, prevCount, opt)
      case Err(e) => Err(e)
      case Ok(dropped) =>
        ResizedProperties(dropped, filter, row.resW, row.resH);
        match Resized(dropped, filter, row.resW, row.resH)
        case Err(e) => Err(e)
        case Ok(frames) =>
          var x := ExportInput(suffix, frames, fps, FillFrom(row.resW, dropped, true), FillFrom(row.resH, dropped, false),
                               row.quality, row.colors);
          match ExportSpec(x, opt, ok)
          case Err(e) => Err(e)
          case Ok(plan) => Ok(ProbeOut(frames, plan))
  }

  /**
   * The probes made at the ladder steps `at`, in order, each one starting
   * from the frames the one before it left in frames_processed (none for
   * the first); None when a step is off the ladder or a probe fails.
   */
  function Probes(outF: OutPath, opt: CompOption, source: SourceInfo, rows: seq<StepParams>, framesRaw: seq<Frame>,
                  at: seq<int>, ok: QuantOracle): (r: Option<seq<ProbeOut>>)
    requires SourceSound(source, opt)
    ensures r.Some? ==> |r.value| == |at|
    decreases |at|
  {
    if |at| == 0 then Some([])
    else
      var n := |at| - 1;
      match Probes(outF, opt, source, rows, framesRaw, at[..n], ok)
      case None => None
      case Some(prev) =>
        var prior := if n == 0 then 0 else |prev[n - 1].frames|;
        if !(0 <= at[n] < |rows|) || !NonNegative(rows[at[n]].fps) then None
        else
          match ProbeSpec(outF, opt, source, framesRaw, prior, rows[at[n]], ok)
          case Err(_) => None
          case Ok(out) => Some(prev + [out])
  }

  /** One more probe at `step`, starting from the frames the last probe left, extends Probes by that probe. */
  lemma ProbesSnoc(outF: OutPath, opt: CompOption, source: SourceInfo, rows: seq<StepParams>, framesRaw: seq<Frame>,
                   at: seq<int>, step: int, ok: QuantOracle, out: ProbeOut)
    requires SourceSound(source, opt) && Probes(outF, opt, source, rows, framesRaw, at, ok).Some?
    requires 0 <= step < |rows| && NonNegative(rows[step].fps)
    requires var prev := Probes(outF, opt, source, rows, framesRaw, at, ok).value;
             ProbeSpec(outF, opt, source, framesRaw, if |at| == 0 then 0 else |prev[|at| - 1].frames|, rows[step], ok)
             == Ok(out)
    ensures Probes(outF, opt, source, rows, framesRaw, at + [step], ok)
            == Some(Probes(outF, opt, source, rows, framesRaw, at, ok).value + [out])
  {
    assert (at + [step])[..|at|] == at;
  }

  /**
   * The probes at the steps `at` are defined, their plans are `plans`, and
   * the last one left `frames` (nothing before the first probe).
   */
  ghost predicate ProbesMatch(outF: OutPath, opt: CompOption, source: SourceInfo, rows: seq<StepParams>,
                              framesRaw: seq<Frame>, frames: seq<Frame>, plans: seq<ExportPlan>, at: seq<int>,
                              ok: QuantOracle)
  {
    && SourceSound(source, opt) && |at| == |plans|
    && var t := Probes(outF, opt, source, rows, framesRaw, at, ok);
       && t.Some?
       && (forall i :: 0 <= i < |plans| ==> t.value[i].plan == plans[i])
       && frames == (if |plans| == 0 then [] else t.value[|plans| - 1].frames)
  }

  /** A probe at `step` from the frames the last probe left keeps ProbesMatch with its frames and plan appended. */
  lemma ProbesMatchSnoc(outF: OutPath, opt: CompOption, source: SourceInfo, rows: seq<StepParams>,
                        framesRaw: seq<Frame>, frames: seq<Frame>, plans: seq<ExportPlan>, at: seq<int>,
                        ok: QuantOracle, step: int, out: ProbeOut)
    requires ProbesMatch(outF, opt, source, rows, framesRaw, frames, plans, at, ok)
    requires 0 <= step < |rows| && NonNegative(rows[step].fps)
    requires ProbeSpec(outF, opt, source, framesRaw, |frames|, rows[step], ok) == Ok(out)
    ensures ProbesMatch(outF, opt, source, rows, framesRaw, out.frames, plans + [out.plan], at + [step], ok)
  {
    var t := Probes(outF, opt, source, rows, framesRaw, at, ok).value;
    ProbesSnoc(outF, opt, source, rows, framesRaw, at, step, ok, out);
    var t' := t + [out];
    assert forall i :: 0 <= i < |plans| + 1 ==> t'[i].plan == (plans + [out.plan])[i];
  }

  // ---------------------------------------------------------------------
  // The converter object
  // ---------------------------------------------------------------------

  class StickerConvert {
    const inPath: string
    const inBytes: seq<byte>
    const outF: OutPath
    const opt: CompOption
    const source: SourceInfo
    const pow: Pow

    var framesRaw: seq<Frame>
    var framesProcessed: seq<Frame>
    var size: nat
    var sizeMax: Option<int>
    var resW: Option<int>
    var resH: Option<int>
    var quality: Option<int>
    var fps: real
    var color: Option<int>
    var result: Option<seq<byte>>
    var resultSize: nat
    var resultStep: Option<int>
    /** The bytes compress_done wrote to outF, if it wrote any. */
    var written: Option<seq<byte>>
    /** The encoded size of every probe so far, and what each probe exported. */
    ghost var probes: seq<nat>
    ghost var plans: seq<ExportPlan>
    /** The ladder step of every probe. */
    ghost var probedAt: seq<int>

    /**
     * __init__: the output name is resolved (the caller handles the errors
     * ResolveOut reports) and an unset or zero step count becomes 1.
     */
    constructor(inPath: string, inBytes: seq<byte>, outF: OutPath, opt: CompOption, source: SourceInfo, pow: Pow)
      requires ResolveOut(outF, opt, source.isAnimated).Ok?
      ensures this.inPath == inPath && this.inBytes == inBytes && this.source == source && this.pow == pow
      ensures this.outF == ResolveOut(outF, opt, source.isAnimated).value
      ensures this.opt == (if opt.steps == 0 then opt.(steps := 1) else opt)
      ensures framesRaw == [] && framesProcessed == [] && size == 0 && sizeMax.None?
      ensures resW.None? && resH.None? && quality.None? && fps == 0.0 && color.None?
      ensures result.None? && resultSize == 0 && resultStep.None? && written.None?
      ensures probes == [] && plans == [] && probedAt == []
    {
      this.inPath := inPath;
      this.inBytes := inBytes;
      this.outF := ResolveOut(outF, opt, source.isAnimated).value;
      this.opt := if opt.steps == 0 then opt.(steps := 1) else opt;
      this.source := source;
      this.pow := pow;
      framesRaw := [];
      framesProcessed := [];
      size := 0;
      sizeMax := None;
      resW := None;
      resH := None;
      quality := None;
      fps := 0.0;
      color := None;
      result := None;
      resultSize := 0;
      resultStep := None;
      written := None;
      probes := [];
      plans := [];
      probedAt := [];
    }

    /** The conditions under which every frames_drop call of the search terminates. */
    ghost predicate RatesSound()
    {
      && SourceSound(source, opt)
      && NonNegative(opt.fpsMin) && NonNegative(opt.fpsMax)
      && ShapeInUnit(pow, opt.fpsPower)
    }

    /** generate_steps_list: one row per step, from step = steps down to 0. */
    method GenerateStepsList() returns (rows: seq<StepParams>)
      ensures opt.steps > 0 ==> rows == Ladder(opt, pow)
      ensures opt.steps <= 0 ==> rows == []
    {
      rows := [];
      if opt.steps <= 0 {
        return;
      }
      var step := opt.steps;
      while step >= 0
        invariant -1 <= step <= opt.steps
        invariant |rows| == opt.steps - step
        invariant forall k :: 0 <= k < |rows| ==> rows[k] == Row(opt, pow, opt.steps - k)
        decreases step
      {
        rows := rows + [Row(opt, pow, step)];
        step := step - 1;
      }
      assert |rows| == |Ladder(opt, pow)|;
      assert forall k :: 0 <= k < |rows| ==> rows[k] == Ladder(opt, pow)[k];
    }

    /** frames_drop, against this object's fps and the previous probe's frame count. */
    method FramesDrop(framesIn: seq<Frame>) returns (r: Result<seq<Frame>>)
      requires |framesIn| > 0 && !DropShortcut(source.isAnimated, fps, |framesProcessed|) ==>
                 FrameIncrement(source.fps, fps, source.duration, opt) >= 0.0
      ensures r == DropSpec(framesIn, source, fps, |framesProcessed|, opt)
    {
      if |framesIn| == 0 {
        return Err(IndexOut);
      }
      if DropShortcut(source.isAnimated, fps, |framesProcessed|) {
        return Ok([framesIn[0]]);
      }
      var inc := FrameIncrement(source.fps, fps, source.duration, opt);
      if !DropEnds(inc, FramesOutMax(fps, opt)) {
        return Err(Diverges);
      }
      var out := DropFrames(framesIn, inc, FramesOutMin(fps, opt), FramesOutMax(fps, opt));
      return Ok(out);
    }

    /**
     * frames_resize: an unset res_w / res_h is taken from the first frame
     * (and stays set on the object), then every frame is letterboxed.
     */
    method FramesResize(framesIn: seq<Frame>) returns (r: Result<seq<Frame>>)
      modifies this`resW, this`resH
      ensures resW == FillFrom(old(resW), framesIn, true) && resH == FillFrom(old(resH), framesIn, false)
      ensures r == Resized(framesIn, ResampleFilter(opt.scaleFilter), old(resW), old(resH))
    {
      var filter := ResampleFilter(opt.scaleFilter);
      if |framesIn| == 0 {
        return Ok([]);
      }
      if resW.None? {
        resW := Some(framesIn[0].width);
      }
      if resH.None? {
        resH := Some(framesIn[0].height);
      }
      r := LetterboxFrames(framesIn, filter, resW.value, resH.value);
    }

    /** compress_done: deliver the data and report result_size. */
    method CompressDone(data: seq<byte>) returns (r: ConvertResult)
      modifies this`written
      ensures r == ConvertResult(true, inPath, Deliver(outF, data), resultSize)
      ensures written == (if Deliver(outF, data).File? then Some(data) else old(written))
    {
      var out := Deliver(outF, data);
      if out.File? {
        written := Some(data);
      }
      return ConvertResult(true, inPath, out, resultSize);
    }

    /**
     * One probe of the loop body (lines 195-227): take the ladder row, fix
     * the fps, drop, resize and export the frames, and encode.  It fails
     * exactly when ProbeSpec does, with the same error; otherwise it leaves
     * ProbeSpec's frames in frames_processed and encodes ProbeSpec's plan.
     */
    method Probe(row: StepParams, encode: Encoder, ok: QuantOracle) returns (r: Result<seq<byte>>, ghost plan: ExportPlan)
      requires NonNegative(row.fps) && RatesSound()
      modifies this`resW, this`resH, this`quality, this`fps, this`color, this`framesProcessed, this`size
      ensures quality == row.quality
      ensures var spec := ProbeSpec(outF, opt, source, framesRaw, |old(framesProcessed)|, row, ok);
              && (r.Err? <==> spec.Err?)
              && (r.Err? ==> r.error == spec.error)
              && (r.Ok? ==> && spec == Ok(ProbeOut(framesProcessed, plan))
                            && r.value == encode(plan) && size == |r.value|
                            && ProbeRate(Suffix(outF.name), row.fps, source.fps, opt) == Ok(fps)
                            && color == row.colors)
    {
      plan := PilPlan(Frame(0, 0, Decoded(0)), "", None);
      resW := row.resW;
      resH := row.resH;
      quality := row.quality;
      var rate := ProbeRate(Suffix(outF.name), row.fps, source.fps, opt);
      if rate.Err? {
        return Err(rate.error), plan;
      }
      ProbeRateNonNegative(Suffix(outF.name), row.fps, source.fps, opt);
      fps := rate.value;
      color := row.colors;
      var e := ProcessFrames();
      if e.Some? {
        return Err(e.value), plan;
      }
      r, plan := ExportProbe(encode, ok);
    }

    /** Lines 224-227: frames_export writes tmp_f, and size is the number of bytes written. */
    method ExportProbe(encode: Encoder, ok: QuantOracle) returns (r: Result<seq<byte>>, ghost plan: ExportPlan)
      requires |framesProcessed| >= 1
      modifies this`size
      ensures var spec := ExportSpec(ExportInput(Suffix(outF.name), framesProcessed, fps, resW, resH, quality, color), opt, ok);
              && (r.Err? ==> spec == Err(r.error) && size == old(size))
              && (r.Ok? ==> spec == Ok(plan) && r.value == encode(plan) && size == |r.value|)
      ensures r.Ok? && (plan.ApngPlan? || plan.WebpPlan? || plan.PyavPlan?) ==> plan.frames == framesProcessed
      ensures r.Ok? && (plan.PngPlan? || plan.PilPlan?) ==> plan.frame == framesProcessed[0]
    {
      plan := PilPlan(Frame(0, 0, Decoded(0)), "", None);
      var exported := FramesExport(ExportInput(Suffix(outF.name), framesProcessed, fps, resW, resH, quality, color), opt, ok);
      if exported.Err? {
        return Err(exported.error), plan;
      }
      var p := exported.value;
      plan := p;
      var bytes := encode(p);
      size := |bytes|;
      return Ok(bytes), plan;
    }

    /**
     * Lines 219-220: frames_drop, then frames_resize on what it returns.
     * The drop gives at least one frame, so the resized frames are non-empty.
     */
    method ProcessFrames() returns (err: Option<Error>)
      requires RatesSound() && fps >= 0.0 && (fps != 0.0 ==> source.fps != 0.0)
      modifies this`resW, this`resH, this`framesProcessed
      ensures |framesRaw| > 0 && !DropShortcut(source.isAnimated, fps, |old(framesProcessed)|) ==>
                FrameIncrement(source.fps, fps, source.duration, opt) >= 0.0
      ensures var dropped := DropSpec(framesRaw, source, fps, |old(framesProcessed)|, opt);
              err.Some? ==> (dropped.Err? && err.value == dropped.error)
                            || (dropped.Ok? && Resized(dropped.value, ResampleFilter(opt.scaleFilter), old(resW), old(resH))
                                               == Err(err.value))
      ensures err.None? ==> var dropped := DropSpec(framesRaw, source, fps, |old(framesProcessed)|, opt);
                && dropped.Ok? && |framesProcessed| >= 1
                && resW == FillFrom(old(resW), dropped.value, true)
                && resH == FillFrom(old(resH), dropped.value, false)
                && Ok(framesProcessed) == Resized(dropped.value, ResampleFilter(opt.scaleFilter), old(resW), old(resH))
    {
      DropDefined(source, fps, |framesProcessed|, opt);
      ghost var prev := |framesProcessed|;
      var dropped := FramesDrop(framesRaw);
      if dropped.Err? {
        return Some(dropped.error);
      }
      DropSpecProperties(framesRaw, source, fps, prev, opt);
      framesProcessed := dropped.value;
      var resized := FramesResize(framesProcessed);
      if resized.Err? {
        return Some(resized.error);
      }
      ResizedProperties(dropped.value, ResampleFilter(opt.scaleFilter), old(resW), old(resH));
      framesProcessed := resized.value;
      return None;
    }

    /**
     * One pass of the loop body of _convert (lines 196-240): probe the row
     * at `step`, record the size, and keep the encoding when there is no
     * size limit or when it fits the limit and is at least as large as the
     * kept one.  The new probe is the row's ProbeSpec.
     */
    method Attempt(rows: seq<StepParams>, step: int, encode: Encoder, ok: QuantOracle) returns (err: Option<Error>)
      requires RatesSound() && Trace(encode) && RowsProbed(rows, ok)
      requires 0 <= step < |rows| && NonNegative(rows[step].fps)
      modifies this`resW, this`resH, this`quality, this`fps, this`color, this`framesProcessed, this`size
      modifies this`result, this`resultSize, this`resultStep, this`probes, this`plans, this`probedAt
      ensures err.None? ==>
                && |plans| == |old(plans)| + 1 && plans[..|old(plans)|] == old(plans)
                && probes == old(probes) + [size] && size == |encode(plans[|plans| - 1])|
                && probedAt == old(probedAt) + [step]
                && Trace(encode) && RowsProbed(rows, ok)
      ensures err.None? && Keeps(sizeMax, old(resultSize), size) ==>
                result == Some(encode(plans[|plans| - 1])) && resultSize == size && resultStep == Some(step)
      ensures err.None? && !Keeps(sizeMax, old(resultSize), size) ==>
                result == old(result) && resultSize == old(resultSize) && resultStep == old(resultStep)
    {
      ghost var frames0, kept := framesProcessed, resultSize;
      var bytes, plan := Probe(rows[step], encode, ok);
      if bytes.Err? {
        return Some(bytes.error);
      }
      assert resultSize == kept;
      Commit(rows, step, bytes.value, plan, frames0, encode, ok);
      return None;
    }

    /**
     * Lines 226-234 after a successful probe of rows[step] that started
     * from `frames0`: the probe joins the trace and the keep rule decides
     * the result fields.
     */
    method Commit(rows: seq<StepParams>, step: int, bytes: seq<byte>, ghost plan: ExportPlan, ghost frames0: seq<Frame>,
                  encode: Encoder, ok: QuantOracle)
      requires Trace(encode) && ProbesMatch(outF, opt, source, rows, framesRaw, frames0, plans, probedAt, ok)
      requires 0 <= step < |rows| && NonNegative(rows[step].fps)
      requires ProbeSpec(outF, opt, source, framesRaw, |frames0|, rows[step], ok) == Ok(ProbeOut(framesProcessed, plan))
      requires bytes == encode(plan) && size == |bytes|
      modifies this`result, this`resultSize, this`resultStep, this`probes, this`plans, this`probedAt
      ensures plans == old(plans) + [plan] && probes == old(probes) + [size] && probedAt == old(probedAt) + [step]
      ensures Trace(encode) && RowsProbed(rows, ok)
      ensures Keeps(sizeMax, old(resultSize), size) ==>
                result == Some(encode(plans[|plans| - 1])) && resultSize == size && resultStep == Some(step)
      ensures !Keeps(sizeMax, old(resultSize), size) ==>
                result == old(result) && resultSize == old(resultSize) && resultStep == old(resultStep)
    {
      ProbesMatchSnoc(outF, opt, source, rows, framesRaw, frames0, plans, probedAt, ok, step, ProbeOut(framesProcessed, plan));
      Record(bytes, plan, step, encode);
    }

    /** The bookkeeping of lines 226-234 after a probe at `step` that encoded to `bytes`. */
    method Record(bytes: seq<byte>, ghost plan: ExportPlan, step: int, encode: Encoder)
      requires Trace(encode) && bytes == encode(plan) && size == |bytes|
      modifies this`result, this`resultSize, this`resultStep, this`probes, this`plans, this`probedAt
      ensures plans == old(plans) + [plan] && probes == old(probes) + [size] && probedAt == old(probedAt) + [step]
      ensures Trace(encode)
      ensures Keeps(sizeMax, old(resultSize), size) ==>
                result == Some(bytes) && resultSize == size && resultStep == Some(step)
      ensures !Keeps(sizeMax, old(resultSize), size) ==>
                result == old(result) && resultSize == old(resultSize) && resultStep == old(resultStep)
    {
      ghost var plansBefore := plans;
      ghost var atBefore := probedAt;
      ghost var keptAt := 0;
      if result.Some? {
        keptAt :| 0 <= keptAt < |plans| && result.value == encode(plans[keptAt]) && probedAt[keptAt] == resultStep.value;
      }
      probes := probes + [size];
      plans := plans + [plan];
      probedAt := probedAt + [step];
      if Keeps(sizeMax, resultSize, size) {
        result := Some(bytes);
        resultSize := size;
        resultStep := Some(step);
        keptAt := |plans| - 1;
      }
      assert forall i :: 0 <= i < |plansBefore| ==> plans[i] == plansBefore[i] && probedAt[i] == atBefore[i];
      assert result.Some? ==> result.value == encode(plans[keptAt]) && probedAt[keptAt] == resultStep.value;
    }

    /**
     * What the loop of _convert keeps about its probes: one plan and one
     * step per probe, each probe the size of its plan's encoding, and the
     * kept result (if any) the encoding of the plan of a probe made at
     * result_step, of result_size bytes.
     */
    ghost predicate Trace(encode: Encoder)
      reads this`plans, this`probes, this`probedAt, this`result, this`resultSize, this`resultStep
    {
      && |plans| == |probes| && |probedAt| == |probes|
      && (forall i :: 0 <= i < |probes| ==> probes[i] == |encode(plans[i])|)
      && ((result.None? && resultSize == 0 && resultStep.None?)
          || (result.Some? && |result.value| == resultSize && resultStep.Some?))
      && (result.Some? ==> exists i :: 0 <= i < |plans| && result.value == encode(plans[i]) && probedAt[i] == resultStep.value)
    }

    /**
     * Every probe so far is the ProbeSpec of the ladder row at its step,
     * each starting from the frames the one before it left: Probes over the
     * probed steps encodes the plans, and the last probe's frames are still
     * in frames_processed.
     */
    ghost predicate RowsProbed(rows: seq<StepParams>, ok: QuantOracle)
      reads this`framesRaw, this`framesProcessed, this`plans, this`probedAt
    {
      ProbesMatch(outF, opt, source, rows, framesRaw, framesProcessed, plans, probedAt, ok)
    }

    /**
     * One iteration of the loop of _convert (lines 196-248): probe the row
     * at `current`, then either narrow the bracket to the half the size
     * points to (when more than one step is left and there is a limit) or
     * stop.  The new trace is the old one advanced by Search.Observe.
     */
    method Round(rows: seq<StepParams>, lower: int, current: int, upper: int, encode: Encoder, ok: QuantOracle)
      returns (err: Option<Error>, lower': int, current': int, upper': int, finished: bool)
      requires opt.steps > 0 && |rows| == opt.steps + 1 && RatesSound()
      requires forall k :: 0 <= k < |rows| ==> NonNegative(rows[k].fps)
      requires 0 <= lower <= current <= upper <= opt.steps
      requires Truthy(sizeMax) ==> current == Mid(lower, upper)
      requires Valid(opt.steps, sizeMax, probes) && ProbedAt(opt.steps, sizeMax, probes, probedAt)
      requires Search.Run(opt.steps, sizeMax, probes) == State(lower, current, upper, resultSize, resultStep, false)
      requires Trace(encode) && RowsProbed(rows, ok)
      modifies this`resW, this`resH, this`quality, this`fps, this`color, this`framesProcessed, this`size
      modifies this`result, this`resultSize, this`resultStep, this`probes, this`plans, this`probedAt
      ensures err.None? ==>
                && Trace(encode) && RowsProbed(rows, ok) && Valid(opt.steps, sizeMax, probes)
                && ProbedAt(opt.steps, sizeMax, probes, probedAt)
                && |probes| >= 1 && size == probes[|probes| - 1]
                && 0 <= lower' <= current' <= upper' <= opt.steps
                && (Truthy(sizeMax) ==> current' == Mid(lower', upper'))
      ensures err.None? && !finished ==>
                && Search.Run(opt.steps, sizeMax, probes) == State(lower', current', upper', resultSize, resultStep, false)
                && upper' - lower' < upper - lower
      ensures err.None? && finished ==>
                && Search.Run(opt.steps, sizeMax, probes).done
                && Search.Run(opt.steps, sizeMax, probes).resultSize == resultSize
                && Search.Run(opt.steps, sizeMax, probes).resultStep == resultStep
    {
      lower', current', upper', finished := lower, current, upper, false;
      ghost var resultBefore, stepBefore := resultSize, resultStep;
      ghost var probesBefore := probes;
      ghost var atBefore := probedAt;
      err := Attempt(rows, current, encode, ok);
      if err.Some? {
        return;
      }
      Advance(opt.steps, sizeMax, probesBefore, atBefore, size, lower, current, upper, resultBefore, stepBefore);
      if upper - lower > 1 && Truthy(sizeMax) {
        if size <= sizeMax.value {
          upper' := current;
        } else {
          lower' := current;
        }
        current' := Mid(lower', upper');
      } else {
        finished := true;
      }
    }

    /**
     * The bisection loop of _convert (lines 195-248) up to the point where
     * it returns: the probes follow Search.Run over the encoded sizes, the
     * loop stops exactly when the search is done, and the kept result is
     * the encoding of one of the probes, of result_size bytes.
     */
    method Bisect(rows: seq<StepParams>, encode: Encoder, ok: QuantOracle) returns (err: Option<Error>)
      requires opt.steps > 0 && |rows| == opt.steps + 1 && RatesSound()
      requires forall k :: 0 <= k < |rows| ==> NonNegative(rows[k].fps)
      requires result.None? && resultSize == 0 && resultStep.None? && probes == [] && plans == []
      requires probedAt == [] && framesProcessed == []
      modifies this`resW, this`resH, this`quality, this`fps, this`color, this`framesProcessed, this`size
      modifies this`result, this`resultSize, this`resultStep, this`probes, this`plans, this`probedAt
      ensures err.None? ==>
                && |probes| >= 1 && size == probes[|probes| - 1]
                && Valid(opt.steps, sizeMax, probes) && Trace(encode) && RowsProbed(rows, ok)
                && ProbedAt(opt.steps, sizeMax, probes, probedAt)
                && Search.Run(opt.steps, sizeMax, probes).done
                && Search.Run(opt.steps, sizeMax, probes).resultSize == resultSize
                && Search.Run(opt.steps, sizeMax, probes).resultStep == resultStep
    {
      var lower := 0;
      var upper := opt.steps;
      var current := if sizeMax.None? then 0 else Mid(lower, upper);
      MidBetween(0, opt.steps);
      var finished := false;
      while !finished
        invariant 0 <= lower <= current <= upper <= opt.steps
        invariant Truthy(sizeMax) ==> current == Mid(lower, upper)
        invariant Valid(opt.steps, sizeMax, probes) && Trace(encode) && RowsProbed(rows, ok)
        invariant ProbedAt(opt.steps, sizeMax, probes, probedAt)
        invariant !finished ==> Search.Run(opt.steps, sizeMax, probes) == State(lower, current, upper, resultSize, resultStep, false)
        invariant finished ==> && |probes| >= 1 && size == probes[|probes| - 1]
                               && Search.Run(opt.steps, sizeMax, probes).done
                               && Search.Run(opt.steps, sizeMax, probes).resultSize == resultSize
                               && Search.Run(opt.steps, sizeMax, probes).resultStep == resultStep
        decreases if finished then 0 else 1, upper - lower
      {
        var e;
        e, lower, current, upper, finished := Round(rows, lower, current, upper, encode, ok);
        if e.Some? {
          return e;
        }
      }
      return None;
    }

    /**
     * _convert.  A compatible, non-empty input is delivered as it is;
     * anything else goes through Compress.
     */
    method Run(compatible: bool, decoded: seq<Frame>, encode: Encoder, ok: QuantOracle) returns (r: Result<ConvertResult>)
      requires opt.steps != 0 && RatesSound()
      requires result.None? && resultSize == 0 && resultStep.None? && framesProcessed == []
      requires written.None? && probes == [] && plans == [] && probedAt == []
      modifies this
      ensures compatible && |inBytes| > 0 ==>
                r == Ok(ConvertResult(true, inPath, Deliver(outF, inBytes), |inBytes|))
                && written == (if Deliver(outF, inBytes).File? then Some(inBytes) else None)
      ensures !(compatible && |inBytes| > 0) ==> Compressed(r, encode, ok)
    {
      if compatible && |inBytes| > 0 {
        resultSize := |inBytes|;
        var done := CompressDone(inBytes);
        return Ok(done);
      }
      r := Compress(decoded, encode, ok);
    }

    /**
     * What the search part of _convert promises: the probes followed
     * Search.Run over their sizes until it was done, each probe encoded the
     * ladder row at the step the search was at (ProbesMatch over the
     * ladder), and the result is a success exactly when the search kept a
     * non-empty result; then it is the encoding of a probe made at
     * result_step, within a truthy size limit, and delivered; a failure
     * reports the output path (not written) and the last size.
     */
    ghost predicate Compressed(r: Result<ConvertResult>, encode: Encoder, ok: QuantOracle)
      reads this
    {
      && (opt.steps < 0 ==> r == Err(IndexOut))
      && (r.Ok? ==>
            && opt.steps > 0
            && sizeMax == (if source.isAnimated then opt.sizeMaxVid else opt.sizeMaxImg)
            && |probes| >= 1 && |plans| == |probes|
            && Valid(opt.steps, sizeMax, probes) && Search.Run(opt.steps, sizeMax, probes).done
            && (forall i :: 0 <= i < |probes| ==> probes[i] == |encode(plans[i])|)
            && ProbedAt(opt.steps, sizeMax, probes, probedAt)
            && ProbesMatch(outF, opt, source, Ladder(opt, pow), framesRaw, framesProcessed, plans, probedAt, ok)
            && r.value.inPath == inPath
            && (r.value.success <==> Succeeds(Search.Run(opt.steps, sizeMax, probes))))
      && (r.Ok? && r.value.success ==>
            && result.Some? && r.value.size == |result.value| == Search.Run(opt.steps, sizeMax, probes).resultSize
            && resultStep == Search.Run(opt.steps, sizeMax, probes).resultStep
            && resultStep.Some?
            && (exists i :: 0 <= i < |plans| && result.value == encode(plans[i]) && probedAt[i] == resultStep.value)
            && r.value.out == Deliver(outF, result.value)
            && written == (if r.value.out.File? then result else None)
            && (Truthy(sizeMax) ==> r.value.size <= sizeMax.value))
      && (r.Ok? && !r.value.success ==>
            r.value.out == File(outF) && r.value.size == probes[|probes| - 1] && written.None?)
    }

    /** Lines 150-248 past the compatibility check: build the ladder, bisect it, and report. */
    method Compress(decoded: seq<Frame>, encode: Encoder, ok: QuantOracle) returns (r: Result<ConvertResult>)
      requires opt.steps != 0 && RatesSound()
      requires result.None? && resultSize == 0 && resultStep.None? && framesProcessed == []
      requires written.None? && probes == [] && plans == [] && probedAt == []
      modifies this
      ensures Compressed(r, encode, ok)
    {
      var rows := GenerateStepsList();
      sizeMax := if source.isAnimated then opt.sizeMaxVid else opt.sizeMaxImg;
      if opt.steps < 0 {
        return Err(IndexOut);
      }
      forall k | 0 <= k < |rows| ensures NonNegative(rows[k].fps) {
        LadderFpsSound(opt, pow, k);
      }
      framesRaw := decoded;
      var err := Bisect(rows, encode, ok);
      if err.Some? {
        return Err(err.value);
      }
      r := Finish(encode, ok);
    }

    /** Lines 245-248: a non-empty kept result is delivered, otherwise the search failed. */
    method Finish(encode: Encoder, ok: QuantOracle) returns (r: Result<ConvertResult>)
      requires opt.steps > 0 && written.None?
      requires sizeMax == (if source.isAnimated then opt.sizeMaxVid else opt.sizeMaxImg)
      requires |probes| >= 1 && size == probes[|probes| - 1]
      requires Valid(opt.steps, sizeMax, probes) && Trace(encode)
      requires ProbedAt(opt.steps, sizeMax, probes, probedAt)
      requires ProbesMatch(outF, opt, source, Ladder(opt, pow), framesRaw, framesProcessed, plans, probedAt, ok)
      requires Search.Run(opt.steps, sizeMax, probes).done
      requires Search.Run(opt.steps, sizeMax, probes).resultSize == resultSize
      requires Search.Run(opt.steps, sizeMax, probes).resultStep == resultStep
      modifies this`written
      ensures Compressed(r, encode, ok)
    {
      if result.Some? && |result.value| > 0 {
        if Truthy(sizeMax) {
          SuccessWithinBudget(opt.steps, sizeMax, probes);
        }
        var done := CompressDone(result.value);
        return Ok(done);
      }
      return Ok(ConvertResult(false, inPath, File(outF), size));
    }
  }

  /**
   * StickerConvert.convert: construct the converter and run it.  The
   * output-name errors of __init__ come first; a success found by the
   * search is within the size limit for the input's kind.
   */
  method Convert(inPath: string, inBytes: seq<byte>, outF: OutPath, opt: CompOption, source: SourceInfo, pow: Pow,
                 compatible: bool, decoded: seq<Frame>, encode: Encoder, ok: QuantOracle)
    returns (r: Result<ConvertResult>)
    requires SourceSound(source, opt)
    requires NonNegative(opt.fpsMin) && NonNegative(opt.fpsMax)
    requires ShapeInUnit(pow, opt.fpsPower)
    ensures ResolveOut(outF, opt, source.isAnimated).Err? ==> r == Err(ResolveOut(outF, opt, source.isAnimated).error)
    ensures ResolveOut(outF, opt, source.isAnimated).Ok? && compatible && |inBytes| > 0 ==>
              r == Ok(ConvertResult(true, inPath, Deliver(ResolveOut(outF, opt, source.isAnimated).value, inBytes), |inBytes|))
    ensures r.Ok? ==> r.value.inPath == inPath
    ensures r.Ok? && !r.value.success ==> r.value.out == File(ResolveOut(outF, opt, source.isAnimated).value)
    ensures var limit := if source.isAnimated then opt.sizeMaxVid else opt.sizeMaxImg;
            r.Ok? && r.value.success && !(compatible && |inBytes| > 0) && Truthy(limit) ==> r.value.size <= limit.value
  {
    var resolved := ResolveOut(outF, opt, source.isAnimated);
    if resolved.Err? {
      return Err(resolved.error);
    }
    var sticker := new StickerConvert(inPath, inBytes, outF, opt, source, pow);
    r := sticker.Run(compatible, decoded, encode, ok);
  }
}
