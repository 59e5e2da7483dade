/**
 * What converter.py's frames_export hands to the encoders: which writer
 * is used, with which codec, pixel format and options, which palette
 * quantization, and the APNG delay and filmstrip crops and the WebP
 * timestamps.  The encoders themselves are not modelled; an ExportPlan is
 * everything they are given.
 */
module Export {
  import opened Base
  import opened CompOptions
  import opened Frames

  // ---------------------------------------------------------------------
  // Writer dispatch (frames_export)
  // ---------------------------------------------------------------------

  datatype Exporter = ApngExport | PngExport | WebpExport | PyavExport | PilExport

  /** is_animated at line 624: more than one frame and a non-zero frame rate. */
  predicate Animated(frameCount: nat, fps: real)
  {
    frameCount > 1 && fps != 0.0
  }

  /** The writer frames_export calls (lines 623-635). */
  function ChooseExporter(suffix: string, frameCount: nat, fps: real): (e: Exporter)
    ensures suffix in [".apng", ".png"] ==> (e == ApngExport <==> Animated(frameCount, fps))
    ensures suffix in [".apng", ".png"] ==> e in {ApngExport, PngExport}
    ensures e == WebpExport <==> suffix == ".webp" && Animated(frameCount, fps)
    ensures suffix in [".webm", ".mp4", ".mkv"] ==> e == PyavExport
  {
    var animated := Animated(frameCount, fps);
    if suffix in [".apng", ".png"] then (if animated then ApngExport else PngExport)
    else if suffix == ".webp" && animated then WebpExport
    else if suffix in [".webm", ".mp4", ".mkv"] || animated then PyavExport
    else PilExport
  }

  /**
   * Animation is never silently lost: an animated sequence never goes to a
   * single-image writer (PNG or PIL), and a single still image never goes
   * to the APNG or WebP animation writers.
   */
  lemma ExporterKeepsAnimation(suffix: string, frameCount: nat, fps: real)
    ensures Animated(frameCount, fps) ==> ChooseExporter(suffix, frameCount, fps) !in {PngExport, PilExport}
    ensures !Animated(frameCount, fps) ==> ChooseExporter(suffix, frameCount, fps) !in {ApngExport, WebpExport}
  {
  }

  // ---------------------------------------------------------------------
  // PyAV settings (_frames_export_pyav)
  // ---------------------------------------------------------------------

  datatype PyavSettings = PyavSettings(codec: string, pixelFormat: string, options: seq<(string, string)>)

  /** The codec, pixel format and option dictionary, in insertion order (lines 651-671). */
  function PyavSettingsFor(suffix: string, quality: Option<int>): (s: PyavSettings)
    ensures quality.Some? ==> |s.options| == 3 && s.options[0] == ("quality", IntToString(quality.value))
                              && s.options[1] == ("lossless", "0")
    ensures quality.None? ==> |s.options| == 1
    ensures s.options[|s.options| - 1] == (if suffix in [".apng", ".png"] then ("plays", "0") else ("loop", "0"))
    ensures s.codec == (if suffix == ".gif" then "gif" else if suffix in [".apng", ".png"] then "apng" else "libvpx-vp9")
  {
    var q := if quality.Some? then [("quality", IntToString(quality.value)), ("lossless", "0")] else [];
    if suffix == ".gif" then PyavSettings("gif", "rgb8", q + [("loop", "0")])
    else if suffix in [".apng", ".png"] then PyavSettings("apng", "rgba", q + [("plays", "0")])
    else if suffix in [".webp", ".webm", ".mkv"] then PyavSettings("libvpx-vp9", "yuva420p", q + [("loop", "0")])
    else PyavSettings("libvpx-vp9", "yuv420p", q + [("loop", "0")])
  }

  /**
   * The pixel format keeps an alpha channel exactly for the containers
   * that can carry transparency through PyAV here (APNG/PNG, WebP, WebM,
   * MKV); GIF gets an 8-bit palette format, everything else opaque 4:2:0.
   */
  lemma PyavAlpha(suffix: string, quality: Option<int>)
    ensures var p := PyavSettingsFor(suffix, quality).pixelFormat;
            (p in {"rgba", "yuva420p"}) <==> suffix in [".apng", ".png", ".webp", ".webm", ".mkv"]
    ensures suffix == ".gif" ==> PyavSettingsFor(suffix, quality).pixelFormat == "rgb8"
  {
  }

  /**
   * The container format name: suffix.replace(".", "").  It holds no dot,
   * and a suffix made of one leading dot and a name loses just that dot.
   */
  function ContainerFormat(suffix: string): (f: string)
    ensures forall i :: 0 <= i < |f| ==> f[i] != '.'
    ensures |suffix| >= 1 && suffix[0] == '.' && '.' !in suffix[1..] ==> f == suffix[1..]
  {
    DotsRemoved(suffix);
    LeadingDotRemoved(suffix);
    ReplaceAll(suffix, ".", "")
  }

  lemma LeadingDotRemoved(suffix: string)
    ensures |suffix| >= 1 && suffix[0] == '.' && '.' !in suffix[1..] ==> ReplaceAll(suffix, ".", "") == suffix[1..]
  {
    if |suffix| >= 1 && suffix[0] == '.' && '.' !in suffix[1..] {
      forall i | 0 <= i <= |suffix| - 1 ensures !OccursAt(suffix[1..], ".", i) {
        if i < |suffix| - 1 {
          assert suffix[1..][i..][..1] == [suffix[1..][i]];
        }
      }
      assert StartsWith(suffix, ".") by { assert suffix[..1] == [suffix[0]]; }
      StripPrefixByReplace(suffix, ".");
    }
  }

  lemma {:induction false} DotsRemoved(s: string)
    ensures forall i :: 0 <= i < |ReplaceAll(s, ".", "")| ==> ReplaceAll(s, ".", "")[i] != '.'
    decreases |s|
  {
    if |s| >= 1 {
      DotsRemoved(s[1..]);
      if s[..1] != "." {
        assert s[0] != '.' by { assert s[..1] == [s[0]]; }
      }
    }
  }

  // ---------------------------------------------------------------------
  // Palette quantization (quantize, _quantize_by_imagequant)
  // ---------------------------------------------------------------------

  datatype Quantized =
    | Unquantized
    | ImageQuant(dither: real, maxColors: int, minQuality: int, maxQuality: int)
    | FastOctree(colors: int)

  datatype QuantRequest = QuantRequest(dither: real, maxColors: int, minQuality: int, maxQuality: int)

  /** Whether imagequant succeeds for a request (it raises RuntimeError otherwise). */
  type QuantOracle = QuantRequest -> bool

  /** Quantization happens only for a colour count that is set, non-zero and at most 256 (line 770). */
  predicate QuantizeGate(color: Option<int>)
  {
    Truthy(color) && color.value <= 256
  }

  /** range(quality, 101, 5): the max_quality values tried in turn (line 791). */
  function Attempts(quality: int): (a: seq<int>)
    ensures forall k :: 0 <= k < |a| ==> a[k] == quality + 5 * k && a[k] <= 100
    ensures quality + 5 * |a| > 100
  {
    if quality > 100 then [] else seq((100 - quality) / 5 + 1, k => quality + 5 * k)
  }

  /** dither = 1 - (quality - quality_min) / (quality_max - quality_min) (lines 787-789). */
  function Dither(quality: int, qmin: int, qmax: int): (d: real)
    requires qmax != qmin
    ensures quality == qmin ==> d == 1.0
    ensures quality == qmax ==> d == 0.0
  {
    1.0 - (quality - qmin) as real / (qmax - qmin) as real
  }

  /** Full dithering at the lowest quality, none at the highest, and in between otherwise. */
  lemma DitherRange(quality: int, qmin: int, qmax: int)
    requires qmin < qmax && qmin <= quality <= qmax
    ensures 0.0 <= Dither(quality, qmin, qmax) <= 1.0
    ensures quality == qmin ==> Dither(quality, qmin, qmax) == 1.0
    ensures quality == qmax ==> Dither(quality, qmin, qmax) == 0.0
  {
    var t := (quality - qmin) as real / (qmax - qmin) as real;
    assert t * (qmax - qmin) as real == (quality - qmin) as real;
    assert 0.0 <= t <= 1.0;
  }

  /** The first attempt imagequant accepts, if any. */
  function FirstAccepted(ok: QuantOracle, dither: real, colors: int, qmin: int, attempts: seq<int>): (r: Option<int>)
    ensures r.Some? ==> r.value in attempts && ok(QuantRequest(dither, colors, qmin, r.value))
    ensures r.None? ==> forall i :: 0 <= i < |attempts| ==> !ok(QuantRequest(dither, colors, qmin, attempts[i]))
    decreases |attempts|
  {
    if |attempts| == 0 then None
    else if ok(QuantRequest(dither, colors, qmin, attempts[0])) then Some(attempts[0])
    else FirstAccepted(ok, dither, colors, qmin, attempts[1..])
  }

  /** What quantize returns for the image, as a specification. */
  function QuantizeSpec(color: Option<int>, quality: Option<int>, opt: CompOption, ok: QuantOracle): (r: Result<Quantized>)
    ensures !QuantizeGate(color) ==> r == Ok(Unquantized)
    ensures r.Err? ==> opt.quantizeMethod == "imagequant" && (r.error == AssertFailed || r.error == ZeroDivision)
    ensures r.Ok? && r.value.FastOctree? ==> opt.quantizeMethod == "fastoctree" && r.value.colors == color.value
    ensures r.Ok? && r.value.ImageQuant? ==>
              opt.quantizeMethod == "imagequant" && QuantizeGate(color) && r.value.maxColors == color.value
              && quality.Some? && r.value.maxQuality in Attempts(quality.value)
  {
    if !QuantizeGate(color) then Ok(Unquantized)
    else if opt.quantizeMethod == "imagequant" then
      if !Truthy(quality) || !Truthy(opt.qualityMin) || !Truthy(opt.qualityMax) then Err(AssertFailed)
      else if opt.qualityMax.value == opt.qualityMin.value then Err(ZeroDivision)
      else
        var d := Dither(quality.value, opt.qualityMin.value, opt.qualityMax.value);
        match FirstAccepted(ok, d, color.value, opt.qualityMin.value, Attempts(quality.value))
        case Some(q) => Ok(ImageQuant(d, color.value, opt.qualityMin.value, q))
        case None => Ok(Unquantized)
    else if opt.quantizeMethod == "fastoctree" then Ok(FastOctree(color.value))
    else Ok(Unquantized)
  }

  /**
   * The retry loop of _quantize_by_imagequant (lines 791-802): max_quality
   * = quality, quality + 5, ... up to 100, keeping the first success.
   */
  method ImagequantRetry(ok: QuantOracle, dither: real, colors: int, qmin: int, quality: int)
    returns (accepted: Option<int>)
    ensures accepted == FirstAccepted(ok, dither, colors, qmin, Attempts(quality))
  {
    ghost var attempts := Attempts(quality);
    var i := quality;
    ghost var k := 0;
    while i < 101
      invariant 0 <= k <= |attempts| && i == quality + 5 * k
      invariant FirstAccepted(ok, dither, colors, qmin, attempts)
                == FirstAccepted(ok, dither, colors, qmin, attempts[k..])
      decreases 101 - i
    {
      assert attempts[k..][0] == i;
      assert attempts[k..][1..] == attempts[k + 1..];
      if ok(QuantRequest(dither, colors, qmin, i)) {
        return Some(i);
      }
      i := i + 5;
      k := k + 1;
    }
    assert attempts[k..] == [];
    return None;
  }

  /**
   * quantize: imagequant with the retry loop, or fastoctree, or the image
   * unchanged; when every imagequant attempt fails the image is kept as it is.
   */
  method Quantize(color: Option<int>, quality: Option<int>, opt: CompOption, ok: QuantOracle)
    returns (r: Result<Quantized>)
    ensures r == QuantizeSpec(color, quality, opt, ok)
  {
    if !QuantizeGate(color) {
      return Ok(Unquantized);
    }
    if opt.quantizeMethod == "imagequant" {
      if !Truthy(quality) || !Truthy(opt.qualityMin) || !Truthy(opt.qualityMax) {
        return Err(AssertFailed);
      }
      if opt.qualityMax.value == opt.qualityMin.value {
        return Err(ZeroDivision);
      }
      var qmin := opt.qualityMin.value;
      var d := Dither(quality.value, qmin, opt.qualityMax.value);
      var accepted := ImagequantRetry(ok, d, color.value, qmin, quality.value);
      if accepted.Some? {
        return Ok(ImageQuant(d, color.value, qmin, accepted.value));
      }
      return Ok(Unquantized);
    } else if opt.quantizeMethod == "fastoctree" {
      return Ok(FastOctree(color.value));
    }
    return Ok(Unquantized);
  }

  /**
   * The quantizer's own contract: imagequant is asked with a higher
   * max_quality only after every lower one failed, and the palette never
   * has more than 256 colours.
   */
  lemma QuantizeChoosesFirst(color: Option<int>, quality: Option<int>, opt: CompOption, ok: QuantOracle)
    requires QuantizeSpec(color, quality, opt, ok).Ok?
    ensures var q := QuantizeSpec(color, quality, opt, ok).value;
            q.ImageQuant? ==>
              && ok(QuantRequest(q.dither, q.maxColors, q.minQuality, q.maxQuality))
              && quality.value <= q.maxQuality <= 100
              && (q.maxQuality - quality.value) % 5 == 0
              && forall m :: quality.value <= m < q.maxQuality && (m - quality.value) % 5 == 0 ==>
                   !ok(QuantRequest(q.dither, q.maxColors, q.minQuality, m))
    ensures var q := QuantizeSpec(color, quality, opt, ok).value;
            (q.ImageQuant? ==> q.maxColors <= 256) && (q.FastOctree? ==> q.colors <= 256)
  {
    var q := QuantizeSpec(color, quality, opt, ok).value;
    if q.ImageQuant? {
      RetryChoosesFirst(ok, q.dither, q.maxColors, q.minQuality, quality.value);
    }
  }

  lemma RetryChoosesFirst(ok: QuantOracle, dither: real, colors: int, qmin: int, quality: int)
    requires FirstAccepted(ok, dither, colors, qmin, Attempts(quality)).Some?
    ensures var m := FirstAccepted(ok, dither, colors, qmin, Attempts(quality)).value;
            && ok(QuantRequest(dither, colors, qmin, m))
            && quality <= m <= 100 && (m - quality) % 5 == 0
            && forall m' :: quality <= m' < m && (m' - quality) % 5 == 0 ==> !ok(QuantRequest(dither, colors, qmin, m'))
  {
    var a := Attempts(quality);
    var m := FirstAccepted(ok, dither, colors, qmin, a).value;
    FirstIsFirst(ok, dither, colors, qmin, a);
    var i :| 0 <= i < |a| && a[i] == m && forall j :: 0 <= j < i ==> !ok(QuantRequest(dither, colors, qmin, a[j]));
    assert m == quality + 5 * i;
    forall m' | quality <= m' < m && (m' - quality) % 5 == 0
      ensures !ok(QuantRequest(dither, colors, qmin, m'))
    {
      var j := (m' - quality) / 5;
      assert m' == quality + 5 * j;
      assert j < i;
      assert a[j] == m';
    }
  }

  lemma {:induction false} FirstIsFirst(ok: QuantOracle, dither: real, colors: int, qmin: int, attempts: seq<int>)
    requires FirstAccepted(ok, dither, colors, qmin, attempts).Some?
    ensures exists i :: 0 <= i < |attempts| && attempts[i] == FirstAccepted(ok, dither, colors, qmin, attempts).value
              && forall j :: 0 <= j < i ==> !ok(QuantRequest(dither, colors, qmin, attempts[j]))
    decreases |attempts|
  {
    if !ok(QuantRequest(dither, colors, qmin, attempts[0])) {
      FirstIsFirst(ok, dither, colors, qmin, attempts[1..]);
      var i :| 0 <= i < |attempts[1..]| && attempts[1..][i] == FirstAccepted(ok, dither, colors, qmin, attempts[1..]).value
               && forall j :: 0 <= j < i ==> !ok(QuantRequest(dither, colors, qmin, attempts[1..][j]));
      assert attempts[i + 1] == FirstAccepted(ok, dither, colors, qmin, attempts).value;
      forall j | 0 <= j < i + 1 ensures !ok(QuantRequest(dither, colors, qmin, attempts[j])) {
        if j > 0 { assert attempts[j] == attempts[1..][j - 1]; }
      }
    } else {
      assert attempts[0] == FirstAccepted(ok, dither, colors, qmin, attempts).value;
    }
  }

  // ---------------------------------------------------------------------
  // APNG and WebP timing
  // ---------------------------------------------------------------------

  datatype Crop = Crop(left: int, top: int, right: int, bottom: int)

  /** Total height of the frames stacked vertically (np.concatenate). */
  function StackHeight(frames: seq<Frame>): (h: nat)
    ensures (forall k :: 0 <= k < |frames| ==> frames[k].height == 0) ==> h == 0
  {
    if |frames| == 0 then 0 else frames[0].height + StackHeight(frames[1..])
  }

  lemma {:induction false} StackHeightUniform(frames: seq<Frame>, h: nat)
    requires forall k :: 0 <= k < |frames| ==> frames[k].height == h
    ensures StackHeight(frames) == |frames| * h
    decreases |frames|
  {
    if |frames| > 0 {
      StackHeightUniform(frames[1..], h);
    }
  }

  /**
   * The filmstrip crops (0, i, width, i + res_h) for i in range(0, height,
   * res_h) (lines 730-733): for a positive res_h the fewest crops that
   * cover the height, none for a negative one.
   */
  method FilmstripCrops(width: int, height: nat, resH: int) returns (crops: seq<Crop>)
    requires resH != 0
    ensures resH < 0 ==> crops == []
    ensures resH > 0 ==> |crops| * resH >= height && (|crops| == 0 || (|crops| - 1) * resH < height)
    ensures forall k :: 0 <= k < |crops| ==> crops[k] == Crop(0, k * resH, width, k * resH + resH)
    ensures crops == Crops(width, height, resH)
  {
    crops := [];
    if resH < 0 {
      return;
    }
    var i := 0;
    while i < height
      invariant i == |crops| * resH && 0 <= i
      invariant |crops| == 0 || (|crops| - 1) * resH < height
      invariant forall k :: 0 <= k < |crops| ==> crops[k] == Crop(0, k * resH, width, k * resH + resH)
      decreases height - i
    {
      crops := crops + [Crop(0, i, width, i + resH)];
      i := i + resH;
    }
    CropCountUnique(|crops|, height, resH);
  }

  /** The crops as a closed form: ceil(height / res_h) of them, one res_h-high band each. */
  function Crops(width: int, height: nat, resH: int): seq<Crop>
    requires resH != 0
  {
    if resH < 0 then []
    else seq((height + resH - 1) / resH, k => Crop(0, k * resH, width, k * resH + resH))
  }

  /** The fewest res_h-high bands covering the height are ceil(height / res_h). */
  lemma CropCountUnique(c: nat, height: nat, resH: int)
    requires resH > 0 && c * resH >= height && (c == 0 || (c - 1) * resH < height)
    ensures c == (height + resH - 1) / resH
  {
    var q := (height + resH - 1) / resH;
    FloorDivBounds(height + resH - 1, resH);
    assert (q - 1) * resH == q * resH - resH;
    if c < q {
      MulLe(c, q - 1, resH);
    } else if c > q {
      MulLe(q, c - 1, resH);
    }
  }

  /**
   * When every frame is one res_h-high canvas, the filmstrip is cut into
   * exactly one crop per frame: the only crop count meeting FilmstripCrops'
   * contract is the number of frames.
   */
  lemma CropsCoverFrames(frames: seq<Frame>, resH: int, c: nat)
    requires resH > 0 && forall k :: 0 <= k < |frames| ==> frames[k].height == resH
    requires c * resH >= StackHeight(frames) && (c == 0 || (c - 1) * resH < StackHeight(frames))
    ensures c == |frames|
  {
    StackHeightUniform(frames, resH);
    var n := |frames|;
    if c < n {
      MulStrict(c, n, resH);
    } else if c > n {
      MulLe(n, c - 1, resH);
    }
  }

  lemma MulStrict(a: int, b: int, d: int)
    requires a < b && d > 0
    ensures a * d < b * d
  {
  }

  lemma MulLe(a: int, b: int, d: int)
    requires a <= b && d > 0
    ensures a * d <= b * d
  {
  }

  /** The WebP frame timestamps: frame k starts at k * int(1000 / fps) (lines 697-702). */
  method WebpTimestamps(frameCount: nat, fps: real) returns (timestamps: seq<int>, end: int)
    requires fps != 0.0
    ensures |timestamps| == frameCount
    ensures forall k :: 0 <= k < frameCount ==> timestamps[k] == k * Trunc(1000.0 / fps)
    ensures end == frameCount * Trunc(1000.0 / fps)
    ensures timestamps == Timestamps(frameCount, fps)
  {
    var step := Trunc(1000.0 / fps);
    timestamps := [];
    var t := 0;
    for k := 0 to frameCount
      invariant |timestamps| == k && t == k * step
      invariant forall j :: 0 <= j < k ==> timestamps[j] == j * step
    {
      timestamps := timestamps + [t];
      t := t + step;
    }
    end := t;
  }

  /** The timestamps as a closed form. */
  function Timestamps(frameCount: nat, fps: real): seq<int>
    requires fps != 0.0
  {
    seq(frameCount, k => k * Trunc(1000.0 / fps))
  }

  // ---------------------------------------------------------------------
  // The plan handed to the encoder
  // ---------------------------------------------------------------------

  datatype ExportPlan =
    | ApngPlan(frames: seq<Frame>, quant: Quantized, delayNum: int, delayDen: int, crops: seq<Crop>)
    | PngPlan(frame: Frame, quant: Quantized)
    | WebpPlan(frames: seq<Frame>, quality: Option<int>, width: Option<int>, height: Option<int>,
               timestamps: seq<int>, end: int)
    | PyavPlan(frames: seq<Frame>, format: string, settings: PyavSettings, rate: real,
               width: Option<int>, height: Option<int>)
    | PilPlan(frame: Frame, format: string, quality: Option<int>)

  /** The converter fields that frames_export reads. */
  datatype ExportInput = ExportInput(
    suffix: string, frames: seq<Frame>, fps: real,
    resW: Option<int>, resH: Option<int>, quality: Option<int>, color: Option<int>)

  /** The plan frames_export hands to the encoder, or the error it raises first. */
  function ExportSpec(x: ExportInput, opt: CompOption, ok: QuantOracle): Result<ExportPlan>
    requires |x.frames| >= 1
  {
    match ChooseExporter(x.suffix, |x.frames|, x.fps)
    case ApngExport =>
      if !Truthy(x.resH) then Err(AssertFailed)
      else
        (match QuantizeSpec(x.color, x.quality, opt, ok)
         case Err(e) => Err(e)
         case Ok(q) => Ok(ApngPlan(x.frames, q, Trunc(1000.0 / x.fps), 1000,
                                   Crops(x.frames[0].width, StackHeight(x.frames), x.resH.value))))
    case PngExport =>
      (match QuantizeSpec(x.color, x.quality, opt, ok)
       case Err(e) => Err(e)
       case Ok(q) => Ok(PngPlan(x.frames[0], q)))
    case WebpExport =>
      Ok(WebpPlan(x.frames, x.quality, x.resW, x.resH, Timestamps(|x.frames|, x.fps),
                  |x.frames| * Trunc(1000.0 / x.fps)))
    case PyavExport =>
      Ok(PyavPlan(x.frames, ContainerFormat(x.suffix), PyavSettingsFor(x.suffix, x.quality), x.fps, x.resW, x.resH))
    case PilExport =>
      Ok(PilPlan(x.frames[0], ContainerFormat(x.suffix), x.quality))
  }

  /**
   * frames_export and the writer it picks, up to the call into the encoder.
   * The writer is ChooseExporter's; PyAV gets PyavSettingsFor's settings,
   * WebP frame k starts at k * int(1000 / fps), APNG frames last int(1000 / fps)
   * milliseconds and are cut one canvas high each, PNG and APNG are
   * quantized as QuantizeSpec says; the asserts of lines 718-719 and the
   * quantizer's failures are errors.
   */
  method FramesExport(x: ExportInput, opt: CompOption, ok: QuantOracle) returns (r: Result<ExportPlan>)
    requires |x.frames| >= 1
    ensures r.Ok? ==> match ChooseExporter(x.suffix, |x.frames|, x.fps)
      case ApngExport => r.value.ApngPlan?
      case PngExport => r.value.PngPlan?
      case WebpExport => r.value.WebpPlan?
      case PyavExport => r.value.PyavPlan?
      case PilExport => r.value.PilPlan?
    ensures r.Ok? && r.value.PyavPlan? ==>
              r.value == PyavPlan(x.frames, ContainerFormat(x.suffix), PyavSettingsFor(x.suffix, x.quality),
                                  x.fps, x.resW, x.resH)
    ensures r.Ok? && r.value.PilPlan? ==> r.value == PilPlan(x.frames[0], ContainerFormat(x.suffix), x.quality)
    ensures r.Ok? && r.value.WebpPlan? ==>
              && r.value.frames == x.frames && r.value.quality == x.quality
              && r.value.width == x.resW && r.value.height == x.resH
              && |r.value.timestamps| == |x.frames|
              && (forall k :: 0 <= k < |x.frames| ==> r.value.timestamps[k] == k * Trunc(1000.0 / x.fps))
              && r.value.end == |x.frames| * Trunc(1000.0 / x.fps)
    ensures r.Ok? && r.value.PngPlan? ==>
              QuantizeSpec(x.color, x.quality, opt, ok) == Ok(r.value.quant) && r.value.frame == x.frames[0]
    ensures ChooseExporter(x.suffix, |x.frames|, x.fps) == PngExport ==>
              (r.Err? <==> QuantizeSpec(x.color, x.quality, opt, ok).Err?)
    ensures ChooseExporter(x.suffix, |x.frames|, x.fps) == ApngExport ==>
              (r.Err? <==> !Truthy(x.resH) || QuantizeSpec(x.color, x.quality, opt, ok).Err?)
    ensures r.Ok? && r.value.ApngPlan? ==>
              && QuantizeSpec(x.color, x.quality, opt, ok) == Ok(r.value.quant)
              && r.value.frames == x.frames
              && r.value.delayNum == Trunc(1000.0 / x.fps) && r.value.delayDen == 1000
              && (x.resH.value < 0 ==> r.value.crops == [])
              && (x.resH.value > 0 ==> |r.value.crops| * x.resH.value >= StackHeight(x.frames)
                                       && (|r.value.crops| == 0 || (|r.value.crops| - 1) * x.resH.value < StackHeight(x.frames)))
              && forall k :: 0 <= k < |r.value.crops| ==>
                   r.value.crops[k] == Crop(0, k * x.resH.value, x.frames[0].width, (k + 1) * x.resH.value)
    ensures ChooseExporter(x.suffix, |x.frames|, x.fps) !in {PngExport, ApngExport} ==> r.Ok?
    ensures r == ExportSpec(x, opt, ok)
  {
    var e := ChooseExporter(x.suffix, |x.frames|, x.fps);
    match e
    case ApngExport =>
      if !Truthy(x.resH) {
        return Err(AssertFailed);
      }
      var q := Quantize(x.color, x.quality, opt, ok);
      if q.Err? {
        return Err(q.error);
      }
      var crops := FilmstripCrops(x.frames[0].width, StackHeight(x.frames), x.resH.value);
      r := Ok(ApngPlan(x.frames, q.value, Trunc(1000.0 / x.fps), 1000, crops));
    case PngExport =>
      var q := Quantize(x.color, x.quality, opt, ok);
      if q.Err? {
        return Err(q.error);
      }
      r := Ok(PngPlan(x.frames[0], q.value));
    case WebpExport =>
      var ts, end := WebpTimestamps(|x.frames|, x.fps);
      r := Ok(WebpPlan(x.frames, x.quality, x.resW, x.resH, ts, end));
    case PyavExport =>
      r := Ok(PyavPlan(x.frames, ContainerFormat(x.suffix), PyavSettingsFor(x.suffix, x.quality),
                       x.fps, x.resW, x.resH));
    case PilExport =>
      r := Ok(PilPlan(x.frames[0], ContainerFormat(x.suffix), x.quality));
  }
}
