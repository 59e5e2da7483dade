# sticker-convert: a verified model of the conversion core

sticker-convert converts sticker packs between messaging platforms. This
project models and proves the parts of it that decide things without
touching media data:

- **Compression search** (`StickerConvert` in `converter.py`). The
  converter bisects a quality ladder against a byte budget.
  - Modelled: the output-name resolution, the ladder, the bisection state
    machine and its bookkeeping, the temporal resampler (`frames_drop`),
    the letterbox geometry (`frames_resize`), frame-rate fixing, the
    choice of writer and encoder settings, and the quantize gate with its
    retry loop.
  - Modules: `StepLadder`, `Search`, `Frames`, `Export` and `Converter`,
    with the options record in `CompOptions`.
- **Older compression routine** (`utils/sticker_convert.py`). This is
  the older `compress_to_size` with its linear ladder and different
  rounding, plus `get_convert_method`. Module `Legacy`.
- **Kakao downloader helpers** (`download_kakao.py`). Module `Kakao`
  covers:
  - the quote-aware bracket matcher;
  - the item-code de-obfuscation;
  - the URL routing decisions;
  - the list of animated files to fetch;
  - the renaming of zip members.
- **Apple CgBI PNG normaliser** (`apple_png_normalize.py`). Module
  `ApplePng` models the chunk walk over the layout of section 5.3 of the
  W3C PNG Specification (second edition):
  - chunks are copied verbatim, the `CgBI` chunk is dropped, and the IDAT
    data is gathered;
  - the red and blue bytes are swapped in place, skipping the filter byte
    of each scanline (section 7.2);
  - one IDAT and one IEND are written at the end.
- **LINE downloader decisions** (`download_line.py`). Module `Line`
  models the URL parsing, the choice of region, the extension and the
  download targets.

`Base` holds the Python primitives these rely on:

- Python rounding: `round()`, which is half-to-even, and `Decimal`
  `ROUND_HALF_UP`;
- `int()`, `str()`, `str.zfill`, `str.replace`, `str.split` and
  `str.lower`;
- `pathlib` suffixes and stems, and `os.path.splitext`.

The media libraries, zlib, CRC-32, the network and the file system are
function-typed parameters. The model never interprets them; each one is
listed below.

Where an operation mutates state, the model does too:

- `StickerConvert` is a class whose methods update its fields. Each
  method's `ensures` ties the new state to the functions in `Search`,
  `Frames` and `Export`.
- The bisection loop is a method whose invariants tie it to the pure
  `Search.Run`.
- The swap in the PNG normaliser works in place on an `array<byte>`.
- The chunk walk is a `while` loop proved against the function `Walk`.

Where the code and its comments disagree, the model follows the code:

- `get_step_value` multiplies by `step/steps` twice, once directly and
  once inside `pow(step/steps, power)`. At power 1 it is therefore
  quadratic, not linear as the comment at `converter.py:36` says.
  `StepLadder.PowerOneIsQuadratic` proves that halfway along 0..100 the
  value is 25.
- With a truthy budget, the bisection can make 1 + ceil(log2 steps)
  encodes, which is 3 for `steps = 3`. `Search.ThreeProbesForThreeSteps`
  shows a run that takes all three.

## Model

| member | source | states |
|---|---|---|
| Base.RoundHalfUp | src/sticker_convert/converter.py:23-24 | `rounding()`: the result is within 1/2 of x, and a tie goes away from zero (up for x >= 0, down below) |
| Base.RoundHalfEven | src/sticker_convert/converter.py:45 | Python `round()`: within 1/2 of x; a tie gives an even integer |
| Base.RoundHalfEvenBetween | src/sticker_convert/converter.py:45 | `round()` of a value between two integers stays between them |
| Base.Ceil | src/sticker_convert/converter.py:603 | `math.ceil`: the least integer not below x |
| Base.Trunc | src/sticker_convert/converter.py:701 | `int()` of a float truncates toward zero |
| Base.NatToString | src/sticker_convert/downloaders/download_kakao.py:94 | `str(n)` of a natural is a non-empty run of decimal digits |
| Base.ParseNatToString | src/sticker_convert/downloaders/download_kakao.py:94 | reading back the decimal string of n gives n |
| Base.ParseInt | src/sticker_convert/downloaders/download_kakao.py:90-94 | `int(s)` on a string of decimal digits is its value; a string that is not a valid integer is a ValueError |
| Base.IntToStringParses | src/sticker_convert/downloaders/download_kakao.py:94 | `int(str(n)) == n` for every integer, negatives included |
| Base.ZFill | src/sticker_convert/downloaders/download_kakao.py:347-349 | `str.zfill`: length max(len, width); the string is the tail and the head is all '0' |
| Base.ZFillParsesBack | src/sticker_convert/downloaders/download_kakao.py:349 | the zero-padded decimal string of n still reads back as n |
| Base.ZFillInjective | src/sticker_convert/downloaders/download_kakao.py:409 | distinct numbers give distinct zero-padded names |
| Base.ReplaceAllAbsent | sticker_convert/downloaders/download_line.py:17 | `str.replace` of a pattern that does not occur changes nothing |
| Base.StripPrefixByReplace | src/sticker_convert/downloaders/download_kakao.py:196 | replacing a leading prefix that occurs only once removes exactly that prefix |
| Base.Split | sticker_convert/downloaders/download_line.py:19 | `str.split` returns at least one piece |
| Base.IsNumeric | src/sticker_convert/downloaders/download_kakao.py:90 | `str.isnumeric()` on ASCII digits: non-empty and all digits |
| Base.ReplaceAll | src/sticker_convert/downloaders/download_kakao.py:346-348 | `str.replace(pat, rep)` left to right, without overlaps; `ReplaceAllAbsent` and `StripPrefixByReplace` state what it does |
| Base.IntToString | src/sticker_convert/downloaders/download_kakao.py:94 | `str(n)`: non-empty, and led by "-" exactly when n is negative; `IntToStringParses` states that `int()` reads it back |
| Base.SplitJoin | sticker_convert/downloaders/download_line.py:19-20 | `str.split` and `join` are inverse, and no piece holds the separator |
| Base.SplitFirst | sticker_convert/downloaders/download_line.py:19 | a piece without the separator, then the separator: that piece is the first of the split |
| Base.SplitWhole | sticker_convert/downloaders/download_line.py:20 | a string without the separator splits into itself alone |
| Base.Lower | sticker_convert/utils/sticker_convert.py:53-54 | ASCII case mapping of `str.lower()`: every character is mapped by itself, A-Z to a-z and everything else unchanged, and the length is kept |
| Base.SplitExt | sticker_convert/utils/sticker_convert.py:53-54 | `os.path.splitext(p)[1]`: empty, or a dot-led tail of the path holding no further dot and no slash |
| Base.RFind | src/sticker_convert/converter.py:114 | `str.rfind`: -1 or an index holding c, with no c after it |
| Base.PathName | src/sticker_convert/downloaders/download_kakao.py:400 | `PurePosixPath(p).name`: empty, or one of the slash-separated components that is not "."; it is the last component that is neither empty nor "." |
| Base.PathNameTrailingSlash | src/sticker_convert/downloaders/download_kakao.py:400 | a trailing slash does not change the name, so `Path("x.webp/").suffix` is ".webp" |
| Base.PathNameOfName | src/sticker_convert/downloaders/download_kakao.py:400 | a name without slashes, other than ".", is its own name |
| Base.PathNameNoSlash | src/sticker_convert/downloaders/download_kakao.py:400 | a name holds no slash |
| Base.Suffix | src/sticker_convert/converter.py:114 | `PurePath.suffix` is empty or a dot followed by at least one character |
| Base.StemSuffix | src/sticker_convert/converter.py:351-357 | a name is its stem followed by its suffix |
| Base.Stem | src/sticker_convert/converter.py:356-358 | `PurePath.stem`: the name without its suffix; `StemSuffix` states that stem and suffix make up the name |
| Base.WithSuffixSuffix | src/sticker_convert/converter.py:123 | after `with_suffix(ext)` with a dot-led, single-dot, separator-free ext the name's suffix is ext |
| Base.WithSuffix | src/sticker_convert/converter.py:123 | `with_suffix(ext)`: ValueError for an empty name or an extension that holds '/', is not dot-led or is a lone dot; `WithSuffixSuffix` states the resulting suffix |
| StepLadder.MakeEven | src/sticker_convert/converter.py:46-47 | with `even`, an odd value is raised by one, so the result is even; otherwise the value is unchanged |
| StepLadder.GetStepValue | src/sticker_convert/converter.py:26-51 | None iff either bound is None; with `even` the value is even |
| StepLadder.Row | src/sticker_convert/converter.py:288-333 | row fields are set iff both of their bounds are, and the resolution fields are even |
| StepLadder.Ladder | src/sticker_convert/converter.py:288-333 | row k is built from step steps - k (its ends are `LadderEnds`) |
| StepLadder.StepValueAtZero | src/sticker_convert/converter.py:39-47 | step 0 gives the lower bound (made even on request) |
| StepLadder.StepValueAtSteps | src/sticker_convert/converter.py:39-47 | step == steps gives the upper bound, since pow(1, p) is 1 |
| StepLadder.StepValueBetween | src/sticker_convert/converter.py:39-47 | for every power whose shape x*pow(x, p) stays in [0, 1] on (0, 1] (`ShapeInUnit`, true of the real power for every p >= -1, the documented range), every step lies between the bounds (one above the top when made even) |
| StepLadder.PowerOneIsQuadratic | src/sticker_convert/converter.py:36-45 | at power 1, step 5 of 10 over 0..100 gives 25: the formula is quadratic |
| StepLadder.LadderEnds | src/sticker_convert/converter.py:288-333 | the ladder has steps+1 rows; row 0 is at the maxima, the last at the minima; only resolution is made even |
| StepLadder.LadderFpsNonNegative | src/sticker_convert/converter.py:318-324 | with non-negative fps bounds and an fps power of at least -1 (`ShapeInUnit`), no row has a negative fps |
| Search.MidIsCeilHalf | src/sticker_convert/converter.py:192 | the half-up midpoint of a non-negative bracket is (l+u+1) div 2 |
| Search.Mid | src/sticker_convert/converter.py:192 | `int(rounding((lower + upper) / 2))` is within a half of the midpoint |
| Search.MidBetween | src/sticker_convert/converter.py:243 | the midpoint stays inside the bracket |
| Search.Start | src/sticker_convert/converter.py:180-192 | the bracket starts at 0..steps with no result; the first probe is at step 0 without a budget, else at the half-up midpoint |
| Search.Observe | src/sticker_convert/converter.py:226-243 | one probe: the search ends iff it could not continue; the result step stays or becomes the probed step; when it continues, the side the size points to becomes the new bound and the next probe is at the midpoint |
| Search.RunFrom | src/sticker_convert/converter.py:195-248 | after any run of probes the kept size is the start's or one of the probed sizes, and a result step once set stays set |
| Search.Run | src/sticker_convert/converter.py:180-248 | no probe leaves the start state; afterwards the kept size is 0 or one of the probed sizes |
| Search.ProbedAtSnoc | src/sticker_convert/converter.py:196 | a probe at the step where the search is extends the trace of probed steps |
| Search.RunFromSnoc | src/sticker_convert/converter.py:195-248 | one more probe is one more loop iteration, made only while the search goes on |
| Search.ObserveInv | src/sticker_convert/converter.py:236-243 | one probe keeps 0 <= lower <= current <= upper <= steps |
| Search.RunFromInv | src/sticker_convert/converter.py:236-243 | the bracket invariant holds after any number of probes |
| Search.RunInv | src/sticker_convert/converter.py:180-243 | the bracket invariant holds for every run from the start |
| Search.ObserveShrinks | src/sticker_convert/converter.py:236-243 | each narrowing at least halves the gap, strictly shrinks it, and probes the new midpoint |
| Search.Advance | src/sticker_convert/converter.py:229-243 | one more probe at the current step of a search that has not returned keeps the probe sequence valid and records the probe at that step; the keep rule alone decides the kept size and step; the loop returns exactly when at most one step is left or there is no limit, and otherwise moves to the half the size points to and probes its midpoint, with a strictly smaller bracket |
| Search.RunFromAtMid | src/sticker_convert/converter.py:236-243 | apart from the no-budget start, every probe is at the midpoint |
| Search.ObserveKeeps | src/sticker_convert/converter.py:229-234 | a kept result never exceeds a truthy budget, and result_size never decreases |
| Search.RunFromWithinBudget | src/sticker_convert/converter.py:229-234 | the same over any number of probes |
| Search.ResultWithinBudget | src/sticker_convert/converter.py:229-234 | the final result is within the budget, and result_size is monotone along the run |
| Search.RunFromSplit | src/sticker_convert/converter.py:195-248 | running two sequences of probes is running their concatenation |
| Search.ResultStepProduced | src/sticker_convert/converter.py:229-234 | result_step is the step of an earlier probe whose size is result_size |
| Search.Log2CeilMonotone | src/sticker_convert/converter.py:236-243 | the halving count grows with the gap |
| Search.NoBudgetOneProbe | src/sticker_convert/converter.py:188-236 | without a truthy budget exactly one encode is done, at step 0 for None, and it is kept |
| Search.ProbesFromBound | src/sticker_convert/converter.py:236-248 | from any midpoint state at most 1 + ceil(log2 gap) probes follow |
| Search.ProbeBound | src/sticker_convert/converter.py:180-248 | with a truthy budget the loop encodes at most 1 + ceil(log2 steps) times, so it terminates |
| Search.ThreeProbesForThreeSteps | src/sticker_convert/converter.py:236-243 | with 3 steps, sizes 1 then 10 against a budget of 5 lead to a third probe |
| Search.SuccessWithinBudget | src/sticker_convert/converter.py:245-246 | a successful search under a truthy budget returns a non-empty result within it |
| Search.RunFromStepSet | src/sticker_convert/converter.py:232-234 | once a non-empty result is kept, a result step is set |
| Search.AllOverBudgetFails | src/sticker_convert/converter.py:229-248 | if every probe is over the budget nothing is kept and the search fails |
| Frames.ResampleFilter | src/sticker_convert/converter.py:529-539 | each filter name maps to its filter; any other name gives Lanczos |
| Frames.Letterbox | src/sticker_convert/converter.py:550-564 | a 0x0 frame is ZeroDivisionError, and a scaled side below 1 that Pillow's resize refuses or a negative canvas side is ValueError; otherwise landscape fills res_w with height floor(h*res_w/w), anything else fills res_h with width floor(w*res_h/h), and the offsets are half the slack, rounded down |
| Frames.LetterboxAccepts | src/sticker_convert/converter.py:550-564 | both directions: a landscape frame fits iff res_w >= 1, res_h >= 0 and the scaled height is at least 1 (or the frame is left at its own size); a portrait frame likewise with the sides exchanged |
| Frames.LetterboxFitsLandscape | src/sticker_convert/converter.py:550-552 | a landscape frame on a canvas no flatter than it fills the width and fits the height |
| Frames.LetterboxFitsPortrait | src/sticker_convert/converter.py:553-555 | a portrait or square frame on a canvas no taller than it fills the height and fits the width |
| Frames.Canvas | src/sticker_convert/converter.py:557-565 | each output frame is res_w x res_h and letterboxes its source frame |
| Frames.SpeedRatio | src/sticker_convert/converter.py:584-595 | a too-short clip is stretched to duration_min, a too-long one squeezed to duration_max, otherwise 1 |
| Frames.FramesOutMin | src/sticker_convert/converter.py:602-603 | set iff duration_min is truthy; then ceil(fps*duration_min/1000) |
| Frames.FramesOutMax | src/sticker_convert/converter.py:604-605 | set iff duration_max is truthy; then floor(fps*duration_max/1000) |
| Frames.ReachableMeaning | src/sticker_convert/converter.py:610-612 | the k-th rounded accumulator value is a valid index exactly for the first Reachable steps |
| Frames.SelectedCount | src/sticker_convert/converter.py:609-615 | the loop takes frames until the index leaves the input or frames_out_max is reached |
| Frames.FrameIncrement | src/sticker_convert/converter.py:583-598 | the source frames advanced per output frame: the fps ratio times the speed ratio; `Converter.IncrementSign` states its sign |
| Frames.Picked | src/sticker_convert/converter.py:610-611 | the source index of the k-th output frame, the half-up rounding of (k+1) increments; `PickedMonotone` and `PickedInRange` state its order and range |
| Frames.DropIndices | src/sticker_convert/converter.py:606-621 | the source index of every output frame: the picked indices while they are in range and under frames_out_max, then the last frame as padding; `DropIndicesInRange`, `DropIndicesSorted` and `DropIndexAt` state its properties |
| Frames.PaddedCount | src/sticker_convert/converter.py:617-620 | padding makes the output non-empty and at least frames_out_min long, and no longer than needed |
| Frames.DropIndicesInRange | src/sticker_convert/converter.py:612-620 | every chosen source index is in range |
| Frames.RoundHalfUpMonotone | src/sticker_convert/converter.py:611 | half-up rounding is monotone |
| Frames.DropIndicesSorted | src/sticker_convert/converter.py:609-620 | output frames keep the source order |
| Frames.PickedMonotone | src/sticker_convert/converter.py:610-611 | the rounded accumulator never decreases |
| Frames.PickedInRange | src/sticker_convert/converter.py:612 | while the loop takes frames, the index is in range |
| Frames.DropIndexAt | src/sticker_convert/converter.py:609-620 | output frame k is input frame round_half_up((k+1)*increment) during selection, the last input frame in the padding |
| Frames.Dropped | src/sticker_convert/converter.py:607-621 | the resampled frames, one per chosen index |
| Frames.DroppedProperties | src/sticker_convert/converter.py:607-621 | the output is non-empty, at least frames_out_min long, bounded by frames_out_max (or the padding), and made only of input frames |
| Frames.ZeroIncrementRepeatsFirst | src/sticker_convert/converter.py:607-621 | with increment 0 and a positive frames_out_max, the output is frames_out_max copies of frame 0, padded with the last frame up to frames_out_min |
| Frames.SameRateSkipsFirstFrame | src/sticker_convert/converter.py:608-615 | at increment 1 the accumulator starts at 1, so frame 0 is skipped |
| Frames.Fraction | src/sticker_convert/converter.py:829-837 | `Fraction(num, den)` is num/den, and a zero denominator raises ZeroDivisionError |
| Frames.FixFpsDuration | src/sticker_convert/converter.py:827-834 | a zero rate, or a delay that rounds to 0, raises ZeroDivisionError, and that is its only error |
| Frames.FixFps | src/sticker_convert/converter.py:811-837 | only the GIF and WebP/APNG/PNG branches can fail, with ZeroDivisionError; any other suffix gives a whole number within a half of the rate |
| Frames.FixFpsDurationDelay | src/sticker_convert/converter.py:827-834 | the only error is ZeroDivisionError; the fixed rate gives whole ticks of 1/den second, within one tick of round_half_up(den/fps); without fps bounds and with a non-zero delay it is exactly den/delay |
| Frames.FixFpsIdempotent | src/sticker_convert/converter.py:811-837 | without fps bounds, fixing an already fixed rate changes nothing |
| Frames.GifDelayInHundredths | src/sticker_convert/converter.py:815-821 | a fixed GIF rate has a whole number of hundredths of a second per frame (Delay Time, section 23 of GIF89a) |
| Export.ChooseExporter | src/sticker_convert/converter.py:623-635 | .apng/.png use the APNG writer iff animated (PNG otherwise); WebP iff .webp and animated; video suffixes use PyAV |
| Export.ExporterKeepsAnimation | src/sticker_convert/converter.py:623-635 | animated output never goes to a single-image writer, and still output never to an animated one |
| Export.PyavSettingsFor | src/sticker_convert/converter.py:649-671 | the option dictionary holds quality and lossless iff quality is an int, then plays/loop; the codec follows the suffix |
| Export.PyavAlpha | src/sticker_convert/converter.py:656-671 | an alpha pixel format iff the suffix is .apng, .png, .webp, .webm or .mkv; GIF uses rgb8 |
| Export.ContainerFormat | src/sticker_convert/converter.py:674 | the container name has no dot; for a one-dot suffix it is the suffix without its dot |
| Export.LeadingDotRemoved | src/sticker_convert/converter.py:674 | `replace(".", "")` on a one-dot suffix drops the leading dot |
| Export.DotsRemoved | src/sticker_convert/converter.py:674 | `replace(".", "")` leaves no dot |
| Export.Attempts | src/sticker_convert/converter.py:791 | `range(quality, 101, 5)`: every value is quality + 5k, at most 100, and the range stops at the first value above 100 |
| Export.DitherRange | src/sticker_convert/converter.py:787-789 | the dither is in [0, 1]: 1 at quality_min, 0 at quality_max |
| Export.Dither | src/sticker_convert/converter.py:787-789 | the dither is 1 at quality_min and 0 at quality_max |
| Export.FirstAccepted | src/sticker_convert/converter.py:791-804 | the accepted max_quality was tried and accepted; None means every attempt raised |
| Export.ImagequantRetry | src/sticker_convert/converter.py:791-804 | the retry loop returns the first accepted attempt |
| Export.Quantize | src/sticker_convert/converter.py:769-804 | the method returns the value of `QuantizeSpec`: the colour gate of line 770, then fastoctree or imagequant with the retry loop |
| Export.QuantizeSpec | src/sticker_convert/converter.py:769-804 | the colour gate gives the image unchanged; the only errors are imagequant's assertions and its zero division; fastoctree uses the colour count; imagequant uses it too, with a max_quality from `range(quality, 101, 5)` |
| Export.QuantizeGate | src/sticker_convert/converter.py:770 | quantization happens iff the colour count is truthy and at most 256 (stated by `QuantizeSpec`) |
| Export.QuantizeChoosesFirst | src/sticker_convert/converter.py:770-804 | imagequant's max_quality is the first accepted value of the range, and the colour count is at most 256 |
| Export.RetryChoosesFirst | src/sticker_convert/converter.py:791-802 | every earlier value of the range was rejected |
| Export.FirstIsFirst | src/sticker_convert/converter.py:791-802 | the accepted value is at a position before which every attempt failed |
| Export.StackHeight | src/sticker_convert/converter.py:721 | frames of height 0 stack to height 0 |
| Export.StackHeightUniform | src/sticker_convert/converter.py:721 | concatenating n frames of height h gives height n*h |
| Export.FilmstripCrops | src/sticker_convert/converter.py:729-733 | `range(0, height, res_h)` crops: the fewest bands of res_h that cover the image, band k from k*res_h |
| Export.CropsCoverFrames | src/sticker_convert/converter.py:721-733 | for frames of height res_h there is exactly one crop per frame |
| Export.WebpTimestamps | src/sticker_convert/converter.py:697-702 | frame k starts at k*int(1000/fps), and the end timestamp is n*int(1000/fps) |
| Export.FramesExport | src/sticker_convert/converter.py:623-755 | the plan matches the chosen writer, with its settings, timestamps, the delay int(1000/fps) over 1000 and the crops; PNG fails iff quantize fails, APNG iff res_h is not truthy or quantize fails, and the other writers never fail |
| Converter.ResolveOut | src/sticker_convert/converter.py:108-123 | an accepted suffix (or no formats) keeps the name; otherwise the first video or image format replaces the suffix; an empty format list is an IndexError |
| Converter.ResolveOutAccepted | src/sticker_convert/converter.py:108-123 | the resolved name carries a configured format, and resolving again changes nothing |
| Converter.Deliver | src/sticker_convert/converter.py:351-362 | stem "none" gives None, stem "bytes" gives the data, anything else the written path |
| Converter.ProbeRate | src/sticker_convert/converter.py:200-204 | without a truthy ladder fps and a source fps, the probe's fps is 0 |
| Converter.FixFpsNonNegative | src/sticker_convert/converter.py:811-837 | a positive rate never becomes negative through fix_fps (it may round down to 0) |
| Converter.ProbeRateNonNegative | src/sticker_convert/converter.py:200-204 | the probe's fps is never negative |
| Converter.IncrementSign | src/sticker_convert/converter.py:583-598 | with positive rates, a non-negative duration and duration_max, the frame increment is non-negative, and it is 0 exactly for a zero-length clip that a truthy duration_min stretches |
| Converter.LadderFpsSound | src/sticker_convert/converter.py:318-324 | every ladder fps is non-negative when its bounds are, for any fps power of at least -1 (`ShapeInUnit`) |
| Converter.DropSpecProperties | src/sticker_convert/converter.py:569-621 | frames_drop is an IndexError iff the input is empty, and a loop that never ends (Diverges) iff the increment is 0 and frames_out_max is not a positive count; otherwise it returns a non-empty list of input frames |
| Converter.DropSpec | src/sticker_convert/converter.py:569-621 | the frames frames_drop returns, with IndexError and Diverges as its errors (stated by `DropSpecProperties`) |
| Converter.DropDefined | src/sticker_convert/converter.py:583-598 | with a non-negative source and rate, and a rate of 0 only for a zero source fps, the increment is non-negative wherever frames_drop computes one |
| Converter.DropFrames | src/sticker_convert/converter.py:607-621 | the accumulator loop returns exactly the resampled frames |
| Converter.AccumulatorStep | src/sticker_convert/converter.py:610-611 | after k+1 additions the accumulator is (k+1)*increment, and its rounding is the k-th pick |
| Converter.DropStep | src/sticker_convert/converter.py:612-620 | the loop takes frame k iff k is below the selected count, and switches to padding after it |
| Converter.ResizedProperties | src/sticker_convert/converter.py:541-567 | the resize fails iff some frame does not fit the canvas (a 0x0 frame is ZeroDivisionError; a scaled side below 1 or a negative canvas side is ValueError), with the first such frame's error; otherwise frame k of the output is input frame k letterboxed onto one canvas of the resolved size |
| Converter.Resized | src/sticker_convert/converter.py:541-567 | an empty list resizes to an empty list (the general case is `ResizedProperties`) |
| Converter.CanvasAll | src/sticker_convert/converter.py:557-565 | one canvas per frame when no frame fails |
| Converter.CanvasAllProperties | src/sticker_convert/converter.py:557-565 | the letterbox of every frame fails iff some frame does not fit, with the first such frame's error; otherwise output k is the canvas of input k |
| Converter.LetterboxFrames | src/sticker_convert/converter.py:541-567 | the loop letterboxes every frame in order |
| Converter.StickerConvert.constructor | src/sticker_convert/converter.py:79-144 | the fields start empty, the output name is resolved, and a step count of 0 becomes 1 |
| Converter.StickerConvert.GenerateStepsList | src/sticker_convert/converter.py:288-333 | the rows are the ladder |
| Converter.StickerConvert.FramesDrop | src/sticker_convert/converter.py:569-621 | the result is frames_drop's (`DropSpec`), against this object's fps and the previous probe's frame count, the zero-increment cases included |
| Converter.StickerConvert.FramesResize | src/sticker_convert/converter.py:524-567 | unset res_w/res_h are filled from the frame, and the frames are letterboxed |
| Converter.StickerConvert.CompressDone | src/sticker_convert/converter.py:351-372 | returns (True, in path, destination, result_size) and writes the data only to a file destination |
| Converter.StickerConvert.Probe | src/sticker_convert/converter.py:196-227 | the probe takes the row's resolution, quality and colours and the fixed fps, and fails exactly when `ProbeSpec` of that row does, with its error; otherwise frames_processed and the plan are `ProbeSpec`'s and size is the length of the plan's encoding |
| Converter.StickerConvert.ExportProbe | src/sticker_convert/converter.py:224-227 | frames_export fails exactly when `ExportSpec` of the current frames, fps, resolution, quality and colour does; otherwise the encoder writes `ExportSpec`'s plan and size is the byte count |
| Converter.StickerConvert.ProcessFrames | src/sticker_convert/converter.py:222-223 | frames_processed is the letterboxed frames_drop output |
| Converter.ProbeSpec | src/sticker_convert/converter.py:197-224 | a successful probe of a ladder row leaves at least one letterboxed frame, each made from a decoded frame |
| Converter.Probes | src/sticker_convert/converter.py:195-227 | the probes at a sequence of steps, each from the frames the one before left, number one per step |
| Converter.ProbesSnoc | src/sticker_convert/converter.py:195-227 | one more probe at a step extends the probes by that step's `ProbeSpec` |
| Converter.ProbesMatchSnoc | src/sticker_convert/converter.py:195-227 | a probe from the frames the last probe left keeps the recorded plans and steps bound to their rows |
| Converter.StickerConvert.Attempt | src/sticker_convert/converter.py:196-234 | the probe of rows[step] is appended with its step, plan and size to the trace, and the trace still binds every recorded probe, the new one included, to the `ProbeSpec` of the row at its step; the result fields change exactly when the keep rule holds |
| Converter.StickerConvert.Commit | src/sticker_convert/converter.py:226-234 | after a successful probe of rows[step], its plan, size and step join the trace, the probes stay bound to their rows, and the keep rule decides the result fields |
| Converter.StickerConvert.Record | src/sticker_convert/converter.py:226-234 | the keep rule: the result, its size and its step are replaced iff no budget or size within budget and not smaller |
| Converter.StickerConvert.Round | src/sticker_convert/converter.py:195-248 | one loop iteration probes rows[current], where `Search.Run` says the search is, keeps the probes bound to their rows, and strictly narrows the bracket unless it finishes |
| Converter.StickerConvert.Bisect | src/sticker_convert/converter.py:195-248 | the loop ends in the state `Search.Run` predicts for the recorded sizes; every probe encoded the ladder row at the step the search was at, and the kept result is the encoding of a probe made at result_step |
| Converter.StickerConvert.Run | src/sticker_convert/converter.py:171-248 | a compatible non-empty input is delivered as it is; otherwise the result is `Compressed`: a negative step count is an IndexError; success iff the search succeeds, with the encoding of the ladder row at result_step, within a truthy budget, delivered; failure returns the last size and the output path, writing nothing |
| Converter.StickerConvert.Compress | src/sticker_convert/converter.py:178-248 | building the ladder and bisecting it ends in `Compressed`; a negative step count is an IndexError before any probe |
| Converter.StickerConvert.Finish | src/sticker_convert/converter.py:245-248 | a non-empty kept result is delivered within a truthy budget; otherwise the search failed with the last size |
| Converter.Convert | src/sticker_convert/converter.py:150-171 | an unresolvable output name is an error; a compatible input is passed through; a compressed success is within the size limit for the input's kind when that limit is truthy; a failure reports the resolved output path; animated zero-length clips and every documented power are accepted |
| Legacy.GetConvertMethod | sticker_convert/utils/sticker_convert.py:52-68 | each routine in both directions: .tgs on either side gives convert_tgs; otherwise a still input the generic image method, an animated .webp input the WebP method, an animated input with .png/.apng output the APNG method, and any other animated input the generic method |
| Legacy.StepValueRange | sticker_convert/utils/sticker_convert.py:72-73 | step 0 gives min, step == steps gives max, and every step lies between them |
| Legacy.StepValue | sticker_convert/utils/sticker_convert.py:72-73 | `round((max - min) * step / steps + min)` with round half to even (its range is `StepValueRange`) |
| Legacy.StepValueAtZero | sticker_convert/utils/sticker_convert.py:72-73 | step 0 gives min |
| Legacy.StepValueAtSteps | sticker_convert/utils/sticker_convert.py:72-73 | step == steps gives max |
| Legacy.StepValueWithin | sticker_convert/utils/sticker_convert.py:72-73 | every step lies between min and max, in either order |
| Legacy.LadderEnds | sticker_convert/utils/sticker_convert.py:76-83 | steps+1 rows, from the maxima down to the minima |
| Legacy.Ladder | sticker_convert/utils/sticker_convert.py:76-83 | row k is built from step steps - k (its ends are `LadderEnds`) |
| Legacy.RowAt | sticker_convert/utils/sticker_convert.py:78-83 | the row of step `step`: resolution, quality, fps and colour from `get_step_value`; `StepValueRange` states its bounds |
| Legacy.LimitFor | sticker_convert/utils/sticker_convert.py:101-104 | the video limit for an animated result, the image limit otherwise |
| Legacy.Under | sticker_convert/utils/sticker_convert.py:106 | the conversion of row k is strictly below its set limit |
| Legacy.StepsList | sticker_convert/utils/sticker_convert.py:76-83 | the loop builds the ladder; steps == 0 divides by zero and a negative count gives no rows |
| Legacy.Returned | sticker_convert/utils/sticker_convert.py:98-131 | True iff a file was moved or no limit was set; None iff the body raised |
| Legacy.MidpointsInside | sticker_convert/utils/sticker_convert.py:88-118 | both midpoints stay in the bracket, and strictly inside once the gap is at least 2 |
| Legacy.MidUp | sticker_convert/utils/sticker_convert.py:118 | `round((lower + upper) / 2)` with ties to even, also used at line 88; `MidpointsInside` states that it stays in the bracket |
| Legacy.MidDown | sticker_convert/utils/sticker_convert.py:109 | `int((lower + upper) / 2)`, truncating; `MidpointsInside` states that it stays in the bracket |
| Legacy.MidUpHalfEven | sticker_convert/utils/sticker_convert.py:118 | banker's rounding: round(2.5) is 2, round(0.5) is 0, round(1.5) is 2 |
| Legacy.Continue | sticker_convert/utils/sticker_convert.py:89-127 | the loop returns Unlimited iff neither limit is set |
| Legacy.Settle | sticker_convert/utils/sticker_convert.py:120-127 | corrected fall-back: never a missing file; a moved step is current + 1 and either written or converted now and under its limit; at the last step, False |
| Legacy.SettleAsWritten | sticker_convert/utils/sticker_convert.py:120-127 | as written: raises on the missing file iff current < steps and step current + 1 was never converted; otherwise moves that step, or returns False at the last step |
| Legacy.FallBack | sticker_convert/utils/sticker_convert.py:90-127 | converting step k moves its file iff it is under its set limit, and returns False iff it is at or over it |
| Legacy.Compress | sticker_convert/utils/sticker_convert.py:71-131 | steps == 0 raises ZeroDivisionError, a negative count fails on the empty ladder, and it returns True after one conversion iff steps > 0 and both limits are None |
| Legacy.CompressToSize | sticker_convert/utils/sticker_convert.py:71-131 | the loop computes the corrected `Compress` |
| Legacy.CompressAsWritten | sticker_convert/utils/sticker_convert.py:71-131 | compress_to_size as written: steps == 0 is ZeroDivisionError, a negative count an IndexError on the empty ladder, and True without a move iff both limits are None |
| Legacy.ContinueMovesFitting | sticker_convert/utils/sticker_convert.py:106-124 | every moved step's file fitted its limit |
| Legacy.MovedFits | sticker_convert/utils/sticker_convert.py:106-124 | a True with a moved file always delivers a file under its limit (both versions) |
| Legacy.ContinueNeverCrashes | sticker_convert/utils/sticker_convert.py:89-127 | with both limits set, the corrected loop never raises |
| Legacy.NeverCrashes | sticker_convert/utils/sticker_convert.py:71-131 | with both limits set and steps > 0, the corrected routine moves a fitting file or returns False |
| Legacy.ContinueFailsAtLowest | sticker_convert/utils/sticker_convert.py:89-127 | the corrected loop returns False only when the last, lowest-quality row is over its limit |
| Legacy.FailedAtLowest | sticker_convert/utils/sticker_convert.py:126-127 | False means what the message at line 126 says: even the lowest-quality row does not get below the limit |
| Legacy.ContinueVersionsAgree | sticker_convert/utils/sticker_convert.py:89-127 | the two versions differ only where the original moves a file that was never written; there the corrected loop converts that step and moves it iff it fits (`FallBack`) |
| Legacy.VersionsAgree | sticker_convert/utils/sticker_convert.py:71-131 | the same for the whole routine: the corrected result equals the original's, or, where the original raises on the missing file of step k, is `FallBack` of step k |
| Legacy.OneStepMissingFile | sticker_convert/utils/sticker_convert.py:121-124 | with one step and every file too large, the original moves file "1", which was never written |
| Legacy.ThreeStepsMissingFile | sticker_convert/utils/sticker_convert.py:121-124 | with three steps the original moves file "3", which was never written |
| Kakao.StepChar | src/sticker_convert/downloaders/download_kakao.py:29-36 | a quote toggles string mode; inside a string the depth does not change; otherwise it moves by at most one |
| Kakao.FirstBalanced | src/sticker_convert/downloaders/download_kakao.py:28-41 | -1 or a valid index; the first index at which the depth is 0; -1 iff the depth is never 0 |
| Kakao.SearchBracket | src/sticker_convert/downloaders/download_kakao.py:24-41 | the loop returns the first balanced index |
| Kakao.BracketTrivialCases | src/sticker_convert/downloaders/download_kakao.py:28-41 | empty text gives -1; a first character that is a quote or not a bracket gives 0 |
| Kakao.DepthPositive | src/sticker_convert/downloaders/download_kakao.py:32-39 | before the first return the depth stays at least 1 |
| Kakao.MatchIsClose | src/sticker_convert/downloaders/download_kakao.py:32-39 | a non-negative result r is at least 1; text[r] is the close bracket outside a string, and the brackets up to r balance |
| Kakao.IntXor | src/sticker_convert/downloaders/download_kakao.py:94 | Python `^` with a non-negative mask keeps the sign |
| Kakao.XorInvolution | src/sticker_convert/downloaders/download_kakao.py:94 | xor with the same mask twice is the identity |
| Kakao.IntXorInvolution | src/sticker_convert/downloaders/download_kakao.py:94 | the same on negative integers |
| Kakao.ItemCode | src/sticker_convert/downloaders/download_kakao.py:78-94 | (None, None) iff either number is missing or not numeric; an error only when int(fake) raises |
| Kakao.UnmaskRecovers | src/sticker_convert/downloaders/download_kakao.py:94 | subtracting minus, then xor with xor, undoes the masking |
| Kakao.ItemCodeRecovers | src/sticker_convert/downloaders/download_kakao.py:78-94 | de-obfuscation recovers any item code from its masked form |
| Kakao.ItemCodeValue | src/sticker_convert/downloaders/download_kakao.py:94 | with numeric inputs the code is str((int(fake) - minus) ^ xor) |
| Kakao.Unmask | src/sticker_convert/downloaders/download_kakao.py:94 | `(int(fake) - minus) ^ xor`, the subtraction first; `UnmaskRecovers` states that it inverts the masking |
| Kakao.SubtractionFirst | src/sticker_convert/downloaders/download_kakao.py:94 | the subtraction binds tighter than `^`: (10-3)^1 is 6 |
| Kakao.RouteUrl | src/sticker_convert/downloaders/download_kakao.py:185-249 | an emoticon.kakao.com share link downloads iff a share code was found, with the share page's title; numeric and scheme URLs download with the URL minus its prefix; e.kakao.com without the public page is NoMetadata, with a token and a looked-up code downloads the animated pack titled by the last path segment, with a token and no code is Declined unless the user continues, and otherwise falls back to the static stickers; anything else is unrecognised |
| Kakao.SchemeCode | src/sticker_convert/downloaders/download_kakao.py:195-196 | a numeric URL is its own item code; a scheme URL loses exactly its prefix |
| Kakao.NumericCodeUnchanged | src/sticker_convert/downloaders/download_kakao.py:196 | a numeric URL holds no scheme prefix, so replace leaves it alone |
| Kakao.PackTitleSegment | src/sticker_convert/downloaders/download_kakao.py:215 | the e.kakao.com pack title holds no '/' |
| Kakao.Group | src/sticker_convert/downloaders/download_kakao.py:345-357 | one target per sticker, two with a sound format |
| Kakao.TargetsUpTo | src/sticker_convert/downloaders/download_kakao.py:344-357 | the list has count targets, or 2*count with sound |
| Kakao.NumberedUrl | src/sticker_convert/downloaders/download_kakao.py:346-348 | the CDN base followed by the format with every "##" replaced by the two-digit number |
| Kakao.NumberedName | src/sticker_convert/downloaders/download_kakao.py:349 | the three-digit number followed by the extension; `NumberedNameSuffix` and `NumberedNamesDistinct` state its suffix and injectivity |
| Kakao.AnimatedTargets | src/sticker_convert/downloaders/download_kakao.py:344-357 | the loop builds the targets for stickers 1..count; a count below 1 gives none |
| Kakao.TargetAt | src/sticker_convert/downloaders/download_kakao.py:345-357 | sticker num's animation is at its position, with "##" replaced by the 2-digit number, saved as the 3-digit number plus the play extension; its sound follows immediately |
| Kakao.NumberedNameSuffix | src/sticker_convert/downloaders/download_kakao.py:349 | the suffix of a numbered name is its extension, so decryption picks the right files |
| Kakao.StrLeTotal | src/sticker_convert/downloaders/download_kakao.py:399 | Python's string order is total |
| Kakao.Insert | src/sticker_convert/downloaders/download_kakao.py:399 | one insertion step of the sort: the same names plus x |
| Kakao.InsertSorted | src/sticker_convert/downloaders/download_kakao.py:399 | inserting into a sorted list keeps it sorted |
| Kakao.SortNames | src/sticker_convert/downloaders/download_kakao.py:399 | `sorted()` is a permutation |
| Kakao.SortNamesSorted | src/sticker_convert/downloaders/download_kakao.py:399 | `sorted()` is ordered |
| Kakao.UnzipPack | src/sticker_convert/downloaders/download_kakao.py:399-411 | member k of the sorted names is written as zfill(3)(k) + its suffix, decrypted iff .gif or .webp |
| Kakao.WriteMembers | src/sticker_convert/downloaders/download_kakao.py:399-411 | the loop writes member num as `MemberOut` of num |
| Kakao.MemberOut | src/sticker_convert/downloaders/download_kakao.py:399-411 | member num is written as zfill(3)(num) + its suffix, decrypted iff .gif or .webp (stated by `UnzipPack`) |
| Kakao.MemberSuffix | src/sticker_convert/downloaders/download_kakao.py:400 | `Path(member).suffix`: the suffix of the last named component; empty, or a dot followed by at least one character and no further dot |
| Kakao.Encrypted | src/sticker_convert/downloaders/download_kakao.py:402 | the member is decrypted iff its suffix is ".gif" or ".webp" |
| Kakao.NumberedNamesDistinct | src/sticker_convert/downloaders/download_kakao.py:409 | two numbers never give the same name, whatever the suffixes |
| Kakao.DigitsThenSuffix | src/sticker_convert/downloaders/download_kakao.py:409 | digits followed by a dot suffix determine the digits |
| Kakao.UnzipNamesDistinct | src/sticker_convert/downloaders/download_kakao.py:399-411 | every member is written under its own name |
| Line.ParseUrl | sticker_convert/downloaders/download_line.py:13-23 | numeric: (url, ""); unsupported iff neither numeric nor either prefix; an IndexError only for a store URL; a region only from a store URL |
| Line.PrefixedNotNumeric | sticker_convert/downloaders/download_line.py:14-18 | a prefixed URL is not numeric, so the branches are tried in order |
| Line.DetailUrl | sticker_convert/downloaders/download_line.py:16-17 | a detail URL names the pack after its prefix, with no region |
| Line.StoreUrl | sticker_convert/downloaders/download_line.py:18-20 | a store URL gives the first segment as the pack and the second as the region |
| Line.StoreUrlNoRegion | sticker_convert/downloaders/download_line.py:20 | a store URL without a second segment raises IndexError |
| Line.ChooseRegion | sticker_convert/downloaders/download_line.py:32-38 | a given region is kept; otherwise "en" if present; otherwise an error (dict.keys()[0]) |
| Line.PackExt | sticker_convert/downloaders/download_line.py:45-48 | ".apng" iff hasAnimation == True, otherwise ".png" |
| Line.StickerTarget | sticker_convert/downloaders/download_line.py:51-57 | the file is str(id) + ext; the URL template follows the extension |
| Line.MetaUrl | sticker_convert/downloaders/download_line.py:25 | the product-info URL of the pack |
| Line.TargetNamesDistinct | sticker_convert/downloaders/download_line.py:52 | different ids give different file names |
| Line.StickerTargets | sticker_convert/downloaders/download_line.py:50-57 | one target per sticker, in order |
| Line.Resolve | sticker_convert/downloaders/download_line.py:13-48 | a URL parse error is passed on; unsupported iff the URL is; a parsed pack is NoMetadata iff the metadata request fails; it is Ready iff the metadata arrives, a region is chosen and both maps hold it, and then the pack takes its title and author from that region and its extension from hasAnimation; errors are IndexError, TypeError or KeyError |
| Line.EnglishPreferred | sticker_convert/downloaders/download_line.py:32-35 | with no region in the URL and an English title, the English release is used |
| Line.DownloadStickersLine | sticker_convert/downloaders/download_line.py:10-57 | the decisions are those of `Resolve`, and the targets are one per sticker of the metadata |
| ApplePng.Be32 | src/sticker_convert/utils/media/apple_png_normalize.py:89 | `struct.pack(">L")` writes four bytes |
| ApplePng.ReadWriteBe32 | src/sticker_convert/utils/media/apple_png_normalize.py:29-33 | unpacking a packed 32-bit value gives it back |
| ApplePng.WriteReadBe32 | src/sticker_convert/utils/media/apple_png_normalize.py:29-33 | packing an unpacked value gives back its four bytes |
| ApplePng.TypesDistinct | src/sticker_convert/utils/media/apple_png_normalize.py:37-86 | IHDR, IDAT, IEND and CgBI are four different types |
| ApplePng.Encode | src/sticker_convert/utils/media/apple_png_normalize.py:89-93 | a chunk is written as its length, type, data and CRC: 12 bytes plus the data |
| ApplePng.ReadChunk | src/sticker_convert/utils/media/apple_png_normalize.py:28-34 | the only failure is struct.error; a read chunk is well formed and fits in the bytes it was read from |
| ApplePng.ReadChunkVerbatim | src/sticker_convert/utils/media/apple_png_normalize.py:89-93 | writing back a read chunk gives exactly the bytes it was read from |
| ApplePng.ReadEncoded | src/sticker_convert/utils/media/apple_png_normalize.py:28-34 | reading a written chunk gives it back, whatever follows |
| ApplePng.SwapRows | src/sticker_convert/utils/media/apple_png_normalize.py:57-64 | the swap keeps the length |
| ApplePng.SwapRow | src/sticker_convert/utils/media/apple_png_normalize.py:59-63 | the inner loop keeps the length |
| ApplePng.RowStartIs | src/sticker_convert/utils/media/apple_png_normalize.py:57-64 | row k starts at 1 + k*(1 + 4*width) |
| ApplePng.SwapRowPixel | src/sticker_convert/utils/media/apple_png_normalize.py:59-63 | within a row, the red and blue bytes of each pixel are exchanged |
| ApplePng.SwapRowKeeps | src/sticker_convert/utils/media/apple_png_normalize.py:59-63 | within a row, every other byte is unchanged |
| ApplePng.PixelSwapped | src/sticker_convert/utils/media/apple_png_normalize.py:57-64 | in every row, bytes p+4x and p+4x+2 are exchanged |
| ApplePng.SwapRowsKeeps | src/sticker_convert/utils/media/apple_png_normalize.py:57-64 | every byte that is not a red or blue byte is untouched |
| ApplePng.FilterByteNotSwapped | src/sticker_convert/utils/media/apple_png_normalize.py:57-64 | the filter byte before each row is never swapped |
| ApplePng.SwapRedBlue | src/sticker_convert/utils/media/apple_png_normalize.py:56-64 | the nested loops leave the buffer as `SwapRows` of its old contents |
| ApplePng.ReadHeader | src/sticker_convert/utils/media/apple_png_normalize.py:37-39 | an error iff the IHDR data is shorter than 8 bytes |
| ApplePng.Normalised | src/sticker_convert/utils/media/apple_png_normalize.py:72 | a CRC already in [0, 2^32) is unchanged |
| ApplePng.Finish | src/sticker_convert/utils/media/apple_png_normalize.py:52-83 | a finished file starts with the output so far and adds at least 24 bytes |
| ApplePng.FinishShape | src/sticker_convert/utils/media/apple_png_normalize.py:52-83 | a finished file has an IHDR size and a big enough inflated buffer; it is the output plus one IDAT of the swapped data plus a zero-length IEND with crc32("IEND"), and nothing after |
| ApplePng.Kept | src/sticker_convert/utils/media/apple_png_normalize.py:85-93 | the copied chunks are a selection of the input chunks with no IDAT or CgBI |
| ApplePng.WalkToEnd | src/sticker_convert/utils/media/apple_png_normalize.py:26-95 | walking whole chunks up to IEND copies the kept chunks in order, concatenates the IDAT data, and finishes iff a CgBI chunk was seen; otherwise it returns the original |
| ApplePng.Walk | src/sticker_convert/utils/media/apple_png_normalize.py:26-95 | the walk returns the original bytes or a file that starts with the output written so far |
| ApplePng.WalkAtEnd | src/sticker_convert/utils/media/apple_png_normalize.py:48-50 | reaching IEND gives the original bytes without CgBI, the finished file with it |
| ApplePng.WalkEnd | src/sticker_convert/utils/media/apple_png_normalize.py:48-83 | an IEND chunk at the cursor ends the walk |
| ApplePng.WalkRead | src/sticker_convert/utils/media/apple_png_normalize.py:34-93 | any other chunk at the cursor updates the state and advances by length + 12 |
| ApplePng.WalkIdat | src/sticker_convert/utils/media/apple_png_normalize.py:42-45 | an IDAT chunk adds its data |
| ApplePng.WalkCgbi | src/sticker_convert/utils/media/apple_png_normalize.py:86-87 | a CgBI chunk is dropped and marks the file |
| ApplePng.WalkHeader | src/sticker_convert/utils/media/apple_png_normalize.py:37-39 | an IHDR chunk is copied and sets the size |
| ApplePng.WalkCopy | src/sticker_convert/utils/media/apple_png_normalize.py:88-93 | any other chunk is copied verbatim |
| ApplePng.WalkStep | src/sticker_convert/utils/media/apple_png_normalize.py:34-93 | one written chunk followed by more bytes is one walk step |
| ApplePng.NormalizeFile | src/sticker_convert/utils/media/apple_png_normalize.py:12-95 | for a signature followed by whole chunks and an IEND, the result is the finished file when a CgBI chunk is present, the input otherwise |
| ApplePng.NotPng | src/sticker_convert/utils/media/apple_png_normalize.py:13-16 | input that does not start with the signature is returned unchanged |
| ApplePng.Normalize | src/sticker_convert/utils/media/apple_png_normalize.py:12-95 | input without the PNG signature is returned unchanged; any other result is the input or starts with the signature |
| ApplePng.NormalizePng | src/sticker_convert/utils/media/apple_png_normalize.py:12-95 | the while loop computes `Normalize` |
| ApplePng.CopyChunk | src/sticker_convert/utils/media/apple_png_normalize.py:89-93 | the copy appends the encoded chunk |
| ApplePng.ReadChunkAt | src/sticker_convert/utils/media/apple_png_normalize.py:28-33 | the read at the cursor is `ReadChunk` of the rest |
| ApplePng.FinishPng | src/sticker_convert/utils/media/apple_png_normalize.py:52-83 | inflating, swapping in place, deflating and writing compute `Finish` |

## Left out

- Decoding, encoding and optimisation are not modelled: PIL, PyAV, rlottie, webp, apngasm, oxipng and the imagequant/fastoctree calls. Frames are opaque values. The encoder is a function from an export plan to bytes, and imagequant's success is a predicate on the request.
- The YUV to RGB conversion in `_frames_import_pyav` is floating-point numerics and is not modelled.
- `frames_import` is not modelled. The decoded frames are a parameter.
- `check_if_compatible` (`FormatVerify`, `CodecInfo`) is not modelled. Its verdict is a boolean parameter, and the source's fps, duration and animation flag are a record.
- `pow(step/steps, power)` is an uninterpreted function. The lemmas assume pow(1, p) = 1 and, for the bounds on the ladder, that x * pow(x, p) stays in [0, 1] for x in (0, 1] (`StepLadder.ShapeInUnit`). The real power has that property for every p >= -1, which is the whole range the comment at `converter.py:34` documents, negative fps powers included. Powers below -1 are not covered.
- Floats are exact reals. The `frames_drop` accumulator, `Fraction` arithmetic and the true divisions do not model rounding drift.
- Frames.Dropped, Converter.DropSpec: require a non-negative frame increment. A negative one needs a negative source fps, duration or duration_max, which no decoded file or option produces. The zero increment of a zero-length clip stretched by duration_min is modelled: with a positive frames_out_max the loop takes that many copies of frame 0, and otherwise it never ends, which the model reports as `Diverges`.
- Converter.Convert, Converter.StickerConvert.Run: require a non-negative source fps and duration, non-negative fps_min, fps_max and duration_max, and an fps power of at least -1 (see `ShapeInUnit` above). Negative values are outside what the options and the decoders produce.
- Converter.StickerConvert.constructor: `__init__` writes `steps = 1` into the caller's own options object when steps is 0 (converter.py:130-131), so later conversions that share that object see the change. The model's options are a value, so the constructor changes only its own copy; the aliasing is not modelled.
- Converter.StickerConvert.Run treats an fps that is None like 0 in `fix_fps` and in the probe rate. A missing source fps is outside the record.
- The log messages (`cb.put`), `recompress`, the messages in `compress_done`, and the in-memory `BytesIO` handling are not modelled.
- The option accessors (`get_format`, `get_res`, ...) are folded into the options record `CompOptions.CompOption`.
- Base.ParseInt accepts digit strings with an optional sign. Python's `int()` also accepts whitespace and underscores.
- `str.isnumeric` is modelled on ASCII digits only.
- Base.Lower: lowers ASCII A-Z only. Python's `str.lower()` also lowers non-ASCII letters, and some of them become two characters ("İ" becomes "i" and a combining dot). The extensions `get_convert_method` compares against are ASCII. Apart from the Kelvin sign, which lowers to "k", a non-ASCII letter lowers to a string that still holds a non-ASCII character. No compared extension holds a "k". So the dispatch comes out the same, but this is not proved.
- Kakao.MemberSuffix: follows `PurePosixPath`. On Windows, `Path` also splits on backslashes, so a member name holding a backslash can have a different suffix there.
- In `compress_to_size`, the conversion routine and the size check are one function from a ladder row to a size and an animation flag. The temporary directory, `shutil.move` and `print` are not modelled; the file names are the step numbers.
- Legacy.Compress: when both limits are None it returns True after the first conversion, as the source does, and no file is moved.
- The ffmpeg, wand and subprocess conversion methods of `utils/sticker_convert.py` are not modelled.
- The Kakao HTTP requests, BeautifulSoup parsing and regular expressions are not modelled. Their results (the share-page fields, the regex captures, the pack information) are inputs to `Kakao.RouteUrl` and `Kakao.ItemCode`.
- `download_animated` is modelled from the point where the formats are known. Probing the CDN for play and sound formats, the retries, `download_multiple_files` and the file writes are not modelled. `DecryptKakao.xor_data` is a function parameter.
- `download_static` and the metadata writes of the Kakao downloader are not modelled.
- The LINE HTTP request, the JSON decoding and the download retry loop with its file writes (download_line.py:25-30, 59-69) are not modelled. The metadata fetch is a function from URL to an optional record.
- Line.Resolve: the metadata record always carries `title`, `author`, `hasAnimation` and `stickers`; a region missing from `author` is the KeyError that is modelled. A float `hasAnimation` (1.0 == True) counts as not true.
- Line.ChooseRegion: the fallback `pack_meta['title'].keys()[0]` is a TypeError on Python 3, so the model returns an error there instead of picking the first key.
- `MetadataHandler.set_metadata` is not modelled.
- zlib, `zlib.decompress` and `crc32` are function parameters of `ApplePng.Codec`.
- `crc32(data, crc32(b"IDAT"))` is modelled as the CRC of the type followed by the data. That is what the running form computes.
- ApplePng.SwapRedBlue: the source raises IndexError part-way through the swap when the inflated buffer is too short. The model checks the size before the loop. The outcome is the same, since the partly swapped buffer is discarded.
- ApplePng.NormalizePng: output that ends without an IEND chunk has no IDAT chunk. That is what the source returns, and the model does the same.
- UI, job orchestration, multiprocessing, caching, uploaders and the rest of the repository are not modelled.

## Findings

| source | as written | input that shows it | evidently intended | confidence | as-written member | corrected member |
|---|---|---|---|---|---|---|
| sticker_convert/utils/sticker_convert.py:121-124 | over the limit with the bracket collapsed and current < steps, it moves the temporary file of step current + 1 | steps = 1, both limits 10, every conversion 1000 bytes: step 0 is converted, file "1" is moved but was never written, and the routine returns None | move the file of step current + 1 when it was written; otherwise convert that step first and move it if it fits its limit, else return False, so that False means even the lowest quality is over the limit (line 126) | not executed | Legacy.OneStepMissingFile, Legacy.ThreeStepsMissingFile (on Legacy.CompressAsWritten and Legacy.SettleAsWritten) | Legacy.CompressToSize, Legacy.NeverCrashes, Legacy.MovedFits, Legacy.FailedAtLowest, Legacy.VersionsAgree (on Legacy.Compress, Legacy.Settle and Legacy.FallBack) |
