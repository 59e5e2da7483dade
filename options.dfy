/**
 * The compression options (CompOption) as far as the converter reads them.
 * Every optional number is None when the user left it unset; `steps` is a
 * plain integer whose 0 stands for "unset" (the converter treats None and 0
 * alike and replaces both by 1).
 */
module CompOptions {
  import opened Base

  datatype CompOption = CompOption(
    formatImg: seq<string>,
    formatVid: seq<string>,
    fakeVid: bool,
    sizeMaxImg: Option<int>,
    sizeMaxVid: Option<int>,
    resWMin: Option<int>,
    resWMax: Option<int>,
    resHMin: Option<int>,
    resHMax: Option<int>,
    resPower: real,
    qualityMin: Option<int>,
    qualityMax: Option<int>,
    qualityPower: real,
    fpsMin: Option<int>,
    fpsMax: Option<int>,
    fpsPower: real,
    colorMin: Option<int>,
    colorMax: Option<int>,
    colorPower: real,
    durationMin: Option<int>,
    durationMax: Option<int>,
    steps: int,
    scaleFilter: string,
    quantizeMethod: string
  )

  /** opt_comp.get_format(): the image formats followed by the video formats. */
  function ValidFormats(opt: CompOption): seq<string>
  {
    opt.formatImg + opt.formatVid
  }

  predicate NonNegative(v: Option<int>) { v.Some? ==> v.value >= 0 }

  /** Options whose numeric bounds are not negative and whose step count is set. */
  predicate WellFormed(opt: CompOption)
  {
    && opt.steps >= 1
    && NonNegative(opt.resWMin) && NonNegative(opt.resWMax)
    && NonNegative(opt.resHMin) && NonNegative(opt.resHMax)
    && NonNegative(opt.qualityMin) && NonNegative(opt.qualityMax)
    && NonNegative(opt.fpsMin) && NonNegative(opt.fpsMax)
    && NonNegative(opt.colorMin) && NonNegative(opt.colorMax)
    && NonNegative(opt.durationMin) && NonNegative(opt.durationMax)
    && NonNegative(opt.sizeMaxImg) && NonNegative(opt.sizeMaxVid)
  }
}
