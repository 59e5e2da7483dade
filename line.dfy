/**
 * The LINE downloader's decisions (sticker_convert/downloaders/download_line.py,
 * lines 13-57): which pack a URL names, which regional release is used,
 * and which file each sticker is fetched from and saved as.  The metadata
 * request is a parameter; the downloads themselves are not modelled.
 */
module Line {
  import opened Base

  const DetailPrefix: string := "line://shop/detail/"
  const StorePrefix: string := "https://store.line.me/stickershop/product/"

  /** The pack id and the region a URL names; the region is "" when the URL gives none. */
  datatype PackRef = PackRef(packId: string, region: string)

  /**
   * Lines 13-23.  Ok(None) is the unsupported-URL path that returns False;
   * a store URL with no '/' after the pack id makes split('/')[1] raise
   * IndexError.
   */
  function ParseUrl(url: string): (r: Result<Option<PackRef>>)
    ensures IsNumeric(url) ==> r == Ok(Some(PackRef(url, "")))
    ensures r == Ok(None) <==> !IsNumeric(url) && !StartsWith(url, DetailPrefix) && !StartsWith(url, StorePrefix)
    ensures r.Err? ==> r.error == IndexOut && StartsWith(url, StorePrefix)
    ensures r.Ok? && r.value.Some? && r.value.value.region != "" ==> StartsWith(url, StorePrefix)
  {
    if IsNumeric(url) then Ok(Some(PackRef(url, "")))
    else if StartsWith(url, DetailPrefix) then Ok(Some(PackRef(ReplaceAll(url, DetailPrefix, ""), "")))
    else if StartsWith(url, StorePrefix) then
      var parts := Split(ReplaceAll(url, StorePrefix, ""), '/');
      if |parts| < 2 then Err(IndexOut) else Ok(Some(PackRef(parts[0], parts[1])))
    else Ok(None)
  }

  /** A URL that begins with one of the two prefixes is not numeric. */
  lemma PrefixedNotNumeric(url: string, prefix: string)
    requires prefix == DetailPrefix || prefix == StorePrefix
    requires StartsWith(url, prefix)
    ensures !IsNumeric(url)
  {
    assert url[0] == url[..|prefix|][0] == prefix[0];
  }

  /** A detail URL names the pack after its prefix, with no region. */
  lemma DetailUrl(rest: string)
    requires forall i :: 0 <= i <= |rest| ==> !OccursAt(rest, DetailPrefix, i)
    ensures ParseUrl(DetailPrefix + rest) == Ok(Some(PackRef(rest, "")))
  {
    var url := DetailPrefix + rest;
    assert url[..|DetailPrefix|] == DetailPrefix && url[|DetailPrefix|..] == rest;
    PrefixedNotNumeric(url, DetailPrefix);
    StripPrefixByReplace(url, DetailPrefix);
  }

  /**
   * A store URL names the pack by its first segment after the prefix and
   * the region by the second; anything from the next '/' on is ignored.
   */
  lemma StoreUrl(id: string, region: string, tail: string)
    requires '/' !in id && '/' !in region
    requires tail == "" || tail[0] == '/'
    requires var rest := id + "/" + region + tail;
             forall i :: 0 <= i <= |rest| ==> !OccursAt(rest, StorePrefix, i)
    ensures ParseUrl(StorePrefix + id + "/" + region + tail) == Ok(Some(PackRef(id, region)))
  {
    var rest := id + "/" + region + tail;
    assert StorePrefix + id + "/" + region + tail == StorePrefix + rest;
    StoreStrip(rest);
    NotDetail(rest);
    StorePieces(id, region, tail);
  }

  /** The pieces of id/region/tail: the first is the id and the second the region. */
  lemma StorePieces(id: string, region: string, tail: string)
    requires '/' !in id && '/' !in region
    requires tail == "" || tail[0] == '/'
    ensures var parts := Split(id + "/" + region + tail, '/');
            |parts| >= 2 && parts[0] == id && parts[1] == region
  {
    assert id + "/" + region + tail == id + ['/'] + (region + tail);
    SplitFirst(id, '/', region + tail);
    SplitHead(region, tail);
  }

  /** A store URL with nothing after the pack id raises IndexError. */
  lemma StoreUrlNoRegion(id: string)
    requires '/' !in id
    requires forall i :: 0 <= i <= |id| ==> !OccursAt(id, StorePrefix, i)
    ensures ParseUrl(StorePrefix + id) == Err(IndexOut)
  {
    StoreStrip(id);
    NotDetail(id);
    SplitWhole(id, '/');
  }

  lemma StoreStrip(rest: string)
    requires forall i :: 0 <= i <= |rest| ==> !OccursAt(rest, StorePrefix, i)
    ensures StartsWith(StorePrefix + rest, StorePrefix) && !IsNumeric(StorePrefix + rest)
    ensures ReplaceAll(StorePrefix + rest, StorePrefix, "") == rest
  {
    var url := StorePrefix + rest;
    assert url[..|StorePrefix|] == StorePrefix && url[|StorePrefix|..] == rest;
    PrefixedNotNumeric(url, StorePrefix);
    StripPrefixByReplace(url, StorePrefix);
  }

  lemma NotDetail(rest: string)
    ensures !StartsWith(StorePrefix + rest, DetailPrefix)
  {
    var url := StorePrefix + rest;
    assert url[0] == 'h';
    if |DetailPrefix| <= |url| {
      assert url[..|DetailPrefix|][0] == url[0];
    }
  }

  /** The first piece of a + tail is a when a has no '/' and tail is empty or starts with one. */
  lemma SplitHead(a: string, tail: string)
    requires '/' !in a
    requires tail == "" || tail[0] == '/'
    ensures Split(a + tail, '/')[0] == a && |Split(a + tail, '/')| >= 1
  {
    if tail == "" {
      assert a + tail == a;
      SplitWhole(a, '/');
    } else {
      assert a + tail == a + ['/'] + tail[1..];
      SplitFirst(a, '/', tail[1..]);
    }
  }

  /** The part of productInfo.meta that the decisions read. */
  datatype Meta = Meta(
    title: map<string, string>,    // pack_meta['title'], by region
    author: map<string, string>,   // pack_meta['author'], by region
    hasAnimation: Flag,            // pack_meta['hasAnimation']
    stickers: seq<int>)            // the 'id' of each entry of pack_meta['stickers']

  /** A JSON scalar compared with True: true and the number 1 are equal to it. */
  datatype Flag = FlagBool(b: bool) | FlagInt(n: int) | FlagOther

  predicate IsTrue(f: Flag)
  {
    f == FlagBool(true) || f == FlagInt(1)
  }

  /**
   * Lines 32-38: an empty region becomes "en" when there is an English
   * title.  Otherwise the fallback subscripts dict.keys(), which raises
   * TypeError on Python 3.
   */
  function ChooseRegion(region: string, title: map<string, string>): (r: Result<string>)
    ensures region != "" ==> r == Ok(region)
    ensures r.Ok? ==> r.value != ""
    ensures r.Err? <==> region == "" && "en" !in title
    ensures r.Ok? && region == "" ==> r.value in title
  {
    if region != "" then Ok(region)
    else if "en" in title then Ok("en")
    else Err(BadType)
  }

  /** Lines 45-48. */
  function PackExt(f: Flag): (ext: string)
    ensures ext == ".apng" <==> IsTrue(f)
    ensures ext == ".apng" || ext == ".png"
  {
    if IsTrue(f) then ".apng" else ".png"
  }

  /** A file to fetch and the name it is saved under in the output directory. */
  datatype Target = Target(url: string, dest: string)

  const AnimationBase: string := "https://sdl-stickershop.line.naver.jp/products/0/0/1/"
  const StaticBase: string := "http://dl.stickershop.line.naver.jp/stickershop/v1/sticker/"

  /** Lines 51-57: the file name is str(id) + ext; the URL template follows the extension. */
  function StickerTarget(packId: string, ext: string, id: int): (t: Target)
    ensures t.dest == IntToString(id) + ext
    ensures ext == ".apng" ==> StartsWith(t.url, AnimationBase)
    ensures ext != ".apng" ==> StartsWith(t.url, StaticBase)
  {
    if ext == ".apng" then
      Target(AnimationBase + packId + "/iphone/animation/" + IntToString(id) + "@2x.png", IntToString(id) + ext)
    else
      Target(StaticBase + IntToString(id) + "/iphone/sticker@2x.png", IntToString(id) + ext)
  }

  /** The same extension and two different ids: two different file names. */
  lemma TargetNamesDistinct(packId: string, ext: string, i: int, j: int)
    requires i != j
    ensures StickerTarget(packId, ext, i).dest != StickerTarget(packId, ext, j).dest
  {
    IntToStringParses(i);
    IntToStringParses(j);
    var a, b := IntToString(i), IntToString(j);
    assert (a + ext)[..|a|] == a && (b + ext)[..|b|] == b;
  }

  /** The loop of lines 50-57: one target per sticker, in the order of the metadata. */
  method StickerTargets(packId: string, ext: string, ids: seq<int>) returns (targets: seq<Target>)
    ensures |targets| == |ids|
    ensures forall k :: 0 <= k < |ids| ==> targets[k] == StickerTarget(packId, ext, ids[k])
  {
    targets := [];
    for k := 0 to |ids|
      invariant |targets| == k
      invariant forall j :: 0 <= j < k ==> targets[j] == StickerTarget(packId, ext, ids[j])
    {
      targets := targets + [StickerTarget(packId, ext, ids[k])];
    }
  }

  /** What the pack resolves to once the metadata is in. */
  datatype Pack = Pack(packId: string, region: string, title: string, author: string, ext: string)

  /** The two False returns of lines 21-30. */
  datatype Outcome = Unsupported | NoMetadata | Ready(pack: Pack)

  /** The metadata URL of line 25. */
  function MetaUrl(packId: string): string
  {
    "http://dl.stickershop.line.naver.jp/products/0/0/1/" + packId + "/android/productInfo.meta"
  }

  /**
   * Lines 13-48.  fetch answers the metadata request: None stands for a
   * status other than 200.  A region missing from the title or author map
   * is a KeyError.
   */
  function Resolve(url: string, fetch: string -> Option<Meta>): (r: Result<Outcome>)
    ensures ParseUrl(url).Err? ==> r == Err(ParseUrl(url).error)
    ensures r == Ok(Unsupported) <==> ParseUrl(url) == Ok(None)
    ensures ParseUrl(url).Ok? && ParseUrl(url).value.Some? ==>
              (r == Ok(NoMetadata) <==> fetch(MetaUrl(ParseUrl(url).value.value.packId)).None?)
    ensures r.Ok? && r.value.Ready? ==>
              && ParseUrl(url).Ok? && ParseUrl(url).value.Some?
              && var ref := ParseUrl(url).value.value;
              && var meta := fetch(MetaUrl(ref.packId));
              && meta.Some? && r.value.pack.packId == ref.packId
              && ChooseRegion(ref.region, meta.value.title) == Ok(r.value.pack.region)
              && r.value.pack.region in meta.value.title && r.value.pack.region in meta.value.author
              && r.value.pack.title == meta.value.title[r.value.pack.region]
              && r.value.pack.author == meta.value.author[r.value.pack.region]
              && r.value.pack.ext == PackExt(meta.value.hasAnimation)
    ensures (&& ParseUrl(url).Ok? && ParseUrl(url).value.Some?
             && var ref := ParseUrl(url).value.value;
             && var meta := fetch(MetaUrl(ref.packId));
             && meta.Some? && ChooseRegion(ref.region, meta.value.title).Ok?
             && var region := ChooseRegion(ref.region, meta.value.title).value;
             && region in meta.value.title && region in meta.value.author) ==> r.Ok? && r.value.Ready?
    ensures r.Err? ==> r.error in {IndexOut, BadType, MissingKey}
  {
    match ParseUrl(url)
    case Err(e) => Err(e)
    case Ok(None) => Ok(Unsupported)
    case Ok(Some(ref)) =>
      match fetch(MetaUrl(ref.packId))
      case None => Ok(NoMetadata)
      case Some(meta) =>
        match ChooseRegion(ref.region, meta.title)
        case Err(e) => Err(e)
        case Ok(region) =>
          if region !in meta.title || region !in meta.author then Err(MissingKey)
          else Ok(Ready(Pack(ref.packId, region, meta.title[region], meta.author[region], PackExt(meta.hasAnimation))))
  }

  /** A pack with an English title and no region in its URL resolves to the English release. */
  lemma EnglishPreferred(url: string, fetch: string -> Option<Meta>)
    requires ParseUrl(url).Ok? && ParseUrl(url).value.Some? && ParseUrl(url).value.value.region == ""
    requires var meta := fetch(MetaUrl(ParseUrl(url).value.value.packId));
             meta.Some? && "en" in meta.value.title && "en" in meta.value.author
    ensures Resolve(url, fetch).Ok? && Resolve(url, fetch).value.Ready?
    ensures Resolve(url, fetch).value.pack.region == "en"
  {
  }

  /**
   * download_stickers_line up to the download: the outcome, and for a pack
   * that resolves the targets of its stickers.
   */
  method DownloadStickersLine(url: string, fetch: string -> Option<Meta>)
    returns (r: Result<Outcome>, targets: seq<Target>)
    ensures r == Resolve(url, fetch)
    ensures !(r.Ok? && r.value.Ready?) ==> targets == []
    ensures r.Ok? && r.value.Ready? ==>
              var meta := fetch(MetaUrl(r.value.pack.packId)).value;
              && |targets| == |meta.stickers|
              && forall k :: 0 <= k < |targets| ==>
                   targets[k] == StickerTarget(r.value.pack.packId, r.value.pack.ext, meta.stickers[k])
  {
    r := Resolve(url, fetch);
    targets := [];
    if r.Ok? && r.value.Ready? {
      var meta := fetch(MetaUrl(r.value.pack.packId)).value;
      targets := StickerTargets(r.value.pack.packId, r.value.pack.ext, meta.stickers);
    }
  }
}
