/**
 * The pure pieces of the Kakao downloader
 * (src/sticker_convert/downloaders/download_kakao.py): the quote-aware
 * bracket matcher, the item-code de-obfuscation, the choice of what to do
 * with a URL, the list of files to fetch one by one, and the renaming of
 * the members of a downloaded zip.  HTTP responses, parsed HTML and the
 * regular-expression matches are inputs; the Kakao decryptor is an
 * uninterpreted function.
 */
module Kakao {
  import opened Base

  // ---------------------------------------------------------------------
  // search_bracket
  // ---------------------------------------------------------------------

  /** The scanner's state: bracket depth and whether it is inside a "..." string. */
  datatype Scan = Scan(depth: int, inString: bool)

  /**
   * One character: a double quote toggles string mode; outside a string
   * the open bracket deepens and the close bracket (when it is a different
   * character) shallows.
   */
  function StepChar(st: Scan, c: char, open: char, close: char): (next: Scan)
    ensures next.inString == (st.inString != (c == '"'))
    ensures next.inString ==> next.depth == st.depth
    ensures next.depth - st.depth in {-1, 0, 1}
  {
    var inString := if c == '"' then !st.inString else st.inString;
    var depth := if inString then st.depth
                 else if c == open then st.depth + 1
                 else if c == close then st.depth - 1
                 else st.depth;
    Scan(depth, inString)
  }

  /** The state after the first n characters. */
  function ScanPrefix(text: string, n: nat, open: char, close: char): Scan
    requires n <= |text|
  {
    if n == 0 then Scan(0, false) else StepChar(ScanPrefix(text, n - 1, open, close), text[n - 1], open, close)
  }

  /** Depth after text[..j + 1]: the value the loop checks at index j. */
  function DepthAt(text: string, j: nat, open: char, close: char): int
    requires j < |text|
  {
    ScanPrefix(text, j + 1, open, close).depth
  }

  /**
   * The first index from i on after which the depth is 0, or -1: the
   * value search_bracket returns (from i = 0).
   */
  function FirstBalanced(text: string, i: nat, open: char, close: char): (r: int)
    requires i <= |text|
    ensures r == -1 || i <= r < |text|
    ensures r >= 0 ==> DepthAt(text, r, open, close) == 0
    ensures r >= 0 ==> forall j :: i <= j < r ==> DepthAt(text, j, open, close) != 0
    ensures r == -1 ==> forall j :: i <= j < |text| ==> DepthAt(text, j, open, close) != 0
    decreases |text| - i
  {
    if i == |text| then -1
    else if DepthAt(text, i, open, close) == 0 then i
    else FirstBalanced(text, i + 1, open, close)
  }

  /** search_bracket: the loop of lines 28-41. */
  method SearchBracket(text: string, open: char, close: char) returns (r: int)
    ensures r == FirstBalanced(text, 0, open, close)
  {
    var depth := 0;
    var inString := false;
    var count := 0;
    while count < |text|
      invariant 0 <= count <= |text|
      invariant Scan(depth, inString) == ScanPrefix(text, count, open, close)
      invariant FirstBalanced(text, 0, open, close) == FirstBalanced(text, count, open, close)
    {
      var c := text[count];
      if c == '"' {
        inString := !inString;
      }
      if !inString {
        if c == open {
          depth := depth + 1;
        } else if c == close {
          depth := depth - 1;
        }
      }
      if depth == 0 {
        return count;
      }
      count := count + 1;
    }
    return -1;
  }

  /** Empty text gives -1; a first character that is a quote or not a bracket gives 0. */
  lemma BracketTrivialCases(text: string, open: char, close: char)
    ensures |text| == 0 ==> FirstBalanced(text, 0, open, close) == -1
    ensures |text| > 0 && (text[0] == '"' || (text[0] != open && text[0] != close)) ==>
              FirstBalanced(text, 0, open, close) == 0
  {
    if |text| > 0 {
      assert ScanPrefix(text, 1, open, close) == StepChar(Scan(0, false), text[0], open, close);
    }
  }

  /** Between the opening bracket and the first return the depth stays positive. */
  lemma {:induction false} DepthPositive(text: string, open: char, close: char, n: nat)
    requires |text| > 0 && text[0] == open && open != '"'
    requires 1 <= n <= |text|
    requires forall j :: 0 <= j < n ==> DepthAt(text, j, open, close) != 0
    ensures ScanPrefix(text, n, open, close).depth >= 1
  {
    if n == 1 {
      assert ScanPrefix(text, 1, open, close) == StepChar(Scan(0, false), text[0], open, close);
    } else {
      DepthPositive(text, open, close, n - 1);
      assert DepthAt(text, n - 1, open, close) == ScanPrefix(text, n, open, close).depth;
    }
  }

  /**
   * Starting at the open bracket, a non-negative result points at a close
   * bracket seen outside any string, at which the brackets outside strings
   * balance for the first time.
   */
  lemma MatchIsClose(text: string, open: char, close: char)
    requires |text| > 0 && text[0] == open && open != '"' && close != '"' && open != close
    ensures var r := FirstBalanced(text, 0, open, close);
            r >= 0 ==> && r >= 1 && text[r] == close
                       && !ScanPrefix(text, r + 1, open, close).inString
                       && ScanPrefix(text, r + 1, open, close).depth == 0
  {
    var r := FirstBalanced(text, 0, open, close);
    assert ScanPrefix(text, 1, open, close) == StepChar(Scan(0, false), text[0], open, close);
    if r >= 0 {
      assert r != 0;
      DepthPositive(text, open, close, r);
      var before := ScanPrefix(text, r, open, close);
      assert ScanPrefix(text, r + 1, open, close) == StepChar(before, text[r], open, close);
    }
  }

  // ---------------------------------------------------------------------
  // Item code (lines 78-94)
  // ---------------------------------------------------------------------

  /** Bitwise exclusive or of two naturals. */
  function Xor(a: nat, b: nat): (r: nat)
    decreases a + b
  {
    if a == 0 && b == 0 then 0
    else 2 * Xor(a / 2, b / 2) + (if a % 2 != b % 2 then 1 else 0)
  }

  /** x ^ y on Python integers for y >= 0: two's complement with infinitely many sign bits. */
  function IntXor(x: int, y: nat): (r: int)
    ensures (r >= 0) == (x >= 0)
  {
    if x >= 0 then Xor(x, y) else -(Xor(-x - 1, y) as int) - 1
  }

  lemma {:induction false} XorInvolution(a: nat, b: nat)
    ensures Xor(Xor(a, b), b) == a
    decreases a + b
  {
    if a == 0 && b == 0 {
    } else {
      var c := Xor(a, b);
      XorInvolution(a / 2, b / 2);
      assert c / 2 == Xor(a / 2, b / 2);
      assert c % 2 == (if a % 2 != b % 2 then 1 else 0);
    }
  }

  /** Applying the same mask twice gives the value back, for negative values too. */
  lemma IntXorInvolution(x: int, y: nat)
    ensures IntXor(IntXor(x, y), y) == x
  {
    if x >= 0 {
      XorInvolution(x, y);
    } else {
      XorInvolution(-x - 1, y);
    }
  }

  /**
   * The tail of get_info_from_share_link.  `minus` and `xor` are the two
   * regular-expression groups (None when the pattern did not match).  A
   * missing or non-numeric group gives (None, None), modelled as Ok(None);
   * a non-integer data-i attribute makes int() raise ValueError.  The code
   * is str((int(fake) - minus) ^ xor): subtraction binds tighter than ^.
   */
  function ItemCode(fake: string, minus: Option<string>, xor: Option<string>): (r: Result<Option<string>>)
    ensures r == Ok(None) <==> !(minus.Some? && IsNumeric(minus.value) && xor.Some? && IsNumeric(xor.value))
    ensures r.Err? ==> r.error == BadValue && ParseInt(fake).Err?
  {
    if minus.None? || !IsNumeric(minus.value) then Ok(None)
    else if xor.None? || !IsNumeric(xor.value) then Ok(None)
    else
      var f := ParseInt(fake);
      if f.Err? then Err(f.error)
      else Ok(Some(IntToString(Unmask(f.value, ParseNat(minus.value), ParseNat(xor.value)))))
  }

  /** (fake - minus) ^ xor */
  function Unmask(fake: int, minus: nat, xor: nat): int
  {
    IntXor(fake - minus, xor)
  }

  /** Unmasking inverts the masking of a non-negative code. */
  lemma UnmaskRecovers(code: nat, minus: nat, xor: nat)
    ensures Unmask(Xor(code, xor) + minus, minus, xor) == code
  {
    var m := Xor(code, xor);
    assert m + minus - minus == m;
    XorInvolution(code, xor);
  }

  /** The page's data-i for a real item code: the masked code plus the offset. */
  function Obfuscate(code: nat, minus: nat, xor: nat): string
  {
    NatToString(Xor(code, xor) + minus)
  }

  lemma NatToStringNumeric(n: nat)
    ensures IsNumeric(NatToString(n)) && ParseNat(NatToString(n)) == n
  {
    ZFillParsesBack(n, 0);
    assert ZFill(NatToString(n), 0) == NatToString(n);
  }

  /** De-obfuscation undoes the obfuscation: any item code is recovered from its data-i and the two numbers. */
  lemma ItemCodeRecovers(code: nat, minus: nat, xor: nat)
    ensures ItemCode(Obfuscate(code, minus, xor), Some(NatToString(minus)), Some(NatToString(xor)))
            == Ok(Some(NatToString(code)))
  {
    var ms, xs := NatToString(minus), NatToString(xor);
    var v := Xor(code, xor) + minus;
    var fs := Obfuscate(code, minus, xor);
    NatToStringNumeric(minus);
    NatToStringNumeric(xor);
    NatToStringNumeric(v);
    assert ParseInt(fs) == Ok(v);
    ItemCodeValue(fs, ms, xs);
    UnmaskRecovers(code, minus, xor);
    assert Unmask(v, ParseNat(ms), ParseNat(xs)) == code;
    assert IntToString(code) == NatToString(code);
  }

  lemma ItemCodeValue(fake: string, minus: string, xor: string)
    requires IsNumeric(minus) && IsNumeric(xor) && ParseInt(fake).Ok?
    ensures ItemCode(fake, Some(minus), Some(xor))
            == Ok(Some(IntToString(Unmask(ParseInt(fake).value, ParseNat(minus), ParseNat(xor)))))
  {
  }

  /** The operator order matters: (10 - 3) ^ 1 is 6, whereas 10 - (3 ^ 1) would be 8. */
  lemma SubtractionFirst()
    ensures IntXor(10 - 3, 1) == 6 && 10 - IntXor(3, 1) == 8
  {
    assert Xor(7, 1) == 2 * Xor(3, 0) + 0;
    assert Xor(3, 0) == 2 * Xor(1, 0) + 1;
    assert Xor(1, 0) == 2 * Xor(0, 0) + 1;
    assert Xor(3, 1) == 2 * Xor(1, 0) + 0;
  }

  // ---------------------------------------------------------------------
  // download_stickers_kakao: what a URL leads to (lines 180-249)
  // ---------------------------------------------------------------------

  const SchemePrefix: string := "kakaotalk://store/emoticon/"

  /** Everything the routing reads, the network answers included. */
  datatype UrlQuery = UrlQuery(
    url: string,
    netloc: string,                // urlparse(url).netloc
    path: string,                  // urlparse(url).path
    authToken: Option<string>,
    shareTitle: Option<string>,    // the share page's <title> text get_info_from_share_link found
    shareItemCode: Option<string>, // the item code get_info_from_share_link found
    authedTitle: Option<string>,   // itemUnitInfo[0].title, None when the authed request failed
    unauthedFound: bool,           // get_pack_info_unauthed returned a truthy value
    lookedUpCode: Option<string>,  // get_item_code(title_ko, auth_token)
    userContinues: bool)           // the answer to "Continue to download static stickers?"

  datatype Failure = NoMetadata | Declined | Unrecognized

  datatype Decision =
    | Animated(itemCode: string, packTitle: Option<string>)
    | Static(title: string)
    | Fail(why: Failure)

  predicate TruthyStr(s: Option<string>) { s.Some? && s.value != "" }

  /**
   * The decision of download_stickers_kakao: a share link downloads the
   * animated pack under the share page's title, a numeric or scheme URL
   * the animated pack under the authed title, an e.kakao.com URL the
   * animated pack when the token finds an item code and otherwise the
   * static pack (unless the user declines); anything else is rejected.
   */
  function RouteUrl(q: UrlQuery): (r: Decision)
    ensures q.netloc == "emoticon.kakao.com" ==>
              (r.Animated? <==> TruthyStr(q.shareItemCode)) && (!r.Animated? ==> r == Fail(NoMetadata))
              && (r.Animated? ==> r.itemCode == q.shareItemCode.value && r.packTitle == q.shareTitle)
    ensures q.netloc != "emoticon.kakao.com" && (IsNumeric(q.url) || StartsWith(q.url, SchemePrefix)) ==>
              r.Animated? && r.itemCode == ReplaceAll(q.url, SchemePrefix, "")
              && (r.packTitle.Some? ==> TruthyStr(q.authToken))
    ensures r.Static? ==> q.netloc == "e.kakao.com" && q.unauthedFound && r.title == LastPiece(q.path, '/')
    ensures q.netloc == "e.kakao.com" && !IsNumeric(q.url) && !StartsWith(q.url, SchemePrefix) ==>
              && (!q.unauthedFound ==> r == Fail(NoMetadata))
              && (q.unauthedFound && TruthyStr(q.authToken) && TruthyStr(q.lookedUpCode) ==>
                    r == Animated(q.lookedUpCode.value, Some(LastPiece(q.path, '/'))))
              && (q.unauthedFound && TruthyStr(q.authToken) && !TruthyStr(q.lookedUpCode) && !q.userContinues ==>
                    r == Fail(Declined))
              && (q.unauthedFound && (!TruthyStr(q.authToken) || (!TruthyStr(q.lookedUpCode) && q.userContinues)) ==>
                    r == Static(LastPiece(q.path, '/')))
    ensures r == Fail(Unrecognized) <==>
              q.netloc !in {"emoticon.kakao.com", "e.kakao.com"} && !IsNumeric(q.url) && !StartsWith(q.url, SchemePrefix)
  {
    if q.netloc == "emoticon.kakao.com" then
      if TruthyStr(q.shareItemCode) then Animated(q.shareItemCode.value, q.shareTitle) else Fail(NoMetadata)
    else if IsNumeric(q.url) || StartsWith(q.url, SchemePrefix) then
      var code := ReplaceAll(q.url, SchemePrefix, "");
      Animated(code, if TruthyStr(q.authToken) then q.authedTitle else None)
    else if q.netloc == "e.kakao.com" then
      var title := LastPiece(q.path, '/');
      if !q.unauthedFound then Fail(NoMetadata)
      else if TruthyStr(q.authToken) then
        if TruthyStr(q.lookedUpCode) then Animated(q.lookedUpCode.value, Some(title))
        else if q.userContinues then Static(title)
        else Fail(Declined)
      else Static(title)
    else Fail(Unrecognized)
  }

  /** A numeric URL is its own item code; a scheme URL loses exactly its prefix. */
  lemma SchemeCode(q: UrlQuery)
    requires q.netloc != "emoticon.kakao.com"
    ensures IsNumeric(q.url) ==> RouteUrl(q).itemCode == q.url
    ensures StartsWith(q.url, SchemePrefix)
            && (forall i :: 0 <= i <= |q.url| - |SchemePrefix| ==> !OccursAt(q.url[|SchemePrefix|..], SchemePrefix, i)) ==>
              RouteUrl(q).itemCode == q.url[|SchemePrefix|..]
  {
    if IsNumeric(q.url) {
      NumericCodeUnchanged(q.url);
    }
    if StartsWith(q.url, SchemePrefix)
       && (forall i :: 0 <= i <= |q.url| - |SchemePrefix| ==> !OccursAt(q.url[|SchemePrefix|..], SchemePrefix, i)) {
      StripPrefixByReplace(q.url, SchemePrefix);
    }
  }

  lemma NumericCodeUnchanged(s: string)
    requires IsNumeric(s)
    ensures ReplaceAll(s, SchemePrefix, "") == s
  {
    forall i | 0 <= i <= |s| ensures !OccursAt(s, SchemePrefix, i) {
      NoLetterInDigits(s, i);
    }
    ReplaceAllAbsent(s, SchemePrefix, "");
  }

  lemma NoLetterInDigits(s: string, i: int)
    requires IsNumeric(s) && 0 <= i <= |s|
    ensures !OccursAt(s, SchemePrefix, i)
  {
    if |SchemePrefix| <= |s[i..]| {
      assert s[i..][..|SchemePrefix|][0] == s[i];
      assert IsDigit(s[i]);
    }
  }

  /** The e.kakao.com pack title is the last path segment, so it holds no '/'. */
  lemma PackTitleSegment(q: UrlQuery)
    ensures RouteUrl(q).Static? ==> '/' !in RouteUrl(q).title
  {
    if RouteUrl(q).Static? {
      SplitJoin(q.path, '/');
      var parts := Split(q.path, '/');
      assert RouteUrl(q).title == parts[|parts| - 1];
    }
  }

  // ---------------------------------------------------------------------
  // download_animated_files: the targets (lines 328-357)
  // ---------------------------------------------------------------------

  /** A file to fetch: its URL and its name inside the output directory. */
  datatype Target = Target(url: string, dest: string)

  const CdnBase: string := "https://item.kakaocdn.net/"

  /** sound_path_format is truthy. */
  predicate HasSound(soundFmt: Option<string>) { soundFmt.Some? && soundFmt.value != "" }

  /** The URL for sticker num: "##" in the format becomes the 2-digit number. */
  function NumberedUrl(fmt: string, num: nat): string
  {
    CdnBase + ReplaceAll(fmt, "##", ZFill(NatToString(num), 2))
  }

  /** The file name for sticker num: the 3-digit number and the extension. */
  function NumberedName(num: nat, ext: string): string
  {
    ZFill(NatToString(num), 3) + ext
  }

  /** The file at URL format fmt saved as sticker num with extension ext. */
  function Numbered(fmt: string, ext: string, num: nat): Target
  {
    Target(NumberedUrl(fmt, num), NumberedName(num, ext))
  }

  /** The targets for sticker num: the animation, then its sound when there is a sound format. */
  function Group(playFmt: string, playExt: string, soundFmt: Option<string>, soundExt: string, num: nat): (g: seq<Target>)
    ensures |g| == if HasSound(soundFmt) then 2 else 1
  {
    [Numbered(playFmt, playExt, num)] + (if HasSound(soundFmt) then [Numbered(soundFmt.value, soundExt, num)] else [])
  }

  /** The targets for stickers 1..n in order: one per sticker, or two when there is a sound format. */
  function TargetsUpTo(playFmt: string, playExt: string, soundFmt: Option<string>, soundExt: string, n: nat): (t: seq<Target>)
    ensures |t| == if HasSound(soundFmt) then 2 * n else n
  {
    if n == 0 then [] else TargetsUpTo(playFmt, playExt, soundFmt, soundExt, n - 1) + Group(playFmt, playExt, soundFmt, soundExt, n)
  }

  /** The loop of lines 344-357. A count below 1 gives no targets. */
  method AnimatedTargets(playFmt: string, playExt: string, soundFmt: Option<string>, soundExt: string, count: int)
    returns (targets: seq<Target>)
    ensures targets == TargetsUpTo(playFmt, playExt, soundFmt, soundExt, Max(count, 0))
  {
    targets := [];
    var stickers := Max(count, 0);
    for num := 1 to stickers + 1
      invariant targets == TargetsUpTo(playFmt, playExt, soundFmt, soundExt, num - 1)
    {
      var group := [Numbered(playFmt, playExt, num)];
      if HasSound(soundFmt) {
        group := group + [Numbered(soundFmt.value, soundExt, num)];
      }
      assert group == Group(playFmt, playExt, soundFmt, soundExt, num);
      targets := targets + group;
    }
  }

  /** The position of sticker num's animation (1-based num) among the targets. */
  function PlayIndex(soundFmt: Option<string>, num: nat): nat
    requires num >= 1
  {
    if HasSound(soundFmt) then 2 * (num - 1) else num - 1
  }

  /**
   * Sticker num has its animation at PlayIndex, and with a sound format
   * its sound right after it.
   */
  lemma {:induction false} TargetAt(playFmt: string, playExt: string, soundFmt: Option<string>, soundExt: string,
                                    n: nat, num: nat)
    requires 1 <= num <= n
    ensures var t := TargetsUpTo(playFmt, playExt, soundFmt, soundExt, n);
            && t[PlayIndex(soundFmt, num)] == Numbered(playFmt, playExt, num)
            && (HasSound(soundFmt) ==> t[PlayIndex(soundFmt, num) + 1] == Numbered(soundFmt.value, soundExt, num))
  {
    var prev := TargetsUpTo(playFmt, playExt, soundFmt, soundExt, n - 1);
    var t := TargetsUpTo(playFmt, playExt, soundFmt, soundExt, n);
    var g := Group(playFmt, playExt, soundFmt, soundExt, n);
    var k := PlayIndex(soundFmt, num);
    assert t == prev + g;
    if num < n {
      TargetAt(playFmt, playExt, soundFmt, soundExt, n - 1, num);
      assert t[k] == prev[k];
      if HasSound(soundFmt) {
        assert t[k + 1] == prev[k + 1];
      }
    } else {
      assert k == |prev|;
      assert t[k] == g[0];
      if HasSound(soundFmt) {
        assert t[k + 1] == g[1];
      }
    }
  }

  /** Path(name).suffix of a numbered name is the extension, when it is a plain one. */
  lemma NumberedNameSuffix(num: nat, ext: string)
    requires PlainSuffix(ext)
    ensures Suffix(NumberedName(num, ext)) == ext
  {
    var z := ZFill(NatToString(num), 3);
    ZFillParsesBack(num, 3);
    var n := z + ext;
    assert n[|z|] == '.';
    forall j | |z| < j < |n| ensures n[j] != '.' { assert n[j] == ext[j - |z|]; }
    assert RFind(n, '.') == |z|;
    assert n[|z|..] == ext;
  }

  /** Only the .gif and .webp files are passed through the decryptor (lines 361-366, 402). */
  predicate Encrypted(ext: string) { ext == ".gif" || ext == ".webp" }

  // ---------------------------------------------------------------------
  // download_animated_zip: writing the members (lines 399-411)
  // ---------------------------------------------------------------------

  /** Python's string order: lexicographic by code point, a prefix first. */
  predicate StrLe(a: string, b: string)
    decreases |a|
  {
    a == [] || (b != [] && (a[0] < b[0] || (a[0] == b[0] && StrLe(a[1..], b[1..]))))
  }

  lemma {:induction false} StrLeTotal(a: string, b: string)
    ensures StrLe(a, b) || StrLe(b, a)
    decreases |a|
  {
    if a != [] && b != [] && a[0] == b[0] {
      StrLeTotal(a[1..], b[1..]);
    }
  }

  predicate Sorted(s: seq<string>)
  {
    forall i :: 0 < i < |s| ==> StrLe(s[i - 1], s[i])
  }

  function Insert(x: string, s: seq<string>): (r: seq<string>)
    ensures multiset(r) == multiset(s) + multiset{x}
    ensures |r| == |s| + 1
  {
    if s == [] || StrLe(x, s[0]) then [x] + s
    else
      assert s == [s[0]] + s[1..];
      [s[0]] + Insert(x, s[1..])
  }

  lemma {:induction false} InsertSorted(x: string, s: seq<string>)
    requires Sorted(s)
    ensures Sorted(Insert(x, s))
    ensures s != [] ==> Insert(x, s)[0] == x || Insert(x, s)[0] == s[0]
  {
    if s == [] || StrLe(x, s[0]) {
    } else {
      StrLeTotal(x, s[0]);
      InsertSorted(x, s[1..]);
      var r := Insert(x, s);
      assert r[1..] == Insert(x, s[1..]);
      if |s| > 1 {
        assert Insert(x, s[1..])[0] == x || Insert(x, s[1..])[0] == s[1];
      }
    }
  }

  /** sorted(names) */
  function SortNames(names: seq<string>): (r: seq<string>)
    ensures multiset(r) == multiset(names)
    ensures |r| == |names|
  {
    if names == [] then []
    else
      assert names == [names[0]] + names[1..];
      Insert(names[0], SortNames(names[1..]))
  }

  lemma {:induction false} SortNamesSorted(names: seq<string>)
    ensures Sorted(SortNames(names))
  {
    if names != [] {
      SortNamesSorted(names[1..]);
      InsertSorted(names[0], SortNames(names[1..]));
    }
  }

  /** Path(member).suffix: the suffix of the last path component. */
  function MemberSuffix(member: string): (r: string)
    ensures r == "" || (r[0] == '.' && |r| >= 2 && '.' !in r[1..])
  {
    Suffix(PathName(member))
  }

  /** A written file: its name in the output directory and its bytes. */
  datatype Written = Written(name: string, data: seq<byte>)

  /** Member num of the sorted list becomes zfill(3)(num) + its own suffix, decrypted when .gif or .webp. */
  function MemberOut(member: string, num: nat, read: string -> seq<byte>, decrypt: seq<byte> -> seq<byte>): Written
  {
    var ext := MemberSuffix(member);
    Written(NumberedName(num, ext), if Encrypted(ext) then decrypt(read(member)) else read(member))
  }

  /** Lines 399-411: the members are taken in sorted order. */
  method UnzipPack(names: seq<string>, read: string -> seq<byte>, decrypt: seq<byte> -> seq<byte>)
    returns (files: seq<Written>)
    ensures |files| == |names|
    ensures forall k :: 0 <= k < |files| ==> files[k] == MemberOut(SortNames(names)[k], k, read, decrypt)
  {
    var members := SortNames(names);
    files := WriteMembers(members, read, decrypt);
  }

  /** The loop of lines 399-411: member num is written as MemberOut of num. */
  method WriteMembers(members: seq<string>, read: string -> seq<byte>, decrypt: seq<byte> -> seq<byte>)
    returns (files: seq<Written>)
    ensures |files| == |members|
    ensures forall k :: 0 <= k < |files| ==> files[k] == MemberOut(members[k], k, read, decrypt)
  {
    files := [];
    for num := 0 to |members|
      invariant |files| == num
      invariant forall k :: 0 <= k < num ==> files[k] == MemberOut(members[k], k, read, decrypt)
    {
      var written := WriteMember(members[num], num, read, decrypt);
      files := files + [written];
    }
  }

  /** Lines 400-411 for one member: read it, decrypt a .gif or .webp, and name it by its position. */
  method WriteMember(member: string, num: nat, read: string -> seq<byte>, decrypt: seq<byte> -> seq<byte>)
    returns (written: Written)
    ensures written == MemberOut(member, num, read, decrypt)
  {
    var ext := MemberSuffix(member);
    var data := if Encrypted(ext) then decrypt(read(member)) else read(member);
    written := Written(NumberedName(num, ext), data);
  }

  /**
   * Distinct positions give distinct file names whatever the suffixes, so
   * no member overwrites another: the number ends where the suffix's dot
   * (or the name) begins.
   */
  lemma NumberedNamesDistinct(i: nat, j: nat, a: string, b: string)
    requires i != j
    requires a == "" || a[0] == '.'
    requires b == "" || b[0] == '.'
    ensures NumberedName(i, a) != NumberedName(j, b)
  {
    ZFillParsesBack(i, 3);
    ZFillParsesBack(j, 3);
    ZFillInjective(i, j, 3);
    if NumberedName(i, a) == NumberedName(j, b) {
      DigitsThenSuffix(ZFill(NatToString(i), 3), a, ZFill(NatToString(j), 3), b);
    }
  }

  /** Digits followed by a suffix that starts with a dot (or is empty): the digits are determined. */
  lemma DigitsThenSuffix(x: string, a: string, y: string, b: string)
    requires AllDigits(x) && AllDigits(y)
    requires a == "" || a[0] == '.'
    requires b == "" || b[0] == '.'
    requires x + a == y + b
    ensures x == y
  {
    DigitRunOf(x, a);
    DigitRunOf(y, b);
    assert (x + a)[..|x|] == x && (y + b)[..|y|] == y;
  }

  /** The number of leading decimal digits. */
  function DigitRun(s: string): nat
  {
    if s == [] || !IsDigit(s[0]) then 0 else 1 + DigitRun(s[1..])
  }

  lemma {:induction false} DigitRunOf(x: string, a: string)
    requires AllDigits(x)
    requires a == "" || a[0] == '.'
    ensures DigitRun(x + a) == |x|
  {
    if x != [] {
      assert (x + a)[1..] == x[1..] + a;
      DigitRunOf(x[1..], a);
    } else {
      assert x + a == a;
    }
  }

  /** Every member of a pack is written under its own name. */
  lemma UnzipNamesDistinct(names: seq<string>, read: string -> seq<byte>, decrypt: seq<byte> -> seq<byte>, i: nat, j: nat)
    requires i < |names| && j < |names| && i != j
    ensures MemberOut(SortNames(names)[i], i, read, decrypt).name != MemberOut(SortNames(names)[j], j, read, decrypt).name
  {
    NumberedNamesDistinct(i, j, MemberSuffix(SortNames(names)[i]), MemberSuffix(SortNames(names)[j]));
  }
}
