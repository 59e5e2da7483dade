/**
 * Shared vocabulary of the model: optional values and results, the
 * exceptions the source can raise on the paths that are modelled, bytes,
 * Python's two rounding rules, decimal strings, and the small string and
 * file-name operations (str.split, str.replace, str.zfill, pathlib suffixes,
 * os.path.splitext) that the core relies on.
 */
module Base {

  datatype Option<T> = None | Some(value: T)

  /** The Python exceptions that the modelled code can raise. */
  datatype Error =
    | ZeroDivision   // ZeroDivisionError
    | IndexOut       // IndexError
    | AssertFailed   // AssertionError
    | BadValue       // ValueError
    | BadType        // TypeError
    | MissingKey     // KeyError
    | StructError    // struct.error
    | Unbound        // UnboundLocalError
    | FileMissing    // FileNotFoundError
    | ZlibError      // zlib.error
    | Diverges       // a loop that never ends (no result is ever returned)

  datatype Result<T> = Ok(value: T) | Err(error: Error)

  newtype byte = x: int | 0 <= x < 256
  newtype u32 = x: int | 0 <= x < 0x1_0000_0000

  function Min(a: int, b: int): int { if a <= b then a else b }
  function Max(a: int, b: int): int { if a >= b then a else b }

  /** Python truthiness of an optional integer: None and 0 are false. */
  predicate Truthy(v: Option<int>) { v.Some? && v.value != 0 }

  // ---------------------------------------------------------------------
  // Rounding
  // ---------------------------------------------------------------------

  /**
   * Decimal(x).quantize(0, ROUND_HALF_UP): the nearest integer, a tie going
   * away from zero.
   */
  function RoundHalfUp(x: real): (r: int)
    ensures x >= 0.0 ==> x - 0.5 < r as real <= x + 0.5
    ensures x < 0.0 ==> x - 0.5 <= r as real < x + 0.5
  {
    if x >= 0.0 then (x + 0.5).Floor else -((-x + 0.5).Floor)
  }

  /** Python's built-in round(): the nearest integer, a tie going to the even one. */
  function RoundHalfEven(x: real): (r: int)
    ensures x - 0.5 <= r as real <= x + 0.5
    ensures (r as real == x - 0.5 || r as real == x + 0.5) ==> r % 2 == 0
  {
    var f := x.Floor;
    var d := x - f as real;
    if d < 0.5 then f
    else if d > 0.5 then f + 1
    else if f % 2 == 0 then f
    else f + 1
  }

  /** round() leaves an integer unchanged. */
  lemma RoundHalfEvenOfInt(n: int)
    ensures RoundHalfEven(n as real) == n
  {
  }

  /** round() of a value between two integers stays between them. */
  lemma RoundHalfEvenBetween(x: real, lo: int, hi: int)
    requires lo as real <= x <= hi as real
    ensures lo <= RoundHalfEven(x) <= hi
  {
  }

  /** math.ceil */
  function Ceil(x: real): (r: int)
    ensures x <= r as real < x + 1.0
  {
    -((-x).Floor)
  }

  /** int(x) on a float: truncation toward zero. */
  function Trunc(x: real): (r: int)
    ensures x >= 0.0 ==> r as real <= x < r as real + 1.0
    ensures x < 0.0 ==> r as real - 1.0 < x <= r as real
  {
    if x >= 0.0 then x.Floor else -((-x).Floor)
  }

  // ---------------------------------------------------------------------
  // Decimal strings
  // ---------------------------------------------------------------------

  predicate IsDigit(c: char) { '0' <= c <= '9' }

  predicate AllDigits(s: string) { forall i :: 0 <= i < |s| ==> IsDigit(s[i]) }

  /** str.isnumeric, restricted to ASCII digits. */
  predicate IsNumeric(s: string) { |s| > 0 && AllDigits(s) }

  function DigitChar(d: int): (c: char)
    requires 0 <= d < 10
    ensures IsDigit(c) && c as int - '0' as int == d
  {
    ('0' as int + d) as char
  }

  /** str(n) for n >= 0 */
  function NatToString(n: nat): (s: string)
    ensures IsNumeric(s)
    decreases n
  {
    if n < 10 then [DigitChar(n)] else NatToString(n / 10) + [DigitChar(n % 10)]
  }

  /** str(n) */
  function IntToString(n: int): (r: string)
    ensures |r| >= 1 && (r[0] == '-' <==> n < 0)
  {
    if n < 0 then "-" + NatToString(-n) else NatToString(n)
  }

  /** int(s) for a string of decimal digits */
  function ParseNat(s: string): nat
    requires AllDigits(s)
    decreases |s|
  {
    if s == [] then 0 else ParseNat(s[..|s| - 1]) * 10 + (s[|s| - 1] as int - '0' as int)
  }

  /** int(s) for an optionally signed decimal string; anything else is a ValueError. */
  function ParseInt(s: string): (r: Result<int>)
    ensures IsNumeric(s) ==> r == Ok(ParseNat(s))
  {
    if IsNumeric(s) then Ok(ParseNat(s))
    else if |s| > 1 && s[0] == '-' && IsNumeric(s[1..]) then Ok(0 - ParseNat(s[1..]))
    else if |s| > 1 && s[0] == '+' && IsNumeric(s[1..]) then Ok(ParseNat(s[1..]))
    else Err(BadValue)
  }

  /** int(str(n)) == n */
  lemma IntToStringParses(n: int)
    ensures ParseInt(IntToString(n)) == Ok(n)
  {
    ParseNatToString(if n < 0 then -n else n);
    if n < 0 {
      var s := IntToString(n);
      assert s[1..] == NatToString(-n);
      assert !IsDigit(s[0]);
    }
  }

  function Pow10(k: nat): (p: nat)
    ensures p >= 1
  {
    if k == 0 then 1 else 10 * Pow10(k - 1)
  }

  lemma AllDigitsConcat(a: string, b: string)
    requires AllDigits(a) && AllDigits(b)
    ensures AllDigits(a + b)
  {
    forall i | 0 <= i < |a + b| ensures IsDigit((a + b)[i]) {
      if i < |a| { assert (a + b)[i] == a[i]; } else { assert (a + b)[i] == b[i - |a|]; }
    }
  }

  lemma {:induction false} ParseNatAppend(a: string, b: string)
    requires AllDigits(a) && AllDigits(b)
    ensures AllDigits(a + b)
    ensures ParseNat(a + b) == ParseNat(a) * Pow10(|b|) + ParseNat(b)
    decreases |b|
  {
    AllDigitsConcat(a, b);
    if b == [] {
      assert a + b == a;
    } else {
      var b' := b[..|b| - 1];
      assert (a + b)[..|a + b| - 1] == a + b';
      assert (a + b)[|a + b| - 1] == b[|b| - 1];
      ParseNatAppend(a, b');
      var d := b[|b| - 1] as int - '0' as int;
      var p := Pow10(|b'|);
      var na, nb', nab' := ParseNat(a), ParseNat(b'), ParseNat(a + b');
      assert Pow10(|b|) == 10 * p;
      assert ParseNat(b) == nb' * 10 + d;
      assert ParseNat(a + b) == nab' * 10 + d;
      assert nab' == na * p + nb';
      MulDistrib(na, p, nb');
    }
  }

  lemma MulDistrib(x: int, p: int, y: int)
    ensures (x * p + y) * 10 == x * (10 * p) + y * 10
  {
  }

  /** Reading back the decimal string of n gives n. */
  lemma {:induction false} ParseNatToString(n: nat)
    ensures ParseNat(NatToString(n)) == n
    decreases n
  {
    if n >= 10 {
      var s := NatToString(n);
      assert s[..|s| - 1] == NatToString(n / 10);
      ParseNatToString(n / 10);
    }
  }

  function Zeros(k: nat): (s: string)
    ensures |s| == k && forall i :: 0 <= i < k ==> s[i] == '0'
  {
    if k == 0 then "" else "0" + Zeros(k - 1)
  }

  lemma {:induction false} ParseZeros(k: nat)
    ensures AllDigits(Zeros(k)) && ParseNat(Zeros(k)) == 0
  {
    if k > 0 {
      var z := Zeros(k);
      assert z[..|z| - 1] == Zeros(k - 1) by {
        assert Zeros(k - 1) + "0" == z by {
          forall i | 0 <= i < k ensures (Zeros(k - 1) + "0")[i] == z[i] { }
        }
      }
      ParseZeros(k - 1);
    }
  }

  /** str.zfill(width) for a string without a sign: left-pad with '0'. */
  function ZFill(s: string, width: nat): (r: string)
    ensures |r| == Max(|s|, width)
    ensures |s| <= |r| && r[|r| - |s|..] == s
    ensures forall i :: 0 <= i < |r| - |s| ==> r[i] == '0'
  {
    if |s| >= width then s else Zeros(width - |s|) + s
  }

  /** The zero-padded decimal string of n still reads back as n, whatever the width. */
  lemma ZFillParsesBack(n: nat, width: nat)
    ensures AllDigits(ZFill(NatToString(n), width))
    ensures ParseNat(ZFill(NatToString(n), width)) == n
  {
    var s := NatToString(n);
    ParseNatToString(n);
    if |s| < width {
      ParseZeros(width - |s|);
      ParseNatAppend(Zeros(width - |s|), s);
    }
  }

  /** Distinct numbers give distinct zero-padded names. */
  lemma ZFillInjective(i: nat, j: nat, width: nat)
    requires i != j
    ensures ZFill(NatToString(i), width) != ZFill(NatToString(j), width)
  {
    ZFillParsesBack(i, width);
    ZFillParsesBack(j, width);
  }

  // ---------------------------------------------------------------------
  // Strings
  // ---------------------------------------------------------------------

  predicate StartsWith(s: string, p: string) { |p| <= |s| && s[..|p|] == p }

  /** p occurs in s at position i */
  predicate OccursAt(s: string, p: string, i: int) { 0 <= i <= |s| && StartsWith(s[i..], p) }

  /** str.replace(pat, rep): every non-overlapping occurrence, scanning left to right. */
  function ReplaceAll(s: string, pat: string, rep: string): string
    requires |pat| > 0
    decreases |s|
  {
    if |s| < |pat| then s
    else if s[..|pat|] == pat then rep + ReplaceAll(s[|pat|..], pat, rep)
    else [s[0]] + ReplaceAll(s[1..], pat, rep)
  }

  /** Replacing a string that does not occur changes nothing. */
  lemma {:induction false} ReplaceAllAbsent(s: string, pat: string, rep: string)
    requires |pat| > 0
    requires forall i :: 0 <= i <= |s| ==> !OccursAt(s, pat, i)
    ensures ReplaceAll(s, pat, rep) == s
    decreases |s|
  {
    if |s| >= |pat| {
      assert !OccursAt(s, pat, 0);
      assert s[0..] == s;
      forall i | 0 <= i <= |s[1..]| ensures !OccursAt(s[1..], pat, i) {
        assert s[1..][i..] == s[i + 1..];
        assert !OccursAt(s, pat, i + 1);
      }
      ReplaceAllAbsent(s[1..], pat, rep);
    }
  }

  /**
   * Removing a leading prefix with str.replace(prefix, "") leaves the rest,
   * provided the prefix does not occur again in the rest.
   */
  lemma StripPrefixByReplace(s: string, p: string)
    requires |p| > 0 && StartsWith(s, p)
    requires forall i :: 0 <= i <= |s| - |p| ==> !OccursAt(s[|p|..], p, i)
    ensures ReplaceAll(s, p, "") == s[|p|..]
  {
    ReplaceAllAbsent(s[|p|..], p, "");
  }

  /** str.split(sep) for a one-character separator */
  function Split(s: string, sep: char): (parts: seq<string>)
    ensures |parts| >= 1
    decreases |s|
  {
    if s == [] then [""]
    else if s[0] == sep then [""] + Split(s[1..], sep)
    else
      var rest := Split(s[1..], sep);
      [[s[0]] + rest[0]] + rest[1..]
  }

  /** sep.join(parts) */
  function Join(parts: seq<string>, sep: char): string
    requires |parts| >= 1
  {
    if |parts| == 1 then parts[0] else parts[0] + [sep] + Join(parts[1..], sep)
  }

  /** Splitting and joining again gives back the string, and no piece holds the separator. */
  lemma {:induction false} SplitJoin(s: string, sep: char)
    ensures Join(Split(s, sep), sep) == s
    ensures forall k, i :: 0 <= k < |Split(s, sep)| && 0 <= i < |Split(s, sep)[k]| ==> Split(s, sep)[k][i] != sep
    decreases |s|
  {
    if s != [] {
      SplitJoin(s[1..], sep);
      var rest := Split(s[1..], sep);
      if s[0] == sep {
        assert Split(s, sep) == [""] + rest;
        assert Split(s, sep)[1..] == rest;
      } else {
        var parts := Split(s, sep);
        assert parts[0] == [s[0]] + rest[0];
        assert parts[1..] == rest[1..];
        if |rest| == 1 {
          assert Join(parts, sep) == [s[0]] + rest[0];
        } else {
          assert Join(rest, sep) == rest[0] + [sep] + Join(rest[1..], sep);
          assert Join(parts, sep) == [s[0]] + rest[0] + [sep] + Join(rest[1..], sep);
        }
        forall k, i | 0 <= k < |parts| && 0 <= i < |parts[k]| ensures parts[k][i] != sep {
          if k == 0 {
            if i > 0 { assert parts[0][i] == rest[0][i - 1]; }
          } else {
            assert parts[k] == rest[k];
          }
        }
      }
    }
  }

  /** A piece without the separator, then the separator: the piece comes first. */
  lemma {:induction false} SplitFirst(a: string, sep: char, s: string)
    requires sep !in a
    ensures Split(a + [sep] + s, sep) == [a] + Split(s, sep)
    decreases |a|
  {
    if a == [] {
      assert a + [sep] + s == [sep] + s;
      assert ([sep] + s)[1..] == s;
    } else {
      var w := a + [sep] + s;
      assert w[0] == a[0] && w[1..] == a[1..] + [sep] + s;
      SplitFirst(a[1..], sep, s);
      var rest := Split(w[1..], sep);
      assert rest[0] == a[1..] && rest[1..] == Split(s, sep);
      assert [a[0]] + a[1..] == a;
    }
  }

  /** A string without the separator is a single piece. */
  lemma {:induction false} SplitWhole(a: string, sep: char)
    requires sep !in a
    ensures Split(a, sep) == [a]
    decreases |a|
  {
    if a != [] {
      SplitWhole(a[1..], sep);
      assert [a[0]] + a[1..] == a;
    }
  }

  /** str.split(sep)[-1] */
  function LastPiece(s: string, sep: char): string
  {
    var parts := Split(s, sep);
    parts[|parts| - 1]
  }

  /** The last of the pieces that is neither empty nor "." (PurePosixPath drops those when it parses). */
  function LastNamed(parts: seq<string>): (r: string)
    ensures r == "" || (r != "." && r in parts)
  {
    if |parts| == 0 then ""
    else if parts[|parts| - 1] != "" && parts[|parts| - 1] != "." then parts[|parts| - 1]
    else LastNamed(parts[..|parts| - 1])
  }

  /** PurePosixPath(p).name: the last component, ignoring empty and "." components. */
  function PathName(p: string): (r: string)
    ensures r == "" || (r != "." && r in Split(p, '/'))
  {
    LastNamed(Split(p, '/'))
  }

  /** A name holds no slash. */
  lemma PathNameNoSlash(p: string)
    ensures '/' !in PathName(p)
  {
    SplitJoin(p, '/');
  }

  /** A separator at the end adds one empty piece. */
  lemma {:induction false} SplitSnocSep(s: string, sep: char)
    ensures Split(s + [sep], sep) == Split(s, sep) + [""]
    decreases |s|
  {
    if s == [] {
      assert [sep][1..] == [];
    } else {
      assert (s + [sep])[0] == s[0] && (s + [sep])[1..] == s[1..] + [sep];
      SplitSnocSep(s[1..], sep);
      var rest := Split(s[1..], sep);
      if s[0] != sep {
        assert (rest + [""])[1..] == rest[1..] + [""];
      }
    }
  }

  /** A trailing slash does not change the name: PurePath("x.webp/").name == "x.webp". */
  lemma PathNameTrailingSlash(p: string)
    ensures PathName(p + "/") == PathName(p)
  {
    SplitSnocSep(p, '/');
    var parts := Split(p, '/');
    assert (parts + [""])[..|parts|] == parts;
  }

  /** A plain name is its own name. */
  lemma PathNameOfName(n: string)
    requires '/' !in n && n != "."
    ensures PathName(n) == n
  {
    SplitWhole(n, '/');
    assert [n][..0] == [];
  }

  /** Index of the last occurrence of c in s, or -1 (str.rfind). */
  function RFind(s: string, c: char): (i: int)
    ensures -1 <= i < |s|
    ensures i >= 0 ==> s[i] == c
    ensures forall j :: i < j < |s| ==> s[j] != c
  {
    if s == [] then -1 else if s[|s| - 1] == c then |s| - 1 else RFind(s[..|s| - 1], c)
  }

  /** str.lower() on ASCII letters */
  function LowerChar(c: char): char
  {
    if 'A' <= c <= 'Z' then (c as int + 32) as char else c
  }

  function Lower(s: string): (r: string)
    ensures |r| == |s| && forall i :: 0 <= i < |s| ==> r[i] == LowerChar(s[i])
  {
    if s == [] then [] else [LowerChar(s[0])] + Lower(s[1..])
  }

  // ---------------------------------------------------------------------
  // File names (pathlib.PurePath on the last component, os.path.splitext)
  // ---------------------------------------------------------------------

  /** PurePath(name).suffix */
  function Suffix(name: string): (r: string)
    ensures r == "" || (r[0] == '.' && |r| >= 2)
  {
    var i := RFind(name, '.');
    if 0 < i < |name| - 1 then name[i..] else ""
  }

  /** PurePath(name).stem */
  function Stem(name: string): string
  {
    var i := RFind(name, '.');
    if 0 < i < |name| - 1 then name[..i] else name
  }

  lemma StemSuffix(name: string)
    ensures Stem(name) + Suffix(name) == name
  {
  }

  /** A suffix that PurePath.with_suffix turns into a single-suffix name. */
  predicate PlainSuffix(ext: string)
  {
    |ext| >= 2 && ext[0] == '.' && '/' !in ext && forall i :: 1 <= i < |ext| ==> ext[i] != '.'
  }

  /**
   * PurePath(name).with_suffix(ext); a suffix holding the path separator,
   * a non-empty suffix without a leading dot, a lone dot or an empty name
   * is a ValueError.
   */
  function WithSuffix(name: string, ext: string): Result<string>
  {
    if '/' in ext || (ext != "" && ext[0] != '.') || ext == "." || name == "" then Err(BadValue)
    else Ok(Stem(name) + ext)
  }

  /** After with_suffix(ext), the name's suffix is ext. */
  lemma WithSuffixSuffix(name: string, ext: string)
    requires name != "" && PlainSuffix(ext)
    ensures WithSuffix(name, ext).Ok?
    ensures Suffix(WithSuffix(name, ext).value) == ext
  {
    var stem := Stem(name);
    var n := stem + ext;
    assert |stem| > 0;
    assert n[|stem|] == '.';
    forall j | |stem| < j < |n| ensures n[j] != '.' { assert n[j] == ext[j - |stem|]; }
    assert RFind(n, '.') == |stem|;
    assert n[|stem|..] == ext;
  }

  /** os.path.splitext(path)[1] */
  function SplitExt(path: string): (r: string)
    ensures r == "" || (r[0] == '.' && |r| <= |path| && r == path[|path| - |r|..])
    ensures forall j :: 0 < j < |r| ==> r[j] != '.' && r[j] != '/'
  {
    var sep := RFind(path, '/');
    var dot := RFind(path, '.');
    if dot > sep && exists k :: sep + 1 <= k < dot && path[k] != '.' then path[dot..] else ""
  }
}
