/** Semantic-version handling of scripts/version.py: the release types, reading the
    `MAJOR.MINOR.PATCH[-tag.N]` prefix of the current version, and the bump. */
module Semver {
  import opened Wrappers
  import opened Text

  /** The kinds of release the script accepts; the last three only tag a pre-release. */
  datatype ReleaseType = Major | Minor | Patch | Alpha | Beta | Rc

  /** The enumeration's values, as the command line spells them. */
  function ReleaseTypeValue(rt: ReleaseType): string {
    match rt
    case Major => "major"
    case Minor => "minor"
    case Patch => "patch"
    case Alpha => "alpha"
    case Beta => "beta"
    case Rc => "rc"
  }

  /** Lookup by value, `ReleaseType(value)`; None where Python raises ValueError. */
  function ReleaseTypeOf(value: string): (r: Option<ReleaseType>)
    ensures r.Some? ==> ReleaseTypeValue(r.value) == value
    ensures forall rt :: ReleaseTypeValue(rt) == value ==> r == Some(rt)
  {
    if value == "major" then Some(Major)
    else if value == "minor" then Some(Minor)
    else if value == "patch" then Some(Patch)
    else if value == "alpha" then Some(Alpha)
    else if value == "beta" then Some(Beta)
    else if value == "rc" then Some(Rc)
    else None
  }

  /** The three release types that change the numbers. */
  predicate IsNumericBump(rt: ReleaseType) {
    rt == Major || rt == Minor || rt == Patch
  }

  datatype Version = Version(major: nat, minor: nat, patch: nat)

  /** Precedence of two numeric triples (Semantic Versioning 2.0.0, item 11, without pre-release tags). */
  predicate Precedes(v: Version, w: Version) {
    || v.major < w.major
    || (v.major == w.major && v.minor < w.minor)
    || (v.major == w.major && v.minor == w.minor && v.patch < w.patch)
  }

  /** Python's truthiness of the optional pre-release identifier: None and "" are both unset. */
  predicate IsSet(pre: Option<string>) {
    pre.Some? && pre.value != ""
  }

  /** The numbers after a release of type `rt` (Semantic Versioning 2.0.0, items 6-8); the
      pre-release types leave all three alone. */
  function Next(rt: ReleaseType, v: Version): (r: Version)
    ensures IsNumericBump(rt) ==> Precedes(v, r)
    ensures !IsNumericBump(rt) ==> r == v
    ensures rt == Major ==> r.minor == 0 && r.patch == 0
    ensures rt == Minor ==> r.major == v.major && r.patch == 0
    ensures rt == Patch ==> r.major == v.major && r.minor == v.minor
  {
    match rt
    case Major => Version(v.major + 1, 0, 0)
    case Minor => Version(v.major, v.minor + 1, 0)
    case Patch => Version(v.major, v.minor, v.patch + 1)
    case _ => v
  }

  /** Each bump goes to the least version above `v` whose bumped component is larger:
      nothing lies between `v` and the next patch, every version between `v` and the next
      minor is a patch of `v`'s minor line, and every one between `v` and the next major
      keeps `v`'s major number. */
  lemma NextIsLeast(rt: ReleaseType, v: Version, w: Version)
    requires Precedes(v, w) && Precedes(w, Next(rt, v))
    ensures rt != Patch
    ensures rt == Minor ==> w.major == v.major && w.minor == v.minor
    ensures rt == Major ==> w.major == v.major
  {
  }

  /** The optional group `-([a-zA-Z]+)\.(\d+)`, as matched text. */
  datatype PreRelease = PreRelease(tag: string, counter: string)

  /** The groups of `(\d+)\.(\d+)\.(\d+)(?:-([a-zA-Z]+)\.(\d+))?` after a successful match. */
  datatype VersionMatch = VersionMatch(major: string, minor: string, patch: string, pre: Option<PreRelease>)

  predicate WellFormedPreRelease(p: PreRelease) {
    IsRun(p.tag, Letters) && IsRun(p.counter, Digits)
  }

  predicate WellFormedMatch(m: VersionMatch) {
    && IsRun(m.major, Digits) && IsRun(m.minor, Digits) && IsRun(m.patch, Digits)
    && (m.pre.Some? ==> WellFormedPreRelease(m.pre.value))
  }

  function PreReleaseText(p: PreRelease): string {
    "-" + p.tag + "." + p.counter
  }

  /** The text a match covers. */
  function MatchedText(m: VersionMatch): string {
    m.major + "." + m.minor + "." + m.patch + (if m.pre.Some? then PreReleaseText(m.pre.value) else "")
  }

  /** The optional pre-release group, tried at index `i`. */
  function MatchPreRelease(s: string, i: nat): (r: Option<PreRelease>)
    requires i <= |s|
    ensures r.Some? ==> WellFormedPreRelease(r.value)
  {
    if i < |s| && s[i] == '-' then
      var l := Span(s, i + 1, Letters);
      if l == i + 1 || l >= |s| || s[l] != '.' then None
      else
        var d := Span(s, l + 1, Digits);
        if d == l + 1 then None
        else Some(PreRelease(s[i + 1..l], s[l + 1..d]))
    else None
  }

  /** A pre-release group found at `i` is the text that follows `i`. */
  lemma PreReleaseTextIsPrefix(s: string, i: nat)
    requires i <= |s|
    ensures MatchPreRelease(s, i).Some? ==>
              var t := PreReleaseText(MatchPreRelease(s, i).value);
              i + |t| <= |s| && s[i..i + |t|] == t
  {
    if MatchPreRelease(s, i).Some? {
      var l := Span(s, i + 1, Letters);
      var d := Span(s, l + 1, Digits);
      assert s[i..d] == "-" + s[i + 1..l] + "." + s[l + 1..d];
    }
  }

  /** `re.match` of the version pattern: anchored at the start only, so text after the
      match is ignored. */
  function MatchVersion(s: string): (r: Option<VersionMatch>)
    ensures r.Some? ==> WellFormedMatch(r.value)
  {
    var e1 := Span(s, 0, Digits);
    if e1 == 0 || e1 >= |s| || s[e1] != '.' then None
    else
      var e2 := Span(s, e1 + 1, Digits);
      if e2 == e1 + 1 || e2 >= |s| || s[e2] != '.' then None
      else
        var e3 := Span(s, e2 + 1, Digits);
        if e3 == e2 + 1 then None
        else Some(VersionMatch(s[..e1], s[e1 + 1..e2], s[e2 + 1..e3], MatchPreRelease(s, e3)))
  }

  /** The text a match covers is a prefix of the input. */
  lemma MatchedTextIsPrefix(s: string)
    ensures MatchVersion(s).Some? ==> MatchedText(MatchVersion(s).value) <= s
  {
    if MatchVersion(s).Some? {
      var e1 := Span(s, 0, Digits);
      var e2 := Span(s, e1 + 1, Digits);
      var e3 := Span(s, e2 + 1, Digits);
      var m := MatchVersion(s).value;
      assert m == VersionMatch(s[..e1], s[e1 + 1..e2], s[e2 + 1..e3], MatchPreRelease(s, e3));
      assert s[..e3] == m.major + "." + m.minor + "." + m.patch;
      var e := e3;
      if m.pre.Some? {
        PreReleaseTextIsPrefix(s, e3);
        e := e3 + |PreReleaseText(m.pre.value)|;
        assert s[..e] == s[..e3] + s[e3..e];
      }
      assert MatchedText(m) == s[..e];
      PrefixOf(s[..e], s);
    }
  }

  /** `map(int, match.groups()[:3])`: the pre-release groups play no part. */
  function NumbersOf(m: VersionMatch): Version
    requires WellFormedMatch(m)
  {
    Version(DigitsValue(m.major), DigitsValue(m.minor), DigitsValue(m.patch))
  }

  /** The numbers of the current version, or the "Invalid version format" error. */
  function ParseVersion(current: string): (r: Result<Version, ReleaseError>)
    ensures r.Err? <==> MatchVersion(current).None?
    ensures r.Err? ==> r.error == InvalidVersionFormat(current)
    ensures r.Ok? ==>
              var m := MatchVersion(current).value;
              && MatchedText(m) <= current
              && r.value.major == DigitsValue(m.major)
              && r.value.minor == DigitsValue(m.minor)
              && r.value.patch == DigitsValue(m.patch)
  {
    MatchedTextIsPrefix(current);
    match MatchVersion(current)
    case None => Err(InvalidVersionFormat(current))
    case Some(m) => Ok(NumbersOf(m))
  }

  /** Every text that begins with `digits.digits.digits` is accepted, whatever follows; when the
      third run is not continued by a digit, the groups are exactly the three runs. */
  lemma MatchVersionAccepts(a: string, b: string, c: string, rest: string)
    requires IsRun(a, Digits) && IsRun(b, Digits) && IsRun(c, Digits)
    ensures MatchVersion(a + "." + b + "." + c + rest).Some?
    ensures rest == [] || !IsDigit(rest[0]) ==>
              var m := MatchVersion(a + "." + b + "." + c + rest).value;
              && m.major == a && m.minor == b && m.patch == c
              && m.pre == MatchPreRelease(a + "." + b + "." + c + rest, |a| + |b| + |c| + 2)
  {
    var s := a + "." + b + "." + c + rest;
    DottedParts(a, b, c, rest);
    AcceptsDotted(s, a, b, c, rest);
  }

  /** The same, on a text `s` already cut into its pieces. */
  lemma AcceptsDotted(s: string, a: string, b: string, c: string, rest: string)
    requires IsRun(a, Digits) && IsRun(b, Digits) && IsRun(c, Digits)
    requires var i1 := |a|;
             var i2 := i1 + 1 + |b|;
             var i3 := i2 + 1 + |c|;
             && |s| == i3 + |rest|
             && s[..i1] == s[0..i1] == a && s[i1] == '.'
             && s[i1 + 1..i2] == b && s[i2] == '.'
             && s[i2 + 1] == c[0] && s[i2 + 1..i3] == c
             && (i3 < |s| ==> s[i3] == rest[0])
    ensures MatchVersion(s).Some?
    ensures rest == [] || !IsDigit(rest[0]) ==>
              var m := MatchVersion(s).value;
              && m.major == a && m.minor == b && m.patch == c
              && m.pre == MatchPreRelease(s, |a| + |b| + |c| + 2)
  {
    var i1, i2, i3 := |a|, |a| + 1 + |b|, |a| + |b| + |c| + 2;
    assert InClass(c[0], Digits);
    AcceptsRuns(s, i1, i2, i3);
  }

  /** The matcher on a text whose first three dot-separated runs of digits end at `i1`, `i2`
      and `i3`. */
  lemma AcceptsRuns(s: string, i1: nat, i2: nat, i3: nat)
    requires 0 < i1 && i1 + 1 < i2 && i2 + 1 < i3 <= |s|
    requires AllIn(s[0..i1], Digits) && s[i1] == '.'
    requires AllIn(s[i1 + 1..i2], Digits) && s[i2] == '.'
    requires AllIn(s[i2 + 1..i3], Digits) && InClass(s[i2 + 1], Digits)
    ensures MatchVersion(s).Some?
    ensures i3 == |s| || !IsDigit(s[i3]) ==>
              MatchVersion(s) == Some(VersionMatch(s[..i1], s[i1 + 1..i2], s[i2 + 1..i3], MatchPreRelease(s, i3)))
  {
    SpanIs(s, 0, i1, Digits);
    SpanIs(s, i1 + 1, i2, Digits);
    var e3 := Span(s, i2 + 1, Digits);
    assert e3 != i2 + 1;
    MatchVersionIs(s, i1, i2, e3);
    if i3 == |s| || !IsDigit(s[i3]) {
      SpanIs(s, i2 + 1, i3, Digits);
    }
  }

  /** The match found once the ends of the three digit runs are known. */
  lemma MatchVersionIs(s: string, e1: nat, e2: nat, e3: nat)
    requires 0 < e1 < |s| && Span(s, 0, Digits) == e1 && s[e1] == '.'
    requires e1 + 1 < e2 < |s| && Span(s, e1 + 1, Digits) == e2 && s[e2] == '.'
    requires e2 + 1 < e3 <= |s| && Span(s, e2 + 1, Digits) == e3
    ensures MatchVersion(s) == Some(VersionMatch(s[..e1], s[e1 + 1..e2], s[e2 + 1..e3], MatchPreRelease(s, e3)))
  {
  }

  /** Where the pieces of `a.b.c<rest>` stand. */
  lemma DottedParts(a: string, b: string, c: string, rest: string)
    requires |c| > 0
    ensures var s := a + "." + b + "." + c + rest;
            var i1 := |a|;
            var i2 := i1 + 1 + |b|;
            var i3 := i2 + 1 + |c|;
            && |s| == i3 + |rest|
            && s[..i1] == s[0..i1] == a && s[i1] == '.'
            && s[i1 + 1..i2] == b && s[i2] == '.'
            && s[i2 + 1] == c[0] && s[i2 + 1..i3] == c
            && (i3 < |s| ==> s[i3] == rest[0])
  {
    var s := a + "." + b + "." + c + rest;
    var i1 := |a|;
    var i2 := i1 + 1 + |b|;
    var i3 := i2 + 1 + |c|;
    assert s[..i1] == a;
    assert s[i1 + 1..i2] == b;
    assert s[i2 + 1..i3] == c;
  }

  /** A trailing pre-release tag (or anything not starting with a digit) does not change the numbers read. */
  lemma SuffixIgnored(a: string, b: string, c: string, rest: string)
    requires IsRun(a, Digits) && IsRun(b, Digits) && IsRun(c, Digits)
    requires rest == [] || !IsDigit(rest[0])
    ensures ParseVersion(a + "." + b + "." + c + rest) == ParseVersion(a + "." + b + "." + c)
    ensures ParseVersion(a + "." + b + "." + c) == Ok(Version(DigitsValue(a), DigitsValue(b), DigitsValue(c)))
  {
    MatchVersionAccepts(a, b, c, rest);
    MatchVersionAccepts(a, b, c, "");
    assert a + "." + b + "." + c + "" == a + "." + b + "." + c;
  }

  /** `f"{major}.{minor}.{patch}"`, followed by `-{pre_release}.1` when a pre-release is set.
      Reading it back gives its numbers, whatever the pre-release; it holds a hyphen exactly
      when a pre-release is set, ends with a digit, and holds a quote only if the pre-release
      does. The pattern's three groups are the numerals `str(n)` of the numbers, and what
      follows them is exactly `-{pre}.1` or nothing. */
  function FormatVersion(v: Version, pre: Option<string>): (r: string)
    ensures MatchVersion(r).Some?
    ensures var m := MatchVersion(r).value;
            m.major == NatToString(v.major) && m.minor == NatToString(v.minor) && m.patch == NatToString(v.patch)
    ensures var m := MatchVersion(r).value;
            var n := m.major + "." + m.minor + "." + m.patch;
            n <= r && r[|n|..] == (if IsSet(pre) then "-" + pre.value + ".1" else "")
    ensures ParseVersion(r) == Ok(v)
    ensures '-' in r <==> IsSet(pre)
    ensures |r| > 0 && IsDigit(r[|r| - 1])
    ensures pre.None? || '"' !in pre.value ==> '"' !in r
  {
    var rest := if IsSet(pre) then "-" + pre.value + ".1" else "";
    PreReleaseSuffix(pre);
    NumbersThenSuffix(v, rest);
    NatToString(v.major) + "." + NatToString(v.minor) + "." + NatToString(v.patch) + rest
  }

  /** The suffix `-{pre}.1` of a set pre-release starts with a hyphen, ends with `1`, and holds
      a quote only if the pre-release does. */
  lemma PreReleaseSuffix(pre: Option<string>)
    ensures var rest := if IsSet(pre) then "-" + pre.value + ".1" else "";
            && (rest == [] <==> !IsSet(pre))
            && (rest != [] ==> rest[0] == '-' && rest[|rest| - 1] == '1')
            && (pre.None? || '"' !in pre.value ==> '"' !in rest)
  {
  }

  /** What `a.b.c<rest>` is, for the numerals `a`, `b`, `c` of `v` and a suffix that is empty
      or starts with a hyphen: it reads as `v`, holds a hyphen or a quote only where `rest`
      does, and ends as `rest` does, or with the last digit of `c`. */
  lemma NumbersThenSuffix(v: Version, rest: string)
    requires rest == [] || rest[0] == '-'
    ensures var c := NatToString(v.patch);
            var t := NatToString(v.major) + "." + NatToString(v.minor) + "." + c + rest;
            && ParseVersion(t) == Ok(v)
            && MatchVersion(t).Some?
            && MatchVersion(t).value.major == NatToString(v.major)
            && MatchVersion(t).value.minor == NatToString(v.minor)
            && MatchVersion(t).value.patch == c
            && ('-' in t <==> '-' in rest)
            && ('"' in t <==> '"' in rest)
            && |t| > 0 && t[|t| - 1] == (if rest == [] then c[|c| - 1] else rest[|rest| - 1])
            && IsDigit(c[|c| - 1])
  {
    var a, b, c := NatToString(v.major), NatToString(v.minor), NatToString(v.patch);
    SuffixIgnored(a, b, c, rest);
    MatchVersionAccepts(a, b, c, rest);
    NumeralSymbols(v.major);
    NumeralSymbols(v.minor);
    NumeralSymbols(v.patch);
    assert InClass(c[|c| - 1], Digits);
    var numbers := a + "." + b + "." + c;
    assert '-' !in numbers && '"' !in numbers;
    SymbolsOfJoin(numbers, rest, '-');
    SymbolsOfJoin(numbers, rest, '"');
  }

  lemma SymbolsOfJoin(x: string, y: string, ch: char)
    requires ch !in x
    ensures ch in x + y <==> ch in y
  {
    if ch in y {
      var k :| 0 <= k < |y| && y[k] == ch;
      assert (x + y)[|x| + k] == ch;
    }
    if ch in x + y {
      var k :| 0 <= k < |x + y| && (x + y)[k] == ch;
      assert k >= |x| && y[k - |x|] == ch;
    }
  }

  /** A numeral holds neither a hyphen nor a quote. */
  lemma NumeralSymbols(n: nat)
    ensures '-' !in NatToString(n) && '"' !in NatToString(n)
  {
    var r := NatToString(n);
    forall k | 0 <= k < |r| ensures r[k] != '-' && r[k] != '"' {
      assert InClass(r[k], Digits);
    }
  }

  /** With no pre-release set, the formatted version carries no pre-release group, and the
      match covers all of it. */
  lemma FormatWithoutPreRelease(v: Version, pre: Option<string>)
    requires !IsSet(pre)
    ensures MatchVersion(FormatVersion(v, pre)).Some?
    ensures MatchVersion(FormatVersion(v, pre)).value.pre.None?
    ensures MatchedText(MatchVersion(FormatVersion(v, pre)).value) == FormatVersion(v, pre)
  {
    var a, b, c := NatToString(v.major), NatToString(v.minor), NatToString(v.patch);
    var s := FormatVersion(v, pre);
    assert s == a + "." + b + "." + c + "";
    MatchVersionAccepts(a, b, c, "");
    assert |s| == |a| + |b| + |c| + 2;
  }

  /** A pre-release identifier made of letters reads back with counter `1`, and the match
      covers the whole formatted version. */
  lemma FormatWithPreRelease(v: Version, pre: Option<string>)
    requires IsSet(pre) && IsRun(pre.value, Letters)
    ensures MatchVersion(FormatVersion(v, pre)).Some?
    ensures MatchVersion(FormatVersion(v, pre)).value.pre == Some(PreRelease(pre.value, "1"))
    ensures MatchedText(MatchVersion(FormatVersion(v, pre)).value) == FormatVersion(v, pre)
  {
    var a, b, c := NatToString(v.major), NatToString(v.minor), NatToString(v.patch);
    var rest := "-" + pre.value + ".1";
    var s := FormatVersion(v, pre);
    assert s == a + "." + b + "." + c + rest;
    MatchVersionAccepts(a, b, c, rest);
    var i3 := |a| + |b| + |c| + 2;
    assert s[i3..] == rest;
    PreReleaseAt(s, i3, pre.value);
  }

  /** The tag `-{t}.1` is read as identifier `t` with counter `1` when `t` is a run of letters. */
  lemma PreReleaseAt(s: string, i: nat, t: string)
    requires i <= |s| && s[i..] == "-" + t + ".1" && IsRun(t, Letters)
    ensures MatchPreRelease(s, i) == Some(PreRelease(t, "1"))
  {
    var l := i + 1 + |t|;
    assert s[i] == s[i..][0] == '-';
    assert s[i + 1..l] == s[i..][1..1 + |t|] == t;
    assert s[l] == s[i..][1 + |t|] == '.';
    assert s[l + 1] == s[i..][2 + |t|] == '1';
    SpanIs(s, i + 1, l, Letters);
    SpanIs(s, l + 1, l + 2, Digits);
    assert s[l + 1..l + 2] == "1";
  }

  /** `bump_version` with the current version passed in: the numbers of the current version are
      bumped according to the release type, any pre-release tag on it is dropped, and a set
      pre-release adds `-{pre}.1`. */
  method BumpVersion(rt: ReleaseType, pre: Option<string>, current: string) returns (r: Result<string, ReleaseError>)
    ensures ParseVersion(current).Err? ==> r == Err(InvalidVersionFormat(current))
    ensures ParseVersion(current).Ok? ==> r == Ok(FormatVersion(Next(rt, ParseVersion(current).value), pre))
    ensures r.Ok? ==> ParseVersion(r.value) == Ok(Next(rt, ParseVersion(current).value))
    ensures r.Ok? ==> ('-' in r.value <==> IsSet(pre))
  {
    var m := MatchVersion(current);
    if m.None? {
      return Err(InvalidVersionFormat(current));
    }
    var major, minor, patch := DigitsValue(m.value.major), DigitsValue(m.value.minor), DigitsValue(m.value.patch);
    ghost var parsed := Version(major, minor, patch);
    assert ParseVersion(current) == Ok(parsed);
    if rt == Major {
      major := major + 1;
      minor, patch := 0, 0;
    } else if rt == Minor {
      minor := minor + 1;
      patch := 0;
    } else if rt == Patch {
      patch := patch + 1;
    }
    var version := NatToString(major) + "." + NatToString(minor) + "." + NatToString(patch);
    if IsSet(pre) {
      version := version + ("-" + pre.value + ".1");
    }
    ghost var bumped := Version(major, minor, patch);
    assert bumped == Next(rt, parsed);
    assert version == FormatVersion(bumped, pre);
    r := Ok(version);
  }

  /** A current pre-release version reads as its numbers alone: `1.2.3-rc.2` is 1.2.3. */
  lemma PreReleaseVersionReadsAsNumbers()
    ensures ParseVersion("1.2.3-rc.2") == Ok(Version(1, 2, 3))
  {
    assert "1.2.3-rc.2" == "1" + "." + "2" + "." + "3" + "-rc.2";
    SuffixIgnored("1", "2", "3", "-rc.2");
    assert DigitsValue("1") == 1 && DigitsValue("2") == 2 && DigitsValue("3") == 3;
  }

  /** So a patch release after `1.2.3-rc.2` is `1.2.4`, not `1.2.3`. */
  lemma PatchAfterPreRelease()
    ensures FormatVersion(Next(Patch, Version(1, 2, 3)), None) == "1.2.4"
  {
    assert NatToString(1) == "1" && NatToString(2) == "2" && NatToString(4) == "4";
  }

  /** A minor pre-release after `0.9.12`: `0.10.0-rc.1`. */
  lemma MinorPreRelease()
    ensures FormatVersion(Next(Minor, Version(0, 9, 12)), Some("rc")) == "0.10.0-rc.1"
  {
    assert Next(Minor, Version(0, 9, 12)) == Version(0, 10, 0);
    SmallNumerals();
    assert FormatVersion(Version(0, 10, 0), Some("rc")) == "0" + "." + "10" + "." + "0" + ("-" + "rc" + ".1");
    MinorPreReleaseText();
  }

  lemma MinorPreReleaseText()
    ensures "0" + "." + "10" + "." + "0" + ("-" + "rc" + ".1") == "0.10.0-rc.1"
  {
  }

  lemma SmallNumerals()
    ensures NatToString(0) == "0" && NatToString(10) == "10"
  {
    assert NatToString(10) == NatToString(1) + "0";
  }
}
