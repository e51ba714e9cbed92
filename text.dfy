/** Character classes, scanners and line handling used by the release tooling.
    Strings are sequences of characters; only ASCII classes are modelled. */
module Text {
  import opened Wrappers

  predicate IsDigit(c: char) { '0' <= c <= '9' }

  predicate IsLetter(c: char) { 'a' <= c <= 'z' || 'A' <= c <= 'Z' }

  /** The two character classes the version pattern uses: `\d` and `[a-zA-Z]`. */
  datatype CharClass = Digits | Letters

  predicate InClass(c: char, cl: CharClass) {
    match cl
    case Digits => IsDigit(c)
    case Letters => IsLetter(c)
  }

  predicate AllIn(s: string, cl: CharClass) {
    forall k :: 0 <= k < |s| ==> InClass(s[k], cl)
  }

  /** A non-empty run of one class, as `\d+` or `[a-zA-Z]+` matches it. */
  predicate IsRun(s: string, cl: CharClass) { |s| > 0 && AllIn(s, cl) }

  /** End of the longest run of class `cl` in `s` that starts at `i` (greedy `+`/`*`). */
  function Span(s: string, i: nat, cl: CharClass): (e: nat)
    requires i <= |s|
    ensures i <= e <= |s|
    ensures AllIn(s[i..e], cl)
    ensures e == |s| || !InClass(s[e], cl)
    decreases |s| - i
  {
    if i < |s| && InClass(s[i], cl) then Span(s, i + 1, cl) else i
  }

  /** A maximal run is unique: any run ending where the class stops is the one Span finds. */
  lemma {:induction false} SpanIs(s: string, i: nat, j: nat, cl: CharClass)
    requires i <= j <= |s|
    requires AllIn(s[i..j], cl)
    requires j == |s| || !InClass(s[j], cl)
    ensures Span(s, i, cl) == j
    decreases j - i
  {
    if i < j {
      assert s[i..j][0] == s[i];
      var t := s[i + 1..j];
      forall k | 0 <= k < |t| ensures InClass(t[k], cl) {
        assert t[k] == s[i..j][k + 1];
      }
      SpanIs(s, i + 1, j, cl);
    }
  }

  function DigitValue(c: char): nat
    requires IsDigit(c)
  {
    c as int - '0' as int
  }

  function DigitChar(d: nat): (c: char)
    requires d < 10
    ensures IsDigit(c) && DigitValue(c) == d
  {
    ('0' as int + d) as char
  }

  /** The value of a string of decimal digits, as Python's int() reads it (leading zeros allowed). */
  function DigitsValue(s: string): nat
    requires AllIn(s, Digits)
    decreases |s|
  {
    if s == [] then 0 else 10 * DigitsValue(s[..|s| - 1]) + DigitValue(s[|s| - 1])
  }

  /** Decimal rendering of a natural number, as Python's f"{n}" writes it. */
  function NatToString(n: nat): (r: string)
    ensures IsRun(r, Digits)
    ensures DigitsValue(r) == n
    ensures n > 0 ==> r[0] != '0'
    ensures n == 0 ==> r == "0"
    decreases n
  {
    if n < 10 then [DigitChar(n)]
    else
      var prefix := NatToString(n / 10);
      var r := prefix + [DigitChar(n % 10)];
      assert r[..|r| - 1] == prefix;
      r
  }

  /** `pat` occurs in `s` starting at index `i`. */
  predicate OccursAt(s: string, pat: string, i: nat) {
    i + |pat| <= |s| && s[i..i + |pat|] == pat
  }

  lemma PrefixOf(t: string, s: string)
    requires |t| <= |s| && s[..|t|] == t
    ensures t <= s
  {
  }

  lemma MiddleOfConcat(a: string, b: string, c: string)
    ensures OccursAt(a + b + c, b, |a|)
  {
    assert (a + b + c)[|a|..|a| + |b|] == b;
  }

  /** Leftmost occurrence of `pat` in `s` at or after `from` (str.find / the `in` test). */
  function IndexOfFrom(s: string, pat: string, from: nat): (r: Option<nat>)
    ensures r.Some? ==> from <= r.value && OccursAt(s, pat, r.value)
    ensures r.Some? ==> forall j :: from <= j < r.value ==> !OccursAt(s, pat, j)
    ensures r.None? ==> forall j :: from <= j ==> !OccursAt(s, pat, j)
    decreases |s| - from
  {
    if from + |pat| > |s| then None
    else if s[from..from + |pat|] == pat then Some(from)
    else IndexOfFrom(s, pat, from + 1)
  }

  function IndexOf(s: string, pat: string): (r: Option<nat>)
    ensures r.Some? ==> OccursAt(s, pat, r.value) && forall j :: 0 <= j < r.value ==> !OccursAt(s, pat, j)
    ensures r.None? ==> forall j :: !OccursAt(s, pat, j)
  {
    IndexOfFrom(s, pat, 0)
  }

  /** A text without the pattern's first character does not contain the pattern. */
  lemma AbsentHead(s: string, pat: string)
    requires |pat| > 0 && pat[0] !in s
    ensures IndexOf(s, pat).None?
  {
    forall j | 0 <= j ensures !OccursAt(s, pat, j) {
      if j + |pat| <= |s| {
        assert s[j..j + |pat|][0] == s[j];
      }
    }
  }

  /** Leftmost occurrences are unique: the first place `pat` occurs is the one IndexOf reports. */
  lemma IndexOfIs(s: string, pat: string, i: nat)
    requires OccursAt(s, pat, i)
    requires forall j :: 0 <= j < i ==> !OccursAt(s, pat, j)
    ensures IndexOf(s, pat) == Some(i)
  {
  }

  /** With `pat` absent from `x`, and `y` starting with a character that occurs in `pat` only at
      its head, the first occurrence in `x + y` lies inside `y`. */
  lemma {:induction false} IndexOfAfter(x: string, y: string, pat: string)
    requires IndexOf(x, pat).None?
    requires |pat| > 0 && |y| > 0 && y[0] == pat[0]
    requires forall k :: 0 < k < |pat| ==> pat[k] != pat[0]
    ensures IndexOf(x + y, pat) == (match IndexOf(y, pat)
                                    case Some(j) => Some(|x| + j)
                                    case None => None)
  {
    var s := x + y;
    forall k | 0 <= k < |x| ensures !OccursAt(s, pat, k) {
      NoOccurrenceBeforeJoin(x, y, pat, k);
    }
    forall k | 0 <= k ensures OccursAt(s, pat, |x| + k) <==> OccursAt(y, pat, k) {
      OccurrenceShifted(x, y, pat, k);
    }
    match IndexOf(y, pat)
    case Some(j) =>
      forall k | 0 <= k < |x| + j ensures !OccursAt(s, pat, k) {
        if k >= |x| { assert !OccursAt(y, pat, k - |x|); }
      }
      IndexOfIs(s, pat, |x| + j);
    case None =>
      forall k | 0 <= k ensures !OccursAt(s, pat, k) {
        if k >= |x| { assert !OccursAt(y, pat, k - |x|); }
      }
  }

  /** An occurrence starting inside `x` is neither wholly in `x` (which has none) nor
      overlapping `y`, whose first character is the pattern's unique head. */
  lemma NoOccurrenceBeforeJoin(x: string, y: string, pat: string, k: nat)
    requires IndexOf(x, pat).None?
    requires |pat| > 0 && |y| > 0 && y[0] == pat[0]
    requires forall k :: 0 < k < |pat| ==> pat[k] != pat[0]
    requires k < |x|
    ensures !OccursAt(x + y, pat, k)
  {
    var s := x + y;
    if k + |pat| <= |x| {
      assert x[k..k + |pat|] == s[k..k + |pat|];
      assert !OccursAt(x, pat, k);
    } else if k + |pat| <= |s| {
      assert s[k..k + |pat|][|x| - k] == y[0];
    }
  }

  lemma OccurrenceShifted(x: string, y: string, pat: string, k: nat)
    ensures OccursAt(x + y, pat, |x| + k) <==> OccursAt(y, pat, k)
  {
    if |x| + k + |pat| <= |x + y| {
      assert (x + y)[|x| + k..|x| + k + |pat|] == y[k..k + |pat|];
    }
  }

  /** `"\n".join(lines)`. */
  function JoinLines(lines: seq<string>): string
  {
    if |lines| == 0 then ""
    else if |lines| == 1 then lines[0]
    else lines[0] + "\n" + JoinLines(lines[1..])
  }

  /** `s.split("\n")`: always at least one piece. */
  function SplitLines(s: string): (r: seq<string>)
    ensures |r| > 0
    ensures forall k :: 0 <= k < |r| ==> '\n' !in r[k]
    decreases |s|
  {
    if s == [] then [""]
    else
      var rest := SplitLines(s[1..]);
      if s[0] == '\n' then [""] + rest
      else [[s[0]] + rest[0]] + rest[1..]
  }

  predicate NoNewlines(lines: seq<string>) {
    forall k :: 0 <= k < |lines| ==> '\n' !in lines[k]
  }

  lemma NoNewlinesAppend(a: seq<string>, b: seq<string>)
    requires NoNewlines(a) && NoNewlines(b)
    ensures NoNewlines(a + b)
  {
    forall k | 0 <= k < |a + b| ensures '\n' !in (a + b)[k] {
      if k < |a| {
        assert (a + b)[k] == a[k];
      } else {
        assert (a + b)[k] == b[k - |a|];
      }
    }
  }

  lemma {:induction false} SplitSingle(a: string)
    requires '\n' !in a
    ensures SplitLines(a) == [a]
    decreases |a|
  {
    if a != [] {
      SplitSingle(a[1..]);
      assert [a[0]] + a[1..] == a;
    }
  }

  lemma {:induction false} SplitAtNewline(a: string, b: string)
    requires '\n' !in a
    ensures SplitLines(a + "\n" + b) == [a] + SplitLines(b)
    decreases |a|
  {
    var s := a + "\n" + b;
    if a == [] {
      assert s[1..] == b;
    } else {
      assert s[1..] == a[1..] + "\n" + b;
      SplitAtNewline(a[1..], b);
      assert [a[0]] + a[1..] == a;
    }
  }

  /** Splitting a joined message on newlines gives back its lines, when none holds a newline. */
  lemma {:induction false} SplitJoin(lines: seq<string>)
    requires |lines| > 0 && NoNewlines(lines)
    ensures SplitLines(JoinLines(lines)) == lines
    decreases |lines|
  {
    if |lines| == 1 {
      SplitSingle(lines[0]);
    } else {
      SplitJoin(lines[1..]);
      SplitAtNewline(lines[0], JoinLines(lines[1..]));
    }
  }
}
