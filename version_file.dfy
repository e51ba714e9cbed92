/** Reading and rewriting the quoted version in project files (scripts/version.py,
    get_current_version and update_files). File contents are parameters; a file that may be
    absent is an Option. */
module VersionFile {
  import opened Wrappers
  import opened Text

  /** The literal part of the pattern `version = "[^"]+"`. */
  const VersionKey: string := "version = \""
  /** The literal part of the pattern `release = "[^"]+"`. */
  const ReleaseKey: string := "release = \""

  /** The pattern `KEY[^"]+"` matches at `i`: the key, at least one character that is not a
      quote, and a closing quote somewhere after it (`[^"]` also matches newlines). */
  predicate MatchAt(s: string, key: string, i: nat) {
    && OccursAt(s, key, i)
    && i + |key| < |s|
    && s[i + |key|] != '"'
    && IndexOfFrom(s, "\"", i + |key|).Some?
  }

  /** Index of the quote that ends the match at `i`. */
  function ClosingQuote(s: string, key: string, i: nat): (j: nat)
    requires MatchAt(s, key, i)
    ensures i + |key| < j < |s| && s[j] == '"'
    ensures forall k :: i + |key| <= k < j ==> s[k] != '"'
  {
    var j := IndexOfFrom(s, "\"", i + |key|).value;
    assert s[j..j + 1][0] == s[j];
    assert forall k :: i + |key| <= k < j ==> s[k..k + 1][0] == s[k] && !OccursAt(s, "\"", k);
    j
  }

  /** The captured group `([^"]+)` of the match at `i`. */
  function Value(s: string, key: string, i: nat): (v: string)
    requires MatchAt(s, key, i)
    ensures |v| > 0 && '"' !in v
  {
    var v := s[i + |key|..ClosingQuote(s, key, i)];
    assert forall k :: 0 <= k < |v| ==> v[k] == s[i + |key| + k];
    v
  }

  /** The text `KEY<v>"` stands at `i`, with `v` non-empty and free of quotes. */
  predicate OccurrenceAt(s: string, key: string, i: nat, v: string) {
    |v| > 0 && '"' !in v && OccursAt(s, key + v + "\"", i)
  }

  lemma QuoteFound(s: string, from: nat, q: nat)
    requires from <= q < |s| && s[q] == '"'
    ensures IndexOfFrom(s, "\"", from).Some?
  {
    assert s[q..q + 1] == "\"";
    assert OccursAt(s, "\"", q);
  }

  /** A match is exactly an occurrence of `KEY<v>"`, and its group is that `v`. */
  lemma MatchIsOccurrence(s: string, key: string, i: nat)
    requires MatchAt(s, key, i)
    ensures OccurrenceAt(s, key, i, Value(s, key, i))
  {
    var j := ClosingQuote(s, key, i);
    var v := Value(s, key, i);
    assert s[i..j + 1] == s[i..i + |key|] + v + [s[j]];
  }

  lemma OccurrenceIsMatch(s: string, key: string, i: nat, v: string)
    requires OccurrenceAt(s, key, i, v)
    ensures MatchAt(s, key, i) && Value(s, key, i) == v
  {
    var q := i + |key| + |v|;
    OccurrenceParts(s, key, i, v);
    QuoteFound(s, i + |key|, q);
    assert ClosingQuote(s, key, i) == q;
    var x := s[i + |key|..q];
    forall p | 0 <= p < |v| ensures x[p] == v[p] {
      assert x[p] == s[i + |key| + p];
    }
    assert x == v;
  }

  /** Character by character, `KEY<v>"` at `i`: the key, then `v` with no quote, then a quote. */
  lemma OccurrenceParts(s: string, key: string, i: nat, v: string)
    requires OccurrenceAt(s, key, i, v)
    ensures i + |key| + |v| < |s|
    ensures OccursAt(s, key, i)
    ensures s[i + |key|] == v[0] != '"'
    ensures s[i + |key| + |v|] == '"'
    ensures forall p :: 0 <= p < |v| ==> s[i + |key| + p] == v[p]
  {
    var w := key + v + "\"";
    assert s[i..i + |w|] == w;
    assert s[i..i + |key|] == w[..|key|] == key;
    forall p | 0 <= p < |v| ensures s[i + |key| + p] == v[p] {
      assert s[i + |key| + p] == s[i..i + |w|][|key| + p] == w[|key| + p];
    }
    assert s[i + |key| + |v|] == w[|key| + |v|] == '"';
  }

  /** Leftmost match at or after `from`. */
  function FirstMatchFrom(s: string, key: string, from: nat): (r: Option<nat>)
    ensures r.Some? ==> from <= r.value && MatchAt(s, key, r.value)
    ensures r.Some? ==> forall k :: from <= k < r.value ==> !MatchAt(s, key, k)
    ensures r.None? ==> forall k :: from <= k ==> !MatchAt(s, key, k)
    decreases |s| - from
  {
    if from >= |s| then None
    else if MatchAt(s, key, from) then Some(from)
    else FirstMatchFrom(s, key, from + 1)
  }

  /** `re.search(KEY([^"]+)", s).group(1)`, None where there is no match. */
  function Search(s: string, key: string): (r: Option<string>)
    ensures r.None? <==> forall k :: !MatchAt(s, key, k)
    ensures r.Some? ==> |r.value| > 0 && '"' !in r.value
  {
    match FirstMatchFrom(s, key, 0)
    case None => None
    case Some(i) => Some(Value(s, key, i))
  }

  /** Search reports the group of the leftmost match. */
  lemma SearchFindsFirst(s: string, key: string, i: nat)
    requires MatchAt(s, key, i)
    requires forall k :: 0 <= k < i ==> !MatchAt(s, key, k)
    ensures Search(s, key) == Some(Value(s, key, i))
  {
  }

  /** `get_current_version` on the contents of pyproject.toml. */
  function GetCurrentVersion(content: string): (r: Result<string, ReleaseError>)
    ensures r.Err? <==> forall k :: !MatchAt(content, VersionKey, k)
    ensures r.Err? ==> r.error == VersionNotFound
    ensures r.Ok? ==> |r.value| > 0 && '"' !in r.value
    ensures r.Ok? ==> exists i :: OccurrenceAt(content, VersionKey, i, r.value)
    ensures r.Ok? <==> Search(content, VersionKey).Some?
    ensures r.Ok? ==> Search(content, VersionKey) == Some(r.value)
  {
    match FirstMatchFrom(content, VersionKey, 0)
    case None => Err(VersionNotFound)
    case Some(i) =>
      MatchIsOccurrence(content, VersionKey, i);
      Ok(Value(content, VersionKey, i))
  }

  /** Every match in `t` has group `repl`. */
  ghost predicate AllValues(t: string, key: string, repl: string) {
    forall k: nat :: MatchAt(t, key, k) ==> Value(t, key, k) == repl
  }

  /** A replacement that cannot complete a match together with the text around it: non-empty,
      quote-free, and not ending with the character that precedes the key's quote. */
  predicate SafeReplacement(key: string, repl: string) {
    && WellFormedKey(key)
    && |repl| > 0 && '"' !in repl
    && repl[|repl| - 1] != key[|key| - 2]
  }

  /** `re.sub(KEY[^"]+", KEY<repl>", s)`: every non-overlapping match, leftmost first, is
      replaced; the replacement is taken literally. */
  function Substitute(s: string, key: string, repl: string): string
    decreases |s|
  {
    match FirstMatchFrom(s, key, 0)
    case None => s
    case Some(i) =>
      var j := ClosingQuote(s, key, i);
      s[..i] + key + repl + "\"" + Substitute(s[j + 1..], key, repl)
  }

  /** After the substitution every match carries `repl`, and a text whose matches all carry
      `repl` already is left as it is. */
  lemma {:induction false} SubstituteRewritesAll(s: string, key: string, repl: string)
    ensures SafeReplacement(key, repl) ==> AllValues(Substitute(s, key, repl), key, repl)
    ensures AllValues(s, key, repl) ==> Substitute(s, key, repl) == s
    decreases |s|
  {
    match FirstMatchFrom(s, key, 0)
    case None =>
    case Some(i) =>
      var j := ClosingQuote(s, key, i);
      var rest := Substitute(s[j + 1..], key, repl);
      SubstituteRewritesAll(s[j + 1..], key, repl);
      SubstituteStep(s, key, repl, i);
      RewriteKeepsValues(s, key, repl, i, rest);
      UnchangedWhenAllValues(s, key, repl, i);
  }

  /** One step of the substitution, at the leftmost match `i`. */
  lemma SubstituteStep(s: string, key: string, repl: string, i: nat)
    requires FirstMatchFrom(s, key, 0) == Some(i)
    ensures Substitute(s, key, repl)
         == s[..i] + key + repl + "\"" + Substitute(s[ClosingQuote(s, key, i) + 1..], key, repl)
  {
  }

  /** The pieces of text around the leftmost non-overlapping matches: before the first match,
      between consecutive ones, and after the last. */
  function Gaps(s: string, key: string): seq<string>
    decreases |s|
  {
    match FirstMatchFrom(s, key, 0)
    case None => [s]
    case Some(i) => [s[..i]] + Gaps(s[ClosingQuote(s, key, i) + 1..], key)
  }

  /** The groups of those matches, in order. */
  function Groups(s: string, key: string): (r: seq<string>)
    ensures forall k :: 0 <= k < |r| ==> |r[k]| > 0 && '"' !in r[k]
    decreases |s|
  {
    match FirstMatchFrom(s, key, 0)
    case None => []
    case Some(i) => [Value(s, key, i)] + Groups(s[ClosingQuote(s, key, i) + 1..], key)
  }

  /** The gaps, with `KEY<g>"` for each group `g` between consecutive ones. */
  function Rebuild(gaps: seq<string>, key: string, groups: seq<string>): string
    requires |gaps| == |groups| + 1
    decreases |groups|
  {
    if |groups| == 0 then gaps[0]
    else gaps[0] + key + groups[0] + "\"" + Rebuild(gaps[1..], key, groups[1..])
  }

  function Repeat(x: string, n: nat): (r: seq<string>)
    ensures |r| == n && forall k :: 0 <= k < n ==> r[k] == x
  {
    if n == 0 then [] else [x] + Repeat(x, n - 1)
  }

  /** A text is its gaps and groups put back together, and the substitution puts the same gaps
      back together with every group replaced by `repl`: all matches are rewritten and all
      other text is kept. */
  lemma {:induction false} SubstituteKeepsGaps(s: string, key: string, repl: string)
    ensures |Gaps(s, key)| == |Groups(s, key)| + 1
    ensures s == Rebuild(Gaps(s, key), key, Groups(s, key))
    ensures Substitute(s, key, repl) == Rebuild(Gaps(s, key), key, Repeat(repl, |Groups(s, key)|))
    decreases |s|
  {
    match FirstMatchFrom(s, key, 0)
    case None =>
    case Some(i) =>
      var t := s[ClosingQuote(s, key, i) + 1..];
      SubstituteKeepsGaps(t, key, repl);
      PiecesStep(s, key, i);
      SubstituteStep(s, key, repl, i);
      MatchSplits(s, key, i);
      RebuildCons(s[..i], key, Value(s, key, i), Gaps(t, key), Groups(t, key));
      RebuildCons(s[..i], key, repl, Gaps(t, key), Repeat(repl, |Groups(t, key)|));
      assert Repeat(repl, |Groups(s, key)|) == [repl] + Repeat(repl, |Groups(t, key)|);
  }

  /** One step of the split into gaps and groups, at the leftmost match `i`. */
  lemma PiecesStep(s: string, key: string, i: nat)
    requires FirstMatchFrom(s, key, 0) == Some(i)
    ensures Gaps(s, key) == [s[..i]] + Gaps(s[ClosingQuote(s, key, i) + 1..], key)
    ensures Groups(s, key) == [Value(s, key, i)] + Groups(s[ClosingQuote(s, key, i) + 1..], key)
  {
  }

  lemma RebuildCons(g: string, key: string, x: string, gaps: seq<string>, groups: seq<string>)
    requires |gaps| == |groups| + 1
    ensures Rebuild([g] + gaps, key, [x] + groups) == g + key + x + "\"" + Rebuild(gaps, key, groups)
  {
    assert ([g] + gaps)[1..] == gaps;
    assert ([x] + groups)[1..] == groups;
  }

  /** The text around a match, the key, the group and the closing quote make up the text. */
  lemma MatchSplits(s: string, key: string, i: nat)
    requires MatchAt(s, key, i)
    ensures s == s[..i] + key + Value(s, key, i) + "\"" + s[ClosingQuote(s, key, i) + 1..]
  {
    var j := ClosingQuote(s, key, i);
    var w := key + Value(s, key, i) + "\"";
    MatchIsOccurrence(s, key, i);
    assert s[i..j + 1] == w;
    assert s == s[..i] + s[i..j + 1] + s[j + 1..];
  }

  /** A match `|u|` characters into `u + v` is a match in `v`, and the other way round, with
      the same group. */
  lemma MatchShifted(u: string, v: string, key: string, k: nat)
    ensures MatchAt(u + v, key, |u| + k) <==> MatchAt(v, key, k)
    ensures MatchAt(v, key, k) ==> Value(u + v, key, |u| + k) == Value(v, key, k)
  {
    var t := u + v;
    if MatchAt(v, key, k) {
      var x := Value(v, key, k);
      MatchIsOccurrence(v, key, k);
      OccurrenceShifted(u, v, key + x + "\"", k);
      OccurrenceIsMatch(t, key, |u| + k, x);
    }
    if MatchAt(t, key, |u| + k) {
      var x := Value(t, key, |u| + k);
      MatchIsOccurrence(t, key, |u| + k);
      OccurrenceShifted(u, v, key + x + "\"", k);
      OccurrenceIsMatch(v, key, k, x);
    }
  }

  /** No match starts strictly inside a freshly written `KEY<repl>"`: inside the key its head
      does not recur, and later the key's quote would fall in `repl`, on the closing quote or
      after it, where the character before it or the quote itself cannot fit. */
  lemma NoMatchInsideRewrite(t: string, key: string, repl: string, i: nat, k: nat)
    requires SafeReplacement(key, repl)
    requires i + |key| + |repl| + 1 <= |t|
    requires t[i..i + |key| + |repl| + 1] == key + repl + "\""
    requires i < k < i + |key| + |repl| + 1
    ensures !MatchAt(t, key, k)
  {
    var w := key + repl + "\"";
    var p := i + |w|;
    if k < i + |key| {
      assert t[k] == t[i..p][k - i] == w[k - i] == key[k - i];
      NoMatchAtOtherChar(t, key, k);
    } else if k + |key| <= |t| {
      var q := k + |key| - 1;
      var a := t[k..k + |key|];
      if q < p - 1 {
        assert t[q] == t[i..p][q - i] == w[q - i] == repl[q - i - |key|];
        assert a[|key| - 1] == t[q];
      } else if q == p - 1 {
        assert t[q - 1] == t[i..p][q - 1 - i] == w[q - 1 - i] == repl[|repl| - 1];
        assert a[|key| - 2] == t[q - 1];
      } else {
        assert t[p - 1] == t[i..p][p - 1 - i] == w[|w| - 1] == '"';
        assert a[p - 1 - k] == t[p - 1];
      }
    }
  }

  /** Rewriting the leftmost match in front of a text whose matches all carry `repl` gives a
      text whose matches all carry `repl`. */
  lemma RewriteKeepsValues(s: string, key: string, repl: string, i: nat, rest: string)
    requires MatchAt(s, key, i) && forall k :: 0 <= k < i ==> !MatchAt(s, key, k)
    ensures SafeReplacement(key, repl) && AllValues(rest, key, repl) ==>
              AllValues(s[..i] + key + repl + "\"" + rest, key, repl)
  {
    if SafeReplacement(key, repl) && AllValues(rest, key, repl) {
      var w := key + repl + "\"";
      RewrittenFirst(s, key, repl, i, rest);
      ValuesOfRewrite(s[..i] + key + repl + "\"" + rest, key, repl, i, s[..i] + w, rest);
    }
  }

  /** The text after rewriting the leftmost match at `i`: the new `KEY<repl>"` stands at `i`,
      is a match with group `repl`, and no match lies before it. */
  lemma RewrittenFirst(s: string, key: string, repl: string, i: nat, rest: string)
    requires WellFormedKey(key) && |repl| > 0 && '"' !in repl
    requires MatchAt(s, key, i) && forall k :: 0 <= k < i ==> !MatchAt(s, key, k)
    ensures var t := s[..i] + key + repl + "\"" + rest;
            && t == (s[..i] + (key + repl + "\"")) + rest
            && i + |key| + |repl| + 1 <= |t|
            && t[i..i + |key| + |repl| + 1] == key + repl + "\""
            && MatchAt(t, key, i) && Value(t, key, i) == repl
            && forall k :: 0 <= k < i ==> !MatchAt(t, key, k)
  {
    var w := key + repl + "\"";
    var t := s[..i] + key + repl + "\"" + rest;
    assert t == s[..i] + w + rest;
    MiddleOfConcat(s[..i], w, rest);
    OccurrenceIsMatch(t, key, i, repl);
    forall p | 0 <= p < i + |key| ensures s[p] == t[p] {
      if p >= i {
        assert s[p] == s[i..i + |key|][p - i];
      }
    }
    NoEarlierMatch(s, t, key, i);
  }

  /** The matches of `t = u + rest`, where `u` ends with a fresh `KEY<repl>"` at `i` and has
      no other match, are that one and those of `rest`. */
  lemma ValuesOfRewrite(t: string, key: string, repl: string, i: nat, u: string, rest: string)
    requires SafeReplacement(key, repl) && AllValues(rest, key, repl)
    requires t == u + rest && |u| == i + |key| + |repl| + 1
    requires t[i..|u|] == key + repl + "\""
    requires MatchAt(t, key, i) && Value(t, key, i) == repl
    requires forall k :: 0 <= k < i ==> !MatchAt(t, key, k)
    ensures AllValues(t, key, repl)
  {
    forall k: nat ensures MatchAt(t, key, k) ==> Value(t, key, k) == repl {
      if k < i {
      } else if k == i {
      } else if k < |u| {
        NoMatchInsideRewrite(t, key, repl, i, k);
      } else {
        ValueInSuffix(t, key, repl, u, rest, k);
      }
    }
  }

  /** A match in the part `rest` of `t = u + rest` has the group it has in `rest`. */
  lemma ValueInSuffix(t: string, key: string, repl: string, u: string, rest: string, k: nat)
    requires AllValues(rest, key, repl)
    requires t == u + rest && |u| <= k
    ensures MatchAt(t, key, k) ==> Value(t, key, k) == repl
  {
    var m := k - |u|;
    MatchShifted(u, rest, key, m);
    assert |u| + m == k;
  }

  /** When every match carries `repl`, the leftmost one already reads `KEY<repl>"`, and the
      text after it again has all its matches carrying `repl`. */
  lemma UnchangedWhenAllValues(s: string, key: string, repl: string, i: nat)
    requires MatchAt(s, key, i)
    ensures AllValues(s, key, repl) ==>
              var j := ClosingQuote(s, key, i);
              && s == s[..i] + key + repl + "\"" + s[j + 1..]
              && AllValues(s[j + 1..], key, repl)
  {
    if AllValues(s, key, repl) {
      var j := ClosingQuote(s, key, i);
      var w := key + repl + "\"";
      assert Value(s, key, i) == repl;
      MatchIsOccurrence(s, key, i);
      assert s[i..j + 1] == w;
      var u, v := s[..j + 1], s[j + 1..];
      assert u == s[..i] + s[i..j + 1];
      assert s == u + v;
      forall k: nat ensures MatchAt(v, key, k) ==> Value(v, key, k) == repl {
        MatchShifted(u, v, key, k);
      }
    }
  }

  /** Running the substitution twice rewrites nothing the first run did not. */
  lemma SubstituteIdempotent(s: string, key: string, repl: string)
    requires SafeReplacement(key, repl)
    ensures Substitute(Substitute(s, key, repl), key, repl) == Substitute(s, key, repl)
  {
    SubstituteRewritesAll(s, key, repl);
    SubstituteRewritesAll(Substitute(s, key, repl), key, repl);
  }

  /** Text without a match is left as it is. */
  lemma SubstituteWithoutMatch(s: string, key: string, repl: string)
    requires forall k :: !MatchAt(s, key, k)
    ensures Substitute(s, key, repl) == s
  {
  }

  /** The text before the leftmost match is copied, that match becomes `KEY<repl>"`, and
      substitution resumes right after its closing quote. */
  lemma SubstituteAtFirstMatch(s: string, key: string, repl: string, i: nat)
    requires MatchAt(s, key, i)
    requires forall k :: 0 <= k < i ==> !MatchAt(s, key, k)
    ensures Substitute(s, key, repl)
         == s[..i] + key + repl + "\"" + Substitute(s[ClosingQuote(s, key, i) + 1..], key, repl)
  {
    FirstMatchIs(s, key, 0, i);
    SubstituteStep(s, key, repl, i);
  }

  /** The first match from `from` is the match at `i` when none lies between them. */
  lemma {:induction false} FirstMatchIs(s: string, key: string, from: nat, i: nat)
    requires from <= i && MatchAt(s, key, i)
    requires forall k :: from <= k < i ==> !MatchAt(s, key, k)
    ensures FirstMatchFrom(s, key, from) == Some(i)
    decreases i - from
  {
    if from < i {
      FirstMatchIs(s, key, from + 1, i);
    }
  }

  /** Keys for which a match can never start inside another key: the key ends with the
      opening quote, has no other quote, and its first character does not occur again in it. */
  predicate WellFormedKey(key: string) {
    && |key| >= 2
    && key[|key| - 1] == '"'
    && (forall k :: 0 < k < |key| ==> key[k] != key[0])
    && (forall k :: 0 <= k < |key| - 1 ==> key[k] != '"')
  }

  lemma KeysWellFormed()
    ensures WellFormedKey(VersionKey) && WellFormedKey(ReleaseKey)
  {
  }

  /** A quote-free replacement ending in a digit, as every formatted version does, is safe
      for both keys, whose quote follows a space. */
  lemma SafeForBothKeys(repl: string)
    requires |repl| > 0 && '"' !in repl && IsDigit(repl[|repl| - 1])
    ensures SafeReplacement(VersionKey, repl) && SafeReplacement(ReleaseKey, repl)
  {
    assert VersionKey[|VersionKey| - 2] == ' ' && ReleaseKey[|ReleaseKey| - 2] == ' ';
  }

  /** Where `s` and `t` agree on a prefix that ends in a quote, a match at `k` in `t`
      beginning early enough is also one in `s`. */
  lemma MatchInAgreeingPrefix(s: string, t: string, key: string, k: nat, n: nat)
    requires n <= |s| && n <= |t| && forall p :: 0 <= p < n ==> s[p] == t[p]
    requires k + |key| < n - 1 && s[n - 1] == '"'
    ensures MatchAt(t, key, k) ==> MatchAt(s, key, k)
  {
    var a, b := s[k..k + |key|], t[k..k + |key|];
    forall p | 0 <= p < |key| ensures a[p] == b[p] {
      assert a[p] == s[k + p] && b[p] == t[k + p];
    }
    assert a == b;
    QuoteFound(s, k + |key|, n - 1);
  }

  /** Rewriting the leftmost match cannot create a match before it: text before it is
      unchanged and still followed by the key, and a well-formed key cannot overlap itself. */
  lemma NoEarlierMatch(s: string, t: string, key: string, i: nat)
    requires WellFormedKey(key)
    requires OccursAt(s, key, i) && forall k :: 0 <= k < i ==> !MatchAt(s, key, k)
    requires i + |key| <= |t| && forall p :: 0 <= p < i + |key| ==> s[p] == t[p]
    ensures forall k :: 0 <= k < i ==> !MatchAt(t, key, k)
  {
    var n := i + |key|;
    assert s[n - 1] == s[i..n][|key| - 1] == '"';
    forall k | 0 <= k < i ensures !MatchAt(t, key, k) {
      if k + |key| <= i {
        MatchInAgreeingPrefix(s, t, key, k, n);
      } else if k + |key| <= |t| {
        assert t[i] == s[i] == s[i..n][0] == key[0];
        assert t[k..k + |key|][i - k] == t[i];
      }
    }
  }

  /** Replacing the leftmost match by `KEY<repl>"`, whatever follows, makes `repl` the group
      that a search finds. */
  lemma SearchAfterRewritingFirst(s: string, key: string, repl: string, i: nat, rest: string)
    requires WellFormedKey(key)
    requires MatchAt(s, key, i) && forall k :: 0 <= k < i ==> !MatchAt(s, key, k)
    requires |repl| > 0 && '"' !in repl
    ensures Search(s[..i] + key + repl + "\"" + rest, key) == Some(repl)
  {
    RewrittenFirst(s, key, repl, i, rest);
    SearchFindsFirst(s[..i] + key + repl + "\"" + rest, key, i);
  }

  /** After rewriting, searching for the key finds the new value: the version written by
      update_files is the one get_current_version reads back. */
  lemma {:induction false} ReadAfterSubstitute(s: string, key: string, repl: string)
    requires WellFormedKey(key)
    requires Search(s, key).Some?
    requires |repl| > 0 && '"' !in repl
    ensures Search(Substitute(s, key, repl), key) == Some(repl)
  {
    var i := FirstMatchFrom(s, key, 0).value;
    var rest := Substitute(s[ClosingQuote(s, key, i) + 1..], key, repl);
    SubstituteAtFirstMatch(s, key, repl, i);
    assert Substitute(s, key, repl) == s[..i] + key + repl + "\"" + rest;
    SearchAfterRewritingFirst(s, key, repl, i, rest);
  }

  /** The texts of pyproject.toml and docs/conf.py; conf.py may be absent. */
  datatype ProjectFiles = ProjectFiles(pyproject: string, conf: Option<string>)

  /** `update_files`: rewrite every `version = "..."` in pyproject.toml and, when docs/conf.py
      exists, every `release = "..."` in it. */
  function UpdateFiles(files: ProjectFiles, newVersion: string): (r: ProjectFiles)
    ensures r.conf.Some? <==> files.conf.Some?
    // afterwards every version = "..." and every release = "..." carries the new version
    ensures SafeReplacement(VersionKey, newVersion) ==> AllValues(r.pyproject, VersionKey, newVersion)
    ensures r.conf.Some? && SafeReplacement(ReleaseKey, newVersion) ==>
              AllValues(r.conf.value, ReleaseKey, newVersion)
    // every match is rewritten and the text around the matches is kept
    ensures |Gaps(files.pyproject, VersionKey)| == |Groups(files.pyproject, VersionKey)| + 1
    ensures r.pyproject == Rebuild(Gaps(files.pyproject, VersionKey), VersionKey,
                                   Repeat(newVersion, |Groups(files.pyproject, VersionKey)|))
    ensures files.conf.Some? ==>
              && |Gaps(files.conf.value, ReleaseKey)| == |Groups(files.conf.value, ReleaseKey)| + 1
              && r.conf.value == Rebuild(Gaps(files.conf.value, ReleaseKey), ReleaseKey,
                                         Repeat(newVersion, |Groups(files.conf.value, ReleaseKey)|))
    // a file already at the new version is written back unchanged
    ensures AllValues(files.pyproject, VersionKey, newVersion) ==> r.pyproject == files.pyproject
    ensures files.conf.Some? && AllValues(files.conf.value, ReleaseKey, newVersion) ==>
              r.conf == files.conf
  {
    SubstituteRewritesAll(files.pyproject, VersionKey, newVersion);
    SubstituteKeepsGaps(files.pyproject, VersionKey, newVersion);
    ProjectFiles(
      Substitute(files.pyproject, VersionKey, newVersion),
      match files.conf
      case None => None
      case Some(c) =>
        SubstituteRewritesAll(c, ReleaseKey, newVersion);
        SubstituteKeepsGaps(c, ReleaseKey, newVersion);
        Some(Substitute(c, ReleaseKey, newVersion)))
  }

  /** After update_files, get_current_version reads the new version, and conf.py's release
      reads it too; files without a match are left unchanged. */
  lemma UpdateFilesReadBack(files: ProjectFiles, newVersion: string)
    requires |newVersion| > 0 && '"' !in newVersion
    ensures GetCurrentVersion(files.pyproject).Ok? ==>
              GetCurrentVersion(UpdateFiles(files, newVersion).pyproject) == Ok(newVersion)
    ensures GetCurrentVersion(files.pyproject).Err? ==>
              UpdateFiles(files, newVersion).pyproject == files.pyproject
    ensures files.conf.Some? && Search(files.conf.value, ReleaseKey).Some? ==>
              Search(UpdateFiles(files, newVersion).conf.value, ReleaseKey) == Some(newVersion)
    ensures files.conf.Some? && Search(files.conf.value, ReleaseKey).None? ==>
              UpdateFiles(files, newVersion).conf == files.conf
  {
    KeysWellFormed();
    if GetCurrentVersion(files.pyproject).Ok? {
      ReadAfterSubstitute(files.pyproject, VersionKey, newVersion);
    } else {
      SubstituteWithoutMatch(files.pyproject, VersionKey, newVersion);
    }
    if files.conf.Some? {
      if Search(files.conf.value, ReleaseKey).Some? {
        ReadAfterSubstitute(files.conf.value, ReleaseKey, newVersion);
      } else {
        SubstituteWithoutMatch(files.conf.value, ReleaseKey, newVersion);
      }
    }
  }

  lemma NoMatchAtOtherChar(s: string, key: string, k: nat)
    requires k < |s| && |key| > 0 && s[k] != key[0]
    ensures !MatchAt(s, key, k)
  {
    if k + |key| <= |s| {
      assert s[k..k + |key|][0] == s[k];
    }
  }

  /** The pattern is not anchored to the start of a key, so a longer key ending in
      `version` is rewritten as well: with `name` = "python_", a mypy setting
      `python_version = "3.9"` becomes the release number. */
  lemma RewritesLongerKeys(name: string, current: string, repl: string)
    requires 'v' !in name
    requires |current| > 0 && '"' !in current
    ensures Substitute(name + VersionKey + current + "\"", VersionKey, repl)
         == name + VersionKey + repl + "\""
  {
    var s := name + VersionKey + current + "\"";
    var i := |name|;
    assert s == name + (VersionKey + current + "\"") + "";
    MiddleOfConcat(name, VersionKey + current + "\"", "");
    OccurrenceIsMatch(s, VersionKey, i, current);
    forall k | 0 <= k < i ensures !MatchAt(s, VersionKey, k) {
      assert s[k] == name[k];
      NoMatchAtOtherChar(s, VersionKey, k);
    }
    SubstituteAtFirstMatch(s, VersionKey, repl, i);
    var j := ClosingQuote(s, VersionKey, i);
    assert j == |s| - 1;
    assert s[j + 1..] == "";
    assert s[..i] == name;
  }

  /** The same unanchored pattern makes get_current_version read a longer key: a
      `python_version = "3.9"` that comes first is taken as the project's version. */
  lemma ReadsLongerKeys(name: string, current: string, rest: string)
    requires 'v' !in name
    requires |current| > 0 && '"' !in current
    ensures GetCurrentVersion(name + VersionKey + current + "\"" + rest) == Ok(current)
  {
    var s := name + VersionKey + current + "\"" + rest;
    var i := |name|;
    assert s == name + (VersionKey + current + "\"") + rest;
    MiddleOfConcat(name, VersionKey + current + "\"", rest);
    OccurrenceIsMatch(s, VersionKey, i, current);
    forall k | 0 <= k < i ensures !MatchAt(s, VersionKey, k) {
      assert s[k] == name[k];
      NoMatchAtOtherChar(s, VersionKey, k);
    }
    SearchFindsFirst(s, VersionKey, i);
  }
}
