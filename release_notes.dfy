/** The commit message, tag name and tag message that create_release writes
    (scripts/version.py). The date is a parameter. */
module ReleaseNotes {
  import opened Wrappers
  import opened Text
  import opened Semver

  /** `* {change}` for each change, in the order given. */
  function BulletLines(changes: seq<string>): (r: seq<string>)
    ensures |r| == |changes|
    ensures forall k :: 0 <= k < |r| ==> r[k] == "* " + changes[k]
  {
    if changes == [] then [] else ["* " + changes[0]] + BulletLines(changes[1..])
  }

  /** The conventional-commit type: a feature for major and minor releases, a fix otherwise. */
  function ChangeType(rt: ReleaseType): string {
    if rt == Major || rt == Minor then "feat" else "fix"
  }

  function Scope(rt: ReleaseType): string {
    match rt
    case Major => "breaking"
    case Minor => "minor"
    case _ => "patch"
  }

  /** `{change_type}({scope})`: `feat(breaking)` for a major release, `feat(minor)` for a
      minor one and `fix(patch)` otherwise. */
  function ConventionalPrefix(rt: ReleaseType): (r: string)
    ensures rt == Major ==> r == "feat(breaking)"
    ensures rt == Minor ==> r == "feat(minor)"
    ensures rt != Major && rt != Minor ==> r == "fix(patch)"
  {
    ChangeType(rt) + "(" + Scope(rt) + ")"
  }

  /** First line of the commit message. It starts with the conventional prefix, a `!` follows
      it exactly when a pre-release is set, the wording is `pre-release` or `release version`
      accordingly, and it ends with the version. */
  function CommitHeader(rt: ReleaseType, version: string, pre: Option<string>): (h: string)
    ensures ConventionalPrefix(rt) <= h
    ensures |ConventionalPrefix(rt)| < |h|
    ensures h[|ConventionalPrefix(rt)|] == '!' <==> IsSet(pre)
    ensures IsSet(pre) ==> ConventionalPrefix(rt) + "!: pre-release " <= h
    ensures !IsSet(pre) ==> ConventionalPrefix(rt) + ": release version " <= h
    ensures |h| == |ConventionalPrefix(rt)| + (if IsSet(pre) then 15 else 18) + |version|
    ensures |version| < |h| && h[|h| - |version|..] == version
  {
    var p := ConventionalPrefix(rt);
    var mid := if IsSet(pre) then "!: pre-release " else ": release version ";
    var h := p + mid + version;
    assert h[..|p|] == p;
    assert h[|p|] == mid[0];
    assert h[..|p| + |mid|] == p + mid;
    assert h[|p| + |mid|..] == version;
    h
  }

  /** The lines of the commit message, in order: the header, the release line, one bullet per
      change in order, and the footer, where the pre-release line comes exactly when a
      pre-release is set and then directly before the release date. */
  function CommitLines(rt: ReleaseType, version: string, date: string, changes: seq<string>, pre: Option<string>): (lines: seq<string>)
    ensures |lines| == |changes| + (if IsSet(pre) then 8 else 7)
    ensures lines[0] == CommitHeader(rt, version, pre)
    ensures lines[1] == "" && lines[2] == "Release " + version + " - " + date
    ensures lines[3] == "" && lines[4] == "Changes:"
    ensures forall k :: 0 <= k < |changes| ==> lines[5 + k] == "* " + changes[k]
    ensures lines[5 + |changes|] == ""
    ensures lines[|lines| - 1] == "Release-Date: " + date
    ensures IsSet(pre) ==> lines[|lines| - 2] == "Pre-release: " + pre.value
    ensures !IsSet(pre) ==> lines[|lines| - 2] == ""
  {
    [CommitHeader(rt, version, pre), "", "Release " + version + " - " + date, "", "Changes:"]
      + BulletLines(changes)
      + [""]
      + (if IsSet(pre) then ["Pre-release: " + pre.value] else [])
      + ["Release-Date: " + date]
  }

  /** Builds the commit message line by line, as create_release does, and joins the lines
      with newlines. */
  method BuildCommitMessage(rt: ReleaseType, version: string, date: string, changes: seq<string>, pre: Option<string>)
    returns (message: string)
    ensures message == JoinLines(CommitLines(rt, version, date, changes, pre))
  {
    var changeType, scope;
    if rt == Major {
      changeType, scope := "feat", "breaking";
    } else if rt == Minor {
      changeType, scope := "feat", "minor";
    } else {
      changeType, scope := "fix", "patch";
    }
    assert changeType == ChangeType(rt) && scope == Scope(rt);
    var prefix := changeType + "(" + scope + ")";
    var lines: seq<string> := [];
    if IsSet(pre) {
      lines := lines + [prefix + "!: pre-release " + version];
    } else {
      lines := lines + [prefix + ": release version " + version];
    }
    lines := lines + [""];
    lines := lines + ["Release " + version + " - " + date];
    lines := lines + [""];
    lines := lines + ["Changes:"];
    ghost var head := lines;
    assert head == [CommitHeader(rt, version, pre), "", "Release " + version + " - " + date, "", "Changes:"];
    for i := 0 to |changes|
      invariant |lines| == 5 + i
      invariant lines[..5] == head
      invariant forall k :: 0 <= k < i ==> lines[5 + k] == "* " + changes[k]
    {
      lines := lines + ["* " + changes[i]];
    }
    assert lines == head + BulletLines(changes) by {
      forall k | 0 <= k < |lines| ensures lines[k] == (head + BulletLines(changes))[k] {
        if k < 5 {
          assert lines[k] == lines[..5][k];
        }
      }
    }
    lines := lines + [""];
    ghost var body := lines;
    if IsSet(pre) {
      lines := lines + ["Pre-release: " + pre.value];
    }
    lines := lines + ["Release-Date: " + date];
    assert lines == body + (if IsSet(pre) then ["Pre-release: " + pre.value] else []) + ["Release-Date: " + date];
    message := JoinLines(lines);
  }

  /** `tag = f"v{new_version}"`. */
  function TagName(version: string): (r: string)
    ensures |r| == |version| + 1 && r[0] == 'v' && r[1..] == version
  {
    "v" + version
  }

  /** The lines of the annotated tag's message: the release line, one bullet per change in
      order, and a pre-release footer exactly when a pre-release is set. */
  function TagLines(version: string, changes: seq<string>, pre: Option<string>): (lines: seq<string>)
    ensures |lines| == |changes| + (if IsSet(pre) then 5 else 3)
    ensures lines[0] == "Release " + version && lines[1] == "" && lines[2] == "Changes:"
    ensures forall k :: 0 <= k < |changes| ==> lines[3 + k] == "* " + changes[k]
    ensures IsSet(pre) ==> lines[|lines| - 2] == "" && lines[|lines| - 1] == "Pre-release: " + pre.value
  {
    ["Release " + version, "", "Changes:"]
      + BulletLines(changes)
      + (if IsSet(pre) then ["", "Pre-release: " + pre.value] else [])
  }

  lemma NoNewlineInConcat(a: string, b: string)
    requires '\n' !in a && '\n' !in b
    ensures '\n' !in a + b
  {
  }

  lemma BulletsHaveNoNewline(changes: seq<string>)
    requires NoNewlines(changes)
    ensures NoNewlines(BulletLines(changes))
  {
    var bullets := BulletLines(changes);
    forall k | 0 <= k < |bullets| ensures '\n' !in bullets[k] {
      NoNewlineInConcat("* ", changes[k]);
    }
  }

  lemma HeaderHasNoNewline(rt: ReleaseType, version: string, pre: Option<string>)
    requires '\n' !in version
    ensures '\n' !in CommitHeader(rt, version, pre)
  {
    assert '\n' !in ChangeType(rt) && '\n' !in Scope(rt);
    assert '\n' !in ConventionalPrefix(rt);
  }

  /** The pre-release footer lines: one line in the commit and two in the tag when set. */
  lemma FooterHasNoNewline(pre: Option<string>)
    requires pre.Some? ==> '\n' !in pre.value
    ensures NoNewlines(if IsSet(pre) then ["Pre-release: " + pre.value] else [])
    ensures NoNewlines(if IsSet(pre) then ["", "Pre-release: " + pre.value] else [])
  {
    if IsSet(pre) {
      NoNewlineInConcat("Pre-release: ", pre.value);
    }
  }

  /** When neither the version, the date, the pre-release nor any change holds a newline,
      the commit message splits back into exactly its lines: the header, the body, one line
      per change and the footer. */
  lemma CommitMessageSplits(rt: ReleaseType, version: string, date: string, changes: seq<string>, pre: Option<string>)
    requires '\n' !in version && '\n' !in date
    requires NoNewlines(changes)
    requires pre.Some? ==> '\n' !in pre.value
    ensures SplitLines(JoinLines(CommitLines(rt, version, date, changes, pre)))
         == CommitLines(rt, version, date, changes, pre)
  {
    var head := [CommitHeader(rt, version, pre), "", "Release " + version + " - " + date, "", "Changes:"];
    var footer := if IsSet(pre) then ["Pre-release: " + pre.value] else [];
    HeaderHasNoNewline(rt, version, pre);
    NoNewlineInConcat("Release " + version + " - ", date);
    assert NoNewlines(head);
    BulletsHaveNoNewline(changes);
    FooterHasNoNewline(pre);
    NoNewlineInConcat("Release-Date: ", date);
    NoNewlinesAppend(head, BulletLines(changes));
    NoNewlinesAppend(head + BulletLines(changes), [""]);
    NoNewlinesAppend(head + BulletLines(changes) + [""], footer);
    NoNewlinesAppend(head + BulletLines(changes) + [""] + footer, ["Release-Date: " + date]);
    SplitJoin(CommitLines(rt, version, date, changes, pre));
  }

  /** The same for the tag message. */
  lemma TagMessageSplits(version: string, changes: seq<string>, pre: Option<string>)
    requires '\n' !in version
    requires NoNewlines(changes)
    requires pre.Some? ==> '\n' !in pre.value
    ensures SplitLines(JoinLines(TagLines(version, changes, pre))) == TagLines(version, changes, pre)
  {
    var head := ["Release " + version, "", "Changes:"];
    NoNewlineInConcat("Release ", version);
    assert NoNewlines(head);
    BulletsHaveNoNewline(changes);
    FooterHasNoNewline(pre);
    NoNewlinesAppend(head, BulletLines(changes));
    NoNewlinesAppend(head + BulletLines(changes), if IsSet(pre) then ["", "Pre-release: " + pre.value] else []);
    SplitJoin(TagLines(version, changes, pre));
  }
}
