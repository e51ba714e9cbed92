/** Splicing a release section into CHANGELOG.md (scripts/version.py, create_release).
    The file's contents are an Option: None when the file does not exist. */
module Changelog {
  import opened Wrappers
  import opened Text
  import ReleaseNotes

  /** The text that starts a level-two heading after the first line: `"\n## "`. */
  const HeadingMark: string := "\n## "

  /** `chr(10).join(f'* {change}' for change in changes)`. */
  function Bullets(changes: seq<string>): string {
    JoinLines(ReleaseNotes.BulletLines(changes))
  }

  /** The new release's section, from its heading to its last bullet. */
  function Section(version: string, date: string, changes: seq<string>): string {
    "## [" + version + "] - " + date + "\n\n### Changes\n" + Bullets(changes)
  }

  /** The new contents of CHANGELOG.md: the section goes before the first level-two heading,
      at the end when there is none, and into a fresh file when there is no file. With a
      heading present, the result is the old contents with one block inserted where the first
      heading was, and deleting that block gives the old contents back; without one, the old
      contents are kept and the section follows a blank line; a fresh file is the
      `# Changelog` title, a blank line and the section. */
  function UpdateChangelog(current: Option<string>, version: string, date: string, changes: seq<string>): (r: string)
    ensures current.Some? && IndexOf(current.value, HeadingMark).Some? ==>
              var c := current.value;
              var i := IndexOf(c, HeadingMark).value;
              var block := "\n" + Section(version, date, changes) + "\n";
              && r == c[..i] + block + c[i..]
              && r[..i] + r[i + |block|..] == c
    ensures current.Some? && IndexOf(current.value, HeadingMark).None? ==>
              current.value <= r && r[|current.value|..] == "\n\n" + Section(version, date, changes) + "\n"
    ensures current.None? ==> "# Changelog\n\n" <= r && r[13..] == Section(version, date, changes) + "\n"
  {
    var section := Section(version, date, changes);
    match current
    case None =>
      var r := "# Changelog\n\n" + (section + "\n");
      assert r[..13] == "# Changelog\n\n" && r[13..] == section + "\n";
      r
    case Some(c) =>
      match IndexOf(c, HeadingMark)
      case Some(i) =>
        InsertAtHeading(c, i, section);
        c[..i] + "\n" + section + "\n\n## " + c[i + |HeadingMark|..]
      case None =>
        var r := c + "\n\n" + section + "\n";
        assert r == c + ("\n\n" + section + "\n");
        r
  }

  /** Splitting at the heading at `i` and joining the parts around the new section inserts
      one block at `i`; deleting it restores the old text. */
  lemma InsertAtHeading(c: string, i: nat, section: string)
    requires i + |HeadingMark| <= |c| && OccursAt(c, HeadingMark, i)
    ensures var r := c[..i] + "\n" + section + "\n\n## " + c[i + |HeadingMark|..];
            var block := "\n" + section + "\n";
            && r == c[..i] + block + c[i..]
            && r[..i] + r[i + |block|..] == c
  {
    var block := "\n" + section + "\n";
    var r := c[..i] + "\n" + section + "\n\n## " + c[i + 4..];
    assert c[i..] == HeadingMark + c[i + 4..] by {
      assert c[i..i + 4] == HeadingMark;
    }
    assert r == c[..i] + block + c[i..];
    assert r[..i] == c[..i];
    assert r[i + |block|..] == c[i..];
    assert c[..i] + c[i..] == c;
  }

  lemma HeadingMarkHeadIsUnique()
    ensures |HeadingMark| == 4
    ensures forall k :: 0 < k < |HeadingMark| ==> HeadingMark[k] != HeadingMark[0]
  {
    assert HeadingMark[1] == '#' && HeadingMark[2] == '#' && HeadingMark[3] == ' ';
  }

  /** No heading occurs before index `i` of `c` exactly when none occurs in `c[..i]`. */
  lemma NoHeadingInPrefix(c: string, i: nat)
    requires i <= |c|
    requires forall j :: 0 <= j < i ==> !OccursAt(c, HeadingMark, j)
    ensures IndexOf(c[..i], HeadingMark).None?
  {
    forall j | 0 <= j ensures !OccursAt(c[..i], HeadingMark, j) {
      if j + 4 <= i {
        assert c[..i][j..j + 4] == c[j..j + 4];
        assert !OccursAt(c, HeadingMark, j);
      }
    }
  }

  /** The block `y` begins with the section's heading, so the first heading of `y` is at `at`. */
  lemma SectionHeadingAt(y: string, at: nat, section: string)
    requires "## [" <= section
    requires at + |section| < |y| && y[at..at + 1 + |section|] == "\n" + section
    requires forall j :: 0 <= j < at ==> !OccursAt(y, HeadingMark, j)
    ensures IndexOf(y, HeadingMark) == Some(at)
  {
    assert y[at..at + 4] == y[at..at + 1 + |section|][..4] == HeadingMark;
    IndexOfIs(y, HeadingMark, at);
  }

  /** When `y` starts with a newline and its first heading at `at` opens `section`, and `x`
      holds no heading, then the first heading of `x + y` opens `section`. */
  lemma FirstHeadingOfJoin(x: string, y: string, at: nat, section: string)
    requires IndexOf(x, HeadingMark).None?
    requires |y| > 0 && y[0] == '\n'
    requires "## [" <= section
    requires at + |section| < |y| && y[at..at + 1 + |section|] == "\n" + section
    requires forall j :: 0 <= j < at ==> !OccursAt(y, HeadingMark, j)
    ensures IndexOf(x + y, HeadingMark) == Some(|x| + at)
    ensures OccursAt(x + y, "\n" + section, |x| + at)
  {
    HeadingMarkHeadIsUnique();
    SectionHeadingAt(y, at, section);
    IndexOfAfter(x, y, HeadingMark);
    assert (x + y)[|x| + at..|x| + at + 1 + |section|] == y[at..at + 1 + |section|];
  }

  lemma NewestFirstWhenInserted(c: string, i: nat, section: string)
    requires i <= |c| && OccursAt(c, HeadingMark, i)
    requires forall j :: 0 <= j < i ==> !OccursAt(c, HeadingMark, j)
    requires "## [" <= section
    ensures var r := c[..i] + ("\n" + section + "\n") + c[i..];
            IndexOf(r, HeadingMark) == Some(i) && OccursAt(r, "\n" + section, i)
  {
    var x, y := c[..i], "\n" + section + "\n" + c[i..];
    assert c[..i] + ("\n" + section + "\n") + c[i..] == x + y;
    NoHeadingInPrefix(c, i);
    assert y[0..1 + |section|] == "\n" + section;
    FirstHeadingOfJoin(x, y, 0, section);
  }

  lemma NewestFirstWhenAppended(c: string, section: string)
    requires IndexOf(c, HeadingMark).None?
    requires "## [" <= section
    ensures var r := c + ("\n\n" + section + "\n");
            IndexOf(r, HeadingMark) == Some(|c| + 1) && OccursAt(r, "\n" + section, |c| + 1)
  {
    var y := "\n\n" + section + "\n";
    assert !OccursAt(y, HeadingMark, 0) by {
      assert y[..4][1] == '\n' != HeadingMark[1];
    }
    assert y[1..2 + |section|] == "\n" + section;
    FirstHeadingOfJoin(c, y, 1, section);
  }

  /** Every section opens with `"## ["`. */
  lemma SectionOpensHeading(version: string, date: string, changes: seq<string>)
    ensures "## [" <= Section(version, date, changes)
  {
    var section := Section(version, date, changes);
    assert section == "## [" + (version + "] - " + date + "\n\n### Changes\n" + Bullets(changes));
  }

  /** The first heading of `r` opens `section`. */
  predicate NewestFirst(r: string, section: string) {
    IndexOf(r, HeadingMark).Some? && OccursAt(r, "\n" + section, IndexOf(r, HeadingMark).value)
  }

  lemma NewestFirstInFreshFile(version: string, date: string, changes: seq<string>)
    ensures NewestFirst(UpdateChangelog(None, version, date, changes), Section(version, date, changes))
  {
    var section := Section(version, date, changes);
    SectionOpensHeading(version, date, changes);
    AbsentHead("# Changelog", HeadingMark);
    assert UpdateChangelog(None, version, date, changes) == "# Changelog" + ("\n\n" + section + "\n");
    NewestFirstWhenAppended("# Changelog", section);
  }

  lemma NewestFirstInFileWithHeading(c: string, version: string, date: string, changes: seq<string>)
    requires IndexOf(c, HeadingMark).Some?
    ensures NewestFirst(UpdateChangelog(Some(c), version, date, changes), Section(version, date, changes))
  {
    var section := Section(version, date, changes);
    var i := IndexOf(c, HeadingMark).value;
    SectionOpensHeading(version, date, changes);
    NewestFirstWhenInserted(c, i, section);
  }

  lemma NewestFirstInFileWithoutHeading(c: string, version: string, date: string, changes: seq<string>)
    requires IndexOf(c, HeadingMark).None?
    ensures NewestFirst(UpdateChangelog(Some(c), version, date, changes), Section(version, date, changes))
  {
    var section := Section(version, date, changes);
    SectionOpensHeading(version, date, changes);
    assert UpdateChangelog(Some(c), version, date, changes) == c + ("\n\n" + section + "\n");
    NewestFirstWhenAppended(c, section);
  }

  /** Whatever the old file held, the first level-two heading of the new file is the new
      release's: the newest release is listed first. */
  lemma NewestReleaseFirst(current: Option<string>, version: string, date: string, changes: seq<string>)
    ensures NewestFirst(UpdateChangelog(current, version, date, changes), Section(version, date, changes))
  {
    match current {
      case None => NewestFirstInFreshFile(version, date, changes);
      case Some(c) =>
        if IndexOf(c, HeadingMark).Some? {
          NewestFirstInFileWithHeading(c, version, date, changes);
        } else {
          NewestFirstInFileWithoutHeading(c, version, date, changes);
        }
    }
  }

  /** Only a heading after a newline counts: a file whose only level-two heading is on its
      first line keeps that heading on top, and the new section goes after it. */
  lemma FirstLineHeadingStaysFirst(c: string, version: string, date: string, changes: seq<string>)
    requires "## " <= c && IndexOf(c, HeadingMark).None?
    ensures var r := UpdateChangelog(Some(c), version, date, changes);
            "## " <= r && r[|c|..] == "\n\n" + Section(version, date, changes) + "\n"
  {
    var r := UpdateChangelog(Some(c), version, date, changes);
    assert r[..3] == c[..3];
  }
}
