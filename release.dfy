/** `create_release` (scripts/version.py): the whole release run, with the file contents and
    the state of the working tree passed in and the files, commit and tag it would produce
    returned as one plan. */
module Release {
  import opened Wrappers
  import opened Text
  import opened Semver
  import opened VersionFile
  import opened ReleaseNotes
  import opened Changelog

  /** What a successful run writes: the new version, the rewritten pyproject.toml and
      docs/conf.py, the commit message, the tag and its message, and the new CHANGELOG.md. */
  datatype ReleasePlan = ReleasePlan(
    version: string,
    files: ProjectFiles,
    commitMessage: string,
    tag: string,
    tagMessage: string,
    changelog: string)

  /** A release run. `clean` says whether `git status --porcelain` printed nothing but
      whitespace; `changelog` is None when CHANGELOG.md does not exist; `date` is the day of
      the run as `YYYY-MM-DD`. */
  method CreateRelease(rt: ReleaseType, changes: seq<string>, pre: Option<string>, clean: bool,
                       files: ProjectFiles, changelog: Option<string>, date: string)
    returns (r: Result<ReleasePlan, ReleaseError>)
    // the three ways the run stops before writing any file, in the order they are checked
    ensures !clean ==> r == Err(WorkingTreeNotClean)
    ensures clean && GetCurrentVersion(files.pyproject).Err? ==> r == Err(VersionNotFound)
    ensures clean && GetCurrentVersion(files.pyproject).Ok?
            && ParseVersion(GetCurrentVersion(files.pyproject).value).Err? ==>
              r == Err(InvalidVersionFormat(GetCurrentVersion(files.pyproject).value))
    ensures r.Ok? <==> clean && GetCurrentVersion(files.pyproject).Ok?
                       && ParseVersion(GetCurrentVersion(files.pyproject).value).Ok?
    // what a successful run produces
    ensures r.Ok? ==>
              var current := ParseVersion(GetCurrentVersion(files.pyproject).value).value;
              var p := r.value;
              && p.version == FormatVersion(Next(rt, current), pre)
              && p.files == UpdateFiles(files, p.version)
              && p.commitMessage == JoinLines(CommitLines(rt, p.version, date, changes, pre))
              && p.tag == TagName(p.version)
              && p.tagMessage == JoinLines(TagLines(p.version, changes, pre))
              && p.changelog == UpdateChangelog(changelog, p.version, date, changes)
    // the new version is the bumped one, the next run reads it back, and the changelog lists it first
    ensures r.Ok? ==>
              var current := ParseVersion(GetCurrentVersion(files.pyproject).value).value;
              && ParseVersion(r.value.version) == Ok(Next(rt, current))
              && (IsNumericBump(rt) ==> Precedes(current, Next(rt, current)))
              && NewestFirst(r.value.changelog, Section(r.value.version, date, changes))
    // with a quote-free pre-release, every version = "..." and release = "..." now carries the
    // new version, and the next run reads it back
    ensures r.Ok? && (pre.None? || '"' !in pre.value) ==>
              && AllValues(r.value.files.pyproject, VersionKey, r.value.version)
              && (r.value.files.conf.Some? ==> AllValues(r.value.files.conf.value, ReleaseKey, r.value.version))
              && GetCurrentVersion(r.value.files.pyproject) == Ok(r.value.version)
  {
    if !clean {
      return Err(WorkingTreeNotClean);
    }
    var current := GetCurrentVersion(files.pyproject);
    if current.Err? {
      return Err(current.error);
    }
    var bumped := BumpVersion(rt, pre, current.value);
    if bumped.Err? {
      return Err(bumped.error);
    }
    var newVersion := bumped.value;
    var updated := UpdateFiles(files, newVersion);
    var commitMessage := BuildCommitMessage(rt, newVersion, date, changes, pre);
    var tag := TagName(newVersion);
    var tagMessage := JoinLines(TagLines(newVersion, changes, pre));
    var newChangelog := UpdateChangelog(changelog, newVersion, date, changes);
    NewestReleaseFirst(changelog, newVersion, date, changes);
    if pre.None? || '"' !in pre.value {
      SafeForBothKeys(newVersion);
      UpdateFilesReadBack(files, newVersion);
    }
    r := Ok(ReleasePlan(newVersion, updated, commitMessage, tag, tagMessage, newChangelog));
  }
}
