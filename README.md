# Release tooling of langchain-prolog, modelled in Dafny

`scripts/version.py` cuts a release of the package. It checks that the git working tree is clean. It reads the current version from `pyproject.toml` and bumps it by Semantic Versioning rules. It rewrites the version in `pyproject.toml` and `docs/conf.py`. It commits with a Conventional Commits message, creates an annotated tag `v<version>`, and splices a new section into `CHANGELOG.md`.

This project models the text transformations behind that run. File contents, the clean-tree check and the date are parameters. A run's outcome is a `Result` holding either the error the script raises or a `ReleasePlan`. The plan records:

- the new version;
- the rewritten files;
- the commit message;
- the tag and its message;
- the new changelog.

Modules, one per concern of the script:

- `Wrappers` (wrappers.dfy): `Option`, `Result` and the script's own errors.
- `Text` (text.dfy): character runs, decimal numerals, leftmost substring search, and joining/splitting on newlines.
- `Semver` (semver.dfy): `ReleaseType`, the version pattern `(\d+)\.(\d+)\.(\d+)(?:-([a-zA-Z]+)\.(\d+))?` as an anchored matcher, the bump rules, version formatting, and `bump_version` as a method.
- `VersionFile` (version_file.dfy): `re.search` and `re.sub` on `version = "..."` and `release = "..."`, plus `get_current_version` and `update_files`.
- `ReleaseNotes` (release_notes.dfy): the commit message (a method that accumulates lines in a loop, as the script does), the tag name and the tag message.
- `Changelog` (changelog.dfy): the three ways `CHANGELOG.md` is rewritten.
- `Release` (release.dfy): `create_release` as a whole.

Several behaviours of the script are stated and proved as they are:

- A version that carries a pre-release tag reads as its numbers alone: `1.2.3-rc.2` is 1.2.3.
- A patch release after a pre-release therefore moves past the pre-released version: `1.2.3-rc.2` becomes `1.2.4`.
- `alpha`, `beta` and `rc` release types leave all three numbers alone. A new pre-release counter is always `.1`.
- The substitution in pyproject.toml also rewrites longer keys ending in `version = "`, such as `python_version = "3.10"`.
- The new changelog section is always the first level-two heading of the new file that follows a newline. A `## ` heading on the file's very first line does not count, so such a file keeps that heading on top; the new section goes before the next heading that follows a newline, or at the end when there is none.

## Model

| member | source | states |
|---|---|---|
| Semver.ReleaseTypeOf | scripts/version.py:21-28 | the enum lookup `ReleaseType(value)` returns the member whose value is `value`, and it returns one whenever a member has that value |
| Semver.Next | scripts/version.py:57-64 | major, minor and patch bumps give a version that strictly follows the old one; major resets minor and patch; minor keeps major and resets patch; patch keeps major and minor; pre-release types leave the numbers unchanged |
| Semver.NextIsLeast | scripts/version.py:57-64 | no version lies strictly between a version and its next patch; every version between a version and its next minor is on its minor line; every version before the next major keeps the major number |
| Semver.MatchVersion | scripts/version.py:49 | a successful `re.match` yields three digit-run groups and an optional pre-release of a letter run and a digit run |
| Semver.MatchedTextIsPrefix | scripts/version.py:49 | the text a match covers is a prefix of the input: the pattern is anchored at the start only |
| Semver.MatchVersionAccepts | scripts/version.py:49-54 | every `a.b.c` with digit runs is accepted; when no digit follows, the groups are exactly `a`, `b`, `c` and the rest is matched only as an optional pre-release |
| Semver.ParseVersion | scripts/version.py:49-54 | the error is `InvalidVersionFormat(current)`, and it happens exactly when the pattern does not match at the start; otherwise the numbers are the decimal values of the three groups, which begin the text |
| Semver.SuffixIgnored | scripts/version.py:49-54 | text after the version numbers (that does not start with a digit) does not change the parsed numbers, which are the decimal values of the groups |
| Semver.FormatVersion | scripts/version.py:67-71 | the pattern's three groups are the numerals `str(n)` of the three numbers, and the text after them is exactly `-<pre>.1` when the pre-release is set and empty otherwise; parsing a formatted version gives back its numbers, with or without a pre-release; it contains `-` exactly when the pre-release is set (Python truthiness: present and non-empty); it ends with a digit; it contains no `"` unless the pre-release does |
| Semver.FormatWithoutPreRelease | scripts/version.py:67-71 | without a pre-release, the formatted version matches the pattern with no pre-release group, and the match covers the whole text |
| Semver.FormatWithPreRelease | scripts/version.py:70-71 | with a letters-only pre-release `p`, the formatted version matches with pre-release group `p` and counter `1`, and the match covers the whole text |
| Semver.BumpVersion | scripts/version.py:40-74 | an unparsable current version gives `InvalidVersionFormat(current)`; otherwise the result is the formatted bumped version, which parses back to the bumped numbers and carries a hyphen exactly when a pre-release is set |
| Semver.PreReleaseVersionReadsAsNumbers | scripts/version.py:49-54 | `1.2.3-rc.2` parses as 1.2.3 |
| Semver.PatchAfterPreRelease | scripts/version.py:63-67 | a patch bump of 1.2.3 without a pre-release gives `1.2.4` |
| Semver.MinorPreRelease | scripts/version.py:60-71 | a minor bump of 0.9.12 with pre-release `rc` gives `0.10.0-rc.1` |
| Text.NatToString | scripts/version.py:67 | the text `str(n)` is a run of digits whose decimal value is `n`; the only numeral that starts with `0` is `"0"`, the text for 0 |
| Text.IndexOf | scripts/version.py:222-223 | the reported index is the leftmost occurrence of the pattern, and None means the pattern occurs nowhere |
| Text.SplitJoin | scripts/version.py:183 | lines without newlines are recovered by splitting their `"\n".join` |
| VersionFile.MatchIsOccurrence | scripts/version.py:34 | a match of `KEY[^"]+"` at a position is the text `KEY<v>"` there, with `v` its group |
| VersionFile.OccurrenceIsMatch | scripts/version.py:34 | every `KEY<v>"` with `v` non-empty and quote-free is a match whose group is `v` |
| VersionFile.FirstMatchFrom | scripts/version.py:34 | the position found is a match at or after the start position with no match between them, and None means there is no match from there on |
| VersionFile.Search | scripts/version.py:34 | `re.search` finds nothing exactly when no position matches; a found group is non-empty and quote-free |
| VersionFile.SearchFindsFirst | scripts/version.py:34-38 | the group reported is the one at the leftmost match |
| VersionFile.GetCurrentVersion | scripts/version.py:30-38 | the error is `VersionNotFound` exactly when no `version = "..."` occurs; otherwise the result is the group of the leftmost match, which is non-empty, quote-free and stands in the file between `version = "` and a closing quote |
| VersionFile.ReadsLongerKeys | scripts/version.py:34 | the unanchored pattern reads the value of a longer key such as `python_version = "..."` when it comes first |
| VersionFile.SubstituteKeepsGaps | scripts/version.py:83-87 | this is the specification of `Substitute`, the model of `re.sub` at 83-87 and 95-99: a text is its gaps between matches joined by `KEY<group>"`, and `re.sub` gives the same gaps joined by `KEY<replacement>"`, one per match, so the text outside the matches is kept |
| VersionFile.SubstituteRewritesAll | scripts/version.py:83-87 | after `re.sub` every match carries the replacement, provided the replacement cannot form a match with its surroundings; a text whose every match already carries the replacement is left unchanged |
| VersionFile.SubstituteIdempotent | scripts/version.py:83-87 | for a replacement that is non-empty, holds no `"` and does not end with the character before the key's quote (a space for both keys), running the substitution twice gives the same text as running it once |
| VersionFile.SubstituteWithoutMatch | scripts/version.py:83-87 | `re.sub` leaves a text without a match unchanged |
| VersionFile.ReadAfterSubstitute | scripts/version.py:83-87 | for a non-empty replacement without `"`, after rewriting a text that has a match, searching for the key yields the replacement |
| VersionFile.UpdateFiles | scripts/version.py:76-101 | docs/conf.py is rewritten exactly when it exists; each file is rebuilt from the same text between matches with every matched value replaced by the new version; when the new version is non-empty, holds no `"` and does not end with a space, afterwards every `version = "..."` in pyproject.toml and every `release = "..."` in conf.py reads the new version; and a file whose matches all read it already is left unchanged |
| VersionFile.UpdateFilesReadBack | scripts/version.py:76-101 | for a non-empty new version without `"`, after `update_files`, `get_current_version` returns the new version and conf.py's release reads the new version; files without a match are unchanged |
| VersionFile.RewritesLongerKeys | scripts/version.py:83-87 | an unanchored `version = "` pattern also rewrites a key such as `python_version = "..."` |
| ReleaseNotes.BulletLines | scripts/version.py:173-174 | one `* change` line per change, in order |
| ReleaseNotes.ConventionalPrefix | scripts/version.py:145-153 | major gives `feat(breaking)`, minor `feat(minor)`, every other type `fix(patch)` |
| ReleaseNotes.CommitHeader | scripts/version.py:159-162 | the header starts with the conventional prefix, has the breaking-change `!` right after it exactly when a pre-release is set, reads `pre-release` or `release version` accordingly, and ends with the version, so its length is the prefix's plus the fixed wording's plus the version's |
| ReleaseNotes.CommitLines | scripts/version.py:156-180 | the commit has the header, a blank line, the release line, a blank line, the changes with one bullet per change in order, a pre-release footer only when one is set, and `Release-Date` last |
| ReleaseNotes.BuildCommitMessage | scripts/version.py:145-183 | the message the loop builds is the newline join of the commit's lines |
| ReleaseNotes.TagName | scripts/version.py:197 | the tag is `v` followed by the version |
| ReleaseNotes.TagLines | scripts/version.py:201-209 | the tag message opens with `Release <version>`, a blank line and `Changes:`, has one bullet per change in order, and ends with a blank line and a pre-release footer only when one is set |
| ReleaseNotes.CommitMessageSplits | scripts/version.py:156-183 | when no part has a newline, the commit message splits back into its lines |
| ReleaseNotes.TagMessageSplits | scripts/version.py:201-212 | when no part has a newline, the tag message splits back into its lines |
| Changelog.UpdateChangelog | scripts/version.py:219-244 | with a `"\n## "` heading present, the new file is the old one with the section block inserted at the first heading, and removing the block gives the old file back; without one, the old file is kept as a prefix and the section follows a blank line; with no file, the new one is the `# Changelog` title, a blank line, and the section |
| Changelog.NewestFirstInFreshFile | scripts/version.py:238-244 | a fresh changelog's first level-two heading that follows a newline opens the new section |
| Changelog.NewestReleaseFirst | scripts/version.py:216-244 | in every case, the first level-two heading that follows a newline in the new changelog opens the new release's section |
| Changelog.FirstLineHeadingStaysFirst | scripts/version.py:222 | a file whose only level-two heading is on its first line still starts with that heading, and the new section is appended after it |
| Release.CreateRelease | scripts/version.py:103-246 | a dirty tree, a missing version and an unparsable version give their errors, checked in that order, and success happens exactly otherwise; on success, the plan holds the bumped version, `update_files`' output, the commit and tag messages, and the new changelog; the version parses to the bumped numbers, the changelog lists it first, and when the pre-release holds no quote every version and release entry of the rewritten files carries the new version and `get_current_version` reads it back |

## Left out

- Running git is not modelled: `git status`, `git add`, `git commit`, `git tag` and `git describe`. Whether the tree is clean is a boolean parameter, and the commit and tag are returned as text. That `CHANGELOG.md` is written after the commit and the tag, and so is not part of the release commit, is therefore outside the model.
- `rollback` and the exception handlers around `create_release` (scripts/version.py:254-285) run git commands only, so they are not modelled. They also run on the three errors `create_release` models: each is raised inside the `try`, so `rollback` runs `git reset --hard HEAD` and deletes the latest tag that `git describe` reports, even though no tag was made by this run.
- File I/O is not modelled. Contents are parameters. docs/conf.py and CHANGELOG.md are `None` when they do not exist. pyproject.toml is always given, so the `FileNotFoundError` that `read_text` raises when it is missing (scripts/version.py:33 and :82) is not modelled.
- `datetime.now()` is not modelled. The date is a string parameter.
- Logging, `argparse` and the `__main__` block are not modelled; only the mapping from a type's value to `ReleaseType` is modelled. The command line restricts the pre-release to `alpha`, `beta` or `rc`; the model accepts any text, as `create_release` itself does.
- Semver.MatchVersion: `\d` is modelled as ASCII `0`-`9`. Python's `re` on `str` also accepts other Unicode decimal digits.
- VersionFile.Substitute: the replacement is taken literally. Python would also process backslash escapes and group references in `new_version`; the versions `bump_version` builds contain neither unless the pre-release text does.
- VersionFile.SubstituteRewritesAll: that every match afterwards carries the replacement is proved only for a replacement that is non-empty, holds no `"`, and does not end with a space. A replacement ending in `version = ` would form, together with its own closing quote, a new occurrence of the key. Every version `bump_version` builds ends with a digit.
- VersionFile.SubstituteIdempotent, VersionFile.ReadAfterSubstitute, VersionFile.UpdateFiles and VersionFile.UpdateFilesReadBack: the read-back, idempotence and every-match-rewritten facts are proved only for a replacement that is non-empty and holds no `"` (and, for idempotence and the every-match clause of UpdateFiles, does not end with a space). A replacement such as `a"b` turns `version = "x"` into `version = "a"b"`, which reads back as `a` and changes again on a second run. Versions built by `bump_version` meet the condition whenever the pre-release holds no `"`.
- NewestReleaseFirst: only a heading that follows a newline counts, as in the script's `"\n## " in` test. A `## ` heading on a changelog's first line stays ahead of the new section; the section goes before the next heading that follows a newline, or at the end when there is none. FirstLineHeadingStaysFirst states the case with no such later heading.
- Release.CreateRelease: the clean check is given as a boolean rather than as the output of `git status --porcelain` stripped of whitespace.
- scripts/bump_version.py, docs/conf.py and the tests are not part of this model.
- The langchain_prolog package itself is not part of this model.
