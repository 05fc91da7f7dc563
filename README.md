# gh-action-bump-maven-version, modelled in Dafny

A GitHub Action that bumps the version of a Maven project after a push. It
reads the texts of the pushed commits and stops early when one of them already
is a version-bump commit. Otherwise it classifies the commits as a `major`,
`minor` or `patch` change. It then looks the current version up in the parsed
`pom.xml` by a slash-separated path, picks the new version (an explicit
override, or the increment of the old one), and fills the two placeholders of
a bump-command template. It splits that command into a program and its
arguments, runs it, commits, and tags with `tagPrefix + newVersion`.

This project models the decision and string logic of that run (`action.js`):

- `Wrappers` (`wrappers.dfy`): `Option` for JavaScript's `null`/`undefined`, `Result` for a thrown error.
- `JsString` (`jsstring.dfy`): the JavaScript string operations the action uses.
  `indexOf`, `includes`, `startsWith`, `toLowerCase`, `split` on one character,
  `join`, and `replace` with a string pattern. `replace` changes only the first
  occurrence and expands `$`-patterns in the replacement text.
- `Classifier` (`classifier.dfy`): `getVersionCommand`.
- `Guard` (`guard.dfy`): the commit texts `message + '\n' + body` and the already-bumped guard.
- `PomPath` (`pompath.dfy`): the descriptor as a tree of JavaScript values; `fetchPath` as an
  imperative loop proved against the nested lookup `Walk`; the splitting of the version path.
- `Action` (`action.dfy`): the configuration defaults, the choice of the new version, the template
  substitution, the tokenising, the tag, and the whole run as the method `Action.Run`.

`Action.Run` returns an `Outcome`, one of four:

- `AlreadyBumped`: success. No output is set, because the `bumped = false` output (action.js:52) comes after the exit.
- `NoNewVersion`: failure with its message.
- `Aborted`: the top-level catch.
- `Bumped`: carries the invocation of the bump command, the commit subject and the tag.

Collaborators the action calls but does not define are inputs to the model:

- the parsed descriptor, or the parser's error;
- `semver.inc`, a function `inc: (Value, Level) -> Option<string>`;
- the configuration values.

Where the action's written description and its code differ, the model follows the code:

- the marker is not lower-cased before the guard's comparison;
- the bump command is split on the single character `' '` (not on white space), so two
  spaces in a row give an empty argument;
- the new version fails only when it is `null`/`undefined`; an empty override means "compute it";
- an empty `INPUT_VERSION-PATH` or `INPUT_BUMP-COMMAND` is kept as is (`!= null`), while an empty
  marker or tag prefix falls back to its default (`||`);
- `tools.exit.*` ends the process, so the no-op run sets no `bumped` output (action.js:52 follows the exit
  at line 51), and a run that reaches the catch ends with its failure (line 93), never with the success at line 95.

## Model

| member | source | states |
|---|---|---|
| JsString.IndexOf | action.js:49 | the result is the first index where the pattern occurs, and None exactly when it occurs nowhere |
| JsString.Includes | action.js:21 | `includes` is true exactly when the pattern occurs at some index |
| JsString.ToLowerConcat | action.js:49 | lower-casing distributes over concatenation |
| JsString.ToLowerHasNoUpper | action.js:24 | a lower-cased text holds no upper-case letter |
| JsString.UpperNeverInLower | action.js:49 | a pattern holding an upper-case letter is never included in a lower-cased text |
| JsString.Split | action.js:77 | `split` yields at least one piece, and no piece contains the separator |
| JsString.SplitThenJoin | action.js:77 | joining the pieces of a split with the separator gives back the string |
| JsString.JoinThenSplit | action.js:77 | splitting the join of separator-free pieces gives back the pieces |
| JsString.SubstitutionPlain | action.js:76 | a replacement text without `$` is inserted verbatim |
| JsString.ReplaceFirst | action.js:76 | without an occurrence the text is unchanged; otherwise only the first occurrence is replaced by the expanded replacement |
| JsString.ReplaceOnlyFirst | action.js:76 | of two adjacent copies of the pattern only the first is replaced |
| Classifier.AnyOf | action.js:21 | `map(test).includes(true)` holds exactly when some message passes the test |
| Classifier.VersionCommand | action.js:20-29 | major iff some text includes "BREAKING CHANGE"; minor iff none does and some lower-cased text starts with "feat"; patch iff neither |
| Classifier.SameTextsSameLevel | action.js:21-24 | the level depends only on which texts occur |
| Classifier.PermutationSameLevel | action.js:21-24 | reordering the commits does not change the level |
| Classifier.MoreCommitsNeverLower | action.js:21-27 | adding commits on either side never lowers the level |
| Classifier.BreakingChangeWins | action.js:21-22 | one breaking-change text makes the level major whatever the other texts are |
| Guard.CommitText | action.js:48 | a commit's text is its message, a newline, and then its body, or "undefined" when the body is absent |
| Guard.Messages | action.js:48 | one text per pushed commit, in order; none when the event has no commit list |
| Guard.IsVersionBump | action.js:49 | the guard holds exactly when some lower-cased text includes the marker as configured |
| Guard.UpperCaseMarkerNeverMatches | action.js:49 | with an upper-case letter in the marker the guard never holds |
| Guard.OwnCommitMissed | action.js:49 | with marker "Version Bump" the action's own commit "ci: Version Bump 1.0.1" does not trigger the guard |
| Guard.IsVersionBumpIgnoringCase | action.js:49 | the intended guard holds exactly when some lower-cased text includes the lower-cased marker |
| Guard.OwnCommitHoldsMarker | action.js:82 | the lower-cased marker occurs at index 4 of the lower-cased text of the action's own commit |
| Guard.OwnCommitRecognised | action.js:82 | the intended guard recognises the action's own commit among any others, for every marker |
| Guard.GuardsAgreeOnLowerCaseMarker | action.js:45-49 | for a lower-case marker, such as the default, both guards agree |
| Guard.OwnCommitStopsNextRun | action.js:45-54 | with a lower-case marker the guard as written stops the run that follows the action's own commit |
| PomPath.WalkAppend | action.js:33-39 | walking `a + b` is walking `a`, then walking `b` from the node reached |
| PomPath.WalkSucceedsOnPrefix | action.js:33-39 | a walk that succeeds succeeds on every prefix of the path |
| PomPath.BlockedUnique | action.js:34-35 | the walk is blocked at one depth only, so the thrown error is determined |
| PomPath.FetchPath | action.js:31-41 | an empty path returns the input; success iff the nested lookup is defined, with its value; on failure the error is the one thrown at the first undefined node, null node or missing key, naming that key and the trail of keys consumed so far |
| PomPath.NotFoundMessageNames | action.js:35 | the descriptive error message names the missing segment and the trail |
| PomPath.ResolverExample | action.js:31-41 | in `{a: {b: "5"}}` the path a/b gives "5" and a/c is blocked at "c" after the trail "/a" |
| PomPath.NonEmpty | action.js:65 | the filter keeps only non-empty pieces of its input |
| PomPath.NonEmptyKeepsTheRest | action.js:65 | the filter drops only the empty pieces: every non-empty piece is kept as often as it occurs |
| PomPath.PathSegments | action.js:65 | every segment is non-empty and free of `/` |
| PomPath.PathSegmentsJoin | action.js:65 | joining the segments with `/` gives the path with leading, trailing and repeated slashes collapsed |
| PomPath.TrailIsJoin | action.js:37 | the trail is `/` followed by the consumed keys joined with `/` |
| PomPath.FullTrail | action.js:37-65 | the trail after all segments is the collapsed version path with a leading `/` |
| PomPath.TrailThenSegments | action.js:61-65 | splitting the trail of non-empty, slash-free keys gives back those keys (so "/project/version" gives "project", "version") |
| Action.ConfigFromEnv | action.js:45-62 | the marker is never empty and falls back on an empty value; the other values fall back only when unset, the bump command to the `mvn ... -DnewVersion=@NEW_VERSION@` template and the version path to `/project/version` |
| Action.Tokenise | action.js:77-79 | rejoining program and arguments with a space gives the command; no token contains a space |
| Action.TokeniseUnique | action.js:77-79 | the program and arguments are the only space-free tokens that rejoin to the command |
| Action.ReplaceAfterPlainPrefix | action.js:76 | a placeholder after an `@`-free prefix is the first occurrence and alone is replaced |
| Action.TemplateLayout | action.js:76 | a template with `@OLD_VERSION@` and later `@NEW_VERSION@` receives the old and the new version in their places, old first |
| Action.Run | action.js:42-96 | guard first (AlreadyBumped iff it holds); then a parse failure, a path failure, no new version, or a bump; an override is used verbatim; the bump command is the tokenised template with both versions substituted; the tag is the prefix plus the new version |

## Left out

- `parsePom` and the `pom-parser` callback: the parsed descriptor, or the parser's error, is an input of `Action.Run`.
- `semver.inc`: it is a library call, so it is the parameter `inc`; the increment rules of SemVer are not modelled.
- `Toolkit.run`, `tools.exit.*`, `core.setOutput` and `tools.log.fatal`: each run ends in an `Outcome`
  that stands for the exit status and the outputs. `tools.exit.*` ends the process, so the first exit decides.
- Every `tools.exec` call (the `git config`, `git commit`, `git tag` and `git push` steps and the bump command itself):
  external processes. `Action.Run` yields the bump invocation, the commit subject and the tag. The model does not
  cover a command that fails.
- The push URL built from the actor, token and repository, and its base64 logging (a credential leak):
  not modelled. The name and e-mail defaults of `git config` are left out as well.
- Reading the environment and the `INPUT_POM-FILE` default: `Action.ConfigFromEnv` takes the values as parameters.
- `JsString.ToLower`: it maps only the ASCII letters A-Z. JavaScript's full Unicode case mapping, which can also change
  a string's length, is not modelled.
- `PomPath.Value`: only objects have own properties. That a string leaf answers `hasOwnProperty` for `"length"` or
  an index is not modelled, nor the prototype chain. There is no separate array value: an array from repeated XML elements can only be given as an object keyed by index.
- A commit whose `message` is not a string is not modelled. A missing `body` is modelled: it becomes the text "undefined".
- The console log lines (`Bumping version ...`, `Running: ...`): output only.

## Findings

| source | as written | input that shows it | evidently intended | confidence | as-written member | corrected member |
|---|---|---|---|---|---|---|
| action.js:49 | the lower-cased commit text is searched for the marker as configured, not lower-cased | marker "Version Bump": the action's own commit `ci: Version Bump 1.0.1` (action.js:82) is not seen as a bump, so the next run bumps again | compare against the lower-cased marker | not executed; high | Guard.OwnCommitMissed | Guard.OwnCommitRecognised |

`Guard.IsVersionBump` is the guard as written. `Guard.IsVersionBumpIgnoringCase` is the
intended guard, proved to recognise the action's own commit for every marker. The two
agree on lower-case markers (`Guard.GuardsAgreeOnLowerCaseMarker`), and the default
marker "version bump" is one. `Action.Run` keeps the guard as written, so that it
describes what the action does.
