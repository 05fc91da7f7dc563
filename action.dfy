/**
 * One run of the action: the guard, the classification, the version lookup, the
 * choice of the new version, the bump command built from its template, and the tag.
 * The commands themselves are not run here; a bumping run yields what it would execute.
 */
module Action {
  import opened Wrappers
  import opened JsString
  import opened Classifier
  import opened Guard
  import opened PomPath

  /** The action's inputs after the defaults have been applied. */
  datatype Config = Config(
    marker: string,        // INPUT_COMMIT-MESSAGE
    tagPrefix: string,     // INPUT_TAG-PREFIX
    bumpCommand: string,   // INPUT_BUMP-COMMAND
    versionPath: string,   // INPUT_VERSION-PATH
    version: string)       // INPUT_VERSION, the explicit override

  const DefaultMarker := "version bump"
  const DefaultBumpCommand := "mvn org.codehaus.mojo:versions-maven-plugin:set -DnewVersion=@NEW_VERSION@"
  const DefaultVersionPath := "/project/version"

  /**
   * The defaults: `||` for the marker and the tag prefix (an empty value falls back
   * too), `!= null` for the others (an empty value is kept).
   */
  function ConfigFromEnv(marker: Option<string>, tagPrefix: Option<string>, bumpCommand: Option<string>,
                         versionPath: Option<string>, version: Option<string>): (c: Config)
    ensures c.marker != []
    ensures c.marker == (if marker.Some? && marker.value != [] then marker.value else DefaultMarker)
    ensures c.tagPrefix == (if tagPrefix.Some? then tagPrefix.value else [])
    ensures bumpCommand.Some? ==> c.bumpCommand == bumpCommand.value
    ensures bumpCommand.None? ==> c.bumpCommand == DefaultBumpCommand
    ensures versionPath.Some? ==> c.versionPath == versionPath.value
    ensures versionPath.None? ==> c.versionPath == DefaultVersionPath
    ensures c.version == (if version.Some? then version.value else [])
  {
    Config(
      if marker.Some? && marker.value != [] then marker.value else DefaultMarker,
      if tagPrefix.Some? && tagPrefix.value != [] then tagPrefix.value else [],
      if bumpCommand.Some? then bumpCommand.value else DefaultBumpCommand,
      if versionPath.Some? then versionPath.value else DefaultVersionPath,
      if version.Some? then version.value else [])
  }

  /** JavaScript's `String(v)`, used when the old version is written into text. */
  function JsToString(v: Value): string
  {
    match v
    case Undefined => "undefined"
    case Null => "null"
    case Text(s) => s
    case Object(_) => "[object Object]"
  }

  /** A program and its arguments, as handed to the command runner. */
  datatype Invocation = Invocation(program: string, args: seq<string>)

  /** The template with the first `@OLD_VERSION@` replaced, and then the first `@NEW_VERSION@`. */
  function SubstituteTemplate(template: string, oldVersion: string, newVersion: string): string
  {
    ReplaceFirst(ReplaceFirst(template, "@OLD_VERSION@", oldVersion), "@NEW_VERSION@", newVersion)
  }

  /** `command.split(' ')` taken apart as `commandArray[0]` and `commandArray.splice(1)`. */
  function Tokenise(command: string): (r: Invocation)
    ensures Join([r.program] + r.args, " ") == command
    ensures ' ' !in r.program
    ensures forall k :: 0 <= k < |r.args| ==> ' ' !in r.args[k]
  {
    var parts := Split(command, ' ');
    SplitThenJoin(command, ' ');
    assert parts == [parts[0]] + parts[1..];
    Invocation(parts[0], parts[1..])
  }

  /** The tokens are the only space-free ones that join back to the command. */
  lemma TokeniseUnique(program: string, args: seq<string>)
    requires ' ' !in program
    requires forall k :: 0 <= k < |args| ==> ' ' !in args[k]
    ensures Tokenise(Join([program] + args, " ")) == Invocation(program, args)
  {
    JoinThenSplit([program] + args, ' ');
    assert ([program] + args)[1..] == args;
  }

  /** A placeholder after an `@`-free prefix is the first occurrence, and it alone is replaced. */
  lemma {:induction false} ReplaceAfterPlainPrefix(s: string, pre: string, pat: string, rest: string, rep: string)
    requires s == pre + pat + rest
    requires |pat| > 0 && pat[0] == '@' && '@' !in pre && '$' !in rep
    ensures ReplaceFirst(s, pat, rep) == pre + rep + rest
  {
    assert s[|pre|..|pre| + |pat|] == pat;
    forall j: nat | j < |pre|
      ensures !OccursAt(s, pat, j)
    {
      assert s[j] == pre[j] && pre[j] in pre;
    }
    assert FirstAt(s, pat, |pre|);
    assert s[..|pre|] == pre && s[|pre| + |pat|..] == rest;
    SubstitutionPlain(rep, pat, pre, rest);
  }

  /**
   * A template holding `@OLD_VERSION@` and later `@NEW_VERSION@`, with no other `@`
   * before the second placeholder, receives the old and the new version in their places.
   */
  lemma TemplateLayout(pre: string, mid: string, post: string, oldVersion: string, newVersion: string)
    requires '@' !in pre && '@' !in mid && '@' !in oldVersion
    requires '$' !in oldVersion && '$' !in newVersion
    ensures SubstituteTemplate(pre + "@OLD_VERSION@" + mid + "@NEW_VERSION@" + post, oldVersion, newVersion)
            == pre + oldVersion + mid + newVersion + post
  {
    var template := pre + "@OLD_VERSION@" + mid + "@NEW_VERSION@" + post;
    var rest := mid + "@NEW_VERSION@" + post;
    var upToNew := pre + oldVersion + mid;
    assert template == pre + "@OLD_VERSION@" + rest;
    ReplaceAfterPlainPrefix(template, pre, "@OLD_VERSION@", rest, oldVersion);
    var step := ReplaceFirst(template, "@OLD_VERSION@", oldVersion);
    assert '@' !in upToNew;
    RegroupAfterOld(pre, oldVersion, mid, "@NEW_VERSION@", post);
    ReplaceAfterPlainPrefix(step, upToNew, "@NEW_VERSION@", post, newVersion);
  }

  lemma RegroupAfterOld(a: string, b: string, c: string, d: string, e: string)
    ensures a + b + (c + d + e) == a + b + c + d + e
  {
  }

  /** Why a run failed after the guard: the descriptor could not be parsed, or the path was not found. */
  datatype RunError = ParseFailed(reason: string) | PathFailed(error: PathError)

  /** How one run ends. */
  datatype Outcome =
    | AlreadyBumped                        // success; the exit ends the process, so no output is set
    | NoNewVersion(message: string)        // failure, before any command is built
    | Aborted(error: RunError)             // the top-level catch: logged, then failure
    | Bumped(oldVersion: Value, newVersion: string, bump: Invocation,
             commitSubject: string, tag: string)   // outputs `tag` and `bumped` = true

  /** The failure message when no new version comes out. */
  function NoVersionMessage(oldVersion: Value, level: Level): string
  {
    "Failed to find new version from " + JsToString(oldVersion) + " given " + level.Name()
  }

  /**
   * The action's handler. `commits` is the push event's commit list, `pom` the
   * parsed descriptor (or the parser's error) and `inc` the increment function,
   * `None` for a null result.
   */
  method Run(commits: Option<seq<Commit>>, config: Config, pom: Result<Value, string>,
             inc: (Value, Level) -> Option<string>) returns (o: Outcome)
    ensures o.AlreadyBumped? <==> IsVersionBump(Messages(commits), config.marker)
    ensures o.Aborted? && o.error.ParseFailed? <==>
              !IsVersionBump(Messages(commits), config.marker) && pom.Failure?
    ensures o.Aborted? && o.error.ParseFailed? ==> o.error.reason == pom.error
    ensures o.Aborted? && o.error.PathFailed? <==>
              && !IsVersionBump(Messages(commits), config.marker)
              && pom.Success? && Walk(pom.value, PathSegments(config.versionPath)).None?
    ensures o.Aborted? && o.error.PathFailed? ==>
              exists k: nat :: Blocked(pom.value, PathSegments(config.versionPath), k, o.error.error)
    ensures o.NoNewVersion? <==>
              && !IsVersionBump(Messages(commits), config.marker)
              && pom.Success? && Walk(pom.value, PathSegments(config.versionPath)).Some?
              && config.version == []
              && inc(Walk(pom.value, PathSegments(config.versionPath)).value,
                     VersionCommand(Messages(commits))).None?
    ensures o.NoNewVersion? ==>
              o.message == NoVersionMessage(Walk(pom.value, PathSegments(config.versionPath)).value,
                                            VersionCommand(Messages(commits)))
    ensures o.Bumped? ==> pom.Success? && Walk(pom.value, PathSegments(config.versionPath)) == Some(o.oldVersion)
    ensures o.Bumped? && config.version != [] ==> o.newVersion == config.version
    ensures o.Bumped? && config.version == [] ==>
              inc(o.oldVersion, VersionCommand(Messages(commits))) == Some(o.newVersion)
    ensures o.Bumped? ==>
              Join([o.bump.program] + o.bump.args, " ")
              == SubstituteTemplate(config.bumpCommand, JsToString(o.oldVersion), o.newVersion)
    ensures o.Bumped? ==> ' ' !in o.bump.program && forall k :: 0 <= k < |o.bump.args| ==> ' ' !in o.bump.args[k]
    ensures o.Bumped? ==> o.commitSubject == BumpSubject(config.marker, o.newVersion)
    ensures o.Bumped? ==> o.tag == config.tagPrefix + o.newVersion
  {
    var messages := Messages(commits);
    if IsVersionBump(messages, config.marker) {
      return AlreadyBumped;
    }
    var level := VersionCommand(messages);
    if pom.Failure? {
      return Aborted(ParseFailed(pom.error));
    }
    var fetched := FetchPath(pom.value, PathSegments(config.versionPath));
    if fetched.Failure? {
      return Aborted(PathFailed(fetched.error));
    }
    var oldVersion := fetched.value;
    var newVersion := if config.version == [] then inc(oldVersion, level) else Some(config.version);
    if newVersion.None? {
      return NoNewVersion(NoVersionMessage(oldVersion, level));
    }
    var command := SubstituteTemplate(config.bumpCommand, JsToString(oldVersion), newVersion.value);
    var bump := Tokenise(command);
    return Bumped(oldVersion, newVersion.value, bump, BumpSubject(config.marker, newVersion.value),
                  config.tagPrefix + newVersion.value);
  }
}
