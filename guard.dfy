/**
 * The commit texts of the push event and the already-bumped guard that ends the run
 * early when the push already holds a version-bump commit.
 */
module Guard {
  import opened Wrappers
  import opened JsString

  /** A pushed commit; `body` is `None` when the payload has no such property. */
  datatype Commit = Commit(message: string, body: Option<string>)

  /** JavaScript's `+` on a string and a possibly undefined value. */
  function OrUndefined(s: Option<string>): string
  {
    match s
    case Some(v) => v
    case None => "undefined"
  }

  /** `commit.message + '\n' + commit.body`. */
  function CommitText(c: Commit): (text: string)
    ensures StartsWith(text, c.message + "\n")
    ensures |text| == |c.message| + 1 + |OrUndefined(c.body)|
    ensures text[|c.message| + 1..] == OrUndefined(c.body)
  {
    c.message + "\n" + OrUndefined(c.body)
  }

  /** The texts of all pushed commits, none when the event has no commit list. */
  function Messages(commits: Option<seq<Commit>>): (texts: seq<string>)
    ensures commits.None? ==> texts == []
    ensures commits.Some? ==> |texts| == |commits.value|
    ensures commits.Some? ==> forall i :: 0 <= i < |texts| ==> texts[i] == CommitText(commits.value[i])
  {
    match commits
    case None => []
    case Some(cs) => seq(|cs|, i requires 0 <= i < |cs| => CommitText(cs[i]))
  }

  /**
   * The guard as written: some lower-cased text includes the marker; the marker
   * itself is used as configured, not lower-cased.
   */
  function IsVersionBump(messages: seq<string>, marker: string): (b: bool)
    ensures b <==> exists m :: m in messages && Includes(ToLower(m), marker)
  {
    var flags := seq(|messages|, i requires 0 <= i < |messages| => Includes(ToLower(messages[i]), marker));
    assert forall i :: 0 <= i < |messages| ==> flags[i] == Includes(ToLower(messages[i]), marker);
    true in flags
  }

  /** The subject of the commit the action itself makes: `ci: <marker> <version>`. */
  function BumpSubject(marker: string, version: string): string
  {
    "ci: " + marker + " " + version
  }

  /** A marker with an upper-case letter never matches, whatever the commits say. */
  lemma UpperCaseMarkerNeverMatches(messages: seq<string>, marker: string, k: nat)
    requires k < |marker| && IsUpper(marker[k])
    ensures !IsVersionBump(messages, marker)
  {
    forall m | m in messages
      ensures !Includes(ToLower(m), marker)
    {
      UpperNeverInLower(m, marker, k);
    }
  }

  /**
   * The consequence: with the marker "Version Bump" the action's own commit
   * `ci: Version Bump 1.0.1` does not stop the next run.
   */
  lemma OwnCommitMissed(body: Option<string>)
    ensures !IsVersionBump([CommitText(Commit(BumpSubject("Version Bump", "1.0.1"), body))], "Version Bump")
  {
    UpperCaseMarkerNeverMatches([CommitText(Commit(BumpSubject("Version Bump", "1.0.1"), body))], "Version Bump", 0);
  }

  /** The guard as evidently intended: both sides lower-cased. */
  function IsVersionBumpIgnoringCase(messages: seq<string>, marker: string): (b: bool)
    ensures b <==> exists m :: m in messages && Includes(ToLower(m), ToLower(marker))
  {
    IsVersionBump(messages, ToLower(marker))
  }

  /** The lower-cased marker sits at index 4 of the lower-cased text of the action's own commit. */
  lemma OwnCommitHoldsMarker(marker: string, version: string, body: Option<string>)
    ensures OccursAt(ToLower(CommitText(Commit(BumpSubject(marker, version), body))), ToLower(marker), 4)
  {
    var tail := " " + version + "\n" + OrUndefined(body);
    Regroup("ci: ", marker, " ", version, "\n", OrUndefined(body));
    assert CommitText(Commit(BumpSubject(marker, version), body)) == "ci: " + marker + tail;
    ToLowerConcat("ci: " + marker, tail);
    ToLowerConcat("ci: ", marker);
    OccursBetween(ToLower("ci: "), ToLower(marker), ToLower(tail));
  }

  lemma Regroup(a: string, b: string, c: string, d: string, e: string, f: string)
    ensures a + b + c + d + e + f == a + b + (c + d + e + f)
  {
  }

  lemma OccursBetween(a: string, b: string, c: string)
    ensures OccursAt(a + b + c, b, |a|)
  {
    assert (a + b + c)[|a|..|a| + |b|] == b;
  }

  /** The intended guard recognises the action's own commit for every marker. */
  lemma OwnCommitRecognised(others: seq<Commit>, marker: string, version: string, body: Option<string>)
    ensures IsVersionBumpIgnoringCase(Messages(Some(others + [Commit(BumpSubject(marker, version), body)])), marker)
  {
    var own := Commit(BumpSubject(marker, version), body);
    var texts := Messages(Some(others + [own]));
    assert texts[|others|] == CommitText(own);
    OwnCommitHoldsMarker(marker, version, body);
    assert texts[|others|] in texts;
  }

  /** For a marker that is already lower case (the default "version bump") both guards agree. */
  lemma GuardsAgreeOnLowerCaseMarker(messages: seq<string>, marker: string)
    requires ToLower(marker) == marker
    ensures IsVersionBump(messages, marker) == IsVersionBumpIgnoringCase(messages, marker)
  {
  }

  /** So with a lower-case marker the guard as written stops the run after the action's own commit. */
  lemma OwnCommitStopsNextRun(others: seq<Commit>, marker: string, version: string, body: Option<string>)
    requires ToLower(marker) == marker
    ensures IsVersionBump(Messages(Some(others + [Commit(BumpSubject(marker, version), body)])), marker)
  {
    OwnCommitRecognised(others, marker, version, body);
  }
}
