/**
 * The commit classifier `getVersionCommand`: the bump level derived from the texts
 * of the pushed commits.
 */
module Classifier {
  import opened JsString

  /** The release names handed to the increment function. */
  datatype Level = Major | Minor | Patch
  {
    function Name(): string
    {
      match this
      case Major => "major"
      case Minor => "minor"
      case Patch => "patch"
    }

    /** Patch < Minor < Major. */
    function Rank(): nat
    {
      match this
      case Major => 2
      case Minor => 1
      case Patch => 0
    }
  }

  /** The exact-case breaking-change marker. */
  predicate MentionsBreakingChange(message: string)
  {
    Includes(message, "BREAKING CHANGE")
  }

  /** A feature commit: the lower-cased text starts with `feat`. */
  predicate IsFeature(message: string)
  {
    StartsWith(ToLower(message), "feat")
  }

  /** `messages.map(test).includes(true)`. */
  function AnyOf(messages: seq<string>, test: string -> bool): (b: bool)
    ensures b <==> exists m :: m in messages && test(m)
  {
    var flags := seq(|messages|, i requires 0 <= i < |messages| => test(messages[i]));
    assert forall i :: 0 <= i < |messages| ==> flags[i] == test(messages[i]);
    true in flags
  }

  /**
   * `getVersionCommand`: major when some text holds "BREAKING CHANGE", else minor
   * when some lower-cased text starts with "feat", else patch.
   */
  function VersionCommand(messages: seq<string>): (r: Level)
    ensures r == Major <==> exists m :: m in messages && MentionsBreakingChange(m)
    ensures r == Minor <==> (forall m :: m in messages ==> !MentionsBreakingChange(m))
                            && exists m :: m in messages && IsFeature(m)
    ensures r == Patch <==> forall m :: m in messages ==> !MentionsBreakingChange(m) && !IsFeature(m)
  {
    if AnyOf(messages, MentionsBreakingChange) then Major
    else if AnyOf(messages, IsFeature) then Minor
    else Patch
  }

  /** The level depends only on which texts occur, not on their order or repetition. */
  lemma SameTextsSameLevel(a: seq<string>, b: seq<string>)
    requires forall m :: m in a <==> m in b
    ensures VersionCommand(a) == VersionCommand(b)
  {
  }

  /** A permutation of the texts gives the same level. */
  lemma PermutationSameLevel(a: seq<string>, b: seq<string>)
    requires multiset(a) == multiset(b)
    ensures VersionCommand(a) == VersionCommand(b)
  {
    forall m
      ensures m in a <==> m in b
    {
      assert m in a <==> m in multiset(a);
      assert m in b <==> m in multiset(b);
    }
    SameTextsSameLevel(a, b);
  }

  /** More commits never lower the level, whichever side they are added on. */
  lemma MoreCommitsNeverLower(a: seq<string>, b: seq<string>)
    ensures VersionCommand(a).Rank() <= VersionCommand(a + b).Rank()
    ensures VersionCommand(b).Rank() <= VersionCommand(a + b).Rank()
  {
    forall m | m in a || m in b
      ensures m in a + b
    {
    }
  }

  /** One breaking change decides the level whatever the other commits are. */
  lemma BreakingChangeWins(a: seq<string>, m: string, b: seq<string>)
    requires MentionsBreakingChange(m)
    ensures VersionCommand(a + [m] + b) == Major
  {
    assert m in a + [m] + b;
  }
}
