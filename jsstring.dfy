/**
 * The JavaScript string built-ins the action relies on, over `seq<char>`:
 * `indexOf`, `includes`, `startsWith`, `toLowerCase`, `split` with a one-character
 * separator, `Array.prototype.join`, and `replace` with a string pattern.
 */
module JsString {
  import opened Wrappers

  /** `pat` occurs in `t` at index `i`. */
  predicate OccursAt(t: string, pat: string, i: nat)
  {
    i + |pat| <= |t| && t[i..i + |pat|] == pat
  }

  /** The search of `String.prototype.indexOf` from position `from` on. */
  function IndexFrom(t: string, pat: string, from: nat): (r: Option<nat>)
    ensures r.Some? ==> from <= r.value && OccursAt(t, pat, r.value)
    ensures r.Some? ==> forall j: nat :: from <= j < r.value ==> !OccursAt(t, pat, j)
    ensures r.None? ==> forall j: nat :: from <= j ==> !OccursAt(t, pat, j)
    decreases |t| - from
  {
    if |t| < from + |pat| then None
    else if t[from..from + |pat|] == pat then Some(from)
    else IndexFrom(t, pat, from + 1)
  }

  /** `t.indexOf(pat)`, with `None` for -1: the first occurrence of `pat`. */
  function IndexOf(t: string, pat: string): (r: Option<nat>)
    ensures r.Some? ==> OccursAt(t, pat, r.value)
    ensures r.Some? ==> forall j: nat :: j < r.value ==> !OccursAt(t, pat, j)
    ensures r.None? ==> forall j: nat :: !OccursAt(t, pat, j)
  {
    IndexFrom(t, pat, 0)
  }

  /** `t.includes(pat)`. */
  function Includes(t: string, pat: string): (b: bool)
    ensures b <==> exists i: nat :: OccursAt(t, pat, i)
  {
    IndexOf(t, pat).Some?
  }

  /** `t.startsWith(pat)`. */
  predicate StartsWith(t: string, pat: string)
  {
    |pat| <= |t| && t[..|pat|] == pat
  }

  /** The case mapping of one character; only the ASCII letters A-Z change. */
  function LowerChar(c: char): char
  {
    if 'A' <= c <= 'Z' then (c as int - 'A' as int + 'a' as int) as char else c
  }

  predicate IsUpper(c: char)
  {
    'A' <= c <= 'Z'
  }

  /** `s.toLowerCase()` (ASCII case mapping). */
  function ToLower(s: string): string
  {
    seq(|s|, i requires 0 <= i < |s| => LowerChar(s[i]))
  }

  lemma ToLowerConcat(a: string, b: string)
    ensures ToLower(a + b) == ToLower(a) + ToLower(b)
  {
    assert forall i :: 0 <= i < |a + b| ==> ToLower(a + b)[i] == (ToLower(a) + ToLower(b))[i];
  }

  /** A lower-cased string has no upper-case letter left. */
  lemma ToLowerHasNoUpper(s: string)
    ensures forall i :: 0 <= i < |ToLower(s)| ==> !IsUpper(ToLower(s)[i])
  {
  }

  /** A pattern holding an upper-case letter is never found in a lower-cased string. */
  lemma {:induction false} UpperNeverInLower(t: string, pat: string, k: nat)
    requires k < |pat| && IsUpper(pat[k])
    ensures !Includes(ToLower(t), pat)
  {
    if Includes(ToLower(t), pat) {
      var i: nat :| OccursAt(ToLower(t), pat, i);
      assert ToLower(t)[i + k] == pat[k];
      ToLowerHasNoUpper(t);
      assert false;
    }
  }

  /**
   * `s.split(sep)` for a one-character separator: the pieces between separators,
   * empty ones included; there is always at least one piece.
   */
  function Split(s: string, sep: char): (parts: seq<string>)
    ensures |parts| >= 1
    ensures forall k :: 0 <= k < |parts| ==> sep !in parts[k]
  {
    if s == [] then [[]]
    else
      var rest := Split(s[1..], sep);
      if s[0] == sep then [[]] + rest
      else [[s[0]] + rest[0]] + rest[1..]
  }

  /** `xs.join(sep)`. */
  function Join(xs: seq<string>, sep: string): string
  {
    if |xs| == 0 then []
    else if |xs| == 1 then xs[0]
    else xs[0] + sep + Join(xs[1..], sep)
  }

  /** Joining the pieces of a split with the separator gives back the string. */
  lemma {:induction false} SplitThenJoin(s: string, sep: char)
    ensures Join(Split(s, sep), [sep]) == s
  {
    if s != [] {
      var rest := Split(s[1..], sep);
      SplitThenJoin(s[1..], sep);
      if s[0] == sep {
        assert Split(s, sep) == [[]] + rest;
        assert Split(s, sep)[1..] == rest;
      } else {
        var parts := Split(s, sep);
        assert parts == [[s[0]] + rest[0]] + rest[1..];
        if |rest| == 1 {
          assert parts == [[s[0]] + rest[0]];
        } else {
          assert parts[1..] == rest[1..];
          calc {
            Join(parts, [sep]);
            ([s[0]] + rest[0]) + [sep] + Join(rest[1..], [sep]);
            [s[0]] + (rest[0] + [sep] + Join(rest[1..], [sep]));
            [s[0]] + Join(rest, [sep]);
          }
        }
        assert s == [s[0]] + s[1..];
      }
    }
  }

  /** Splitting a string that starts with a separator-free `a`: `a` is glued to the first piece. */
  lemma {:induction false} SplitGlue(a: string, b: string, sep: char)
    requires sep !in a
    ensures Split(a + b, sep) == [a + Split(b, sep)[0]] + Split(b, sep)[1..]
  {
    if a != [] {
      SplitGlue(a[1..], b, sep);
      assert (a + b)[1..] == a[1..] + b;
      assert (a + b)[0] == a[0];
      assert [a[0]] + (a[1..] + Split(b, sep)[0]) == a + Split(b, sep)[0];
    } else {
      var parts := Split(b, sep);
      assert a + b == b && a + parts[0] == parts[0];
      assert parts == [parts[0]] + parts[1..];
    }
  }

  /** Splitting the join of separator-free pieces gives back the pieces. */
  lemma {:induction false} JoinThenSplit(xs: seq<string>, sep: char)
    requires |xs| >= 1
    requires forall k :: 0 <= k < |xs| ==> sep !in xs[k]
    ensures Split(Join(xs, [sep]), sep) == xs
  {
    if |xs| == 1 {
      SplitGlue(xs[0], [], sep);
      assert xs[0] + [] == xs[0];
    } else {
      var rest := Join(xs[1..], [sep]);
      JoinThenSplit(xs[1..], sep);
      assert Join(xs, [sep]) == xs[0] + ([sep] + rest);
      SplitGlue(xs[0], [sep] + rest, sep);
      assert ([sep] + rest)[1..] == rest;
      assert Split([sep] + rest, sep) == [[]] + xs[1..];
      assert xs[0] + [] == xs[0];
      assert xs == [xs[0]] + xs[1..];
    }
  }

  /**
   * The replacement text of `replace` with a string pattern (GetSubstitution of
   * ECMA-262, with no capture groups): `$$` is `$`, `$&` the matched text, `` $` `` the
   * text before the match, `$'` the text after it; any other `$` stays as it is.
   */
  function Substitution(rep: string, matched: string, before: string, after: string): string
  {
    if |rep| >= 2 && rep[0] == '$' && rep[1] in "$&`'" then
      var piece := if rep[1] == '$' then "$" else if rep[1] == '&' then matched
                   else if rep[1] == '`' then before else after;
      piece + Substitution(rep[2..], matched, before, after)
    else if rep == [] then []
    else [rep[0]] + Substitution(rep[1..], matched, before, after)
  }

  /** A replacement without `$` is inserted verbatim. */
  lemma {:induction false} SubstitutionPlain(rep: string, matched: string, before: string, after: string)
    requires '$' !in rep
    ensures Substitution(rep, matched, before, after) == rep
  {
    if rep != [] {
      assert rep[0] != '$';
      assert '$' !in rep[1..];
      SubstitutionPlain(rep[1..], matched, before, after);
      assert rep == [rep[0]] + rep[1..];
    }
  }

  /** `i` is the first occurrence of `pat` in `s`. */
  predicate FirstAt(s: string, pat: string, i: nat)
  {
    OccursAt(s, pat, i) && forall j: nat :: j < i ==> !OccursAt(s, pat, j)
  }

  /** `s.replace(pat, rep)` with a string `pat`: only the first occurrence is replaced. */
  function ReplaceFirst(s: string, pat: string, rep: string): (r: string)
    ensures (forall j: nat :: !OccursAt(s, pat, j)) ==> r == s
    ensures forall i: nat :: FirstAt(s, pat, i) ==>
              r == s[..i] + Substitution(rep, pat, s[..i], s[i + |pat|..]) + s[i + |pat|..]
  {
    match IndexOf(s, pat)
    case None => s
    case Some(i) =>
      assert FirstAt(s, pat, i);
      assert forall k: nat :: FirstAt(s, pat, k) ==> k == i;
      s[..i] + Substitution(rep, pat, s[..i], s[i + |pat|..]) + s[i + |pat|..]
  }

  /** Of two adjacent copies of the pattern only the first is replaced. */
  lemma ReplaceOnlyFirst(pat: string, rep: string, rest: string)
    requires '$' !in rep
    ensures ReplaceFirst(pat + rest, pat, rep) == rep + rest
  {
    var s := pat + rest;
    assert FirstAt(s, pat, 0);
    var before, after := s[..0], s[|pat|..];
    assert before == [] && after == rest;
    SubstitutionPlain(rep, pat, before, after);
    assert ReplaceFirst(s, pat, rep) == before + rep + after;
  }
}
