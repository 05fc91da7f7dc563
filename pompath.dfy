/**
 * The parsed descriptor as a tree of JavaScript values, the resolver `fetchPath`
 * that walks it by a list of keys, and the splitting of the configured version path
 * into those keys.
 */
module PomPath {
  import opened Wrappers
  import opened JsString

  /** A node of the parsed descriptor; only objects have own properties. */
  datatype Value = Undefined | Null | Text(s: string) | Object(fields: map<string, Value>)

  /** `node.hasOwnProperty(key)`. */
  predicate HasOwn(node: Value, key: string)
  {
    node.Object? && key in node.fields
  }

  /** The nested lookup `obj[p1][p2]...[pn]`, defined while every key is an own property. */
  function Walk(obj: Value, path: seq<string>): Option<Value>
  {
    if path == [] then Some(obj)
    else if HasOwn(obj, path[0]) then Walk(obj.fields[path[0]], path[1..])
    else None
  }

  /** The trail `/p1/p2/.../pn` of consumed keys. */
  function Trail(path: seq<string>): string
  {
    if path == [] then "" else Trail(path[..|path| - 1]) + "/" + path[|path| - 1]
  }

  /** What `fetchPath` throws, and its message. */
  datatype PathError =
    | NotFound(segment: string, trail: string)   // the descriptive error of the resolver
    | NullNode(segment: string)                  // the TypeError of `null.hasOwnProperty`;
                                                 // its text is the engine's, here that of recent V8
  {
    function Message(): string
    {
      match this
      case NotFound(segment, trail) =>
        "Failed to find " + segment + " from " + trail + " when looking for version"
      case NullNode(_) => "Cannot read properties of null (reading 'hasOwnProperty')"
    }
  }

  /** The error raised when `node` lacks `segment` after the trail `trail`. */
  function ErrorAt(node: Value, segment: string, trail: string): PathError
  {
    if node.Null? then NullNode(segment) else NotFound(segment, trail)
  }

  /** The walk reaches a node at depth `k` that lacks key `path[k]`, and `e` is what is thrown there. */
  predicate Blocked(obj: Value, path: seq<string>, k: nat, e: PathError)
  {
    && k < |path|
    && Walk(obj, path[..k]).Some?
    && !HasOwn(Walk(obj, path[..k]).value, path[k])
    && e == ErrorAt(Walk(obj, path[..k]).value, path[k], Trail(path[..k]))
  }

  /** Walking `a + b` is walking `a`, then `b` from where `a` ends. */
  lemma {:induction false} WalkAppend(obj: Value, a: seq<string>, b: seq<string>)
    ensures Walk(obj, a + b) == match Walk(obj, a) case None => None case Some(v) => Walk(v, b)
  {
    if a == [] {
      assert a + b == b;
    } else {
      assert (a + b)[0] == a[0] && (a + b)[1..] == a[1..] + b;
      if HasOwn(obj, a[0]) {
        WalkAppend(obj.fields[a[0]], a[1..], b);
      }
    }
  }

  /** A walk that fails on a prefix fails on the whole path. */
  lemma WalkFailsOnExtension(obj: Value, path: seq<string>, k: nat)
    requires k <= |path| && Walk(obj, path[..k]).None?
    ensures Walk(obj, path).None?
  {
    WalkAppend(obj, path[..k], path[k..]);
    assert path[..k] + path[k..] == path;
  }

  /** The walk succeeds on every prefix of a path it succeeds on. */
  lemma WalkSucceedsOnPrefix(obj: Value, path: seq<string>, k: nat)
    requires k <= |path| && Walk(obj, path).Some?
    ensures Walk(obj, path[..k]).Some?
  {
    if Walk(obj, path[..k]).None? {
      WalkFailsOnExtension(obj, path, k);
    }
  }

  /** The walk stops at one depth only, so the thrown error is determined by the tree and the path. */
  lemma BlockedUnique(obj: Value, path: seq<string>, k1: nat, e1: PathError, k2: nat, e2: PathError)
    requires Blocked(obj, path, k1, e1) && Blocked(obj, path, k2, e2)
    ensures k1 == k2 && e1 == e2
  {
    if k1 < k2 {
      BlockedFailsBeyond(obj, path, k1, e1, k2);
    } else if k2 < k1 {
      BlockedFailsBeyond(obj, path, k2, e2, k1);
    }
  }

  lemma BlockedFailsBeyond(obj: Value, path: seq<string>, k: nat, e: PathError, j: nat)
    requires Blocked(obj, path, k, e) && k < j <= |path|
    ensures Walk(obj, path[..j]).None?
  {
    var node := Walk(obj, path[..k]).value;
    WalkAppend(obj, path[..k], path[k..j]);
    assert path[..k] + path[k..j] == path[..j];
    assert path[k..j][0] == path[k];
  }

  /**
   * `fetchPath`: follows `path` from `obj`, building the trail of consumed keys, and
   * throws at the first node that is undefined, null or lacks the next key.
   */
  method FetchPath(obj: Value, path: seq<string>) returns (r: Result<Value, PathError>)
    ensures path == [] ==> r == Success(obj)
    ensures r.Success? <==> Walk(obj, path).Some?
    ensures r.Success? ==> r.value == Walk(obj, path).value
    ensures r.Failure? ==> exists k: nat :: Blocked(obj, path, k, r.error)
  {
    var node := obj;
    var trail := "";
    var i := 0;
    while i < |path|
      invariant 0 <= i <= |path|
      invariant Walk(obj, path[..i]) == Some(node)
      invariant trail == Trail(path[..i])
    {
      var p := path[i];
      if node.Undefined? || (!node.Null? && !HasOwn(node, p)) {
        assert Blocked(obj, path, i, NotFound(p, trail));
        BlockedFailsBeyond(obj, path, i, NotFound(p, trail), |path|);
        assert path[..|path|] == path;
        return Failure(NotFound(p, trail));
      }
      if node.Null? {
        assert Blocked(obj, path, i, NullNode(p));
        BlockedFailsBeyond(obj, path, i, NullNode(p), |path|);
        assert path[..|path|] == path;
        return Failure(NullNode(p));
      }
      WalkAppend(obj, path[..i], [p]);
      assert path[..i + 1] == path[..i] + [p];
      assert path[..i + 1][..i] == path[..i];
      trail := trail + "/" + p;
      node := node.fields[p];
      i := i + 1;
    }
    assert path[..i] == path;
    return Success(node);
  }

  /** The message of the descriptive error names the segment and the trail. */
  lemma NotFoundMessageNames(segment: string, trail: string)
    ensures Includes(NotFound(segment, trail).Message(), segment)
    ensures Includes(NotFound(segment, trail).Message(), trail)
  {
    var msg := NotFound(segment, trail).Message();
    var head := "Failed to find ";
    var mid := " from ";
    assert msg == head + segment + (mid + trail + " when looking for version");
    assert OccursAt(msg, segment, |head|);
    assert msg == (head + segment + mid) + trail + " when looking for version";
    assert OccursAt(msg, trail, |head + segment + mid|);
  }

  /** `xs.filter(f => f.length > 0)`. */
  function NonEmpty(xs: seq<string>): (ys: seq<string>)
    ensures forall k :: 0 <= k < |ys| ==> ys[k] != [] && ys[k] in xs
  {
    if xs == [] then []
    else if xs[0] == [] then NonEmpty(xs[1..])
    else [xs[0]] + NonEmpty(xs[1..])
  }

  /** The filter drops the empty pieces only: every other piece is kept as often as it occurs. */
  lemma {:induction false} NonEmptyKeepsTheRest(xs: seq<string>)
    ensures multiset(NonEmpty(xs)) == multiset(xs)[[] := 0]
  {
    if xs != [] {
      assert xs == [xs[0]] + xs[1..];
      NonEmptyKeepsTheRest(xs[1..]);
    }
  }

  /** `versionPath.split('/').filter(f => f.length > 0)`. */
  function PathSegments(versionPath: string): (segments: seq<string>)
    ensures forall k :: 0 <= k < |segments| ==> segments[k] != [] && '/' !in segments[k]
  {
    NonEmpty(Split(versionPath, '/'))
  }

  /**
   * The path with its leading and trailing slashes dropped and every run of
   * slashes between two keys cut down to one.
   */
  function Collapse(s: string): string
  {
    if s == [] then []
    else if s[0] == '/' then Collapse(s[1..])
    else if |s| >= 2 && s[1] == '/' then
      (if Collapse(s[1..]) == [] then [s[0]] else [s[0]] + "/" + Collapse(s[1..]))
    else [s[0]] + Collapse(s[1..])
  }

  lemma {:induction false} JoinEmptyOnlyWhenNoPieces(xs: seq<string>)
    requires forall k :: 0 <= k < |xs| ==> xs[k] != []
    ensures Join(xs, "/") == [] <==> xs == []
  {
    if |xs| >= 2 {
      assert |Join(xs, "/")| >= |xs[0]|;
    }
  }

  /** Joining the segments with `/` gives the collapsed path. */
  lemma {:induction false} PathSegmentsJoin(s: string)
    ensures Join(PathSegments(s), "/") == Collapse(s)
  {
    if s != [] {
      PathSegmentsJoin(s[1..]);
      if s[0] == '/' {
        var t := Split(s[1..], '/');
        assert Split(s, '/') == [[]] + t;
        assert ([[]] + t)[1..] == t;
      } else {
        PathSegmentsJoinKeyChar(s);
      }
    }
  }

  /** The step of the induction above for a path that starts with a key character. */
  lemma PathSegmentsJoinKeyChar(s: string)
    requires s != [] && s[0] != '/'
    requires Join(PathSegments(s[1..]), "/") == Collapse(s[1..])
    ensures Join(PathSegments(s), "/") == Collapse(s)
  {
    var t := Split(s[1..], '/');
    SplitKeyChar(s);
    NonEmptyCons([s[0]] + t[0], t[1..]);
    assert PathSegments(s) == [[s[0]] + t[0]] + NonEmpty(t[1..]);
    if s[1..] == [] {
      assert t == [[]];
      assert t[1..] == [] && [s[0]] + t[0] == [s[0]];
      assert PathSegments(s) == [[s[0]]];
      assert Collapse(s) == [s[0]];
    } else if s[1] == '/' {
      KeyThenSlash(s);
    } else {
      KeyThenKey(s);
    }
  }

  lemma KeyThenSlash(s: string)
    requires |s| >= 2 && s[0] != '/' && s[1] == '/'
    requires Join(PathSegments(s[1..]), "/") == Collapse(s[1..])
    requires PathSegments(s) == [[s[0]] + Split(s[1..], '/')[0]] + NonEmpty(Split(s[1..], '/')[1..])
    ensures Join(PathSegments(s), "/") == Collapse(s)
  {
    var t := Split(s[1..], '/');
    var tail := NonEmpty(t[1..]);
    assert t == [[]] + Split(s[2..], '/') by {
      assert s[1..][0] == '/' && s[1..][1..] == s[2..];
    }
    assert t[1..] == Split(s[2..], '/');
    NonEmptyCons([], t[1..]);
    assert PathSegments(s[1..]) == tail;
    JoinEmptyOnlyWhenNoPieces(tail);
    assert [s[0]] + t[0] == [s[0]];
    JoinCons([s[0]], tail);
  }

  lemma KeyThenKey(s: string)
    requires |s| >= 2 && s[0] != '/' && s[1] != '/'
    requires Join(PathSegments(s[1..]), "/") == Collapse(s[1..])
    requires PathSegments(s) == [[s[0]] + Split(s[1..], '/')[0]] + NonEmpty(Split(s[1..], '/')[1..])
    ensures Join(PathSegments(s), "/") == Collapse(s)
  {
    var t := Split(s[1..], '/');
    var tail := NonEmpty(t[1..]);
    var h := [s[0]] + t[0];
    assert t[0] != [] by {
      SplitKeyChar(s[1..]);
    }
    assert PathSegments(s[1..]) == [t[0]] + tail by {
      assert t == [t[0]] + t[1..];
      NonEmptyCons(t[0], t[1..]);
    }
    JoinPrependChar(s[0], t[0], tail);
    CollapseKeyKey(s);
  }

  lemma JoinPrependChar(c: char, x: string, xs: seq<string>)
    ensures Join([[c] + x] + xs, "/") == [c] + Join([x] + xs, "/")
  {
    JoinCons([c] + x, xs);
    JoinCons(x, xs);
    if xs != [] {
      var rest := Join(xs, "/");
      assert ([c] + x) + "/" + rest == [c] + (x + "/" + rest);
    }
  }

  lemma CollapseKeyKey(s: string)
    requires |s| >= 2 && s[0] != '/' && s[1] != '/'
    ensures Collapse(s) == [s[0]] + Collapse(s[1..])
  {
  }

  lemma SplitKeyChar(s: string)
    requires s != [] && s[0] != '/'
    ensures Split(s, '/') == [[s[0]] + Split(s[1..], '/')[0]] + Split(s[1..], '/')[1..]
  {
  }

  lemma NonEmptyCons(x: string, xs: seq<string>)
    ensures NonEmpty([x] + xs) == if x == [] then NonEmpty(xs) else [x] + NonEmpty(xs)
  {
    assert ([x] + xs)[1..] == xs;
  }

  lemma JoinCons(x: string, xs: seq<string>)
    ensures Join([x] + xs, "/") == if xs == [] then x else x + "/" + Join(xs, "/")
  {
    assert ([x] + xs)[1..] == xs;
  }

  /** The trail of a key list is `/` followed by the keys joined with `/`. */
  lemma {:induction false} TrailIsJoin(xs: seq<string>)
    ensures Trail(xs) == if xs == [] then [] else "/" + Join(xs, "/")
  {
    if |xs| >= 2 {
      var init := xs[..|xs| - 1];
      TrailIsJoin(init);
      JoinSnoc(init, xs[|xs| - 1]);
      assert init + [xs[|xs| - 1]] == xs;
    } else if |xs| == 1 {
      assert xs[..0] == [];
    }
  }

  lemma {:induction false} JoinSnoc(xs: seq<string>, x: string)
    requires xs != []
    ensures Join(xs + [x], "/") == Join(xs, "/") + "/" + x
  {
    if |xs| > 1 {
      JoinSnoc(xs[1..], x);
      assert (xs + [x])[1..] == xs[1..] + [x];
    } else {
      assert (xs + [x])[1..] == [x];
    }
  }

  /** The trail after consuming every segment of a version path is that path, collapsed, with a leading `/`. */
  lemma FullTrail(versionPath: string)
    ensures Trail(PathSegments(versionPath)) ==
            if Collapse(versionPath) == [] then [] else "/" + Collapse(versionPath)
  {
    var segments := PathSegments(versionPath);
    TrailIsJoin(segments);
    PathSegmentsJoin(versionPath);
    JoinEmptyOnlyWhenNoPieces(segments);
  }

  /** Splitting a trail gives back its keys: `/project/version` gives `project` and `version`. */
  lemma {:induction false} TrailThenSegments(keys: seq<string>)
    requires forall k :: 0 <= k < |keys| ==> keys[k] != [] && '/' !in keys[k]
    ensures PathSegments(Trail(keys)) == keys
  {
    TrailIsJoin(keys);
    if keys != [] {
      var pieces := [[]] + keys;
      JoinCons([], keys);
      JoinThenSplit(pieces, '/');
      NonEmptyCons([], keys);
      NonEmptyKeepsNonEmpty(keys);
    }
  }

  lemma {:induction false} NonEmptyKeepsNonEmpty(xs: seq<string>)
    requires forall k :: 0 <= k < |xs| ==> xs[k] != []
    ensures NonEmpty(xs) == xs
  {
    if xs != [] {
      NonEmptyKeepsNonEmpty(xs[1..]);
    }
  }

  /** The example document `{a: {b: "5"}}`: `a/b` resolves, `a/c` is blocked at `c` after the trail `/a`. */
  lemma ResolverExample()
    ensures Walk(Object(map["a" := Object(map["b" := Text("5")])]), ["a", "b"]) == Some(Text("5"))
    ensures Blocked(Object(map["a" := Object(map["b" := Text("5")])]), ["a", "c"], 1, NotFound("c", "/a"))
  {
    var doc := Object(map["a" := Object(map["b" := Text("5")])]);
    assert ["a", "c"][..1] == ["a"];
    assert Trail(["a"]) == "/a" by {
      assert ["a"][..0] == [];
    }
  }
}
