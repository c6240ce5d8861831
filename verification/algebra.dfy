/**
 * The scope algebra: rebasing a scope onto a new root (`relscope`), extracting a
 * sub-value together with the obligations that reach it (`project`), and
 * pairing two objects (`merge`).
 */
module Algebra {
  import opened Wrappers
  import opened Json
  import opened Strings
  import opened Core

  /** A scope in the shape `relscope` produces: empty, or `/` followed by a non-slash. */
  predicate Rooted(s: string) {
    s == "" || (|s| >= 2 && s[0] == '/' && s[1] != '/')
  }

  /**
   * `relscope(scope, path)`: with leading slashes stripped from both, the part of
   * `scope` after `path`, re-rooted with one `/`; `""` when nothing is left or
   * when `path` is not a (plain string) prefix of `scope`.
   */
  function RelScope(scope: string, path: string): (r: string)
    ensures Rooted(r)
    ensures !HasPrefix(LStrip(scope, '/'), LStrip(path, '/')) ==> r == ""
  {
    if scope == "" then ""
    else
      var s := LStrip(scope, '/');
      var p := LStrip(path, '/');
      if HasPrefix(s, p) then
        var rest := LStrip(s[|p|..], '/');
        if rest != "" then "/" + rest else ""
      else ""
  }

  /** `relscope` of the whole value, and of a path onto itself, is the whole value. */
  lemma RelScopeSelf(p: string)
    ensures RelScope("", p) == ""
    ensures RelScope(p, p) == ""
  {
    if p != "" {
      var t := LStrip(p, '/');
      assert t[..|t|] == t;
      assert t[|t|..] == "";
    }
  }

  /** `relscope(p + "/" + q, p)` is `"/" + q` for a child `q`. */
  lemma RelScopeChild(p: string, q: string)
    requires q != "" && q[0] != '/'
    ensures RelScope(p + "/" + q, p) == "/" + q
  {
    StripJoined(p, q);
    var s := LStrip(p + "/" + q, '/');
    var pp := LStrip(p, '/');
    if pp == "" {
      assert s[|pp|..] == q;
    } else {
      assert s[..|pp|] == pp;
      assert s[|pp|..] == "/" + q;
      StripOneSlash(q);
    }
  }

  /** `scope` is the path, the whole value, or lies under the path on a component boundary. */
  predicate Descends(scope: string, path: string) {
    scope == "" || scope == path || HasPrefix(scope, path + "/")
  }

  /** `scope` is a proper ancestor of the path, on a component boundary. */
  predicate Encloses(scope: string, path: string) {
    HasPrefix(path, scope + "/")
  }

  /** What one obligation's scope becomes in a projection onto `path`, or `None` if it is dropped. */
  function ProjectScope(scope: string, path: string): (r: Option<string>)
    ensures r.Some? <==> Descends(scope, path) || Encloses(scope, path)
    ensures r.Some? ==> Rooted(r.value)
    ensures r.Some? && !Descends(scope, path) ==> r.value == ""
  {
    if scope == "" || scope == path || HasPrefix(scope, path + "/") then Some(RelScope(scope, path))
    else if HasPrefix(path, scope + "/") then Some("")
    else None
  }

  /** The obligation loop of `project`. */
  function ProjectObligations(obls: seq<Obligation>, path: string): (r: seq<Obligation>)
    ensures |r| <= |obls|
    ensures forall i | 0 <= i < |r| :: exists j | 0 <= j < |obls| :: obls[j].0 == r[i].0
  {
    if |obls| == 0 then []
    else
      var rest := ProjectObligations(obls[1..], path);
      assert forall i | 0 <= i < |rest| :: exists j | 0 <= j < |obls| :: obls[j].0 == rest[i].0 by {
        forall i | 0 <= i < |rest|
          ensures exists j | 0 <= j < |obls| :: obls[j].0 == rest[i].0
        {
          var j :| 0 <= j < |obls[1..]| && obls[1..][j].0 == rest[i].0;
          assert obls[j + 1].0 == rest[i].0;
        }
      }
      match ProjectScope(obls[0].1, path)
      case Some(s) => [(obls[0].0, s)] + rest
      case None => rest
  }

  /** `project`: the sub-value at `path` with its obligations rebased, or `None` plus an `invalid_path` obligation. */
  function Project(o: ChavaObject, path: string): (r: ChavaObject)
    ensures Resolve(o.value, path).None? ==>
      r == ChavaObject(JNull, o.obligations + [("invalid_path", "")], o.evidence)
    ensures Resolve(o.value, path).Some? ==>
      && r.value == Resolve(o.value, path).value
      && r.obligations == ProjectObligations(o.obligations, path)
      && r.evidence == o.evidence
  {
    match Resolve(o.value, path)
    case None => ChavaObject(JNull, o.obligations + [("invalid_path", "")], o.evidence)
    case Some(v) => ChavaObject(v, ProjectObligations(o.obligations, path), o.evidence)
  }

  /** Projection works obligation by obligation, in order. */
  lemma {:induction false} ProjectObligationsConcat(a: seq<Obligation>, b: seq<Obligation>, path: string)
    ensures ProjectObligations(a + b, path) == ProjectObligations(a, path) + ProjectObligations(b, path)
  {
    if |a| > 0 {
      assert (a + b)[1..] == a[1..] + b;
      assert (a + b)[0] == a[0];
      ProjectObligationsConcat(a[1..], b, path);
    } else {
      assert a + b == b;
    }
  }

  /** Every whole-value obligation survives a successful projection unchanged. */
  lemma {:induction false} ProjectKeepsWholeValue(obls: seq<Obligation>, path: string, kind: string)
    requires (kind, "") in obls
    ensures (kind, "") in ProjectObligations(obls, path)
  {
    if obls[0] != (kind, "") {
      ProjectKeepsWholeValue(obls[1..], path, kind);
    }
  }

  /** Projection never produces an empty kind, so its constructor call cannot fail. */
  lemma {:induction false} ProjectKeepsValid(o: ChavaObject, path: string)
    requires ValidObligations(o.obligations)
    ensures ValidObligations(Project(o, path).obligations)
  {
    var r := Project(o, path);
    if Resolve(o.value, path).Some? {
      forall i | 0 <= i < |r.obligations| ensures r.obligations[i].0 != "" {
        var j :| 0 <= j < |o.obligations| && o.obligations[j].0 == r.obligations[i].0;
      }
    } else {
      assert forall i | 0 <= i < |o.obligations| :: r.obligations[i] == o.obligations[i];
    }
  }

  /** A scope under the path is rebased to the part after the path. */
  lemma ProjectRebasesChild(path: string, q: string)
    requires q != "" && q[0] != '/'
    ensures ProjectScope(path + "/" + q, path) == Some("/" + q)
  {
    RelScopeChild(path, q);
    assert (path + "/" + q)[..|path + "/"|] == path + "/";
  }

  /** A scope enclosing the path now covers the whole projected value. */
  lemma ProjectWidensAncestor(scope: string, q: string)
    requires scope != "" && q != ""
    ensures ProjectScope(scope, scope + "/" + q) == Some("")
  {
    assert (scope + "/" + q)[..|scope + "/"|] == scope + "/";
  }

  /** The descendant test is on a component boundary: a mere string prefix does not count. */
  lemma ProjectComponentBoundary(scope: string, path: string)
    requires HasPrefix(scope, path) && |scope| > |path| && scope[|path|] != '/'
    ensures ProjectScope(scope, path).None?
  {
    assert scope != "" && scope != path;
  }

  /** For instance, `/addressing` is not inside `/address`. */
  lemma AddressingNotInAddress()
    ensures ProjectScope("/addressing", "/address").None?
  {
    ProjectComponentBoundary("/addressing", "/address");
  }

  /** `merge`'s scope rewriting: `""` becomes the prefix itself, anything else is prefixed. */
  function PrefixScopes(obls: seq<Obligation>, prefix: string): (r: seq<Obligation>)
    ensures |r| == |obls|
    ensures forall i | 0 <= i < |obls| :: r[i] == (obls[i].0, prefix + obls[i].1)
  {
    if |obls| == 0 then []
    else
      var scope := obls[0].1;
      var s := if scope == "" then prefix else prefix + scope;
      assert s == prefix + scope;
      [(obls[0].0, s)] + PrefixScopes(obls[1..], prefix)
  }

  /** `merge`: the value pair, the left obligations under `/0` then the right under `/1`, and both logs. */
  function Merge(a: ChavaObject, b: ChavaObject): (r: ChavaObject)
    ensures r.value == JArr([a.value, b.value])
    ensures |r.obligations| == |a.obligations| + |b.obligations|
    ensures forall i | 0 <= i < |a.obligations| ::
      r.obligations[i] == (a.obligations[i].0, "/0" + a.obligations[i].1)
    ensures forall i | 0 <= i < |b.obligations| ::
      r.obligations[|a.obligations| + i] == (b.obligations[i].0, "/1" + b.obligations[i].1)
    ensures r.evidence == a.evidence + b.evidence
  {
    ChavaObject(JArr([a.value, b.value]),
                PrefixScopes(a.obligations, "/0") + PrefixScopes(b.obligations, "/1"),
                a.evidence + b.evidence)
  }

  /** Projecting `"/" + [tag]` undoes the prefixing of a rooted scope. */
  lemma ProjectUnprefixes(tag: char, scope: string)
    requires tag != '/'
    requires Rooted(scope)
    ensures ProjectScope("/" + [tag] + scope, "/" + [tag]) == Some(scope)
  {
    var path := "/" + [tag];
    if scope == "" {
      assert path + scope == path;
      RelScopeSelf(path);
    } else {
      var q := scope[1..];
      assert scope == "/" + q;
      assert path + scope == path + "/" + q;
      ProjectRebasesChild(path, q);
    }
  }

  /** A scope prefixed with one tag is dropped when projecting onto another tag. */
  lemma ProjectDropsOtherTag(tag: char, other: char, scope: string)
    requires tag != other
    ensures ProjectScope("/" + [other] + scope, "/" + [tag]).None?
  {
    var s := "/" + [other] + scope;
    var path := "/" + [tag];
    assert s[1] == other && path[1] == tag;
  }

  /** Projecting onto a tag gives back the obligations that were prefixed with it. */
  lemma {:induction false} ProjectOwnTag(obls: seq<Obligation>, tag: char)
    requires tag != '/'
    requires forall i | 0 <= i < |obls| :: Rooted(obls[i].1)
    ensures ProjectObligations(PrefixScopes(obls, "/" + [tag]), "/" + [tag]) == obls
  {
    if |obls| > 0 {
      var path := "/" + [tag];
      var head := (obls[0].0, path + obls[0].1);
      var tail := PrefixScopes(obls[1..], path);
      assert PrefixScopes(obls, path) == [head] + tail;
      assert ([head] + tail)[0] == head && ([head] + tail)[1..] == tail;
      ProjectUnprefixes(tag, obls[0].1);
      ProjectOwnTag(obls[1..], tag);
      assert obls == [obls[0]] + obls[1..];
    }
  }

  /** Projecting onto a tag drops every obligation prefixed with another tag. */
  lemma {:induction false} ProjectOtherTag(obls: seq<Obligation>, tag: char, other: char)
    requires tag != other
    ensures ProjectObligations(PrefixScopes(obls, "/" + [other]), "/" + [tag]) == []
  {
    if |obls| > 0 {
      var path := "/" + [other];
      var head := (obls[0].0, path + obls[0].1);
      var tail := PrefixScopes(obls[1..], path);
      assert PrefixScopes(obls, path) == [head] + tail;
      assert ([head] + tail)[0] == head && ([head] + tail)[1..] == tail;
      ProjectDropsOtherTag(tag, other, obls[0].1);
      ProjectOtherTag(obls[1..], tag, other);
    }
  }

  /**
   * Projecting a merge onto `/0` (resp. `/1`) gives back the left (resp. right)
   * value and obligations, provided their scopes are rooted; the evidence is the
   * merged log.
   */
  lemma ProjectMergeRoundTrip(a: ChavaObject, b: ChavaObject)
    requires forall i | 0 <= i < |a.obligations| :: Rooted(a.obligations[i].1)
    requires forall i | 0 <= i < |b.obligations| :: Rooted(b.obligations[i].1)
    ensures Project(Merge(a, b), "/0") == ChavaObject(a.value, a.obligations, a.evidence + b.evidence)
    ensures Project(Merge(a, b), "/1") == ChavaObject(b.value, b.obligations, a.evidence + b.evidence)
  {
    ResolvePair(a.value, b.value);
    ProjectObligationsConcat(PrefixScopes(a.obligations, "/0"), PrefixScopes(b.obligations, "/1"), "/0");
    ProjectObligationsConcat(PrefixScopes(a.obligations, "/0"), PrefixScopes(b.obligations, "/1"), "/1");
    assert "/0" == "/" + ['0'] && "/1" == "/" + ['1'];
    ProjectOwnTag(a.obligations, '0');
    ProjectOtherTag(b.obligations, '0', '1');
    ProjectOwnTag(b.obligations, '1');
    ProjectOtherTag(a.obligations, '1', '0');
    assert Merge(a, b).obligations == PrefixScopes(a.obligations, "/0") + PrefixScopes(b.obligations, "/1");
  }
}
