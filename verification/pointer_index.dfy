/** `HierarchicalPointerIndex`: a trie over the components of obligation scopes. */
module PointerIndex {
  import opened Wrappers
  import opened Strings
  import opened Core

  /** A trie node: children by path component, and the ids scoped exactly here. */
  datatype Trie = Node(children: map<string, Trie>, ids: set<string>)

  const EmptyNode := Node(map[], {})

  /** `_split_path`: "" and all-slash paths have no components; otherwise leading slashes go and the rest splits on '/'. */
  function SplitPath(path: string): (r: seq<string>)
    ensures forall i | 0 <= i < |r| :: '/' !in r[i]
  {
    if path == "" then []
    else
      var p := LStrip(path, '/');
      if p == "" then [] else Split(p, '/')
  }

  /** A path has no components exactly when it is empty or all slashes; otherwise its components join back into it, leading slashes stripped. */
  lemma SplitPathJoinsBack(path: string)
    ensures SplitPath(path) == [] <==> LStrip(path, '/') == ""
    ensures SplitPath(path) != [] ==> Join(SplitPath(path), '/') == LStrip(path, '/')
  {
    if LStrip(path, '/') != "" {
      JoinSplit(LStrip(path, '/'), '/');
    }
  }

  /** A pointer built by joining non-empty, slash-free components splits back into them. */
  lemma SplitPathJoin(comps: seq<string>)
    requires |comps| >= 1 && comps[0] != ""
    requires forall i | 0 <= i < |comps| :: '/' !in comps[i]
    ensures SplitPath("/" + Join(comps, '/')) == comps
  {
    var j := Join(comps, '/');
    if |comps| > 1 {
      assert j == comps[0] + ['/'] + Join(comps[1..], '/');
    }
    assert j[0] == comps[0][0];
    StripOneSlash(j);
    SplitJoin(comps, '/');
  }

  /** The node reached by following `at` from `t`, if every component exists. */
  function NodeAt(t: Trie, at: seq<string>): Option<Trie>
    decreases |at|
  {
    if |at| == 0 then Some(t)
    else if at[0] in t.children then NodeAt(t.children[at[0]], at[1..])
    else None
  }

  /** The ids stored exactly at `at`; none when the node does not exist. */
  function IdsAt(t: Trie, at: seq<string>): set<string> {
    match NodeAt(t, at)
    case Some(n) => n.ids
    case None => {}
  }

  lemma NodeAtCons(t: Trie, k: string, at: seq<string>)
    requires k in t.children
    ensures NodeAt(t, [k] + at) == NodeAt(t.children[k], at)
  {
    assert ([k] + at)[1..] == at;
  }

  /** A node with no ids and no children holds no ids anywhere below it. */
  lemma BareNodeIdsAt(n: Trie, at: seq<string>)
    requires n.ids == {} && n.children == map[]
    ensures IdsAt(n, at) == {}
  {
  }

  /** Following a path whose node exists passes through every prefix's node. */
  lemma {:induction false} NodeAtPrefix(t: Trie, at: seq<string>, j: nat)
    requires NodeAt(t, at).Some? && j <= |at|
    ensures NodeAt(t, at[..j]).Some?
    decreases |at|
  {
    if j > 0 {
      assert at[..j][0] == at[0];
      assert at[..j][1..] == at[1..][..j - 1];
      NodeAtPrefix(t.children[at[0]], at[1..], j - 1);
    }
  }

  /** Following `p + q` is following `p`, then `q` from there. */
  lemma {:induction false} NodeAtAppend(t: Trie, p: seq<string>, q: seq<string>)
    requires NodeAt(t, p).Some?
    ensures NodeAt(t, p + q) == NodeAt(NodeAt(t, p).value, q)
    decreases |p|
  {
    if |p| == 0 {
      assert p + q == q;
    } else {
      assert (p + q)[0] == p[0];
      assert (p + q)[1..] == p[1..] + q;
      NodeAtAppend(t.children[p[0]], p[1..], q);
    }
  }

  /** The inner loop of `add`: walks `comps`, creating missing nodes, and stores `id` at the end. */
  function Insert(t: Trie, comps: seq<string>, id: string): Trie
    decreases |comps|
  {
    if |comps| == 0 then t.(ids := t.ids + {id})
    else
      var k := comps[0];
      var child := if k in t.children then t.children[k] else EmptyNode;
      t.(children := t.children[k := Insert(child, comps[1..], id)])
  }

  /** Inserting adds `id` at exactly the path inserted, and changes no other node's ids. */
  lemma {:induction false} InsertIdsAt(t: Trie, comps: seq<string>, id: string, at: seq<string>)
    ensures IdsAt(Insert(t, comps, id), at) == IdsAt(t, at) + (if at == comps then {id} else {})
    decreases |comps|
  {
    if |comps| > 0 && |at| > 0 && at[0] == comps[0] {
      var k := comps[0];
      var child := if k in t.children then t.children[k] else EmptyNode;
      InsertIdsAt(child, comps[1..], id, at[1..]);
      if k !in t.children {
        BareNodeIdsAt(EmptyNode, at[1..]);
      }
      assert at == [at[0]] + at[1..] && comps == [comps[0]] + comps[1..];
      assert at == comps <==> at[1..] == comps[1..];
    }
  }

  /** `add`: every obligation's scope gets `id`; the empty scope goes straight to the root. */
  function Add(t: Trie, id: string, obls: seq<Obligation>): Trie
    decreases |obls|
  {
    if |obls| == 0 then t
    else
      var scope := obls[0].1;
      var t1 := if scope == "" then t.(ids := t.ids + {id}) else Insert(t, SplitPath(scope), id);
      Add(t1, id, obls[1..])
  }

  /** Some obligation's scope splits into `at`. */
  predicate ScopedAt(obls: seq<Obligation>, at: seq<string>) {
    exists i | 0 <= i < |obls| :: SplitPath(obls[i].1) == at
  }

  lemma ScopedAtCons(obls: seq<Obligation>, at: seq<string>)
    requires |obls| > 0
    ensures ScopedAt(obls, at) <==> SplitPath(obls[0].1) == at || ScopedAt(obls[1..], at)
  {
    if ScopedAt(obls, at) {
      var i :| 0 <= i < |obls| && SplitPath(obls[i].1) == at;
      if i > 0 {
        assert obls[1..][i - 1] == obls[i];
      }
    }
    if ScopedAt(obls[1..], at) {
      var i :| 0 <= i < |obls[1..]| && SplitPath(obls[1..][i].1) == at;
      assert obls[i + 1] == obls[1..][i];
    }
  }

  /** After `add`, the ids at a path are the old ones plus `id` exactly when some obligation is scoped there. */
  lemma {:induction false} AddIdsAt(t: Trie, id: string, obls: seq<Obligation>, at: seq<string>)
    ensures IdsAt(Add(t, id, obls), at) == IdsAt(t, at) + (if ScopedAt(obls, at) then {id} else {})
    decreases |obls|
  {
    if |obls| > 0 {
      var scope := obls[0].1;
      var t1 := Insert(t, SplitPath(scope), id);
      assert Add(t, id, obls) == Add(t1, id, obls[1..]);
      InsertIdsAt(t, SplitPath(scope), id, at);
      AddIdsAt(t1, id, obls[1..], at);
      ScopedAtCons(obls, at);
    }
  }

  /** Every id stored anywhere in the trie. */
  function SubtreeIds(t: Trie): set<string>
    decreases t
  {
    t.ids + (set k, x | k in t.children && x in SubtreeIds(t.children[k]) :: x)
  }

  /** The ids of a subtree are exactly those stored at some path below its root. */
  lemma {:induction false} SubtreeIdsSpec(t: Trie, x: string)
    ensures x in SubtreeIds(t) <==> exists at :: x in IdsAt(t, at)
    decreases t
  {
    if x in SubtreeIds(t) {
      if x in t.ids {
        assert x in IdsAt(t, []);
      } else {
        var k :| k in t.children && x in SubtreeIds(t.children[k]);
        SubtreeIdsSpec(t.children[k], x);
        var at :| x in IdsAt(t.children[k], at);
        NodeAtCons(t, k, at);
        assert x in IdsAt(t, [k] + at);
      }
    }
    if exists at :: x in IdsAt(t, at) {
      var at :| x in IdsAt(t, at);
      if |at| > 0 {
        var k := at[0];
        assert k in t.children;
        assert x in IdsAt(t.children[k], at[1..]);
        SubtreeIdsSpec(t.children[k], x);
      }
    }
  }

  /** The longest prefix of `comps` that exists in the trie: where the walk of `get_objects_at_path` stops. */
  function Deepest(t: Trie, comps: seq<string>): (d: seq<string>)
    ensures |d| <= |comps| && d == comps[..|d|]
    ensures NodeAt(t, d).Some?
    ensures |d| < |comps| ==> NodeAt(t, comps[..|d| + 1]).None?
    decreases |comps|
  {
    if |comps| == 0 then []
    else if comps[0] !in t.children then
      assert comps[..1] == [comps[0]];
      []
    else
      var k := comps[0];
      var d' := Deepest(t.children[k], comps[1..]);
      NodeAtCons(t, k, d');
      assert comps[..|d'| + 1] == [k] + d';
      if |d'| < |comps[1..]| then
        assert comps[..|d'| + 2] == [k] + comps[1..][..|d'| + 1];
        NodeAtCons(t, k, comps[1..][..|d'| + 1]);
        [k] + d'
      else
        [k] + d'
  }

  /** When the whole path exists, the walk reaches its end. */
  lemma DeepestOfExisting(t: Trie, comps: seq<string>)
    requires NodeAt(t, comps).Some?
    ensures Deepest(t, comps) == comps
  {
    var d := Deepest(t, comps);
    if |d| < |comps| {
      NodeAtPrefix(t, comps, |d| + 1);
    }
  }

  /** The walking loop of `get_objects_at_path`: follows components while they exist. */
  function Descend(t: Trie, comps: seq<string>): (n: Trie)
    ensures NodeAt(t, Deepest(t, comps)) == Some(n)
    decreases |comps|
  {
    if |comps| == 0 || comps[0] !in t.children then t
    else
      NodeAtCons(t, comps[0], Deepest(t.children[comps[0]], comps[1..]));
      Descend(t.children[comps[0]], comps[1..])
  }

  /** `get_objects_at_path`: every id in the subtree where the walk stops. */
  function GetObjectsAtPath(t: Trie, path: string): set<string> {
    SubtreeIds(Descend(t, SplitPath(path)))
  }

  /** The query returns exactly the ids stored at or below the deepest existing prefix of the path. */
  lemma GetObjectsAtPathSpec(t: Trie, path: string, x: string)
    ensures x in GetObjectsAtPath(t, path) <==>
      exists at :: x in IdsAt(t, Deepest(t, SplitPath(path)) + at)
  {
    var d := Deepest(t, SplitPath(path));
    var n := Descend(t, SplitPath(path));
    assert GetObjectsAtPath(t, path) == SubtreeIds(n);
    SubtreeIdsSpec(n, x);
    forall at ensures IdsAt(t, d + at) == IdsAt(n, at) {
      NodeAtAppend(t, d, at);
    }
    assert (exists at :: x in IdsAt(n, at)) ==> (exists at :: x in IdsAt(t, d + at));
    assert (exists at :: x in IdsAt(t, d + at)) ==> (exists at :: x in IdsAt(n, at));
    assert x in GetObjectsAtPath(t, path) <==> exists at :: x in IdsAt(t, d + at);
    assert d == Deepest(t, SplitPath(path));
  }

  /** An id stored at or below an existing path is returned when querying that path. */
  lemma QuerySeesDescendants(t: Trie, path: string, below: seq<string>, x: string)
    requires x in IdsAt(t, SplitPath(path) + below)
    ensures x in GetObjectsAtPath(t, path)
  {
    var p := SplitPath(path);
    NodeAtPrefix(t, p + below, |p|);
    assert (p + below)[..|p|] == p;
    DeepestOfExisting(t, p);
    GetObjectsAtPathSpec(t, path, x);
  }

  /** After `add`, the object is found when querying any of its obligations' scopes. */
  lemma AddThenQuery(t: Trie, id: string, obls: seq<Obligation>, i: nat)
    requires i < |obls|
    ensures id in GetObjectsAtPath(Add(t, id, obls), obls[i].1)
  {
    var p := SplitPath(obls[i].1);
    AddIdsAt(t, id, obls, p);
    assert p + [] == p;
    QuerySeesDescendants(Add(t, id, obls), obls[i].1, [], id);
  }

  /** A path whose first component is unknown falls back to every id in the trie. */
  lemma UnknownPathReturnsAll(t: Trie, path: string)
    requires |SplitPath(path)| > 0 && SplitPath(path)[0] !in t.children
    ensures GetObjectsAtPath(t, path) == SubtreeIds(t)
  {
    assert Descend(t, SplitPath(path)) == t;
  }

  /** `_remove_from_path`: discards `id` at the end of `comps`, pruning each child left with no ids and no children. */
  function RemoveFromPath(t: Trie, comps: seq<string>, id: string): Trie
    decreases |comps|
  {
    if |comps| == 0 then t.(ids := t.ids - {id})
    else
      var k := comps[0];
      if k in t.children then
        var child := RemoveFromPath(t.children[k], comps[1..], id);
        if child.ids == {} && child.children == map[] then t.(children := t.children - {k})
        else t.(children := t.children[k := child])
      else t
  }

  /** Removing takes `id` out of exactly the node at `comps`; pruning loses no other id. */
  lemma {:induction false} RemoveIdsAt(t: Trie, comps: seq<string>, id: string, at: seq<string>)
    ensures IdsAt(RemoveFromPath(t, comps, id), at) == IdsAt(t, at) - (if at == comps then {id} else {})
    decreases |comps|
  {
    if |comps| > 0 && |at| > 0 && at[0] == comps[0] && comps[0] in t.children {
      var k := comps[0];
      var child := RemoveFromPath(t.children[k], comps[1..], id);
      RemoveIdsAt(t.children[k], comps[1..], id, at[1..]);
      if child.ids == {} && child.children == map[] {
        BareNodeIdsAt(child, at[1..]);
      }
      assert at == [at[0]] + at[1..] && comps == [comps[0]] + comps[1..];
      assert at == comps <==> at[1..] == comps[1..];
    } else if |comps| > 0 && at == comps {
      assert IdsAt(t, at) == {};
    }
  }

  /** `remove_obligation` takes `id` out of the node its scope names and nowhere else. */
  /** `_remove_from_path` at every node at once. */
  lemma RemoveIdsEverywhere(t: Trie, comps: seq<string>, id: string)
    ensures forall at :: IdsAt(RemoveFromPath(t, comps, id), at) == IdsAt(t, at) - (if at == comps then {id} else {})
  {
    forall at ensures IdsAt(RemoveFromPath(t, comps, id), at) == IdsAt(t, at) - (if at == comps then {id} else {}) {
      RemoveIdsAt(t, comps, id, at);
    }
  }

  /**
   * `remove_obligation`: the empty scope discards at the root, any other goes down
   * its path; either way only the node the scope names loses `id`.
   */
  function RemoveObligation(t: Trie, id: string, scope: string): (r: Trie)
    ensures forall at :: IdsAt(r, at) == IdsAt(t, at) - (if at == SplitPath(scope) then {id} else {})
  {
    RemoveIdsEverywhere(t, SplitPath(scope), id);
    if scope == "" then
      assert t.(ids := t.ids - {id}) == RemoveFromPath(t, [], id);
      t.(ids := t.ids - {id})
    else RemoveFromPath(t, SplitPath(scope), id)
  }

  /** A node that still carries something. */
  predicate Live(n: Trie) {
    n.ids != {} || n.children != map[]
  }

  /** No node below the root is bare. */
  ghost predicate Pruned(t: Trie)
    decreases t
  {
    forall k | k in t.children :: Live(t.children[k]) && Pruned(t.children[k])
  }

  lemma {:induction false} InsertKeepsPruned(t: Trie, comps: seq<string>, id: string)
    requires Pruned(t)
    ensures Pruned(Insert(t, comps, id)) && Live(Insert(t, comps, id))
    decreases |comps|
  {
    if |comps| > 0 {
      var k := comps[0];
      var child := if k in t.children then t.children[k] else EmptyNode;
      InsertKeepsPruned(child, comps[1..], id);
      var r := Insert(t, comps, id);
      assert k in r.children;
      forall k2 | k2 in r.children ensures Live(r.children[k2]) && Pruned(r.children[k2]) {
        if k2 != k {
          assert r.children[k2] == t.children[k2];
        }
      }
    }
  }

  lemma {:induction false} RemoveKeepsPruned(t: Trie, comps: seq<string>, id: string)
    requires Pruned(t)
    ensures Pruned(RemoveFromPath(t, comps, id))
    decreases |comps|
  {
    if |comps| > 0 && comps[0] in t.children {
      RemoveKeepsPruned(t.children[comps[0]], comps[1..], id);
    }
  }

  /** `add` and `remove_obligation` keep every non-root node carrying something. */
  lemma {:induction false} IndexKeepsPruned(t: Trie, id: string, obls: seq<Obligation>, scope: string)
    requires Pruned(t)
    ensures Pruned(Add(t, id, obls))
    ensures Pruned(RemoveObligation(t, id, scope))
    decreases |obls|
  {
    if |obls| > 0 {
      var s := obls[0].1;
      InsertKeepsPruned(t, SplitPath(s), id);
      assert Pruned(t.(ids := t.ids + {id}));
      var t1 := if s == "" then t.(ids := t.ids + {id}) else Insert(t, SplitPath(s), id);
      IndexKeepsPruned(t1, id, obls[1..], scope);
    }
    RemoveKeepsPruned(t, SplitPath(scope), id);
  }

  /** In a pruned trie every child subtree holds at least one id. */
  lemma {:induction false} PrunedChildrenHoldIds(t: Trie, k: string)
    requires Pruned(t) && k in t.children
    ensures SubtreeIds(t.children[k]) != {}
    decreases t
  {
    var c := t.children[k];
    if c.ids == {} {
      var k2 :| k2 in c.children;
      PrunedChildrenHoldIds(c, k2);
      var x :| x in SubtreeIds(c.children[k2]);
      assert x in SubtreeIds(c);
    }
  }
}
