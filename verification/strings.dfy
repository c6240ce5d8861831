/** The handful of Python `str` operations the model needs, on `seq<char>`. */
module Strings {

  /** Python's `s.startswith(p)`. */
  predicate HasPrefix(s: string, p: string) {
    |p| <= |s| && s[..|p|] == p
  }

  /** Python's `s.lstrip(c)` for a single character `c`: a suffix of `s` not starting with `c`. */
  function LStrip(s: string, c: char): (r: string)
    ensures |r| <= |s|
    ensures r == [] || r[0] != c
  {
    if |s| > 0 && s[0] == c then LStrip(s[1..], c) else s
  }

  lemma StripOneSlash(q: string)
    requires q != "" && q[0] != '/'
    ensures LStrip("/" + q, '/') == q
  {
    assert ("/" + q)[1..] == q;
  }

  /** Stripping leading slashes off `p + "/" + q` keeps the stripped `p`, a slash, and `q`, unless `p` is all slashes. */
  lemma {:induction false} StripJoined(p: string, q: string)
    requires q != "" && q[0] != '/'
    ensures LStrip(p, '/') == "" ==> LStrip(p + "/" + q, '/') == q
    ensures LStrip(p, '/') != "" ==> LStrip(p + "/" + q, '/') == LStrip(p, '/') + "/" + q
  {
    if p == "" {
      assert p + "/" + q == "/" + q;
      StripOneSlash(q);
    } else if p[0] == '/' {
      assert (p + "/" + q)[1..] == p[1..] + "/" + q;
      StripJoined(p[1..], q);
    } else {
      assert (p + "/" + q)[0] == p[0];
    }
  }

  /** Index of the first occurrence of `c` in `s`. */
  function IndexOf(s: string, c: char): (i: nat)
    requires c in s
    ensures i < |s| && s[i] == c && c !in s[..i]
  {
    if s[0] == c then 0 else IndexOf(s[1..], c) + 1
  }

  /** Python's `s.split(c)`: always at least one piece, and no piece holds `c`. */
  function Split(s: string, c: char): (parts: seq<string>)
    ensures |parts| >= 1
    ensures forall i | 0 <= i < |parts| :: c !in parts[i]
    decreases |s|
  {
    if c !in s then [s]
    else
      var i := IndexOf(s, c);
      [s[..i]] + Split(s[i + 1..], c)
  }

  /** Python's `c.join(parts)`. */
  function Join(parts: seq<string>, c: char): string
    requires |parts| >= 1
  {
    if |parts| == 1 then parts[0] else parts[0] + [c] + Join(parts[1..], c)
  }

  /** Joining the pieces of a split gives back the string. */
  lemma {:induction false} JoinSplit(s: string, c: char)
    ensures Join(Split(s, c), c) == s
    decreases |s|
  {
    if c in s {
      var i := IndexOf(s, c);
      JoinSplit(s[i + 1..], c);
      assert Split(s, c)[1..] == Split(s[i + 1..], c);
      assert s == s[..i] + [c] + s[i + 1..];
    }
  }

  /** The first separator after a separator-free prefix sits right after it. */
  lemma {:induction false} IndexAfterPrefix(p: string, rest: string, c: char)
    requires c !in p
    ensures c in p + [c] + rest
    ensures IndexOf(p + [c] + rest, c) == |p|
  {
    var s := p + [c] + rest;
    assert s[|p|] == c;
    if |p| > 0 {
      assert s[1..] == p[1..] + [c] + rest;
      IndexAfterPrefix(p[1..], rest, c);
    }
  }

  /** Splitting a join of separator-free pieces gives back the pieces. */
  lemma {:induction false} SplitJoin(parts: seq<string>, c: char)
    requires |parts| >= 1
    requires forall i | 0 <= i < |parts| :: c !in parts[i]
    ensures Split(Join(parts, c), c) == parts
  {
    if |parts| > 1 {
      var p := parts[0];
      var rest := Join(parts[1..], c);
      var s := p + [c] + rest;
      assert Join(parts, c) == s;
      IndexAfterPrefix(p, rest, c);
      assert s[..|p|] == p;
      assert s[|p| + 1..] == rest;
      SplitJoin(parts[1..], c);
      assert Split(s, c) == [p] + Split(rest, c);
      assert parts == [p] + parts[1..];
    } else {
      assert Join(parts, c) == parts[0];
    }
  }

  /** Python's `<` on `str`: lexicographic by code point. */
  predicate Lt(a: string, b: string) {
    if |b| == 0 then false
    else if |a| == 0 then true
    else if a[0] != b[0] then a[0] < b[0]
    else Lt(a[1..], b[1..])
  }

  /** Python's `<=` on `str`. */
  predicate Le(a: string, b: string) {
    a == b || Lt(a, b)
  }

  lemma LtIrreflexive(a: string)
    ensures !Lt(a, a)
  {
  }

  lemma LtAsymmetric(a: string, b: string)
    ensures !(Lt(a, b) && Lt(b, a))
  {
  }

  lemma LtTransitive(a: string, b: string, c: string)
    requires Lt(a, b) && Lt(b, c)
    ensures Lt(a, c)
  {
    if |a| > 0 && a[0] == b[0] && b[0] == c[0] {
      LtTransitive(a[1..], b[1..], c[1..]);
    }
  }

  lemma LtTotal(a: string, b: string)
    ensures a == b || Lt(a, b) || Lt(b, a)
  {
    if |a| > 0 && |b| > 0 && a[0] == b[0] {
      LtTotal(a[1..], b[1..]);
      if a[1..] == b[1..] {
        assert a == [a[0]] + a[1..] && b == [b[0]] + b[1..];
      }
    }
  }
}
