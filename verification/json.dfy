/**
 * JSON values and JSON Pointer evaluation (section 4 of RFC 6901), without the
 * `~0`/`~1` unescaping of reference tokens.
 */
module Json {
  import opened Wrappers
  import Strings

  /** A JSON value; `JNull` also stands for Python's `None`. */
  datatype Json =
    | JNull
    | JBool(b: bool)
    | JInt(i: int)
    | JFloat(f: real)
    | JStr(s: string)
    | JArr(items: seq<Json>)
    | JObj(fields: map<string, Json>)

  predicate IsDigit(c: char) {
    '0' <= c <= '9'
  }

  function DigitsValue(t: string): nat
    requires forall i | 0 <= i < |t| :: IsDigit(t[i])
  {
    if |t| == 0 then 0
    else
      assert IsDigit(t[|t| - 1]);
      10 * DigitsValue(t[..|t| - 1]) + (t[|t| - 1] as int - '0' as int)
  }

  /**
   * An array index token: `0`, or a non-empty digit string without a leading
   * zero. Anything else (including `-`, which names the slot past the end) does
   * not denote an existing element.
   */
  function ParseIndex(t: string): (r: Option<nat>)
    ensures r.Some? ==> |t| > 0 && (forall i | 0 <= i < |t| :: IsDigit(t[i])) && (t[0] == '0' ==> t == "0")
  {
    if |t| > 0 && (forall i | 0 <= i < |t| :: IsDigit(t[i])) && (t[0] != '0' || |t| == 1)
    then Some(DigitsValue(t))
    else None
  }

  /** Follows reference tokens from `doc`; `None` when a token names nothing. */
  function Walk(doc: Json, tokens: seq<string>): Option<Json>
    decreases |tokens|
  {
    if |tokens| == 0 then Some(doc)
    else
      match doc
      case JObj(fields) =>
        if tokens[0] in fields then Walk(fields[tokens[0]], tokens[1..]) else None
      case JArr(items) =>
        (match ParseIndex(tokens[0])
         case Some(n) => if n < |items| then Walk(items[n], tokens[1..]) else None
         case None => None)
      case _ => None
  }

  /** Resolves `ptr` against `doc`: the empty pointer is the whole document, any other must start with `/`. */
  function Resolve(doc: Json, ptr: string): (r: Option<Json>)
    ensures ptr == "" ==> r == Some(doc)
    ensures ptr != "" && ptr[0] != '/' ==> r.None?
  {
    if ptr == "" then Some(doc)
    else if ptr[0] != '/' then None
    else Walk(doc, Strings.Split(ptr[1..], '/'))
  }

  /** A one-token pointer `/k` into an object yields the member `k`, when present. */
  lemma {:induction false} ResolveMember(fields: map<string, Json>, k: string)
    requires '/' !in k
    ensures Resolve(JObj(fields), "/" + k) == (if k in fields then Some(fields[k]) else None)
  {
    assert ("/" + k)[1..] == k;
    Strings.SplitJoin([k], '/');
    assert Strings.Join([k], '/') == k;
    assert Strings.Split(k, '/') == [k];
    var ptr := "/" + k;
    assert ptr != "" && ptr[0] == '/';
    assert Resolve(JObj(fields), ptr) == Walk(JObj(fields), [k]);
    assert [k][1..] == [];
    if k in fields {
      assert Walk(fields[k], []) == Some(fields[k]);
      assert Walk(JObj(fields), [k]) == Walk(fields[k], []);
    }
  }

  /** `/0` and `/1` pick the two halves of a pair. */
  lemma ResolvePair(v0: Json, v1: Json)
    ensures Resolve(JArr([v0, v1]), "/0") == Some(v0)
    ensures Resolve(JArr([v0, v1]), "/1") == Some(v1)
  {
    assert "/0"[1..] == "0";
    assert "/1"[1..] == "1";
    Strings.SplitJoin(["0"], '/');
    Strings.SplitJoin(["1"], '/');
    assert DigitsValue("0") == 0;
    assert DigitsValue("1") == 1;
  }
}
