/** Stream operators over lists of Chava objects. */
module Operators {
  import opened Wrappers
  import opened Errors
  import opened Core
  import Verifiers

  /** `filter_cleared`: the cleared objects, in input order. */
  function FilterCleared(objs: seq<ChavaObject>): (r: seq<ChavaObject>)
    ensures |r| <= |objs|
    ensures forall o :: o in r <==> o in objs && IsCleared(o)
  {
    if |objs| == 0 then []
    else (if IsCleared(objs[0]) then [objs[0]] else []) + FilterCleared(objs[1..])
  }

  /** Filtering commutes with concatenation, so the relative order of survivors is the input order. */
  lemma {:induction false} FilterClearedConcat(a: seq<ChavaObject>, b: seq<ChavaObject>)
    ensures FilterCleared(a + b) == FilterCleared(a) + FilterCleared(b)
  {
    if |a| > 0 {
      assert (a + b)[0] == a[0];
      assert (a + b)[1..] == a[1..] + b;
      FilterClearedConcat(a[1..], b);
    } else {
      assert a + b == b;
    }
  }

  /** Filtering twice is filtering once. */
  lemma {:induction false} FilterClearedIdempotent(objs: seq<ChavaObject>)
    ensures FilterCleared(FilterCleared(objs)) == FilterCleared(objs)
  {
    if |objs| > 0 {
      var head := if IsCleared(objs[0]) then [objs[0]] else [];
      FilterClearedConcat(head, FilterCleared(objs[1..]));
      FilterClearedIdempotent(objs[1..]);
      if IsCleared(objs[0]) {
        assert FilterCleared(head) == head by {
          assert head[1..] == [];
        }
      }
    }
  }

  /** Python's `any(k == kind for k, _ in obligations)`. */
  predicate HasKind(obls: seq<Obligation>, kind: string) {
    exists i | 0 <= i < |obls| :: obls[i].0 == kind
  }

  /** What `inject_verification` makes of one object `o` that it turns into `r`. */
  predicate InjectedOne(o: ChavaObject, r: ChavaObject, kind: string, reg: Verifiers.Registry,
                        verifierId: string, now: int, h: HashFn) {
    && ((kind, "") !in o.obligations ==> r == o)
    && (HasKind(o.obligations, kind) ==> Success(r) == Discharge(o, kind, "", reg, verifierId, now, h))
    && |r.obligations| <= |o.obligations|
  }

  /** The loop body of `inject_verification` for one object. */
  method InjectOne(o: ChavaObject, kind: string, reg: Verifiers.Registry, verifierId: string, now: int, h: HashFn)
    returns (r: Result<ChavaObject, Error>)
    ensures r.Failure? <==> kind !in reg && (kind, "") in o.obligations
    ensures r.Failure? ==> r.error == NoVerifier(kind)
    ensures r.Success? ==> InjectedOne(o, r.value, kind, reg, verifierId, now, h)
  {
    if HasKind(o.obligations, kind) {
      r := Discharge(o, kind, "", reg, verifierId, now, h);
    } else {
      assert (kind, "") !in o.obligations;
      r := Success(o);
    }
  }

  /**
   * `inject_verification`: every object holding an obligation of `kind` is
   * discharged for `kind` at the whole-value scope `""`; the others pass through.
   * `clock(i)` is the time read while handling the `i`-th object.
   */
  method InjectVerification(objs: seq<ChavaObject>, kind: string, reg: Verifiers.Registry,
                            verifierId: string, clock: nat -> int, h: HashFn)
    returns (r: Result<seq<ChavaObject>, Error>)
    ensures r.Failure? <==> kind !in reg && exists i | 0 <= i < |objs| :: (kind, "") in objs[i].obligations
    ensures r.Failure? ==> r.error == NoVerifier(kind)
    ensures r.Success? ==> |r.value| == |objs|
    ensures r.Success? ==> forall i | 0 <= i < |objs| && (kind, "") !in objs[i].obligations :: r.value[i] == objs[i]
    ensures r.Success? ==> forall i | 0 <= i < |objs| && HasKind(objs[i].obligations, kind) ::
      Success(r.value[i]) == Discharge(objs[i], kind, "", reg, verifierId, clock(i), h)
    ensures r.Success? ==> forall i | 0 <= i < |objs| :: |r.value[i].obligations| <= |objs[i].obligations|
  {
    var results: seq<ChavaObject> := [];
    var i := 0;
    while i < |objs|
      invariant 0 <= i <= |objs|
      invariant |results| == i
      invariant kind !in reg ==> forall j | 0 <= j < i :: (kind, "") !in objs[j].obligations
      invariant forall j | 0 <= j < i :: InjectedOne(objs[j], results[j], kind, reg, verifierId, clock(j), h)
    {
      var d := InjectOne(objs[i], kind, reg, verifierId, clock(i), h);
      if d.Failure? {
        return Failure(d.error);
      }
      results := results + [d.value];
      i := i + 1;
    }
    return Success(results);
  }
}
