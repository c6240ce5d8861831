/**
 * The Chava object (value, obligation multiset, hash-chained evidence log) and
 * its state machine: construction, evidence hashing, chain verification,
 * conflict detection, unwrap and discharge.
 */
module Core {
  import opened Wrappers
  import opened Errors
  import opened Json
  import Verifiers

  /** An obligation `(kind, scope)`; the scope `""` is the whole value. */
  type Obligation = (string, string)

  /** One evidence record; `hash` is meant to be the hash of the other fields it covers. */
  datatype Record = Record(
    verifierId: string,
    result: string,
    timestamp: int,
    prevHash: string,
    kind: string,
    scope: string,
    hash: string)

  /** The fields the record hash covers: neither `kind` nor `scope`. */
  datatype HashInput = HashInput(verifierId: string, result: string, timestamp: int, prevHash: string)

  /** SHA-256 of the canonical JSON of a `HashInput`, left uninterpreted. */
  type HashFn = HashInput -> string

  datatype ChavaObject = ChavaObject(value: Json, obligations: seq<Obligation>, evidence: seq<Record>)

  ghost predicate Injective(h: HashFn) {
    forall a, b :: h(a) == h(b) ==> a == b
  }

  /** Every obligation kind is non-empty (the constructor's check). */
  ghost predicate ValidObligations(obls: seq<Obligation>) {
    forall i | 0 <= i < |obls| :: obls[i].0 != ""
  }

  /** The constructor's validation loop. */
  function KindsNonEmpty(obls: seq<Obligation>): (ok: bool)
    ensures ok <==> ValidObligations(obls)
  {
    if |obls| == 0 then true
    else obls[0].0 != "" && KindsNonEmpty(obls[1..])
  }

  /** `ChavaObject(value, obligations, evidence)`: `ValueError` on an empty kind. */
  function NewObject(value: Json, obls: seq<Obligation>, evidence: seq<Record>): (r: Result<ChavaObject, Error>)
    ensures r.Success? <==> ValidObligations(obls)
    ensures r.Success? ==> r.value == ChavaObject(value, obls, evidence)
    ensures r.Failure? ==> r.error == InvalidObligationKind("")
  {
    if KindsNonEmpty(obls) then Success(ChavaObject(value, obls, evidence))
    else Failure(InvalidObligationKind(""))
  }

  function HashInputOf(r: Record): HashInput {
    HashInput(r.verifierId, r.result, r.timestamp, r.prevHash)
  }

  /** `compute_evidence_hash`: the hash of the covered fields; rewriting `kind` or `scope` never changes it. */
  function ComputeEvidenceHash(rec: Record, h: HashFn): (r: string)
    ensures forall k: string, s: string :: h(HashInputOf(rec.(kind := k, scope := s))) == r
  {
    h(HashInputOf(rec))
  }

  /** With an injective hash, two records hash alike exactly when they agree on the covered fields. */
  lemma HashCoversExactly(a: Record, b: Record, h: HashFn)
    requires Injective(h)
    ensures ComputeEvidenceHash(a, h) == ComputeEvidenceHash(b, h) <==>
      && a.verifierId == b.verifierId && a.result == b.result
      && a.timestamp == b.timestamp && a.prevHash == b.prevHash
  {
  }

  /** Every record carries its own hash, and every record after the first links to its predecessor. */
  ghost predicate ChainSound(e: seq<Record>, h: HashFn) {
    && (forall i | 0 <= i < |e| :: e[i].hash == h(HashInputOf(e[i])))
    && (forall i | 0 < i < |e| :: e[i].prevHash == e[i - 1].hash)
  }

  /** The loop of `verify_evidence_chain` from index `i` on. */
  function ChainFrom(e: seq<Record>, i: nat, h: HashFn): (ok: bool)
    requires i <= |e|
    ensures ok <==>
      && (forall j | i <= j < |e| :: e[j].hash == h(HashInputOf(e[j])))
      && (forall j | i <= j < |e| && j > 0 :: e[j].prevHash == e[j - 1].hash)
    decreases |e| - i
  {
    if i == |e| then true
    else if e[i].hash != ComputeEvidenceHash(e[i], h) then false
    else if i > 0 && e[i].prevHash != e[i - 1].hash then false
    else ChainFrom(e, i + 1, h)
  }

  /** `verify_evidence_chain`. Note that the first record's `prevHash` is never checked. */
  function VerifyEvidenceChain(e: seq<Record>, h: HashFn): (ok: bool)
    ensures ok <==> ChainSound(e, h)
  {
    ChainFrom(e, 0, h)
  }

  /** A reject of some kind followed, later in the log, by an accept of the same kind. */
  ghost predicate RejectThenAccept(e: seq<Record>) {
    exists i, j | 0 <= i < j < |e| :: e[i].kind == e[j].kind && e[i].result == "reject" && e[j].result == "accept"
  }

  function RejectedKinds(e: seq<Record>, i: nat): set<string>
    requires i <= |e|
  {
    set j | 0 <= j < i && e[j].result == "reject" :: e[j].kind
  }

  /**
   * The scan of `has_conflict`: per kind, an accept after a reject of that kind.
   * `rejected` holds the kinds rejected in `e[..i]`.
   */
  function ConflictFrom(e: seq<Record>, i: nat, rejected: set<string>): bool
    requires i <= |e|
    decreases |e| - i
  {
    if i == |e| then false
    else if e[i].result == "reject" then ConflictFrom(e, i + 1, rejected + {e[i].kind})
    else if e[i].result == "accept" && e[i].kind in rejected then true
    else ConflictFrom(e, i + 1, rejected)
  }

  lemma {:induction false} ConflictFromCorrect(e: seq<Record>, i: nat, rejected: set<string>)
    requires i <= |e|
    requires rejected == RejectedKinds(e, i)
    ensures ConflictFrom(e, i, rejected) <==>
      exists j, l | 0 <= j < l < |e| && i <= l ::
        e[j].kind == e[l].kind && e[j].result == "reject" && e[l].result == "accept"
    decreases |e| - i
  {
    if i < |e| {
      if e[i].result == "reject" {
        assert RejectedKinds(e, i + 1) == rejected + {e[i].kind};
        ConflictFromCorrect(e, i + 1, rejected + {e[i].kind});
      } else if e[i].result == "accept" && e[i].kind in rejected {
        var j :| 0 <= j < i && e[j].result == "reject" && e[j].kind == e[i].kind;
        assert e[j].kind == e[i].kind && e[j].result == "reject" && e[i].result == "accept";
      } else {
        assert RejectedKinds(e, i + 1) == rejected;
        ConflictFromCorrect(e, i + 1, rejected);
        if exists j, l | 0 <= j < l < |e| && i <= l ::
            e[j].kind == e[l].kind && e[j].result == "reject" && e[l].result == "accept" {
          var j, l :| 0 <= j < l < |e| && i <= l &&
            e[j].kind == e[l].kind && e[j].result == "reject" && e[l].result == "accept";
        }
      }
    }
  }

  /** `has_conflict`. */
  function HasConflict(e: seq<Record>): (c: bool)
    ensures c <==> RejectThenAccept(e)
  {
    ConflictFromCorrect(e, 0, {});
    ConflictFrom(e, 0, {})
  }

  /** `is_cleared`: no obligations and a conflict-free log. */
  predicate IsCleared(o: ChavaObject)
    ensures IsCleared(o) <==> o.obligations == [] && !RejectThenAccept(o.evidence)
  {
    |o.obligations| == 0 && !HasConflict(o.evidence)
  }

  /** The kinds of a list of obligations, as a set. */
  function Kinds(obls: seq<Obligation>): set<string> {
    set ob | ob in obls :: ob.0
  }

  /** `unwrap`: the value when cleared, otherwise `ObligationViolation` naming the remaining kinds. */
  function Unwrap(o: ChavaObject): (r: Result<Json, Error>)
    ensures r.Success? <==> |o.obligations| == 0 && !RejectThenAccept(o.evidence)
    ensures r.Success? ==> r.value == o.value
    ensures r.Failure? ==> r.error == ObligationViolation(set i | 0 <= i < |o.obligations| :: o.obligations[i].0)
  {
    if !IsCleared(o) then
      assert Kinds(o.obligations) == set i | 0 <= i < |o.obligations| :: o.obligations[i].0 by {
        forall k | k in Kinds(o.obligations)
          ensures exists i | 0 <= i < |o.obligations| :: o.obligations[i].0 == k
        {
          var ob :| ob in o.obligations && ob.0 == k;
          var i :| 0 <= i < |o.obligations| && o.obligations[i] == ob;
        }
      }
      Failure(ObligationViolation(Kinds(o.obligations)))
    else Success(o.value)
  }

  /** `safe_consume`: applies `consumer` to the unwrapped value, or fails as unwrap does. */
  function SafeConsume<T>(o: ChavaObject, consumer: Json -> T): (r: Result<T, Error>)
    ensures r.Success? <==> IsCleared(o)
    ensures r.Success? ==> r.value == consumer(o.value)
    ensures r.Failure? ==> Unwrap(o).Failure? && r.error == Unwrap(o).error
  {
    match Unwrap(o)
    case Success(v) => Success(consumer(v))
    case Failure(err) => Failure(err)
  }

  /** Position of the first occurrence of `x` in `s`. */
  function FirstIndex(s: seq<Obligation>, x: Obligation): (i: nat)
    requires x in s
    ensures i < |s| && s[i] == x && x !in s[..i]
  {
    if s[0] == x then 0 else FirstIndex(s[1..], x) + 1
  }

  /**
   * Python's `list.remove(x)`: exactly one occurrence, the first, leaves the
   * multiset; everything before it stays in place and everything after moves
   * up by one.
   */
  function RemoveFirst(s: seq<Obligation>, x: Obligation): (r: seq<Obligation>)
    requires x in s
    ensures multiset(r) == multiset(s) - multiset{x}
    ensures |r| == |s| - 1
    ensures forall j | 0 <= j < FirstIndex(s, x) :: r[j] == s[j]
    ensures forall j | FirstIndex(s, x) <= j < |r| :: r[j] == s[j + 1]
  {
    var i := FirstIndex(s, x);
    assert s == s[..i] + [x] + s[i + 1..];
    s[..i] + s[i + 1..]
  }

  /** The value a verifier sees: the whole value for `""`, else the pointer target, or `None`. */
  function ScopedValue(value: Json, scope: string): (r: Json)
    ensures Resolve(value, scope).Some? ==> r == Resolve(value, scope).value
    ensures Resolve(value, scope).None? ==> r == JNull
  {
    if scope == "" then value
    else
      match Resolve(value, scope)
      case Some(v) => v
      case None => JNull
  }

  /** The hash of the log's last record, or `""` for an empty log. */
  function Tip(e: seq<Record>): string {
    if |e| > 0 then e[|e| - 1].hash else ""
  }

  /** A record with its hash filled in, as `discharge` builds it. */
  function SealRecord(verifierId: string, result: string, now: int, prev: string,
                      kind: string, scope: string, h: HashFn): (r: Record)
    ensures r.hash == h(HashInputOf(r))
  {
    var unsealed := Record(verifierId, result, now, prev, kind, scope, "");
    unsealed.(hash := ComputeEvidenceHash(unsealed, h))
  }

  /**
   * `discharge` at time `now`. An absent obligation gives back the object
   * unchanged. Otherwise the kind's verifier runs on the scoped value; one
   * record chained to the tip is appended whatever the verdict, and only the
   * verdict "accept" removes the first occurrence of the obligation.
   */
  function Discharge(o: ChavaObject, kind: string, scope: string, reg: Verifiers.Registry,
                     verifierId: string, now: int, h: HashFn): (r: Result<ChavaObject, Error>)
    ensures (kind, scope) !in o.obligations ==> r == Success(o)
    ensures (kind, scope) in o.obligations && kind !in reg ==> r == Failure(NoVerifier(kind))
    ensures (kind, scope) in o.obligations && kind in reg ==> r.Success?
    ensures r.Success? ==> r.value.value == o.value && |r.value.obligations| <= |o.obligations|
    ensures r.Success? && (kind, scope) in o.obligations ==>
      var n := |o.evidence|;
      && |r.value.evidence| == n + 1
      && r.value.evidence[..n] == o.evidence
      && var rec := r.value.evidence[n];
      && rec.verifierId == verifierId && rec.timestamp == now
      && rec.kind == kind && rec.scope == scope
      && rec.result == reg[kind](ScopedValue(o.value, scope), scope)
      && rec.prevHash == (if n == 0 then "" else o.evidence[n - 1].hash)
      && rec.hash == h(HashInputOf(rec))
      && (rec.result == "accept" ==>
            multiset(r.value.obligations) == multiset(o.obligations) - multiset{(kind, scope)}
            && r.value.obligations == RemoveFirst(o.obligations, (kind, scope)))
      && (rec.result != "accept" ==> r.value.obligations == o.obligations)
  {
    if (kind, scope) !in o.obligations then Success(o)
    else
      match Verifiers.GetVerifier(reg, kind)
      case Failure(err) => Failure(err)
      case Success(verifier) =>
        var result := verifier(ScopedValue(o.value, scope), scope);
        var rec := SealRecord(verifierId, result, now, Tip(o.evidence), kind, scope, h);
        var obls := if result == "accept" then RemoveFirst(o.obligations, (kind, scope)) else o.obligations;
        assert (o.evidence + [rec])[..|o.evidence|] == o.evidence;
        Success(ChavaObject(o.value, obls, o.evidence + [rec]))
  }

  /** Obligations left by a discharge are among those of the input, so their kinds stay valid. */
  lemma DischargeKeepsValid(o: ChavaObject, kind: string, scope: string, reg: Verifiers.Registry,
                            verifierId: string, now: int, h: HashFn)
    requires ValidObligations(o.obligations)
    requires Discharge(o, kind, scope, reg, verifierId, now, h).Success?
    ensures ValidObligations(Discharge(o, kind, scope, reg, verifierId, now, h).value.obligations)
  {
    var r := Discharge(o, kind, scope, reg, verifierId, now, h).value;
    forall j | 0 <= j < |r.obligations|
      ensures r.obligations[j].0 != ""
    {
      assert r.obligations[j] in multiset(r.obligations);
      assert r.obligations[j] in multiset(o.obligations);
    }
  }

  /** A discharge appends a record that extends a sound chain. */
  lemma DischargeKeepsChain(o: ChavaObject, kind: string, scope: string, reg: Verifiers.Registry,
                            verifierId: string, now: int, h: HashFn)
    requires VerifyEvidenceChain(o.evidence, h)
    requires Discharge(o, kind, scope, reg, verifierId, now, h).Success?
    ensures VerifyEvidenceChain(Discharge(o, kind, scope, reg, verifierId, now, h).value.evidence, h)
  {
    var e := Discharge(o, kind, scope, reg, verifierId, now, h).value.evidence;
    if (kind, scope) in o.obligations {
      var n := |o.evidence|;
      assert e[..n] == o.evidence;
      forall i | 0 <= i < n ensures e[i] == o.evidence[i] {
        assert e[..n][i] == e[i];
      }
    }
  }

  /** One discharge request: the arguments of `discharge` besides the object and registry. */
  datatype Step = Step(kind: string, scope: string, verifierId: string, timestamp: int)

  /** Discharges `steps` one after another, stopping at the first exception. */
  function DischargeAll(o: ChavaObject, steps: seq<Step>, reg: Verifiers.Registry, h: HashFn): Result<ChavaObject, Error>
    decreases |steps|
  {
    if |steps| == 0 then Success(o)
    else
      var st := steps[0];
      match Discharge(o, st.kind, st.scope, reg, st.verifierId, st.timestamp, h)
      case Failure(err) => Failure(err)
      case Success(next) => DischargeAll(next, steps[1..], reg, h)
  }

  /** Any run of discharges keeps a sound chain sound and valid obligations valid. */
  lemma {:induction false} DischargeRunKeepsChain(o: ChavaObject, steps: seq<Step>, reg: Verifiers.Registry, h: HashFn)
    requires VerifyEvidenceChain(o.evidence, h)
    requires ValidObligations(o.obligations)
    ensures var r := DischargeAll(o, steps, reg, h);
      r.Success? ==> VerifyEvidenceChain(r.value.evidence, h) && ValidObligations(r.value.obligations)
    decreases |steps|
  {
    if |steps| > 0 {
      var st := steps[0];
      var d := Discharge(o, st.kind, st.scope, reg, st.verifierId, st.timestamp, h);
      if d.Success? {
        DischargeKeepsChain(o, st.kind, st.scope, reg, st.verifierId, st.timestamp, h);
        DischargeKeepsValid(o, st.kind, st.scope, reg, st.verifierId, st.timestamp, h);
        DischargeRunKeepsChain(d.value, steps[1..], reg, h);
      }
    }
  }

  /** A log built only by discharges of a freshly constructed object always verifies. */
  lemma FreshRunVerifies(value: Json, obls: seq<Obligation>, steps: seq<Step>, reg: Verifiers.Registry, h: HashFn)
    requires NewObject(value, obls, []).Success?
    ensures var r := DischargeAll(NewObject(value, obls, []).value, steps, reg, h);
      r.Success? ==> VerifyEvidenceChain(r.value.evidence, h)
  {
    DischargeRunKeepsChain(NewObject(value, obls, []).value, steps, reg, h);
  }

  /** The hash ignores `kind` and `scope`: rewriting them in any record never changes the verdict. */
  lemma KindScopeEditUndetected(e: seq<Record>, i: nat, kind: string, scope: string, h: HashFn)
    requires i < |e|
    ensures VerifyEvidenceChain(e[i := e[i].(kind := kind, scope := scope)], h) == VerifyEvidenceChain(e, h)
  {
    var e' := e[i := e[i].(kind := kind, scope := scope)];
    assert forall j | 0 <= j < |e| ::
      HashInputOf(e'[j]) == HashInputOf(e[j]) && e'[j].hash == e[j].hash && e'[j].prevHash == e[j].prevHash;
  }

  /**
   * With an injective hash, changing a covered field of a record (here its
   * verdict) without recomputing the stored hash breaks a sound chain.
   */
  lemma ResultEditDetected(e: seq<Record>, i: nat, result: string, h: HashFn)
    requires Injective(h)
    requires VerifyEvidenceChain(e, h)
    requires i < |e| && result != e[i].result
    ensures !VerifyEvidenceChain(e[i := e[i].(result := result)], h)
  {
    var r := e[i].(result := result);
    assert HashInputOf(r) != HashInputOf(e[i]);
    assert e[i := r][i] == r;
  }

  /** Only later links are checked, so any suffix of a sound chain verifies: dropping a prefix goes unnoticed. */
  lemma SuffixVerifies(e: seq<Record>, k: nat, h: HashFn)
    requires VerifyEvidenceChain(e, h)
    requires k <= |e|
    ensures VerifyEvidenceChain(e[k..], h)
  {
    assert forall j | 0 <= j < |e| - k :: e[k..][j] == e[k + j];
  }

  /** Once an obligation held once is accepted, discharging it again is a silent no-op rather than an error. */
  lemma RedischargeIsNoop(o: ChavaObject, kind: string, scope: string, reg: Verifiers.Registry,
                          verifierId: string, now: int, later: int, h: HashFn)
    requires multiset(o.obligations)[(kind, scope)] == 1
    requires kind in reg
    requires reg[kind](ScopedValue(o.value, scope), scope) == "accept"
    ensures var once := Discharge(o, kind, scope, reg, verifierId, now, h);
      && once.Success?
      && (kind, scope) !in once.value.obligations
      && Discharge(once.value, kind, scope, reg, verifierId, later, h) == once
  {
    var once := Discharge(o, kind, scope, reg, verifierId, now, h);
    assert (kind, scope) in multiset(o.obligations);
    assert multiset(once.value.obligations)[(kind, scope)] == 0;
  }

  /**
   * A verifier that first rejects and, after re-registration, accepts the
   * object's only obligation leaves no obligations but a conflicting log, so
   * the object can never be unwrapped.
   */
  lemma RejectThenAcceptBlocksUnwrap(o: ChavaObject, kind: string, scope: string,
                                     strict: Verifiers.Registry, lenient: Verifiers.Registry,
                                     verifierId: string, t1: int, t2: int, h: HashFn)
    requires o.obligations == [(kind, scope)]
    requires kind in strict && strict[kind](ScopedValue(o.value, scope), scope) == "reject"
    requires kind in lenient && lenient[kind](ScopedValue(o.value, scope), scope) == "accept"
    ensures var o1 := Discharge(o, kind, scope, strict, verifierId, t1, h);
      && o1.Success?
      && var o2 := Discharge(o1.value, kind, scope, lenient, verifierId, t2, h);
      && o2.Success?
      && o2.value.obligations == []
      && Unwrap(o2.value).Failure?
  {
    var o1 := Discharge(o, kind, scope, strict, verifierId, t1, h).value;
    var o2 := Discharge(o1, kind, scope, lenient, verifierId, t2, h).value;
    var n := |o.evidence|;
    assert o2.evidence[n].kind == kind && o2.evidence[n].result == "reject";
    assert o2.evidence[n + 1].kind == kind && o2.evidence[n + 1].result == "accept";
    assert RejectThenAccept(o2.evidence);
  }
}
