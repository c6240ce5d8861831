/**
 * The verifier registry (a last-write-wins map from obligation kind to
 * verifier) and the built-in verifiers.
 */
module Verifiers {
  import opened Wrappers
  import opened Errors
  import opened Json

  /** A verifier maps the scoped value and the scope to a verdict string. */
  type Verifier = (Json, string) -> string

  /** `VerifierRegistry._registry`. */
  type Registry = map<string, Verifier>

  const EmptyRegistry: Registry := map[]

  /** `register`: installs `f` for `kind`, replacing any earlier verifier for it. */
  function Register(reg: Registry, kind: string, f: Verifier): (r: Registry)
    ensures r.Keys == reg.Keys + {kind}
    ensures r[kind] == f
    ensures forall k | k in reg && k != kind :: r[k] == reg[k]
  {
    reg[kind := f]
  }

  /** `get_verifier`: the registered verifier, or `KeyError` for an unknown kind. */
  function GetVerifier(reg: Registry, kind: string): (r: Result<Verifier, Error>)
    ensures r.Success? <==> kind in reg
    ensures r.Success? ==> r.value == reg[kind]
    ensures r.Failure? ==> r.error == NoVerifier(kind)
  {
    if kind !in reg then Failure(NoVerifier(kind)) else Success(reg[kind])
  }

  /** `list_kinds`: every registered kind exactly once. */
  method ListKinds(reg: Registry) returns (kinds: seq<string>)
    ensures forall k :: k in kinds <==> k in reg
    ensures forall i, j | 0 <= i < j < |kinds| :: kinds[i] != kinds[j]
    ensures |kinds| == |reg|
  {
    kinds := [];
    var rest := reg.Keys;
    while rest != {}
      invariant rest <= reg.Keys
      invariant forall k :: k in kinds <==> k in reg.Keys - rest
      invariant forall i, j | 0 <= i < j < |kinds| :: kinds[i] != kinds[j]
      invariant |kinds| + |rest| == |reg.Keys|
      decreases |rest|
    {
      var k :| k in rest;
      assert k !in kinds;
      kinds := kinds + [k];
      rest := rest - {k};
    }
  }

  /** Registering the same kind twice keeps only the second verifier. */
  lemma RegisterLastWins(reg: Registry, kind: string, f: Verifier, g: Verifier)
    ensures GetVerifier(Register(Register(reg, kind, f), kind, g), kind) == Success(g)
    ensures Register(Register(reg, kind, f), kind, g) == Register(reg, kind, g)
  {
  }

  /** Python's `isinstance(x, int)`: `bool` is a subclass of `int`. */
  predicate IsPyInt(v: Json) {
    v.JInt? || v.JBool?
  }

  /** The Python types a schema field may demand. */
  datatype FieldType = IntType | StrType

  predicate HasType(v: Json, t: FieldType) {
    match t
    case IntType => IsPyInt(v)
    case StrType => v.JStr?
  }

  /** The required fields of `schema_validator`, in the order they are checked. */
  const RequiredFields: seq<(string, FieldType)> := [("id", IntType), ("name", StrType)]

  /** The field loop of `schema_validator`: reject at the first missing or ill-typed field. */
  function CheckFields(fields: map<string, Json>, required: seq<(string, FieldType)>): (r: string)
    ensures r == "accept" || r == "reject"
    ensures r == "accept" <==>
      forall i | 0 <= i < |required| :: required[i].0 in fields && HasType(fields[required[i].0], required[i].1)
  {
    if |required| == 0 then "accept"
    else if required[0].0 !in fields then "reject"
    else if !HasType(fields[required[0].0], required[0].1) then "reject"
    else CheckFields(fields, required[1..])
  }

  /** `schema_validator`: a dict with an int `id` and a str `name`. */
  function SchemaValidator(value: Json, scope: string): (r: string)
    ensures r == "accept" || r == "reject"
    ensures r == "accept" <==>
      && value.JObj?
      && "id" in value.fields && IsPyInt(value.fields["id"])
      && "name" in value.fields && value.fields["name"].JStr?
  {
    if !value.JObj? then "reject"
    else
      var r := CheckFields(value.fields, RequiredFields);
      assert r == "accept" ==> HasType(value.fields[RequiredFields[0].0], RequiredFields[0].1);
      assert r == "accept" ==> HasType(value.fields[RequiredFields[1].0], RequiredFields[1].1);
      r
  }

  /** Because Python's `bool` is an `int`, a boolean `id` satisfies the schema. */
  lemma SchemaAcceptsBoolId(name: string)
    ensures SchemaValidator(JObj(map["id" := JBool(true), "name" := JStr(name)]), "") == "accept"
  {
  }

  /**
   * `sql_safe_verifier`: `None` is rejected; otherwise the verdict is "reject"
   * exactly when one of its dangerous or injection patterns matches, which is
   * the parameter `matchesDanger`.
   */
  function SqlSafe(matchesDanger: Json -> bool): (r: Verifier)
    ensures forall v, s :: r(v, s) == "reject" <==> v.JNull? || matchesDanger(v)
    ensures forall v, s :: r(v, s) == "accept" || r(v, s) == "reject"
  {
    (value: Json, scope: string) =>
      if value.JNull? then "reject"
      else if matchesDanger(value) then "reject"
      else "accept"
  }

  /**
   * `pii_clean_verifier`: `None` is accepted; otherwise "reject" exactly when
   * one of its personal-data patterns matches (the parameter `matchesPii`).
   */
  function PiiClean(matchesPii: Json -> bool): (r: Verifier)
    ensures forall v, s :: r(v, s) == "reject" <==> !v.JNull? && matchesPii(v)
    ensures forall v, s :: r(v, s) == "accept" || r(v, s) == "reject"
  {
    (value: Json, scope: string) =>
      if value.JNull? then "accept"
      else if matchesPii(value) then "reject"
      else "accept"
  }

  /** `get_default_registry`. */
  function DefaultRegistry(matchesDanger: Json -> bool, matchesPii: Json -> bool): (r: Registry)
    ensures r.Keys == {"sql_safe", "pii_clean", "schema_ok"}
  {
    var r0 := Register(EmptyRegistry, "sql_safe", SqlSafe(matchesDanger));
    var r1 := Register(r0, "pii_clean", PiiClean(matchesPii));
    Register(r1, "schema_ok", SchemaValidator)
  }

  /** The built-in verifiers treat `None` as documented and only ever say "accept" or "reject". */
  lemma DefaultVerdicts(matchesDanger: Json -> bool, matchesPii: Json -> bool, kind: string, value: Json, scope: string)
    requires kind in DefaultRegistry(matchesDanger, matchesPii)
    ensures var v := DefaultRegistry(matchesDanger, matchesPii)[kind](value, scope);
      v == "accept" || v == "reject"
    ensures DefaultRegistry(matchesDanger, matchesPii)["sql_safe"](JNull, scope) == "reject"
    ensures DefaultRegistry(matchesDanger, matchesPii)["pii_clean"](JNull, scope) == "accept"
  {
  }
}
