/** `InvertedObligationIndex`: obligation kind to the ids of objects holding it. */
module InvertedIndex {
  import opened Core

  type Index = map<string, set<string>>

  const EmptyIndex: Index := map[]

  /** No stored kind maps to an empty set of ids. */
  ghost predicate NoEmptyEntries(idx: Index) {
    forall k | k in idx :: idx[k] != {}
  }

  /** `get_objects_with_kind`: the ids stored under `kind`, none for a kind never added. */
  function GetObjectsWithKind(idx: Index, kind: string): (r: set<string>)
    ensures NoEmptyEntries(idx) ==> (r == {} <==> kind !in idx)
  {
    if kind in idx then idx[kind] else {}
  }

  /** `add`: records `id` under the kind of every obligation. */
  function Add(idx: Index, id: string, obls: seq<Obligation>): (r: Index)
    ensures r.Keys == idx.Keys + Kinds(obls)
    ensures forall k ::
      (GetObjectsWithKind(r, k) == GetObjectsWithKind(idx, k) + (if k in Kinds(obls) then {id} else {}))
    decreases |obls|
  {
    if |obls| == 0 then idx
    else
      var kind := obls[0].0;
      assert Kinds(obls) == {kind} + Kinds(obls[1..]) by {
        assert obls == [obls[0]] + obls[1..];
      }
      Add(idx[kind := GetObjectsWithKind(idx, kind) + {id}], id, obls[1..])
  }

  /** `remove_obligation`: drops `id` from the kind's entry, whatever the scope, deleting the entry once empty. */
  function RemoveObligation(idx: Index, id: string, kind: string, scope: string): (r: Index)
    ensures GetObjectsWithKind(r, kind) == GetObjectsWithKind(idx, kind) - {id}
    ensures forall k | k != kind :: k in r <==> k in idx
    ensures forall k | k != kind :: GetObjectsWithKind(r, k) == GetObjectsWithKind(idx, k)
    ensures id !in GetObjectsWithKind(idx, kind) ==> r == idx
  {
    if kind in idx && id in idx[kind] then
      if idx[kind] - {id} == {} then idx - {kind} else idx[kind := idx[kind] - {id}]
    else idx
  }

  /** Adding and removing never leave an empty entry behind. */
  lemma IndexKeepsNoEmptyEntries(idx: Index, id: string, obls: seq<Obligation>, kind: string, scope: string)
    requires NoEmptyEntries(idx)
    ensures NoEmptyEntries(Add(idx, id, obls))
    ensures NoEmptyEntries(RemoveObligation(idx, id, kind, scope))
  {
    var a := Add(idx, id, obls);
    forall k | k in a ensures a[k] != {} {
      assert GetObjectsWithKind(a, k) == a[k];
      if k !in idx {
        assert k in Kinds(obls);
      }
    }
  }

  /** After `add`, the id is found under each of its obligations' kinds; a kind never added stays empty. */
  lemma AddThenGet(id: string, obls: seq<Obligation>, kind: string)
    ensures var idx := Add(EmptyIndex, id, obls);
      && (forall i | 0 <= i < |obls| :: id in GetObjectsWithKind(idx, obls[i].0))
      && (kind !in Kinds(obls) ==> GetObjectsWithKind(idx, kind) == {})
  {
    var idx := Add(EmptyIndex, id, obls);
    forall i | 0 <= i < |obls| ensures id in GetObjectsWithKind(idx, obls[i].0) {
      assert obls[i] in obls;
    }
  }

  /** The scope argument of `remove_obligation` is ignored. */
  lemma RemoveIgnoresScope(idx: Index, id: string, kind: string, s1: string, s2: string)
    ensures RemoveObligation(idx, id, kind, s1) == RemoveObligation(idx, id, kind, s2)
  {
  }
}
