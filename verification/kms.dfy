/**
 * Obligation-keyed encryption: a key service that derives a key from the
 * obligation list and releases the cleared key only for cleared objects, and a
 * store that encrypts values under the key of their obligations. PBKDF2, SHA-256
 * and AES-GCM are parameters.
 */
module Kms {
  import opened Wrappers
  import opened Errors
  import opened Strings
  import opened Json
  import opened Core
  import Sorting

  newtype byte = x: int | 0 <= x < 256

  type Bytes = seq<byte>

  /** PBKDF2 with the SHA-256 of the rendered sorted obligation list as salt and the server secret as password. */
  type Kdf = (seq<Obligation>, Bytes) -> Bytes

  /** AES-GCM encryption under a key and nonce; the result carries the tag. */
  type Encrypt = (Bytes, Bytes, string) -> Bytes

  /** AES-GCM decryption; `None` when the tag does not check. */
  type Decrypt = (Bytes, Bytes, Bytes) -> Option<string>

  /** The server secret and the primitives the key service and the store are built on; `render` is Python's `str`. */
  datatype Service = Service(
    secret: Bytes,
    kdf: Kdf,
    hash: HashFn,
    encrypt: Encrypt,
    decrypt: Decrypt,
    render: Json -> string)

  /** Python's `<=` on `(kind, scope)` tuples. */
  predicate PairLe(a: Obligation, b: Obligation) {
    Lt(a.0, b.0) || (a.0 == b.0 && Le(a.1, b.1))
  }

  lemma PairLeIsTotalOrder()
    ensures Sorting.TotalOrder(PairLe)
  {
    forall a: Obligation, b: Obligation ensures PairLe(a, b) || PairLe(b, a) {
      LtTotal(a.0, b.0);
      LtTotal(a.1, b.1);
    }
    forall a: Obligation, b: Obligation, c: Obligation | PairLe(a, b) && PairLe(b, c) ensures PairLe(a, c) {
      if Lt(a.0, b.0) && Lt(b.0, c.0) {
        LtTransitive(a.0, b.0, c.0);
      } else if a.0 == b.0 && b.0 == c.0 && Lt(a.1, b.1) && Lt(b.1, c.1) {
        LtTransitive(a.1, b.1, c.1);
      }
    }
    forall a: Obligation, b: Obligation | PairLe(a, b) && PairLe(b, a) ensures a == b {
      LtAsymmetric(a.0, b.0);
      LtAsymmetric(a.1, b.1);
    }
  }

  /** `sorted(obligations)`: the obligations in tuple order. */
  function Canonical(obls: seq<Obligation>): (r: seq<Obligation>)
    ensures multiset(r) == multiset(obls)
    ensures Sorting.SortedBy(r, PairLe)
  {
    PairLeIsTotalOrder();
    Sorting.SortSorted(obls, PairLe);
    Sorting.SortPermutes(obls, PairLe);
    Sorting.Sort(obls, PairLe)
  }

  /** Two lists with the same obligations have the same canonical form. */
  lemma CanonicalPermutationInvariant(a: seq<Obligation>, b: seq<Obligation>)
    requires multiset(a) == multiset(b)
    ensures Canonical(a) == Canonical(b)
  {
    PairLeIsTotalOrder();
    Sorting.SortOrderIndependent(a, b, PairLe);
  }

  /** Every sorted arrangement of the obligations is the canonical list. */
  lemma CanonicalUnique(obls: seq<Obligation>)
    ensures forall c | Sorting.SortedBy(c, PairLe) && multiset(c) == multiset(obls) :: c == Canonical(obls)
  {
    PairLeIsTotalOrder();
    forall c | Sorting.SortedBy(c, PairLe) && multiset(c) == multiset(obls)
      ensures c == Canonical(obls)
    {
      Sorting.SortedUnique(c, Canonical(obls), PairLe);
    }
  }

  /**
   * `derive_key`: the KDF of the canonical obligation list and the secret. Whichever
   * sorted arrangement of the obligations is fed to the KDF, the key is the same.
   */
  function DeriveKey(obls: seq<Obligation>, secret: Bytes, kdf: Kdf): (r: Bytes)
    ensures forall c | Sorting.SortedBy(c, PairLe) && multiset(c) == multiset(obls) :: r == kdf(c, secret)
  {
    CanonicalUnique(obls);
    kdf(Canonical(obls), secret)
  }

  /** Permuting the obligation list never changes the key. */
  lemma DeriveKeyPermutationInvariant(a: seq<Obligation>, b: seq<Obligation>, secret: Bytes, kdf: Kdf)
    requires multiset(a) == multiset(b)
    ensures DeriveKey(a, secret, kdf) == DeriveKey(b, secret, kdf)
  {
    CanonicalPermutationInvariant(a, b);
  }

  ghost predicate InjectiveKdf(kdf: Kdf) {
    forall x, y, s :: kdf(x, s) == kdf(y, s) ==> x == y
  }

  /** With an injective KDF, two obligation lists share a key exactly when they hold the same obligations. */
  lemma DeriveKeySeparates(a: seq<Obligation>, b: seq<Obligation>, secret: Bytes, kdf: Kdf)
    requires InjectiveKdf(kdf)
    ensures DeriveKey(a, secret, kdf) == DeriveKey(b, secret, kdf) <==> multiset(a) == multiset(b)
  {
    if multiset(a) == multiset(b) {
      DeriveKeyPermutationInvariant(a, b, secret, kdf);
    }
    if DeriveKey(a, secret, kdf) == DeriveKey(b, secret, kdf) {
      assert Canonical(a) == Canonical(b);
    }
  }

  /** `verify_and_release_key`: the cleared key, only for an object with no obligations, a sound chain and no conflict. */
  function VerifyAndReleaseKey(o: ChavaObject, svc: Service): (r: Option<Bytes>)
    ensures r.Some? <==> o.obligations == [] && ChainSound(o.evidence, svc.hash) && !RejectThenAccept(o.evidence)
    ensures r.Some? ==> r.value == DeriveKey([], svc.secret, svc.kdf)
  {
    if |o.obligations| > 0 then None
    else if !VerifyEvidenceChain(o.evidence, svc.hash) then None
    else if HasConflict(o.evidence) then None
    else Some(DeriveKey([], svc.secret, svc.kdf))
  }

  /** A stored entry: nonce followed by ciphertext, and the obligations and evidence in clear. */
  datatype Stored = Stored(data: Bytes, obligations: seq<Obligation>, evidence: seq<Record>)

  type Storage = map<string, Stored>

  /** The length of an AES-GCM nonce. */
  const NonceLength := 12

  /** `ObligationKeyedStorage.store`: encrypts `str(value)` under the key of the object's obligations, replacing any earlier entry. */
  function Store(st: Storage, svc: Service, id: string, o: ChavaObject, nonce: Bytes): (r: Storage)
    requires |nonce| == NonceLength
    ensures r.Keys == st.Keys + {id}
    ensures forall k | k in st && k != id :: r[k] == st[k]
    ensures r[id].obligations == o.obligations && r[id].evidence == o.evidence
    ensures |r[id].data| >= NonceLength && r[id].data[..NonceLength] == nonce
    ensures r[id].data[NonceLength..] == svc.encrypt(DeriveKey(o.obligations, svc.secret, svc.kdf), nonce, svc.render(o.value))
  {
    var key := DeriveKey(o.obligations, svc.secret, svc.kdf);
    st[id := Stored(nonce + svc.encrypt(key, nonce, svc.render(o.value)), o.obligations, o.evidence)]
  }

  /** `ObligationKeyedStorage.retrieve`: decrypts only what the key service releases the cleared key for. */
  function Retrieve(st: Storage, svc: Service, id: string): (r: Result<ChavaObject, Error>)
    ensures id !in st ==> r == Failure(NotFound(id))
    ensures id in st && !ValidObligations(st[id].obligations) ==> r == Failure(InvalidObligationKind(""))
    ensures id in st && ValidObligations(st[id].obligations) ==>
      (r == Failure(CryptographicRefusal(id)) <==>
       VerifyAndReleaseKey(ChavaObject(JNull, st[id].obligations, st[id].evidence), svc).None?)
    ensures r.Success? ==>
      (id in st && r.value.value.JStr? && r.value.obligations == [] && r.value.evidence == st[id].evidence)
  {
    if id !in st then Failure(NotFound(id))
    else
      var s := st[id];
      match NewObject(JNull, s.obligations, s.evidence)
      case Failure(e) => Failure(e)
      case Success(temp) =>
        match VerifyAndReleaseKey(temp, svc)
        case None => Failure(CryptographicRefusal(id))
        case Some(key) =>
          var split := if |s.data| < NonceLength then |s.data| else NonceLength;
          match svc.decrypt(key, s.data[..split], s.data[split..])
          case None => Failure(InvalidTag)
          case Some(plain) => Success(ChavaObject(JStr(plain), s.obligations, s.evidence))
  }

  /** Decryption undoes encryption under the same key and nonce. */
  ghost predicate DecryptInverts(svc: Service) {
    forall k, n, m :: svc.decrypt(k, n, svc.encrypt(k, n, m)) == Some(m)
  }

  /**
   * Storing a cleared object and retrieving it gives back its rendered value with
   * its obligations and evidence; a string value comes back as itself.
   */
  lemma StoreRetrieve(st: Storage, svc: Service, id: string, o: ChavaObject, nonce: Bytes)
    requires |nonce| == NonceLength
    requires DecryptInverts(svc)
    requires o.obligations == [] && ChainSound(o.evidence, svc.hash) && !RejectThenAccept(o.evidence)
    ensures Retrieve(Store(st, svc, id, o, nonce), svc, id) ==
      Success(ChavaObject(JStr(svc.render(o.value)), o.obligations, o.evidence))
    ensures o.value.JStr? && svc.render(o.value) == o.value.s ==>
      Retrieve(Store(st, svc, id, o, nonce), svc, id) == Success(o)
  {
    var key := DeriveKey([], svc.secret, svc.kdf);
    var data := nonce + svc.encrypt(key, nonce, svc.render(o.value));
    assert data[..NonceLength] == nonce;
    assert data[NonceLength..] == svc.encrypt(key, nonce, svc.render(o.value));
  }

  /** An object stored with obligations is refused on retrieval, whatever its evidence. */
  lemma StoredLockedIsRefused(st: Storage, svc: Service, id: string, o: ChavaObject, nonce: Bytes)
    requires |nonce| == NonceLength
    requires o.obligations != [] && ValidObligations(o.obligations)
    ensures Retrieve(Store(st, svc, id, o, nonce), svc, id) == Failure(CryptographicRefusal(id))
  {
  }

  /**
   * Under an injective KDF, the key an object with obligations is stored under is
   * never the key the key service releases, for any object whatever.
   */
  lemma StoreKeyNeverReleased(st: Storage, svc: Service, id: string, o: ChavaObject, nonce: Bytes, other: ChavaObject)
    requires |nonce| == NonceLength
    requires InjectiveKdf(svc.kdf) && o.obligations != []
    ensures var key := DeriveKey(o.obligations, svc.secret, svc.kdf);
      && Store(st, svc, id, o, nonce)[id].data[NonceLength..] == svc.encrypt(key, nonce, svc.render(o.value))
      && VerifyAndReleaseKey(other, svc) != Some(key)
  {
    DeriveKeySeparates(o.obligations, [], svc.secret, svc.kdf);
    assert |multiset(o.obligations)| > 0;
  }

  /** Storing under one id leaves what another id retrieves unchanged. */
  lemma StoreIsolatesIds(st: Storage, svc: Service, id: string, other: string, o: ChavaObject, nonce: Bytes)
    requires |nonce| == NonceLength && other != id
    ensures Retrieve(Store(st, svc, id, o, nonce), svc, other) == Retrieve(st, svc, other)
  {
  }
}
