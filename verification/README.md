# chava in Dafny

A model of the core of chava, a library of "obligation-carrying" values. A
`ChavaObject` has three parts:

- a JSON value;
- a multiset of obligations `(kind, scope)`, where the scope is a JSON Pointer into the value and `""` means the whole value;
- a hash-chained evidence log of verifier verdicts.

The model covers these parts of chava:

- **The object state machine** (`Core`). Construction validates the obligations, and a record's hash covers only some of its fields. Chain verification and the reject-then-accept conflict check run over the log. `unwrap` and `safe_consume` gate the value. `discharge` leaves an object that does not hold the obligation unchanged. Otherwise it runs the kind's verifier on the scoped value, appends one chained record whatever the verdict, and removes the first matching obligation only on `"accept"`.
- **The algebra** (`Algebra`). `relscope` re-anchors scopes, `project` extracts a sub-value and carries the obligations that still apply, and `merge` pairs two objects under `/0` and `/1`.
- **The operators** (`Operators`). `filter_cleared` keeps the cleared objects, and `inject_verification` discharges the whole-value obligation of a kind across a list.
- **The verifier registry** (`Verifiers`). This covers registration, lookup and listing, the schema validator, the `None` handling of the SQL and PII verifiers, and the default registry.
- **The three indexes.** These are the kind-to-ids inverted index (`InvertedIndex`), the trie over scope components (`PointerIndex`), and the evidence log index (`EvidenceIndex`). The evidence log index keeps evidence by verifier and a timestamp timeline queried by bisection.
- **Obligation-keyed encryption** (`Kms`). Key derivation from the sorted obligation list is canonical. The key service releases the cleared key only to cleared objects with a sound log. The store encrypts a value under the key of its obligations, and retrieves only what the key service releases.

Supporting modules:

- `Wrappers`: `Option`, `Result`.
- `Errors`: the exceptions as values.
- `Strings`: `lstrip`, `split`, `join`, `str <`.
- `Sorting`: a stable insertion sort with permutation, sortedness and uniqueness lemmas.
- `Json`: a JSON datatype and JSON Pointer evaluation after section 4 of RFC 6901.

Python exceptions become `Failure` values. The clock, the random nonce, SHA-256, PBKDF2, AES-GCM, `str()` and the regular-expression verifiers become parameters.

### Behaviour of the code worth knowing

- Obligations are a list used as a multiset, and `list.remove` drops only the first occurrence.
- Discharging an obligation the object does not hold raises nothing and returns an unchanged copy (`Core.RedischargeIsNoop`).
- A rejecting verdict still appends evidence, and leaves the obligations as they were.
- The record hash covers verifier id, result, timestamp and previous hash. It does not cover kind or scope, so those two can be rewritten undetected (`Core.KindScopeEditUndetected`).
- The first record's previous hash is never checked, so nothing anchors the chain at an empty start, and any suffix of a sound log verifies (`Core.SuffixVerifies`).
- `project` carries the whole evidence log over to the projected object.
- Re-registering a kind replaces its verifier (last write wins).
- Objects carry no version token. `discharge` builds a new object from its inputs alone.

## Model

| member | source | states |
|---|---|---|
| Core.NewObject | chava/core.py:31-43 | construction succeeds exactly when every obligation kind is non-empty and then holds the given value, obligations and evidence; otherwise it fails with an invalid-kind error |
| Core.KindsNonEmpty | chava/core.py:39-41 | the validation loop passes exactly when no kind is the empty string |
| Core.ComputeEvidenceHash | chava/core.py:89-97 | the record hash is a hash of the covered fields alone: rewriting a record's kind or scope gives the same hash; `Core.HashCoversExactly` gives the converse under an injective hash |
| Core.HashCoversExactly | chava/core.py:89-97 | under an injective hash two records hash alike exactly when they agree on verifier id, result, timestamp and previous hash; kind and scope play no part |
| Core.ChainFrom | chava/core.py:105-113 | the loop from position i succeeds exactly when every later record carries the hash of its own covered fields and every later non-first record links to its predecessor's hash |
| Core.VerifyEvidenceChain | chava/core.py:100-115 | the chain check accepts exactly the logs that are sound: self-hashed records, each after the first linked to the previous one |
| Core.ConflictFromCorrect | chava/core.py:122-136 | the per-kind scan, carrying the kinds rejected so far, reports a conflict exactly when some reject is followed later by an accept of the same kind |
| Core.HasConflict | chava/core.py:118-138 | a log has a conflict exactly when some kind is rejected and later accepted |
| Core.IsCleared | chava/core.py:141-143 | an object is cleared exactly when it has no obligations and no kind is rejected and later accepted in its log |
| Core.Unwrap | chava/core.py:146-156 | unwrap returns the value exactly when there are no obligations and no conflict; otherwise the violation names the set of remaining kinds |
| Core.SafeConsume | chava/core.py:159-162 | the consumer is applied to the value exactly when the object is cleared; otherwise the unwrap error is passed on |
| Core.ScopedValue | chava/core.py:189-195 | the value a verifier sees is whatever the scope resolves to as a JSON Pointer, the whole value for `""`, and `None` when it does not resolve |
| Core.FirstIndex | chava/core.py:219 | the position found holds the obligation and no earlier position does |
| Core.RemoveFirst | chava/core.py:219 | `list.remove` drops one copy of the obligation, its first occurrence, keeping the elements before it and shifting those after it by one |
| Core.SealRecord | chava/core.py:204-214 | the new record's stored hash is the hash of its own covered fields |
| Core.Discharge | chava/core.py:165-221 | an absent obligation gives the object back unchanged; a missing verifier fails; otherwise one record is appended carrying verifier id, verdict on the scoped value, time, kind, scope, the previous tip's hash and its own hash; accept removes exactly one copy of the obligation and any other verdict keeps the obligations; the value never changes and obligations never grow |
| Core.DischargeKeepsValid | chava/core.py:216-219 | discharge only removes obligations, so valid kinds stay valid |
| Core.DischargeKeepsChain | chava/core.py:199-216 | discharging an object whose log verifies leaves a log that verifies |
| Core.DischargeRunKeepsChain | chava/core.py:165-221 | any run of discharges that raises nothing keeps the log sound and the obligations valid |
| Core.FreshRunVerifies | chava/core.py:199-216 | the log of a new object after any run of discharges verifies |
| Core.KindScopeEditUndetected | chava/core.py:89-97 | rewriting the kind or scope of any record never changes the chain check's verdict |
| Core.ResultEditDetected | chava/core.py:105-108 | with an injective hash, changing a record's verdict in a sound log without rehashing makes the check fail |
| Core.SuffixVerifies | chava/core.py:110-113 | every suffix of a sound log verifies, because the first record's link is not checked |
| Core.RedischargeIsNoop | chava/core.py:183-185 | after an accepted obligation held once, discharging it again returns the object unchanged |
| Core.RejectThenAcceptBlocksUnwrap | chava/core.py:197-221 | a reject followed by an accept of an object's only obligation leaves no obligations but a log that unwrap refuses |
| Json.Resolve | chava/core.py:192-195 | the empty pointer resolves to the whole document, and a pointer not starting with `/` fails |
| Json.ResolveMember | chava/algebra.py:38-40 | a one-token pointer into an object gives the member or fails when the key is absent |
| Json.ResolvePair | chava/algebra.py:68 | `/0` and `/1` address the two halves of a merged value |
| Strings.StripJoined | chava/algebra.py:18-22 | stripping leading slashes from `p/q` gives the stripped `p`, a slash and `q`, or just `q` when `p` is all slashes |
| Strings.JoinSplit | chava/indexes.py:46 | joining the pieces of a split gives back the string |
| Strings.SplitJoin | chava/indexes.py:46 | splitting a join of separator-free pieces gives back the pieces |
| Strings.LtTransitive | chava/kms.py:36 | Python's string order is transitive |
| Strings.LtTotal | chava/kms.py:36 | any two distinct strings are ordered one way or the other |
| Sorting.SortPermutes | chava/indexes.py:117 | the sort returns a permutation of its input |
| Sorting.SortSorted | chava/indexes.py:117 | under a total preorder the sort's output is sorted |
| Sorting.SortedUnique | chava/kms.py:36 | under a total order two sorted lists with the same elements are equal |
| Sorting.SortOrderIndependent | chava/kms.py:36 | under a total order, sorting two permutations of each other gives the same list |
| Verifiers.Register | chava/verifiers.py:13-15 | registering adds the kind, maps it to the new verifier and leaves every other kind's verifier alone |
| Verifiers.GetVerifier | chava/verifiers.py:17-21 | lookup succeeds exactly for registered kinds with their verifier; otherwise it fails naming the kind |
| Verifiers.ListKinds | chava/verifiers.py:23-25 | the listing holds exactly the registered kinds, each once |
| Verifiers.RegisterLastWins | chava/verifiers.py:13-21 | registering a kind twice is the same as registering only the second verifier |
| Verifiers.CheckFields | chava/verifiers.py:107-113 | the field loop accepts exactly when every required field is present with its type and rejects otherwise |
| Verifiers.SchemaValidator | chava/verifiers.py:94-113 | accepts exactly a dict whose `id` is an int (bools included) and whose `name` is a str; anything else is rejected |
| Verifiers.SchemaAcceptsBoolId | chava/verifiers.py:110 | a boolean `id` passes the int check |
| Verifiers.DefaultRegistry | chava/verifiers.py:116-122 | the default registry holds exactly `sql_safe`, `pii_clean` and `schema_ok` |
| Verifiers.SqlSafe | chava/verifiers.py:28-65 | the SQL verifier answers only accept or reject, and rejects exactly `None` and the values its danger patterns match |
| Verifiers.PiiClean | chava/verifiers.py:68-91 | the PII verifier answers only accept or reject, and rejects exactly the non-`None` values its personal-data patterns match |
| Verifiers.DefaultVerdicts | chava/verifiers.py:28-91 | every default verifier answers only accept or reject; the SQL verifier rejects `None` and the PII verifier accepts it |
| Algebra.RelScope | chava/algebra.py:6-28 | the result is `""` or a slash followed by a non-slash, and it is `""` whenever the stripped scope does not start with the stripped path |
| Algebra.RelScopeSelf | chava/algebra.py:12-16 | the whole-value scope and the path itself both map to `""` |
| Algebra.RelScopeChild | chava/algebra.py:18-24 | a scope `p/q` re-anchored at `p` becomes `/q` |
| Algebra.ProjectScope | chava/algebra.py:49-54 | an obligation survives exactly when its scope is at or below the path or encloses it; survivors are re-rooted, and an enclosing scope becomes the whole value |
| Algebra.ProjectObligations | chava/algebra.py:48-54 | projection never adds obligations, and every kind kept comes from the input |
| Algebra.Project | chava/algebra.py:31-60 | a path that does not resolve gives a `None` value with an extra `invalid_path` obligation; otherwise the resolved value with the projected obligations and the same evidence |
| Algebra.ProjectObligationsConcat | chava/algebra.py:48-54 | obligations are projected one at a time, so projection distributes over concatenation |
| Algebra.ProjectKeepsWholeValue | chava/algebra.py:50-52 | a whole-value obligation survives every projection |
| Algebra.ProjectKeepsValid | chava/algebra.py:41-60 | projection keeps every obligation kind non-empty |
| Algebra.ProjectRebasesChild | chava/algebra.py:50-52 | an obligation on `p/q` becomes one on `/q` when projecting onto `p` |
| Algebra.ProjectWidensAncestor | chava/algebra.py:53-54 | an obligation on an ancestor of the path becomes a whole-value obligation |
| Algebra.ProjectComponentBoundary | chava/algebra.py:50-53 | a scope that only shares a string prefix with the path, not a component boundary, is dropped |
| Algebra.AddressingNotInAddress | chava/algebra.py:50-54 | an obligation on `/addressing` does not survive projecting onto `/address` |
| Algebra.PrefixScopes | chava/algebra.py:71-77 | each obligation keeps its kind and gets its scope prefixed, in order |
| Algebra.Merge | chava/algebra.py:63-85 | the merged value is the pair; the first object's obligations come first under `/0`, then the second's under `/1`; the logs are concatenated |
| Algebra.ProjectUnprefixes | chava/algebra.py:50-52 | projecting onto `/t` undoes the `/t` prefix of a rooted scope |
| Algebra.ProjectDropsOtherTag | chava/algebra.py:50-54 | a scope under `/u` does not survive projecting onto a different `/t` |
| Algebra.ProjectOwnTag | chava/algebra.py:48-54 | projecting prefixed obligations onto their own prefix gives back the originals |
| Algebra.ProjectOtherTag | chava/algebra.py:48-54 | projecting obligations prefixed with another tag keeps none of them |
| Algebra.ProjectMergeRoundTrip | chava/algebra.py:31-85 | projecting a merge onto `/0` or `/1` gives back that side's value and obligations, with the combined log |
| Operators.FilterCleared | chava/operators.py:5-7 | an object is kept exactly when it is in the input and cleared, and the output is never longer |
| Operators.FilterClearedConcat | chava/operators.py:5-7 | filtering works element by element, in order |
| Operators.FilterClearedIdempotent | chava/operators.py:5-7 | filtering twice is filtering once |
| Operators.InjectVerification | chava/operators.py:10-27 | the operator fails exactly when the kind has no verifier and some object holds it at the whole value; otherwise the list keeps its length; objects without that whole-value obligation pass unchanged; objects with the kind are discharged at `""`; no object gains obligations |
| InvertedIndex.Add | chava/indexes.py:12-14 | after add, the stored kinds are the old ones plus the new kinds, and each kind's ids gain the id exactly when the kind is among the obligations |
| InvertedIndex.GetObjectsWithKind | chava/indexes.py:16-17 | on an index with no empty entries, the lookup is empty exactly when the kind has no entry; `InvertedIndex.AddThenGet` states what add puts there |
| InvertedIndex.RemoveObligation | chava/indexes.py:19-23 | removal takes the id out of that kind's entry only, whatever the scope; other kinds are unchanged; an absent id changes nothing |
| InvertedIndex.IndexKeepsNoEmptyEntries | chava/indexes.py:12-23 | add and remove never leave a kind mapped to an empty set |
| InvertedIndex.AddThenGet | chava/indexes.py:12-17 | after add, the id is found under each obligation's kind, and a kind never added has no ids |
| InvertedIndex.RemoveIgnoresScope | chava/indexes.py:19-20 | the scope argument of removal has no effect |
| PointerIndex.SplitPath | chava/indexes.py:40-46 | no component contains a slash |
| PointerIndex.SplitPathJoinsBack | chava/indexes.py:40-46 | a path has no components exactly when it is empty or all slashes; otherwise joining its components with `/` gives back the path without its leading slashes |
| PointerIndex.SplitPathJoin | chava/indexes.py:40-46 | a pointer built from slash-free components, the first non-empty, splits back into them |
| PointerIndex.InsertIdsAt | chava/indexes.py:53-59 | the walk-and-create loop adds the id at exactly the node for its components and nowhere else |
| PointerIndex.AddIdsAt | chava/indexes.py:48-59 | after add, a node's ids gain the id exactly when some obligation's scope splits to that node's path, the empty scope being the root |
| PointerIndex.Add | chava/indexes.py:48-59 | stated by `PointerIndex.AddIdsAt`, `PointerIndex.AddThenQuery` and `PointerIndex.IndexKeepsPruned`: each obligation's scope node gains the id, nothing else changes, and the trie stays pruned |
| PointerIndex.SubtreeIdsSpec | chava/indexes.py:71-77 | the stack traversal collects exactly the ids stored at some node below the start |
| PointerIndex.Deepest | chava/indexes.py:65-69 | the walk stops at the longest prefix of the components that exists in the trie |
| PointerIndex.DeepestOfExisting | chava/indexes.py:65-67 | when every component exists the walk reaches the end |
| PointerIndex.Descend | chava/indexes.py:62-69 | the node the walk stops at is the node at the deepest existing prefix |
| PointerIndex.GetObjectsAtPathSpec | chava/indexes.py:61-79 | the query returns exactly the ids stored at or below the deepest existing prefix of the path |
| PointerIndex.GetObjectsAtPath | chava/indexes.py:61-79 | stated by `PointerIndex.GetObjectsAtPathSpec`: exactly the ids stored at or below the deepest existing prefix of the path |
| PointerIndex.QuerySeesDescendants | chava/indexes.py:61-79 | an id stored at or below a path is returned by querying that path |
| PointerIndex.AddThenQuery | chava/indexes.py:48-79 | after add, querying any obligation's scope returns the id |
| PointerIndex.UnknownPathReturnsAll | chava/indexes.py:65-69 | a path whose first component is unknown returns every id in the trie |
| PointerIndex.RemoveIdsAt | chava/indexes.py:88-99 | removal takes the id out of exactly the node at its components; pruning loses no other id |
| PointerIndex.RemoveObligation | chava/indexes.py:81-86 | removing an obligation takes the id out of the node its scope names, the root for `""`, and leaves every other node's ids as they were |
| PointerIndex.InsertKeepsPruned | chava/indexes.py:55-59 | inserting into a trie with no bare non-root node keeps it so, and the result is not bare |
| PointerIndex.RemoveKeepsPruned | chava/indexes.py:96-99 | removal prunes every child it leaves with no ids and no children |
| PointerIndex.IndexKeepsPruned | chava/indexes.py:48-99 | add and remove keep every non-root node holding ids or children |
| PointerIndex.PrunedChildrenHoldIds | chava/indexes.py:98-99 | in a pruned trie every child subtree holds at least one id |
| EvidenceIndex.Entries | chava/indexes.py:114-115 | each record gives one timeline entry with its timestamp, the object id and the record, in order |
| EvidenceIndex.TaggedBy | chava/indexes.py:110-112 | every pair filed for a verifier is one of that verifier's records of the evidence, tagged with the object id |
| EvidenceIndex.TaggedByComplete | chava/indexes.py:110-112 | every record of that verifier in the evidence is filed, tagged with the object id |
| EvidenceIndex.TaggedByConcat | chava/indexes.py:110-112 | the records of earlier evidence are filed ahead of those of later evidence, so insertion order is kept |
| EvidenceIndex.AppendAllTimeline | chava/indexes.py:110-115 | the loop appends one timeline entry per record, in order |
| EvidenceIndex.AppendAllQuery | chava/indexes.py:110-112 | the loop files each record after the verifier's earlier pairs, in order |
| EvidenceIndex.Add | chava/indexes.py:109-117 | add keeps every verifier's list made of records that verifier produced; `EvidenceIndex.AddQueryByVerifier` and `EvidenceIndex.AddTimeline` state the lists and the timeline after add |
| EvidenceIndex.QueryByVerifier | chava/indexes.py:119-120 | an unknown verifier has no pairs, and on a well-filed index every pair returned holds a record of that verifier |
| EvidenceIndex.AddQueryByVerifier | chava/indexes.py:109-120 | after add, a verifier's pairs are the old ones followed by its new records in insertion order |
| EvidenceIndex.AddTimeline | chava/indexes.py:109-117 | after add, the timeline is sorted by timestamp and holds exactly the old entries plus one per new record |
| EvidenceIndex.BisectFindsBoundary | chava/indexes.py:123-124 | on a probe that holds for a prefix of the timeline, bisection returns the end of that prefix |
| EvidenceIndex.BisectRaisesOnlyOnTie | chava/indexes.py:123-124 | a bisection raises only if some entry in its range has the probe's timestamp and id, so that the comparison reaches the two record dicts |
| EvidenceIndex.QueryByTimeRange | chava/indexes.py:122-125 | the query as written raises `TypeError` only when the timeline holds an id `""` stamped `start_time` or an id `"~"` stamped `end_time`; a result is no longer than the timeline |
| EvidenceIndex.QueryByTimeRangeIsFilter | chava/indexes.py:122-125 | on a sorted timeline whose ids all sort below `"~"` and where no id `""` is stamped `start_time`, the query raises nothing and returns exactly the entries with start ≤ timestamp ≤ end, in timeline order |
| EvidenceIndex.UnprobedSentinelIsHarmless | chava/indexes.py:122-125 | an id `""` stamped before the range is never compared as a tie, and the query returns the empty list |
| EvidenceIndex.ProbedSentinelRaises | chava/indexes.py:123 | an id `""` stamped exactly `start_time` is compared as a tie and the query raises |
| EvidenceIndex.QueryDropsHighIdAtEnd | chava/indexes.py:124 | an entry stamped exactly at the end time whose id sorts after `"~"` is left out, and no error is raised |
| EvidenceIndex.QueryKeepsHighIdBehindLowerId | chava/indexes.py:122-125 | the same high id stamped `end_time` is kept when an entry with a lower id follows it, so the drop depends on where the bisection probes |
| EvidenceIndex.QueryByTimestampIsFilter | chava/indexes.py:122-125 | bisecting on timestamps alone returns exactly the entries in the closed range for any object ids |
| EvidenceIndex.QueryByTimeRangeByTimestamp | chava/indexes.py:122-125 | the corrected query; a result is no longer than the timeline, and `EvidenceIndex.QueryByTimestampIsFilter` states that it is the closed-range filter |
| Kms.PairLeIsTotalOrder | chava/kms.py:36 | Python's tuple order on `(kind, scope)` is a total order |
| Kms.Canonical | chava/kms.py:34-36 | the canonical list is a sorted permutation of the obligations |
| Kms.CanonicalPermutationInvariant | chava/kms.py:34-36 | permutations of one obligation list share the canonical form |
| Kms.DeriveKey | chava/kms.py:26-49 | the key is the KDF of any sorted arrangement of the obligations with the secret, so it does not depend on their order |
| Kms.DeriveKeyPermutationInvariant | chava/kms.py:26-49 | permuting the obligations never changes the derived key |
| Kms.DeriveKeySeparates | chava/kms.py:26-49 | with an injective key derivation, two lists share a key exactly when they hold the same obligations |
| Kms.VerifyAndReleaseKey | chava/kms.py:51-67 | a key is released exactly when there are no obligations, the log verifies and has no conflict, and it is then the cleared key |
| Kms.Store | chava/kms.py:80-89 | storing replaces the id's entry with the nonce, then the value's rendering encrypted under the key derived from the object's own obligations with that nonce, plus the obligations and the evidence; no other id changes |
| Kms.Retrieve | chava/kms.py:91-109 | an unknown id is not found; invalid kinds fail construction; the key service's refusal is exactly the cryptographic refusal; a success carries a string value, no obligations and the stored evidence |
| Kms.StoreRetrieve | chava/kms.py:80-109 | when decryption inverts encryption, storing a cleared object and retrieving it gives its rendered value with its obligations and evidence, and a string value comes back as itself |
| Kms.StoredLockedIsRefused | chava/kms.py:80-102 | an object stored with obligations is always refused |
| Kms.StoreKeyNeverReleased | chava/kms.py:26-89 | with an injective key derivation, an object stored with obligations is encrypted under a key the key service never releases, for any object |
| Kms.StoreIsolatesIds | chava/kms.py:89 | storing under one id leaves retrieval of every other id unchanged |

## Findings

| source | as written | input that shows it | evidently intended | confidence | as-written member | corrected member |
|---|---|---|---|---|---|---|
| chava/indexes.py:124 | the end bound bisects against `(end_time, "~", {})`, so a record stamped exactly `end_time` whose object id sorts after `"~"` compares greater than the bound | one record with timestamp 5 for object id `"~a"`, queried with `query_by_time_range(5, 5)`, returns nothing | the range is closed at both ends for every object id, as with a bisection on the timestamp alone | medium; not executed | EvidenceIndex.QueryDropsHighIdAtEnd | EvidenceIndex.QueryByTimestampIsFilter |

`EvidenceIndex.QueryByTimeRange` models the query as written. `EvidenceIndex.QueryByTimeRangeByTimestamp` is the corrected query. The same tuple comparison raises `TypeError` when a bisection compares an entry with the same timestamp and id as its bound: an id `""` stamped `start_time`, or an id `"~"` stamped `end_time`. The comparison then reaches the two dicts. `QueryByTimeRange` returns `Failure(UnorderableRecords)` in that case. An entry with a sentinel id that the bisection never compares raises nothing.

## Left out

- SQLite storage, the command-line tool, the demos and packaging are outside the core.
- Concurrency: the code has none in the core, and the indexes and the store are modelled as values.
- SHA-256, PBKDF2-HMAC (section 5.2 of RFC 8018) and AES-GCM (NIST SP 800-38D) are function parameters. Injectivity, and decrypt-after-encrypt, are lemma preconditions where needed.
- The regular-expression bodies of `sql_safe_verifier` and `pii_clean_verifier` are predicates passed in. Only their `None` branches are modelled.
- `str()` of a value is the `render` parameter. UTF-8 encoding and decoding are folded into the string plaintext of the AEAD parameters.
- `time.time()` becomes a `now` parameter of `Core.Discharge`. Timestamps are integers, not floats.
- `Operators.InjectVerification` reads the clock as a function of the object's position.
- `Kms.Store`: a `bytes` value is encrypted raw in the code, but bytes cannot be expressed as a `Json` value, so only the `str()` branch is modelled.
- `os.urandom(12)` becomes a `nonce` argument of `Kms.Store` of length 12.
- `copy`: objects are immutable values, so "discharge never changes its argument" holds by construction.
- `to_json`, `from_json` and `__repr__` are text serialisation.
- JSON Pointer: no `~0`/`~1` unescaping, no indexing into strings, and `-` never resolves.
- Obligation kinds and scopes that are not strings cannot be expressed, so the constructor's `isinstance` checks reduce to the empty-kind check.
- Evidence records always carry every field. The `.get(..., "")` defaults of the chain check and the conflict check are not modelled.
- `Verifiers.ListKinds`: proved to list each registered kind exactly once. Python's insertion order is not modelled, because the registry is a map.
- `EvidenceIndex.AddTimeline`: the timeline is proved sorted and a permutation. It is not proved that ties keep arrival order, as Python's stable `list.sort` guarantees.
- `EvidenceIndex.QueryByTimeRange`: its own contract bounds the length and says when it can raise. `EvidenceIndex.QueryByTimeRangeIsFilter` fixes the result when every id sorts below `"~"` and no id `""` is stamped `start_time`. Outside that case the result depends on where the bisection probes: `EvidenceIndex.QueryDropsHighIdAtEnd` and `EvidenceIndex.QueryKeepsHighIdBehindLowerId` show one high id dropped and kept. No closed form is given for the general case.
- `InvertedIndex.GetObjectsWithKind` and `PointerIndex.GetObjectsAtPath` return sets; Python converts the first to a list of unspecified order.
