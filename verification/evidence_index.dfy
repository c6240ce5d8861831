/** `EvidenceLogIndex`: evidence by verifier id, and a timeline sorted by timestamp. */
module EvidenceIndex {
  import opened Wrappers
  import opened Errors
  import opened Strings
  import opened Core
  import Sorting

  /** A timeline entry: `(timestamp, obj_id, record)`. */
  datatype Entry = Entry(timestamp: int, objId: string, record: Record)

  /** An `(obj_id, record)` pair as the queries return it. */
  type Tagged = (string, Record)

  datatype LogIndex = LogIndex(byVerifier: map<string, seq<Tagged>>, timeline: seq<Entry>)

  const EmptyLog := LogIndex(map[], [])

  /** The timeline's sort key: timestamps only. */
  predicate TsLe(a: Entry, b: Entry) {
    a.timestamp <= b.timestamp
  }

  lemma TsLeIsTotalPreorder()
    ensures Sorting.TotalPreorder(TsLe)
  {
  }

  /** Every pair filed under a verifier id holds a record that verifier produced. */
  ghost predicate WellTagged(idx: LogIndex) {
    forall v, i | v in idx.byVerifier && 0 <= i < |idx.byVerifier[v]| :: idx.byVerifier[v][i].1.verifierId == v
  }

  /** `query_by_verifier`: that verifier's pairs, none for an unknown verifier. */
  function QueryByVerifier(idx: LogIndex, verifierId: string): (r: seq<Tagged>)
    ensures verifierId !in idx.byVerifier ==> r == []
    ensures WellTagged(idx) ==> forall i | 0 <= i < |r| :: r[i].1.verifierId == verifierId
  {
    if verifierId in idx.byVerifier then idx.byVerifier[verifierId] else []
  }

  /** The records of `evidence` produced by `verifierId`, in order, tagged with `id`. */
  function TaggedBy(id: string, evidence: seq<Record>, verifierId: string): (r: seq<Tagged>)
    ensures |r| <= |evidence|
    ensures forall i | 0 <= i < |r| :: r[i].0 == id && r[i].1 in evidence && r[i].1.verifierId == verifierId
  {
    if |evidence| == 0 then []
    else
      (if evidence[0].verifierId == verifierId then [(id, evidence[0])] else [])
        + TaggedBy(id, evidence[1..], verifierId)
  }

  /** Every record of `verifierId` in the evidence is filed, tagged with `id`. */
  lemma {:induction false} TaggedByComplete(id: string, evidence: seq<Record>, verifierId: string)
    ensures forall j | 0 <= j < |evidence| && evidence[j].verifierId == verifierId :: (id, evidence[j]) in TaggedBy(id, evidence, verifierId)
  {
    if |evidence| > 0 {
      TaggedByComplete(id, evidence[1..], verifierId);
      forall j | 1 <= j < |evidence| && evidence[j].verifierId == verifierId
        ensures (id, evidence[j]) in TaggedBy(id, evidence, verifierId)
      {
        assert evidence[j] == evidence[1..][j - 1];
      }
    }
  }

  /** Tagging a concatenation keeps the tagged records of the first part ahead of those of the second. */
  lemma {:induction false} TaggedByConcat(id: string, a: seq<Record>, b: seq<Record>, verifierId: string)
    ensures TaggedBy(id, a + b, verifierId) == TaggedBy(id, a, verifierId) + TaggedBy(id, b, verifierId)
  {
    if |a| > 0 {
      assert (a + b)[1..] == a[1..] + b;
      TaggedByConcat(id, a[1..], b, verifierId);
    } else {
      assert a + b == b;
    }
  }

  /** The timeline entries for `evidence`, in order. */
  function Entries(id: string, evidence: seq<Record>): (r: seq<Entry>)
    ensures |r| == |evidence|
    ensures forall i | 0 <= i < |r| :: r[i] == Entry(evidence[i].timestamp, id, evidence[i])
  {
    if |evidence| == 0 then [] else [Entry(evidence[0].timestamp, id, evidence[0])] + Entries(id, evidence[1..])
  }

  /** The loop of `add`: each record is appended to its verifier's list and to the timeline. */
  function AppendAll(idx: LogIndex, id: string, evidence: seq<Record>): LogIndex
    decreases |evidence|
  {
    if |evidence| == 0 then idx
    else
      AppendAll(AppendOne(idx, id, evidence[0]), id, evidence[1..])
  }

  /** `add`: append every record, then sort the whole timeline by timestamp. */
  function Add(idx: LogIndex, id: string, evidence: seq<Record>): (r: LogIndex)
    ensures WellTagged(idx) ==> WellTagged(r)
  {
    var a := AppendAll(idx, id, evidence);
    AppendAllKeepsWellTagged(idx, id, evidence);
    a.(timeline := Sorting.Sort(a.timeline, TsLe))
  }

  /** Filing one record keeps every list tagged with its own verifier. */
  lemma AppendOneKeepsWellTagged(idx: LogIndex, id: string, r: Record)
    requires WellTagged(idx)
    ensures WellTagged(AppendOne(idx, id, r))
  {
    var m: map<string, seq<Tagged>> := AppendOne(idx, id, r).byVerifier;
    forall v: string, i: int | v in m && 0 <= i < |m[v]|
      ensures m[v][i].1.verifierId == v
    {
      if v != r.verifierId {
        assert m[v] == idx.byVerifier[v];
      } else if i < |QueryByVerifier(idx, v)| {
        assert m[v][i] == QueryByVerifier(idx, v)[i];
      }
    }
  }

  lemma {:induction false} AppendAllKeepsWellTagged(idx: LogIndex, id: string, evidence: seq<Record>)
    ensures WellTagged(idx) ==> WellTagged(AppendAll(idx, id, evidence))
    decreases |evidence|
  {
    if |evidence| > 0 && WellTagged(idx) {
      AppendOneKeepsWellTagged(idx, id, evidence[0]);
      AppendAllKeepsWellTagged(AppendOne(idx, id, evidence[0]), id, evidence[1..]);
    }
  }

  /** One step of the loop of `add`. */
  function AppendOne(idx: LogIndex, id: string, r: Record): LogIndex {
    LogIndex(
      idx.byVerifier[r.verifierId := QueryByVerifier(idx, r.verifierId) + [(id, r)]],
      idx.timeline + [Entry(r.timestamp, id, r)])
  }

  lemma AppendOneQuery(idx: LogIndex, id: string, r: Record, verifierId: string)
    ensures QueryByVerifier(AppendOne(idx, id, r), verifierId) ==
      QueryByVerifier(idx, verifierId) + (if r.verifierId == verifierId then [(id, r)] else [])
  {
  }

  lemma {:induction false} AppendAllTimeline(idx: LogIndex, id: string, evidence: seq<Record>)
    ensures AppendAll(idx, id, evidence).timeline == idx.timeline + Entries(id, evidence)
    decreases |evidence|
  {
    if |evidence| > 0 {
      var r := evidence[0];
      assert AppendAll(idx, id, evidence) == AppendAll(AppendOne(idx, id, r), id, evidence[1..]);
      AppendAllTimeline(AppendOne(idx, id, r), id, evidence[1..]);
      assert Entries(id, evidence) == [Entry(r.timestamp, id, r)] + Entries(id, evidence[1..]);
    }
  }

  lemma {:induction false} AppendAllQuery(idx: LogIndex, id: string, evidence: seq<Record>, verifierId: string)
    ensures QueryByVerifier(AppendAll(idx, id, evidence), verifierId) ==
      QueryByVerifier(idx, verifierId) + TaggedBy(id, evidence, verifierId)
    decreases |evidence|
  {
    if |evidence| > 0 {
      var r := evidence[0];
      assert AppendAll(idx, id, evidence) == AppendAll(AppendOne(idx, id, r), id, evidence[1..]);
      AppendAllQuery(AppendOne(idx, id, r), id, evidence[1..], verifierId);
      AppendOneQuery(idx, id, r, verifierId);
    }
  }

  /** After `add`, a verifier's pairs are the old ones followed by the new records it produced, in insertion order. */
  lemma AddQueryByVerifier(idx: LogIndex, id: string, evidence: seq<Record>, verifierId: string)
    ensures QueryByVerifier(Add(idx, id, evidence), verifierId) ==
      QueryByVerifier(idx, verifierId) + TaggedBy(id, evidence, verifierId)
  {
    AppendAllQuery(idx, id, evidence, verifierId);
  }

  /** After `add`, the timeline is sorted by timestamp and holds exactly the old entries and one per new record. */
  lemma AddTimeline(idx: LogIndex, id: string, evidence: seq<Record>)
    ensures Sorting.SortedBy(Add(idx, id, evidence).timeline, TsLe)
    ensures multiset(Add(idx, id, evidence).timeline) == multiset(idx.timeline) + multiset(Entries(id, evidence))
  {
    var a := AppendAll(idx, id, evidence);
    AppendAllTimeline(idx, id, evidence);
    TsLeIsTotalPreorder();
    Sorting.SortSorted(a.timeline, TsLe);
    Sorting.SortPermutes(a.timeline, TsLe);
  }

  /** The pairs of the entries with `start <= timestamp <= end`, in timeline order. */
  function InRange(tl: seq<Entry>, start: int, end: int): (r: seq<Tagged>)
    ensures |r| <= |tl|
  {
    if |tl| == 0 then []
    else
      (if start <= tl[0].timestamp <= end then [(tl[0].objId, tl[0].record)] else [])
        + InRange(tl[1..], start, end)
  }

  /** The pairs of every entry. */
  function Pairs(tl: seq<Entry>): (r: seq<Tagged>)
    ensures |r| == |tl|
    ensures forall i | 0 <= i < |tl| :: r[i] == (tl[i].objId, tl[i].record)
  {
    if |tl| == 0 then [] else [(tl[0].objId, tl[0].record)] + Pairs(tl[1..])
  }

  lemma {:induction false} InRangeConcat(a: seq<Entry>, b: seq<Entry>, start: int, end: int)
    ensures InRange(a + b, start, end) == InRange(a, start, end) + InRange(b, start, end)
  {
    if |a| > 0 {
      assert (a + b)[1..] == a[1..] + b;
      InRangeConcat(a[1..], b, start, end);
    } else {
      assert a + b == b;
    }
  }

  lemma {:induction false} InRangeAll(tl: seq<Entry>, start: int, end: int)
    requires forall i | 0 <= i < |tl| :: start <= tl[i].timestamp <= end
    ensures InRange(tl, start, end) == Pairs(tl)
  {
    if |tl| > 0 {
      InRangeAll(tl[1..], start, end);
    }
  }

  lemma {:induction false} InRangeNone(tl: seq<Entry>, start: int, end: int)
    requires forall i | 0 <= i < |tl| :: !(start <= tl[i].timestamp <= end)
    ensures InRange(tl, start, end) == []
  {
    if |tl| > 0 {
      InRangeNone(tl[1..], start, end);
    }
  }

  /** Python's `(ts1, id1, …) < (ts2, id2, …)` for tuples whose ids differ. */
  predicate KeyLt(ts1: int, id1: string, ts2: int, id2: string) {
    ts1 < ts2 || (ts1 == ts2 && Lt(id1, id2))
  }

  /**
   * A bisection probe. `LeftOf(ts, id)` and `RightOf(ts, id)` are `bisect_left` and
   * `bisect_right` against the tuple `(ts, id, {})`; `LeftOfTime` and `RightOfTime`
   * bisect on the timestamp alone.
   */
  datatype Probe = LeftOf(ts: int, id: string) | RightOf(ts: int, id: string) | LeftOfTime(ts: int) | RightOfTime(ts: int)

  /** Whether the bisection moves right of entry `e`. */
  predicate GoesRight(p: Probe, e: Entry) {
    match p
    case LeftOf(ts, id) => KeyLt(e.timestamp, e.objId, ts, id)
    case RightOf(ts, id) => !KeyLt(ts, id, e.timestamp, e.objId)
    case LeftOfTime(ts) => e.timestamp < ts
    case RightOfTime(ts) => !(ts < e.timestamp)
  }

  /** The bisection loop of Python's `bisect` module on `tl[lo..hi]`. */
  function Bisect(tl: seq<Entry>, p: Probe, lo: nat, hi: nat): (r: nat)
    requires lo <= hi <= |tl|
    ensures lo <= r <= hi
    decreases hi - lo
  {
    if lo == hi then lo
    else
      var mid := (lo + hi) / 2;
      if GoesRight(p, tl[mid]) then Bisect(tl, p, mid + 1, hi) else Bisect(tl, p, lo, mid)
  }

  /** The entries the bisection moves right of form a prefix of `tl`. */
  ghost predicate Monotone(tl: seq<Entry>, p: Probe) {
    forall i, j | 0 <= i <= j < |tl| :: GoesRight(p, tl[j]) ==> GoesRight(p, tl[i])
  }

  /** On a monotone probe the bisection returns the boundary of that prefix. */
  lemma {:induction false} BisectFindsBoundary(tl: seq<Entry>, p: Probe, lo: nat, hi: nat)
    requires lo <= hi <= |tl| && Monotone(tl, p)
    requires forall i | 0 <= i < lo :: GoesRight(p, tl[i])
    requires forall i | hi <= i < |tl| :: !GoesRight(p, tl[i])
    ensures forall i | 0 <= i < Bisect(tl, p, lo, hi) :: GoesRight(p, tl[i])
    ensures forall i | Bisect(tl, p, lo, hi) <= i < |tl| :: !GoesRight(p, tl[i])
    decreases hi - lo
  {
    if lo < hi {
      var mid := (lo + hi) / 2;
      if GoesRight(p, tl[mid]) {
        BisectFindsBoundary(tl, p, mid + 1, hi);
      } else {
        BisectFindsBoundary(tl, p, lo, mid);
      }
    }
  }

  /** Python's slice `tl[lo:hi]`, empty when `lo > hi`. */
  function Slice(tl: seq<Entry>, lo: nat, hi: nat): (r: seq<Entry>)
    requires lo <= |tl| && hi <= |tl|
    ensures lo <= hi ==> r == tl[lo..hi]
    ensures lo > hi ==> r == []
  {
    if lo <= hi then tl[lo..hi] else []
  }

  /**
   * Whether comparing entry `e` with the probe's tuple `(ts, id, {})` reaches the
   * two record dicts: equal timestamps and equal ids. Python then raises `TypeError`.
   */
  predicate Ties(p: Probe, e: Entry) {
    match p
    case LeftOf(ts, id) => e.timestamp == ts && e.objId == id
    case RightOf(ts, id) => e.timestamp == ts && e.objId == id
    case LeftOfTime(_) => false
    case RightOfTime(_) => false
  }

  /** Whether the bisection loop of `Bisect` compares an entry that ties with its probe. */
  predicate BisectRaises(tl: seq<Entry>, p: Probe, lo: nat, hi: nat)
    requires lo <= hi <= |tl|
    decreases hi - lo
  {
    if lo == hi then false
    else
      var mid := (lo + hi) / 2;
      if Ties(p, tl[mid]) then true
      else if GoesRight(p, tl[mid]) then BisectRaises(tl, p, mid + 1, hi)
      else BisectRaises(tl, p, lo, mid)
  }

  /** The bisection raises only when some entry in its range ties with the probe. */
  lemma {:induction false} BisectRaisesOnlyOnTie(tl: seq<Entry>, p: Probe, lo: nat, hi: nat)
    requires lo <= hi <= |tl|
    ensures BisectRaises(tl, p, lo, hi) ==> exists i | lo <= i < hi :: Ties(p, tl[i])
    decreases hi - lo
  {
    if lo < hi {
      var mid := (lo + hi) / 2;
      if !Ties(p, tl[mid]) {
        BisectRaisesOnlyOnTie(tl, p, mid + 1, hi);
        BisectRaisesOnlyOnTie(tl, p, lo, mid);
      }
    }
  }

  /**
   * `query_by_time_range` as written: bisects against `(start, "", {})` and
   * `(end, "~", {})`, raising when either bisection compares a tied entry.
   */
  function QueryByTimeRange(idx: LogIndex, start: int, end: int): (r: Result<seq<Tagged>, Error>)
    ensures r.Success? ==> |r.value| <= |idx.timeline|
    ensures r.Failure? ==> r.error == UnorderableRecords
    ensures r.Failure? ==> (exists i | 0 <= i < |idx.timeline| ::
      (idx.timeline[i].timestamp == start && idx.timeline[i].objId == "") ||
      (idx.timeline[i].timestamp == end && idx.timeline[i].objId == "~"))
  {
    var tl := idx.timeline;
    var lp, rp := LeftOf(start, ""), RightOf(end, "~");
    if BisectRaises(tl, lp, 0, |tl|) || BisectRaises(tl, rp, 0, |tl|) then
      BisectRaisesOnlyOnTie(tl, lp, 0, |tl|);
      BisectRaisesOnlyOnTie(tl, rp, 0, |tl|);
      Failure(UnorderableRecords)
    else
      Success(Pairs(Slice(tl, Bisect(tl, lp, 0, |tl|), Bisect(tl, rp, 0, |tl|))))
  }

  /** `query_by_time_range` with the bisection keyed on timestamps alone. */
  function QueryByTimeRangeByTimestamp(idx: LogIndex, start: int, end: int): (r: seq<Tagged>)
    ensures |r| <= |idx.timeline|
  {
    var tl := idx.timeline;
    Pairs(Slice(tl, Bisect(tl, LeftOfTime(start), 0, |tl|), Bisect(tl, RightOfTime(end), 0, |tl|)))
  }

  /** Entries before `lo`, all stamped before `start`, contribute nothing to the filter. */
  lemma InRangeDropPrefix(tl: seq<Entry>, start: int, end: int, lo: nat)
    requires lo <= |tl|
    requires forall i | 0 <= i < lo :: tl[i].timestamp < start
    ensures InRange(tl, start, end) == InRange(tl[lo..], start, end)
  {
    assert tl == tl[..lo] + tl[lo..];
    InRangeConcat(tl[..lo], tl[lo..], start, end);
    InRangeNone(tl[..lo], start, end);
  }

  /** Entries from `k` on, all stamped after `end`, contribute nothing; the others all pass. */
  lemma InRangeTakePrefix(tl: seq<Entry>, start: int, end: int, k: nat)
    requires k <= |tl|
    requires forall i | 0 <= i < k :: start <= tl[i].timestamp <= end
    requires forall i | k <= i < |tl| :: end < tl[i].timestamp
    ensures InRange(tl, start, end) == Pairs(tl[..k])
  {
    assert tl == tl[..k] + tl[k..];
    InRangeConcat(tl[..k], tl[k..], start, end);
    InRangeAll(tl[..k], start, end);
    InRangeNone(tl[k..], start, end);
  }

  /** From `lo` on, the filter keeps exactly the entries before `hi`. */
  lemma InRangeMiddle(tl: seq<Entry>, start: int, end: int, lo: nat, hi: nat)
    requires lo <= hi <= |tl|
    requires forall i | lo <= i < hi :: start <= tl[i].timestamp <= end
    requires forall i | hi <= i < |tl| :: end < tl[i].timestamp
    ensures InRange(tl[lo..], start, end) == Pairs(tl[lo..hi])
  {
    var rest, k := tl[lo..], hi - lo;
    forall i | 0 <= i < k
      ensures start <= rest[i].timestamp <= end
    {
      assert rest[i] == tl[lo + i];
    }
    forall i | k <= i < |rest|
      ensures end < rest[i].timestamp
    {
      assert rest[i] == tl[lo + i];
    }
    InRangeTakePrefix(rest, start, end, k);
    assert rest[..k] == tl[lo..hi];
  }

  /** Given the two bisection boundaries for `start` and `end`, the slice between them is the in-range filter. */
  lemma SliceIsInRange(tl: seq<Entry>, start: int, end: int, lo: nat, hi: nat)
    requires lo <= |tl| && hi <= |tl|
    requires forall i | 0 <= i < lo :: tl[i].timestamp < start
    requires forall i | lo <= i < |tl| :: start <= tl[i].timestamp
    requires forall i | 0 <= i < hi :: tl[i].timestamp <= end
    requires forall i | hi <= i < |tl| :: end < tl[i].timestamp
    ensures Pairs(Slice(tl, lo, hi)) == InRange(tl, start, end)
  {
    if lo <= hi {
      InRangeDropPrefix(tl, start, end, lo);
      InRangeMiddle(tl, start, end, lo, hi);
    } else {
      InRangeNone(tl, start, end);
    }
  }

  /** Keyed on timestamps, the query returns exactly the entries in `[start, end]`, in timeline order. */
  lemma QueryByTimestampIsFilter(idx: LogIndex, start: int, end: int)
    requires Sorting.SortedBy(idx.timeline, TsLe)
    ensures QueryByTimeRangeByTimestamp(idx, start, end) == InRange(idx.timeline, start, end)
  {
    var tl := idx.timeline;
    BisectFindsBoundary(tl, LeftOfTime(start), 0, |tl|);
    BisectFindsBoundary(tl, RightOfTime(end), 0, |tl|);
    SliceIsInRange(tl, start, end,
      Bisect(tl, LeftOfTime(start), 0, |tl|), Bisect(tl, RightOfTime(end), 0, |tl|));
  }

  /**
   * With every id below "~" and no id "" stamped `start`, the query as written
   * raises nothing and returns the same filter.
   */
  lemma QueryByTimeRangeIsFilter(idx: LogIndex, start: int, end: int)
    requires Sorting.SortedBy(idx.timeline, TsLe)
    requires forall i | 0 <= i < |idx.timeline| :: Lt(idx.timeline[i].objId, "~")
    requires forall i | 0 <= i < |idx.timeline| :: idx.timeline[i].timestamp == start ==> idx.timeline[i].objId != ""
    ensures QueryByTimeRange(idx, start, end) == Success(InRange(idx.timeline, start, end))
  {
    var tl := idx.timeline;
    forall i | 0 <= i < |tl|
      ensures !Ties(LeftOf(start, ""), tl[i]) && !Ties(RightOf(end, "~"), tl[i])
      ensures GoesRight(LeftOf(start, ""), tl[i]) == GoesRight(LeftOfTime(start), tl[i])
      ensures GoesRight(RightOf(end, "~"), tl[i]) == GoesRight(RightOfTime(end), tl[i])
    {
      LtAsymmetric(tl[i].objId, "~");
      if tl[i].timestamp == start {
        assert tl[i].objId != "";
      }
    }
    BisectRaisesOnlyOnTie(tl, LeftOf(start, ""), 0, |tl|);
    BisectRaisesOnlyOnTie(tl, RightOf(end, "~"), 0, |tl|);
    BisectSameProbe(tl, LeftOf(start, ""), LeftOfTime(start), 0, |tl|);
    BisectSameProbe(tl, RightOf(end, "~"), RightOfTime(end), 0, |tl|);
    QueryByTimestampIsFilter(idx, start, end);
  }

  /** A sentinel id the bisection never compares does not raise: an id "" stamped before the range is skipped. */
  lemma UnprobedSentinelIsHarmless(rec: Record)
    ensures QueryByTimeRange(LogIndex(map[], [Entry(1, "", rec)]), 5, 10) == Success([])
  {
    var tl := [Entry(1, "", rec)];
    assert !Ties(LeftOf(5, ""), tl[0]) && !Ties(RightOf(10, "~"), tl[0]);
    assert Bisect(tl, LeftOf(5, ""), 0, 1) == 1;
    assert Bisect(tl, RightOf(10, "~"), 0, 1) == 1;
  }

  /** An id "" stamped exactly `start` is compared by the first bisection, which raises. */
  lemma ProbedSentinelRaises(rec: Record)
    ensures QueryByTimeRange(LogIndex(map[], [Entry(5, "", rec)]), 5, 10) == Failure(UnorderableRecords)
  {
    assert Ties(LeftOf(5, ""), Entry(5, "", rec));
  }

  /** Two probes that agree on every entry bisect alike. */
  lemma {:induction false} BisectSameProbe(tl: seq<Entry>, p: Probe, q: Probe, lo: nat, hi: nat)
    requires lo <= hi <= |tl|
    requires forall i | 0 <= i < |tl| :: GoesRight(p, tl[i]) == GoesRight(q, tl[i])
    ensures Bisect(tl, p, lo, hi) == Bisect(tl, q, lo, hi)
    decreases hi - lo
  {
    if lo < hi {
      var mid := (lo + hi) / 2;
      BisectSameProbe(tl, p, q, mid + 1, hi);
      BisectSameProbe(tl, p, q, lo, mid);
    }
  }

  /** An entry stamped exactly `end` whose id sorts after "~" is left out by the query as written. */
  lemma QueryDropsHighIdAtEnd(rec: Record)
    ensures var idx := LogIndex(map[], [Entry(5, "~a", rec)]);
      && Sorting.SortedBy(idx.timeline, TsLe)
      && QueryByTimeRange(idx, 5, 5) == Success([])
      && InRange(idx.timeline, 5, 5) == [("~a", rec)]
  {
    var tl := [Entry(5, "~a", rec)];
    assert Lt("~", "~a");
    assert !Ties(LeftOf(5, ""), tl[0]) && !Ties(RightOf(5, "~"), tl[0]);
    assert Bisect(tl, LeftOf(5, ""), 0, 1) == 0;
    assert Bisect(tl, RightOf(5, "~"), 0, 1) == 0;
  }

  /**
   * Whether a high id stamped `end` survives depends on where the bisection probes:
   * behind an entry that sorts below "~", the same "~a" entry is kept.
   */
  lemma QueryKeepsHighIdBehindLowerId(r1: Record, r2: Record)
    ensures var idx := LogIndex(map[], [Entry(5, "~a", r1), Entry(5, "b", r2)]);
      && Sorting.SortedBy(idx.timeline, TsLe)
      && QueryByTimeRange(idx, 5, 5) == Success([("~a", r1), ("b", r2)])
  {
    var tl := [Entry(5, "~a", r1), Entry(5, "b", r2)];
    assert Lt("b", "~") && Lt("~", "~a");
    LtAsymmetric("b", "~");
    assert !Ties(LeftOf(5, ""), tl[0]) && !Ties(LeftOf(5, ""), tl[1]);
    assert !Ties(RightOf(5, "~"), tl[0]) && !Ties(RightOf(5, "~"), tl[1]);
    assert Bisect(tl, LeftOf(5, ""), 0, 2) == 0;
    assert Bisect(tl, RightOf(5, "~"), 0, 2) == 2;
    assert !BisectRaises(tl, LeftOf(5, ""), 0, 2);
    assert !BisectRaises(tl, RightOf(5, "~"), 0, 2);
    assert Slice(tl, 0, 2) == tl;
    assert Pairs(tl) == [("~a", r1), ("b", r2)];
  }
}
