/**
 What was knowable, and when: stamps, the index a set of records is bisected
 through, and the rescan it replaces.
 */
module PointInTime {
  import opened Outcomes
  import opened Ordering
  import opened Text

  /** Whose clock decides visibility: the world's, or this system's own. */
  datatype Rule = Publication | Ingestion

  /** When a fact describes, when it became knowable if anyone said, and when it arrived if recorded. */
  datatype Stamp = Stamp(observedAt: real, availableAt: Option<real>, ingestedAt: Option<real>) {

    function KnownAt(rule: Rule): Option<real> {
      if availableAt.None? then None
      else if rule.Publication? then availableAt
      else if ingestedAt.None? then None
      else Some(if availableAt.value < ingestedAt.value then ingestedAt.value else availableAt.value)
    }

    predicate VisibleAt(asOf: real, rule: Rule) {
      KnownAt(rule).Some? && KnownAt(rule).value <= asOf
    }
  }

  /** Said by `t` to be available, and on this system's own clock also recorded by `t` as having arrived. */
  ghost predicate Arrived(stamp: Stamp, rule: Rule, t: real) {
    && stamp.availableAt.Some? && stamp.availableAt.value <= t
    && (rule.Ingestion? ==> stamp.ingestedAt.Some? && stamp.ingestedAt.value <= t)
  }

  /** The knowledge instant is the first at which the fact has arrived, if there is one. */
  lemma KnownAtIsFirst(stamp: Stamp, rule: Rule, t: real)
    ensures stamp.VisibleAt(t, rule) <==> Arrived(stamp, rule, t)
    ensures stamp.KnownAt(rule).Some? <==> stamp.availableAt.Some? && (rule.Ingestion? ==> stamp.ingestedAt.Some?)
    ensures stamp.KnownAt(rule).Some? ==> Arrived(stamp, rule, stamp.KnownAt(rule).value)
    ensures Arrived(stamp, rule, t) ==> stamp.KnownAt(rule).Some? && stamp.KnownAt(rule).value <= t
  {
  }

  /**
   One vintage of one figure. A figure is named by its series and, within it, by its
   period label; revisions of it count up from 0, the value as first published.
   */
  datatype Record = Record(id: string, stamp: Stamp, series: string, figure: string, revision: nat, value: real)

  ghost predicate DistinctIds(records: seq<Record>) {
    forall i, j | 0 <= i < j < |records| :: records[i].id != records[j].id
  }

  predicate Knowable(r: Record, rule: Rule) { r.stamp.KnownAt(rule).Some? }

  function IsKnowable(rule: Rule): Record -> bool { (r: Record) => Knowable(r, rule) }

  function NeverKnowable(rule: Rule): Record -> bool { (r: Record) => !Knowable(r, rule) }

  function VisibleBy(asOf: real, rule: Rule): Record -> bool { (r: Record) => r.stamp.VisibleAt(asOf, rule) }

  function Instant(r: Record, rule: Rule): real {
    if Knowable(r, rule) then r.stamp.KnownAt(rule).value else 0.0
  }

  function InstantUnder(rule: Rule): Record -> real { (r: Record) => Instant(r, rule) }

  /** (knowledge instant, observation instant, identity). */
  predicate KnownBefore(rule: Rule, a: Record, b: Record) {
    Instant(a, rule) < Instant(b, rule)
    || (Instant(a, rule) == Instant(b, rule)
        && (a.stamp.observedAt < b.stamp.observedAt
            || (a.stamp.observedAt == b.stamp.observedAt && AtMost(a.id, b.id))))
  }

  function ByKnowledge(rule: Rule): (Record, Record) -> bool {
    (a: Record, b: Record) => KnownBefore(rule, a, b)
  }

  predicate ById(a: Record, b: Record) { AtMost(a.id, b.id) }

  lemma KnowledgeOrderIsTotal(rule: Rule)
    ensures TotalPreorder(ByKnowledge(rule))
  {
    var le := ByKnowledge(rule);
    forall x, y ensures le(x, y) || le(y, x) {
      AtMostTotal(x.id, y.id);
    }
    forall x, y, z | le(x, y) && le(y, z) ensures le(x, z) {
      if AtMost(x.id, y.id) && AtMost(y.id, z.id) {
        AtMostChains(x.id, y.id, z.id);
      }
    }
  }

  lemma IdOrderIsTotal()
    ensures TotalPreorder(ById)
  {
    forall x: Record, y: Record ensures ById(x, y) || ById(y, x) {
      AtMostTotal(x.id, y.id);
    }
    forall x: Record, y: Record, z: Record | ById(x, y) && ById(y, z) ensures ById(x, z) {
      AtMostChains(x.id, y.id, z.id);
    }
  }

  lemma DistinctIdsNoTies(rule: Rule, records: seq<Record>)
    requires DistinctIds(records)
    ensures NoTies(ByKnowledge(rule), records) && NoTies(ById, records)
  {
    forall x, y | x in records && y in records && AtMost(x.id, y.id) && AtMost(y.id, x.id) ensures x == y {
      AtMostBothWays(x.id, y.id);
    }
  }

  // ---------------------------------------------------------------- the index

  datatype Index = Index(rule: Rule, records: seq<Record>, instants: seq<real>, unverified: seq<Record>)

  /** What building an index comes to: the knowable in knowledge order, the rest by identity. */
  function IndexOf(records: seq<Record>, rule: Rule): Index {
    var known := Sort(ByKnowledge(rule), Filter(IsKnowable(rule), records));
    Index(rule, known, Map(InstantUnder(rule), known), Sort(ById, Filter(NeverKnowable(rule), records)))
  }

  datatype IndexRefusal = AppearsTwice(id: string)

  /** Whether a record's instants say when it was known; one that does not is never read. */
  predicate Told(r: Record, rule: Rule) {
    r.stamp.availableAt.Some? && (rule.Ingestion? ==> r.stamp.ingestedAt.Some?)
  }

  /** The instant a record was published, or when it had been published and had arrived here. */
  ghost predicate IsInstant(r: Record, rule: Rule, t: real)
    requires Told(r, rule)
  {
    if rule.Publication? then t == r.stamp.availableAt.value
    else && r.stamp.availableAt.value <= t && r.stamp.ingestedAt.value <= t
         && (t == r.stamp.availableAt.value || t == r.stamp.ingestedAt.value)
  }

  /** The known records by instant, observation and identity, each beside its instant; the others by identity. */
  ghost predicate Arranges(records: seq<Record>, rule: Rule, index: Index) {
    && index.rule == rule
    && multiset(index.records) + multiset(index.unverified) == multiset(records)
    && |index.instants| == |index.records|
    && (forall i | 0 <= i < |index.records| ::
          Told(index.records[i], rule) && IsInstant(index.records[i], rule, index.instants[i]))
    && (forall i, j | 0 <= i < j < |index.records| ::
          var a, b := index.records[i], index.records[j];
          || index.instants[i] < index.instants[j]
          || (index.instants[i] == index.instants[j] && a.stamp.observedAt < b.stamp.observedAt)
          || (index.instants[i] == index.instants[j] && a.stamp.observedAt == b.stamp.observedAt && AtMost(a.id, b.id)))
    && (forall i | 0 <= i < |index.unverified| :: !Told(index.unverified[i], rule))
    && (forall i, j | 0 <= i < j < |index.unverified| :: AtMost(index.unverified[i].id, index.unverified[j].id))
  }

  /** One pass with the identities seen: refuses exactly a record handed over twice. */
  method BuildIndex(records: seq<Record>, rule: Rule) returns (r: Result<Index, IndexRefusal>)
    ensures r.Ok? <==> DistinctIds(records)
    ensures r.Ok? ==> r.value == IndexOf(records, rule) && Arranges(records, rule, r.value)
    ensures r.Err? ==> exists i, k :: 0 <= i < k < |records| && DistinctIds(records[..k])
                         && records[i].id == records[k].id == r.error.id
  {
    var knowable: seq<Record> := [];
    var unverified: seq<Record> := [];
    var seen: set<string> := {};
    for k := 0 to |records|
      invariant seen == set i | 0 <= i < k :: records[i].id
      invariant DistinctIds(records[..k])
      invariant knowable == Filter(IsKnowable(rule), records[..k])
      invariant unverified == Filter(NeverKnowable(rule), records[..k])
    {
      var record := records[k];
      if record.id in seen {
        return Err(AppearsTwice(record.id));
      }
      seen := seen + {record.id};
      assert records[..k + 1] == records[..k] + [record];
      FilterConcat(IsKnowable(rule), records[..k], [record]);
      FilterConcat(NeverKnowable(rule), records[..k], [record]);
      if record.stamp.KnownAt(rule).None? {
        unverified := unverified + [record];
      } else {
        knowable := knowable + [record];
      }
    }
    TakeAll(records);
    IndexArranges(records, rule);
    var known := Sort(ByKnowledge(rule), knowable);
    return Ok(Index(rule, known, Map(InstantUnder(rule), known), Sort(ById, unverified)));
  }

  lemma IndexArranges(records: seq<Record>, rule: Rule)
    ensures Arranges(records, rule, IndexOf(records, rule))
  {
    PartsCount(records, rule);
    InKnowledgeOrder(records, rule);
    NeverReadById(records, rule);
  }

  lemma NeverReadById(records: seq<Record>, rule: Rule)
    ensures var rest := IndexOf(records, rule).unverified;
            && (forall i | 0 <= i < |rest| :: !Told(rest[i], rule))
            && (forall i, j | 0 <= i < j < |rest| :: AtMost(rest[i].id, rest[j].id))
  {
    var rest := IndexOf(records, rule).unverified;
    IdOrderIsTotal();
    SortSorts(ById, Filter(NeverKnowable(rule), records));
    SortPermutes(ById, Filter(NeverKnowable(rule), records));
    forall i | 0 <= i < |rest| ensures !Told(rest[i], rule) {
      assert rest[i] in rest;
      FilterMember(NeverKnowable(rule), records, rest[i]);
      KnownAtIsFirst(rest[i].stamp, rule, 0.0);
    }
    assert forall i, j | 0 <= i < j < |rest| :: ById(rest[i], rest[j]);
  }

  lemma InKnowledgeOrder(records: seq<Record>, rule: Rule)
    ensures var known := IndexOf(records, rule).records;
            && (forall i | 0 <= i < |known| ::
                  Told(known[i], rule) && IsInstant(known[i], rule, Instant(known[i], rule)))
            && (forall i, j | 0 <= i < j < |known| :: KnownBefore(rule, known[i], known[j]))
  {
    var kept := Filter(IsKnowable(rule), records);
    var known := IndexOf(records, rule).records;
    KnowledgeOrderIsTotal(rule);
    SortSorts(ByKnowledge(rule), kept);
    SortPermutes(ByKnowledge(rule), kept);
    forall i | 0 <= i < |known| ensures Told(known[i], rule) && IsInstant(known[i], rule, Instant(known[i], rule)) {
      assert known[i] in known;
      FilterMember(IsKnowable(rule), records, known[i]);
      KnownAtIsFirst(known[i].stamp, rule, 0.0);
    }
    assert forall i, j | 0 <= i < j < |known| :: ByKnowledge(rule)(known[i], known[j]);
  }

  /** Every record is indexed once, as known or not. */
  lemma PartsCount(records: seq<Record>, rule: Rule)
    ensures var index := IndexOf(records, rule);
            multiset(index.records) + multiset(index.unverified) == multiset(records)
  {
    var index := IndexOf(records, rule);
    SortPermutes(ByKnowledge(rule), Filter(IsKnowable(rule), records));
    SortPermutes(ById, Filter(NeverKnowable(rule), records));
    forall x ensures (multiset(index.records) + multiset(index.unverified))[x] == multiset(records)[x] {
      FilterCount(IsKnowable(rule), records, x);
      FilterCount(NeverKnowable(rule), records, x);
    }
  }

  /** The index is a function of which records there are, not of the order they were handed over in. */
  lemma IndexIgnoresArrival(a: seq<Record>, b: seq<Record>, rule: Rule)
    requires DistinctIds(a) && multiset(a) == multiset(b)
    ensures IndexOf(a, rule) == IndexOf(b, rule)
  {
    KnowledgeOrderIsTotal(rule);
    IdOrderIsTotal();
    FilterPermutes(IsKnowable(rule), a, b);
    FilterPermutes(NeverKnowable(rule), a, b);
    DistinctIdsNoTies(rule, a);
    forall x ensures (x in Filter(IsKnowable(rule), a) ==> x in a) && (x in Filter(NeverKnowable(rule), a) ==> x in a) {
      FilterMember(IsKnowable(rule), a, x);
      FilterMember(NeverKnowable(rule), a, x);
    }
    SortIgnoresArrival(ByKnowledge(rule), Filter(IsKnowable(rule), a), Filter(IsKnowable(rule), b));
    SortIgnoresArrival(ById, Filter(NeverKnowable(rule), a), Filter(NeverKnowable(rule), b));
  }

  // ------------------------------------------------------------------ bisection

  ghost predicate Ascending(s: seq<real>) {
    forall i, j | 0 <= i < j < |s| :: s[i] <= s[j]
  }

  /** `bisect_right(s, x, lo, hi)`. */
  function BisectRight(s: seq<real>, x: real, lo: nat, hi: nat): (k: nat)
    requires lo <= hi <= |s| && Ascending(s)
    requires (forall i | 0 <= i < lo :: s[i] <= x) && (forall i | hi <= i < |s| :: x < s[i])
    ensures lo <= k <= hi
    ensures (forall i | 0 <= i < k :: s[i] <= x) && (forall i | k <= i < |s| :: x < s[i])
    decreases hi - lo
  {
    if lo == hi then lo
    else
      var mid := (lo + hi) / 2;
      if x < s[mid] then BisectRight(s, x, lo, mid) else BisectRight(s, x, mid + 1, hi)
  }

  ghost predicate Indexed(index: Index) {
    |index.records| == |index.instants| && Ascending(index.instants)
  }

  function CountVisible(index: Index, asOf: real): (k: nat)
    requires Indexed(index)
    ensures k <= |index.records|
  {
    BisectRight(index.instants, asOf, 0, |index.instants|)
  }

  function VisibleAsOf(index: Index, asOf: real): seq<Record>
    requires Indexed(index)
  {
    index.records[..CountVisible(index, asOf)]
  }

  function KnownBetween(index: Index, after: real, through: real): seq<Record>
    requires Indexed(index) && after <= through
  {
    BisectMonotone(index.instants, after, through);
    index.records[CountVisible(index, after)..CountVisible(index, through)]
  }

  lemma BisectMonotone(s: seq<real>, x: real, y: real)
    requires Ascending(s) && x <= y
    ensures BisectRight(s, x, 0, |s|) <= BisectRight(s, y, 0, |s|)
  {
    var k, m := BisectRight(s, x, 0, |s|), BisectRight(s, y, 0, |s|);
    assert forall i | 0 <= i < k :: s[i] <= y;
    assert m < |s| ==> y < s[m];
  }

  lemma KnowledgeSorted(rule: Rule, s: seq<Record>, sorted: seq<Record>)
    requires sorted == Sort(ByKnowledge(rule), s)
    ensures forall i, j | 0 <= i < j < |sorted| :: Instant(sorted[i], rule) <= Instant(sorted[j], rule)
    ensures forall r | r in sorted :: r in s
  {
    KnowledgeOrderIsTotal(rule);
    SortPermutes(ByKnowledge(rule), s);
    SortSorts(ByKnowledge(rule), s);
    assert forall i, j | 0 <= i < j < |sorted| :: ByKnowledge(rule)(sorted[i], sorted[j]);
  }

  lemma IndexOfIndexed(records: seq<Record>, rule: Rule)
    ensures Indexed(IndexOf(records, rule))
    ensures forall r | r in IndexOf(records, rule).records :: Knowable(r, rule) && r in records
  {
    var kept := Filter(IsKnowable(rule), records);
    var known := IndexOf(records, rule).records;
    KnowledgeSorted(rule, kept, known);
    forall r | r in known ensures Knowable(r, rule) && r in records {
      FilterMember(IsKnowable(rule), records, r);
    }
  }

  lemma SplitIsFilter(index: Index, asOf: real)
    requires Indexed(index)
    requires forall i | 0 <= i < |index.records| ::
               Knowable(index.records[i], index.rule) && index.instants[i] == Instant(index.records[i], index.rule)
    ensures VisibleAsOf(index, asOf) == Filter(VisibleBy(asOf, index.rule), index.records)
  {
    var visible := VisibleBy(asOf, index.rule);
    var k := CountVisible(index, asOf);
    var front, back := index.records[..k], index.records[k..];
    assert index.records == front + back;
    assert forall i | 0 <= i < |index.records| :: visible(index.records[i]) == (index.instants[i] <= asOf);
    assert forall i | 0 <= i < |back| :: back[i] == index.records[k + i];
    FilterConcat(visible, front, back);
    FilterAll(visible, front);
    FilterNone(visible, back);
  }

  /** The bisected prefix is exactly the records a rescan of the whole set would keep, in knowledge order. */
  lemma BisectionIsRescan(records: seq<Record>, rule: Rule, asOf: real)
    ensures Indexed(IndexOf(records, rule))
    ensures VisibleAsOf(IndexOf(records, rule), asOf)
         == Sort(ByKnowledge(rule), Filter(VisibleBy(asOf, rule), records))
  {
    var index := IndexOf(records, rule);
    IndexOfIndexed(records, rule);
    assert forall i | 0 <= i < |index.records| :: index.records[i] in index.records;
    SplitIsFilter(index, asOf);
    assert Filter(VisibleBy(asOf, rule), index.records)
        == Sort(ByKnowledge(rule), Filter(VisibleBy(asOf, rule), Filter(IsKnowable(rule), records))) by {
      KnowledgeOrderIsTotal(rule);
      FilterSort(ByKnowledge(rule), VisibleBy(asOf, rule), Filter(IsKnowable(rule), records));
    }
    FilterTwice(IsKnowable(rule), VisibleBy(asOf, rule), VisibleBy(asOf, rule), records);
  }

  /**
   What is read at an instant is exactly what had been published by it and, on this system's own
   clock, had also arrived by it.
   */
  lemma VisibleExactly(records: seq<Record>, rule: Rule, asOf: real, r: Record)
    ensures Indexed(IndexOf(records, rule))
    ensures r in VisibleAsOf(IndexOf(records, rule), asOf) <==>
              && r in records
              && r.stamp.availableAt.Some? && r.stamp.availableAt.value <= asOf
              && (rule.Ingestion? ==> r.stamp.ingestedAt.Some? && r.stamp.ingestedAt.value <= asOf)
  {
    var visible := Filter(VisibleBy(asOf, rule), records);
    BisectionIsRescan(records, rule, asOf);
    SortPermutes(ByKnowledge(rule), visible);
    FilterMember(VisibleBy(asOf, rule), records, r);
    KnownAtIsFirst(r.stamp, rule, asOf);
    assert r in Sort(ByKnowledge(rule), visible) <==> r in visible;
  }

  lemma SamePast(a: seq<Record>, b: seq<Record>, rule: Rule, asOf: real)
    requires forall x: Record | Arrived(x.stamp, rule, asOf) :: multiset(a)[x] == multiset(b)[x]
    ensures multiset(Filter(VisibleBy(asOf, rule), a)) == multiset(Filter(VisibleBy(asOf, rule), b))
  {
    var past, past' := multiset(Filter(VisibleBy(asOf, rule), a)), multiset(Filter(VisibleBy(asOf, rule), b));
    forall x: Record ensures past[x] == past'[x] {
      FilterCount(VisibleBy(asOf, rule), a, x);
      FilterCount(VisibleBy(asOf, rule), b, x);
      KnownAtIsFirst(x.stamp, rule, asOf);
    }
    assert past == past';
  }

  /**
   No look-ahead: sets that agree on what had arrived by an instant answer alike at that
   instant, whatever else either of them holds.
   */
  lemma {:induction false} IndexCannotSeeAhead(a: seq<Record>, b: seq<Record>, rule: Rule, asOf: real)
    requires DistinctIds(a)
    requires forall x: Record | Arrived(x.stamp, rule, asOf) :: multiset(a)[x] == multiset(b)[x]
    ensures Indexed(IndexOf(a, rule)) && Indexed(IndexOf(b, rule))
    ensures VisibleAsOf(IndexOf(a, rule), asOf) == VisibleAsOf(IndexOf(b, rule), asOf)
  {
    SamePast(a, b, rule, asOf);
    BisectionIsRescan(a, rule, asOf);
    BisectionIsRescan(b, rule, asOf);
    KnowledgeOrderIsTotal(rule);
    DistinctIdsNoTies(rule, a);
    forall x ensures x in Filter(VisibleBy(asOf, rule), a) ==> x in a {
      FilterMember(VisibleBy(asOf, rule), a, x);
    }
    SortIgnoresArrival(ByKnowledge(rule), Filter(VisibleBy(asOf, rule), a), Filter(VisibleBy(asOf, rule), b));
  }

  /** An incremental reader that takes each interval once has, at every step, read exactly what is visible. */
  lemma IntervalsAddUp(index: Index, after: real, through: real)
    requires Indexed(index) && after <= through
    ensures VisibleAsOf(index, after) + KnownBetween(index, after, through) == VisibleAsOf(index, through)
  {
    BisectMonotone(index.instants, after, through);
  }
}
