/**
 A macro indicator's releases lifted into a point-in-time set: grouped by period, put in
 release order, checked against their revision flags and numbered.
 */
module Releases {
  import opened Outcomes
  import opened Ordering
  import opened PointInTime

  datatype Release =
    Release(indicatorId: string, period: real, releaseDate: real, value: real, isRevision: bool)

  /** `labelsAccepted`: the lowercased id, the country and the units are labels observations may carry. */
  datatype Metadata = Metadata(indicatorId: string, labelsAccepted: bool)

  /** How observations are named: their series, a period's label, and the digest of a record's content. */
  datatype Naming = Naming(series: string, periodLabel: real -> string, digest: (real, real, nat, real) -> string)

  /** Among these releases, different periods print differently and different contents hash differently. */
  ghost predicate Faithful(n: Naming, releases: seq<Release>) {
    forall q, r | q in releases && r in releases :: ToldApart(n, q, r)
  }

  ghost predicate ToldApart(n: Naming, q: Release, r: Release) {
    && (n.periodLabel(q.period) == n.periodLabel(r.period) ==> q.period == r.period)
    && (forall j, k | n.digest(q.period, q.releaseDate, j, q.value) == n.digest(r.period, r.releaseDate, k, r.value) ::
          q.period == r.period && q.releaseDate == r.releaseDate)
  }

  datatype LiftRefusal = AnotherIndicator | NoReleases | SameReleaseDate | WrongRevisionFlag | LabelRefused

  predicate ByPeriodAndDate(a: Release, b: Release) {
    a.period < b.period || (a.period == b.period && a.releaseDate <= b.releaseDate)
  }

  predicate ByDate(a: Release, b: Release) { a.releaseDate <= b.releaseDate }

  predicate Earliest(a: real, b: real) { a <= b }

  function InPeriod(p: real): Release -> bool { (r: Release) => r.period == p }

  function InPeriods(ps: seq<real>): Release -> bool { (r: Release) => r.period in ps }

  function Precedes(r: Release): Release -> bool {
    (q: Release) => q.period == r.period && q.releaseDate < r.releaseDate
  }

  /** The releases sharing its period and release date, itself among them. */
  function Shares(r: Release): Release -> bool {
    (q: Release) => q.period == r.period && q.releaseDate == r.releaseDate
  }

  function ReleasedBy(t: real): Release -> bool { (r: Release) => r.releaseDate <= t }

  /** How many releases of its period came out before it: its vintage number. */
  function Rank(r: Release, releases: seq<Release>): nat { |Filter(Precedes(r), releases)| }

  function Vintage(n: Naming, r: Release, revision: nat): Record {
    Record(n.digest(r.period, r.releaseDate, revision, r.value), Stamp(r.period, Some(r.releaseDate), None),
           n.series, n.periodLabel(r.period), revision, r.value)
  }

  /** `x` is the release as an observation, numbered `revision`: observed at its period, available at its release. */
  ghost predicate Observes(n: Naming, r: Release, revision: nat, x: Record) {
    && x.value == r.value && x.stamp == Stamp(r.period, Some(r.releaseDate), None)
    && x.series == n.series && x.figure == n.periodLabel(r.period) && x.revision == revision
    && x.id == n.digest(r.period, r.releaseDate, revision, r.value)
  }

  /** `x` is the release as an observation, numbered by how many of its period came out before it. */
  ghost predicate Restates(n: Naming, releases: seq<Release>, r: Release, x: Record) {
    Observes(n, r, |Filter((q: Release) => q.period == r.period && q.releaseDate < r.releaseDate, releases)|, x)
  }

  lemma VintageRestates(n: Naming, releases: seq<Release>, r: Release, x: Record)
    ensures Restates(n, releases, r, x) <==> x == Vintage(n, r, Rank(r, releases))
  {
    var earlier := (q: Release) => q.period == r.period && q.releaseDate < r.releaseDate;
    FilterAgree(earlier, Precedes(r), releases);
  }

  function Numbered(n: Naming, releases: seq<Release>): Release -> Record {
    (r: Release) => Vintage(n, r, Rank(r, releases))
  }

  predicate Alone(r: Release, releases: seq<Release>) { |Filter(Shares(r), releases)| == 1 }

  /** No two releases of one period share a release date: each is alone on its own. */
  ghost predicate DistinctReleases(releases: seq<Release>) {
    forall r | r in releases :: Alone(r, releases)
  }

  /** A period's first release is unflagged, and every later one is marked a revision. */
  predicate RightlyFlagged(r: Release, releases: seq<Release>) { r.isRevision == (Rank(r, releases) > 0) }

  ghost predicate FlagsAgree(releases: seq<Release>) {
    forall r | r in releases :: RightlyFlagged(r, releases)
  }

  /** What a list of releases must be to be lifted. */
  ghost predicate Liftable(meta: Metadata, releases: seq<Release>) {
    && releases != [] && meta.labelsAccepted
    && (forall r | r in releases :: r.indicatorId == meta.indicatorId)
    && DistinctReleases(releases) && FlagsAgree(releases)
  }

  /** What lifting comes to: every release once, in (period, release date) order, numbered by rank. */
  function Lifted(n: Naming, releases: seq<Release>): seq<Record> {
    Map(Numbered(n, releases), Sort(ByPeriodAndDate, releases))
  }

  lemma ReleaseOrdersAreTotal()
    ensures TotalPreorder(ByPeriodAndDate) && TotalPreorder(ByDate) && TotalPreorder(Earliest)
  {
  }

  // --------------------------------------------------------------- one period

  /** Strictly later dates, the first unflagged and every other flagged. */
  ghost predicate PeriodInOrder(ordered: seq<Release>) {
    forall k | 0 <= k < |ordered| ::
      (k > 0 ==> ordered[k - 1].releaseDate != ordered[k].releaseDate) && ordered[k].isRevision == (k > 0)
  }

  /** The first `k`, numbered by position. */
  function ByPosition(n: Naming, ordered: seq<Release>, k: nat): (records: seq<Record>)
    requires k <= |ordered|
    ensures |records| == k
  {
    seq(k, i requires 0 <= i < k => Vintage(n, ordered[i], i))
  }

  lemma ByPositionStep(n: Naming, ordered: seq<Release>, k: nat)
    requires k < |ordered|
    ensures ByPosition(n, ordered, k + 1) == ByPosition(n, ordered, k) + [Vintage(n, ordered[k], k)]
  {
  }

  lemma PeriodStep(ordered: seq<Release>, k: nat)
    requires k < |ordered| && PeriodInOrder(ordered[..k])
    ensures PeriodInOrder(ordered[..k + 1]) <==>
              (k > 0 ==> ordered[k - 1].releaseDate != ordered[k].releaseDate) && ordered[k].isRevision == (k > 0)
    ensures PeriodInOrder(ordered) ==> PeriodInOrder(ordered[..k + 1])
  {
  }

  /**
   Release `k` of a period follows releases in order, and is refused: on the date of the one before,
   else wrongly flagged, else under labels that are not accepted.
   */
  ghost predicate RefusedAt(meta: Metadata, ordered: seq<Release>, k: nat, refusal: LiftRefusal) {
    && k < |ordered| && PeriodInOrder(ordered[..k]) && (k > 0 ==> meta.labelsAccepted)
    && if k > 0 && ordered[k].releaseDate == ordered[k - 1].releaseDate then refusal == SameReleaseDate
       else if ordered[k].isRevision != (k > 0) then refusal == WrongRevisionFlag
       else !meta.labelsAccepted && refusal == LabelRefused
  }

  /** The inner loop: one period's releases, sorted, checked and numbered. */
  method LiftPeriod(meta: Metadata, n: Naming, vintages: seq<Release>)
    returns (refusal: Option<LiftRefusal>, records: seq<Record>)
    requires vintages != []
    ensures var ordered := Sort(ByDate, vintages);
            && (refusal.None? <==> PeriodInOrder(ordered) && meta.labelsAccepted)
            && (refusal.None? ==> records == ByPosition(n, ordered, |ordered|)
                                  && forall k | 0 <= k < |ordered| :: Observes(n, ordered[k], k, records[k]))
            && (refusal.Some? ==> exists k :: RefusedAt(meta, ordered, k, refusal.value))
  {
    var ordered := Sort(ByDate, vintages);
    SortPermutes(ByDate, vintages);
    records := [];
    for k := 0 to |ordered|
      invariant PeriodInOrder(ordered[..k])
      invariant k > 0 ==> meta.labelsAccepted
      invariant records == ByPosition(n, ordered, k)
    {
      PeriodStep(ordered, k);
      ByPositionStep(n, ordered, k);
      if k > 0 && ordered[k].releaseDate == ordered[k - 1].releaseDate {
        assert RefusedAt(meta, ordered, k, SameReleaseDate);
        return Some(SameReleaseDate), records;
      }
      if ordered[k].isRevision != (k > 0) {
        assert RefusedAt(meta, ordered, k, WrongRevisionFlag);
        return Some(WrongRevisionFlag), records;
      }
      if !meta.labelsAccepted {
        assert RefusedAt(meta, ordered, k, LabelRefused);
        return Some(LabelRefused), records;
      }
      records := records + [Vintage(n, ordered[k], k)];
    }
    TakeAll(ordered);
    return None, records;
  }

  ghost predicate Strict(ordered: seq<Release>) {
    forall k | 0 < k < |ordered| :: ordered[k - 1].releaseDate != ordered[k].releaseDate
  }

  /** One period's releases in date order. */
  ghost predicate Dated(releases: seq<Release>, p: real, ordered: seq<Release>) {
    && multiset(ordered) == multiset(Filter(InPeriod(p), releases))
    && (forall r :: r in ordered <==> r in releases && r.period == p)
    && (forall i, j | 0 <= i < j < |ordered| :: ordered[i].releaseDate <= ordered[j].releaseDate)
  }

  lemma SortDates(releases: seq<Release>, p: real)
    ensures Dated(releases, p, Sort(ByDate, Filter(InPeriod(p), releases)))
  {
    var own := Filter(InPeriod(p), releases);
    SortPermutes(ByDate, own);
    ReleaseOrdersAreTotal();
    SortSorts(ByDate, own);
    forall r ensures r in Sort(ByDate, own) <==> r in releases && r.period == p {
      FilterMember(InPeriod(p), releases, r);
    }
  }

  /** A count that reads one period only can be taken over its sorted releases. */
  lemma {:induction false} CountWithinPeriod(releases: seq<Release>, p: real, ordered: seq<Release>,
                                             keep: Release -> bool)
    requires Dated(releases, p, ordered) && forall q :: keep(q) ==> q.period == p
    ensures |Filter(keep, releases)| == |Filter(keep, ordered)|
  {
    FilterTwice(InPeriod(p), keep, keep, releases);
    FilterPermutes(keep, Filter(InPeriod(p), releases), ordered);
  }

  lemma {:induction false} StrictlyBefore(ordered: seq<Release>, k: nat)
    requires k < |ordered|
    requires forall i, j | 0 <= i < j < |ordered| :: ordered[i].releaseDate <= ordered[j].releaseDate
    requires Strict(ordered[..k + 1])
    ensures forall i | 0 <= i < k :: ordered[i].releaseDate < ordered[k].releaseDate
  {
    if k > 0 {
      assert ordered[..k + 1][..k] == ordered[..k];
      assert forall i | 0 <= i < k :: ordered[..k][i] == ordered[..k + 1][i];
      StrictlyBefore(ordered, k - 1);
      assert ordered[..k + 1][k - 1] == ordered[k - 1] && ordered[..k + 1][k] == ordered[k];
      assert ordered[k - 1].releaseDate <= ordered[k].releaseDate;
    }
  }

  /** Position in the period's date order is rank among all releases. */
  lemma PositionIsRank(releases: seq<Release>, p: real, ordered: seq<Release>, k: nat)
    requires Dated(releases, p, ordered) && k < |ordered| && Strict(ordered[..k + 1])
    ensures Rank(ordered[k], releases) == k
  {
    var r := ordered[k];
    assert r in ordered;
    CountWithinPeriod(releases, p, ordered, Precedes(r));
    StrictlyBefore(ordered, k);
    forall i | 0 <= i < |ordered| ensures Precedes(r)(ordered[i]) <==> i < k {
      assert ordered[i] in ordered;
    }
    FilterPrefix(Precedes(r), ordered, k);
  }

  /** The sorted dates rise strictly exactly when each release of the period is alone on its date. */
  lemma StrictExactly(releases: seq<Release>, p: real, ordered: seq<Release>)
    requires Dated(releases, p, ordered)
    ensures Strict(ordered) <==> forall r | r in releases && r.period == p :: Alone(r, releases)
  {
    if Strict(ordered) {
      forall r | r in releases && r.period == p ensures Alone(r, releases) {
        assert r in ordered;
        var k :| 0 <= k < |ordered| && ordered[k] == r;
        AloneWhenStrict(releases, p, ordered, k);
      }
    }
    if forall r | r in releases && r.period == p :: Alone(r, releases) {
      forall k | 0 < k < |ordered| ensures ordered[k - 1].releaseDate != ordered[k].releaseDate {
        assert ordered[k] in ordered && ordered[k - 1] in ordered;
        if ordered[k - 1].releaseDate == ordered[k].releaseDate {
          TogetherWhenEqual(releases, p, ordered, k);
        }
      }
    }
  }

  lemma AloneWhenStrict(releases: seq<Release>, p: real, ordered: seq<Release>, k: nat)
    requires Dated(releases, p, ordered) && k < |ordered| && Strict(ordered)
    ensures Alone(ordered[k], releases)
  {
    var r := ordered[k];
    assert r in ordered;
    CountWithinPeriod(releases, p, ordered, Shares(r));
    forall i | 0 <= i < |ordered| ensures Shares(r)(ordered[i]) <==> i == k {
      assert ordered[i] in ordered;
      StrictlyBefore(ordered, if i < k then k else i);
    }
    FilterOnly(Shares(r), ordered, k);
  }

  lemma TogetherWhenEqual(releases: seq<Release>, p: real, ordered: seq<Release>, k: nat)
    requires Dated(releases, p, ordered) && 0 < k < |ordered|
    requires ordered[k - 1].releaseDate == ordered[k].releaseDate
    ensures !Alone(ordered[k], releases)
  {
    var r, q := ordered[k], ordered[k - 1];
    assert r in ordered && q in ordered;
    CountWithinPeriod(releases, p, ordered, Shares(r));
    FilterPair(Shares(r), ordered, k);
  }

  /** A period passes its loop exactly when its own releases are distinct and rightly flagged. */
  lemma PeriodInOrderExactly(releases: seq<Release>, p: real, ordered: seq<Release>)
    requires Dated(releases, p, ordered)
    ensures PeriodInOrder(ordered)
       <==> forall r | r in releases && r.period == p ::
              Alone(r, releases) && RightlyFlagged(r, releases)
  {
    StrictExactly(releases, p, ordered);
    if Strict(ordered) {
      forall k | 0 <= k < |ordered|
        ensures Rank(ordered[k], releases) == k && ordered[k] in releases && ordered[k].period == p
      {
        assert ordered[k] in ordered;
        PositionIsRank(releases, p, ordered, k);
      }
      forall r | r in releases && r.period == p ensures exists k :: 0 <= k < |ordered| && ordered[k] == r {
        assert r in ordered;
      }
    }
  }

  // -------------------------------------------------------------- every period

  /** The dictionary `by_period`: each period's releases, in the order they arrived. */
  ghost predicate ByPeriod(releases: seq<Release>, periods: seq<real>, byPeriod: map<real, seq<Release>>) {
    && Distinct(periods) && (forall p :: p in periods <==> p in byPeriod)
    && (forall p | p in byPeriod :: byPeriod[p] == Filter(InPeriod(p), releases) && byPeriod[p] != [])
    && (forall r | r in releases :: r.period in byPeriod)
  }

  method GroupReleases(meta: Metadata, releases: seq<Release>)
    returns (refusal: Option<LiftRefusal>, periods: seq<real>, byPeriod: map<real, seq<Release>>)
    ensures refusal.None? <==> forall r | r in releases :: r.indicatorId == meta.indicatorId
    ensures refusal.None? ==> ByPeriod(releases, periods, byPeriod)
    ensures refusal.Some? ==> refusal.value == AnotherIndicator
  {
    periods, byPeriod := [], map[];
    for k := 0 to |releases|
      invariant GroupedSoFar(meta, releases[..k], periods, byPeriod)
    {
      var release := releases[k];
      if release.indicatorId != meta.indicatorId {
        return Some(AnotherIndicator), periods, byPeriod;
      }
      TakeOneMore(releases, k);
      periods, byPeriod := GroupRelease(releases[..k], release, periods, byPeriod);
    }
    TakeAll(releases);
    return None, periods, byPeriod;
  }

  ghost predicate GroupedSoFar(meta: Metadata, before: seq<Release>, periods: seq<real>,
                               byPeriod: map<real, seq<Release>>) {
    ByPeriod(before, periods, byPeriod) && forall r | r in before :: r.indicatorId == meta.indicatorId
  }

  /** `by_period.setdefault(release.period, []).append(release)`. */
  method GroupRelease(ghost before: seq<Release>, release: Release, periods: seq<real>,
                      byPeriod: map<real, seq<Release>>)
    returns (periods': seq<real>, byPeriod': map<real, seq<Release>>)
    requires ByPeriod(before, periods, byPeriod)
    ensures ByPeriod(before + [release], periods', byPeriod')
  {
    var p := release.period;
    var own := if p in byPeriod then byPeriod[p] else [];
    periods' := if p in byPeriod then periods else periods + [p];
    byPeriod' := byPeriod[p := own + [release]];
    GroupOne(before, release, periods, byPeriod, periods', byPeriod');
  }

  lemma GroupOne(before: seq<Release>, r: Release, periods: seq<real>, byPeriod: map<real, seq<Release>>,
                 periods': seq<real>, byPeriod': map<real, seq<Release>>)
    requires ByPeriod(before, periods, byPeriod)
    requires periods' == if r.period in byPeriod then periods else periods + [r.period]
    requires byPeriod' == byPeriod[r.period := (if r.period in byPeriod then byPeriod[r.period] else []) + [r]]
    ensures ByPeriod(before + [r], periods', byPeriod')
  {
    var p := r.period;
    if p !in byPeriod {
      FilterNone(InPeriod(p), before);
    }
    forall q | q in byPeriod' ensures byPeriod'[q] == Filter(InPeriod(q), before + [r]) {
      FilterConcat(InPeriod(q), before, [r]);
      assert Filter(InPeriod(q), [r]) == if q == p then [r] else [];
    }
  }

  /** The releases of some first periods, in (period, date) order. */
  ghost predicate Done(releases: seq<Release>, periods: seq<real>, done: seq<Release>) {
    && SortedBy(ByPeriodAndDate, done)
    && multiset(done) == multiset(Filter(InPeriods(periods), releases))
  }

  lemma DoneStep(releases: seq<Release>, periods: seq<real>, p: real, done: seq<Release>, ordered: seq<Release>)
    requires Done(releases, periods, done) && Dated(releases, p, ordered)
    requires forall q | q in periods :: q < p
    ensures Done(releases, periods + [p], done + ordered)
  {
    SameMembers(done, Filter(InPeriods(periods), releases));
    forall r | r in done ensures r.period < p {
      FilterMember(InPeriods(periods), releases, r);
    }
    assert forall i | 0 <= i < |done| :: done[i] in done;
    assert forall i | 0 <= i < |ordered| :: ordered[i] in ordered;
    PeriodsCount(releases, periods, p);
  }

  lemma PeriodsCount(releases: seq<Release>, periods: seq<real>, p: real)
    requires p !in periods
    ensures multiset(Filter(InPeriods(periods), releases)) + multiset(Filter(InPeriod(p), releases))
         == multiset(Filter(InPeriods(periods + [p]), releases))
  {
    var both := multiset(Filter(InPeriods(periods), releases)) + multiset(Filter(InPeriod(p), releases));
    var all := multiset(Filter(InPeriods(periods + [p]), releases));
    forall x ensures both[x] == all[x] {
      FilterCount(InPeriods(periods), releases, x);
      FilterCount(InPeriod(p), releases, x);
      FilterCount(InPeriods(periods + [p]), releases, x);
    }
    assert both == all;
  }

  lemma PeriodsRise(periods: seq<real>, sorted: seq<real>)
    requires Distinct(periods) && sorted == Sort(Earliest, periods)
    ensures forall p :: p in sorted <==> p in periods
    ensures forall i, j | 0 <= i < j < |sorted| :: sorted[i] < sorted[j]
  {
    ReleaseOrdersAreTotal();
    SortPermutes(Earliest, periods);
    SortSorts(Earliest, periods);
    forall i, j | 0 <= i < j < |sorted| ensures sorted[i] < sorted[j] {
      assert Earliest(sorted[i], sorted[j]);
      TwoPositions(periods, sorted, i, j);
    }
  }

  /** One period's numbering by position is its numbering by rank. */
  lemma PositionsAreRanks(n: Naming, releases: seq<Release>, p: real, ordered: seq<Release>)
    requires Dated(releases, p, ordered) && PeriodInOrder(ordered)
    ensures ByPosition(n, ordered, |ordered|) == Map(Numbered(n, releases), ordered)
  {
    var vintages := ByPosition(n, ordered, |ordered|);
    forall k | 0 <= k < |ordered| ensures vintages[k] == Map(Numbered(n, releases), ordered)[k] {
      NumberedByPosition(n, releases, p, ordered, k);
    }
    SameElements(vintages, Map(Numbered(n, releases), ordered));
  }

  lemma NumberedByPosition(n: Naming, releases: seq<Release>, p: real, ordered: seq<Release>, k: nat)
    requires Dated(releases, p, ordered) && PeriodInOrder(ordered) && k < |ordered|
    ensures Vintage(n, ordered[k], k) == Numbered(n, releases)(ordered[k])
  {
    PositionIsRank(releases, p, ordered, k);
  }

  ghost predicate PeriodPasses(releases: seq<Release>, p: real) {
    forall r | r in releases && r.period == p :: Alone(r, releases) && RightlyFlagged(r, releases)
  }

  /** One period of the outer loop, against the whole list. */
  method LiftOnePeriod(meta: Metadata, n: Naming, ghost releases: seq<Release>, ghost p: real, own: seq<Release>)
    returns (refusal: Option<LiftRefusal>, records: seq<Record>, ghost ordered: seq<Release>)
    requires own == Filter(InPeriod(p), releases) && own != []
    ensures Dated(releases, p, ordered)
    ensures refusal.None? <==> PeriodPasses(releases, p) && meta.labelsAccepted
    ensures refusal.None? ==> records == Map(Numbered(n, releases), ordered)
    ensures refusal.Some? ==> exists k :: RefusedAt(meta, Sort(ByDate, own), k, refusal.value)
  {
    ordered := Sort(ByDate, own);
    SortDates(releases, p);
    PeriodInOrderExactly(releases, p, ordered);
    refusal, records := LiftPeriod(meta, n, own);
    if refusal.None? {
      PositionsAreRanks(n, releases, p, ordered);
    }
  }

  /** The earlier periods pass, and some release of this one is refused. */
  ghost predicate PeriodRefuses(meta: Metadata, releases: seq<Release>, p: real, refusal: LiftRefusal) {
    && (forall r | r in releases && r.period < p ::
          meta.labelsAccepted && Alone(r, releases) && RightlyFlagged(r, releases))
    && exists k :: RefusedAt(meta, Sort(ByDate, Filter(InPeriod(p), releases)), k, refusal)
  }

  /** What a list is refused for: the release of another indicator, no release at all, or its first faulty period. */
  ghost predicate RightlyRefused(meta: Metadata, releases: seq<Release>, refusal: LiftRefusal) {
    if exists r :: r in releases && r.indicatorId != meta.indicatorId then refusal == AnotherIndicator
    else if releases == [] then refusal == NoReleases
    else exists p :: PeriodRefuses(meta, releases, p, refusal)
  }

  /** The outer loop, over the periods in order. */
  method LiftPeriods(meta: Metadata, n: Naming, ghost releases: seq<Release>,
                     sorted: seq<real>, byPeriod: map<real, seq<Release>>)
    returns (refusal: Option<LiftRefusal>, records: seq<Record>, ghost done: seq<Release>)
    requires forall i | 0 <= i < |sorted| :: sorted[i] in byPeriod
    requires forall p | p in byPeriod :: byPeriod[p] == Filter(InPeriod(p), releases) && byPeriod[p] != []
    requires forall i, j | 0 <= i < j < |sorted| :: sorted[i] < sorted[j]
    requires forall r | r in releases :: r.period in sorted
    ensures refusal.None? <==>
              && (forall u | 0 <= u < |sorted| :: PeriodPasses(releases, sorted[u]))
              && (sorted != [] ==> meta.labelsAccepted)
    ensures refusal.None? ==> Done(releases, sorted, done) && records == Map(Numbered(n, releases), done)
    ensures refusal.Some? ==> exists p :: PeriodRefuses(meta, releases, p, refusal.value)
  {
    records, done := [], [];
    NothingDone(releases, sorted);
    for v := 0 to |sorted|
      invariant Done(releases, sorted[..v], done)
      invariant records == Map(Numbered(n, releases), done)
      invariant v > 0 ==> meta.labelsAccepted
      invariant forall u | 0 <= u < v :: PeriodPasses(releases, sorted[u])
    {
      var numbered;
      ghost var ordered;
      refusal, numbered, ordered := LiftOnePeriod(meta, n, releases, sorted[v], byPeriod[sorted[v]]);
      if refusal.Some? {
        EarlierPass(meta, releases, sorted, v, refusal.value);
        return;
      }
      TakeOneMore(sorted, v);
      DoneStep(releases, sorted[..v], sorted[v], done, ordered);
      MapConcat(Numbered(n, releases), done, ordered);
      records := records + numbered;
      done := done + ordered;
    }
    TakeAll(sorted);
    refusal := None;
  }

  lemma EarlierPass(meta: Metadata, releases: seq<Release>, sorted: seq<real>, v: nat, refusal: LiftRefusal)
    requires v < |sorted| && (v > 0 ==> meta.labelsAccepted)
    requires forall i, j | 0 <= i < j < |sorted| :: sorted[i] < sorted[j]
    requires forall r | r in releases :: r.period in sorted
    requires forall u | 0 <= u < v :: PeriodPasses(releases, sorted[u])
    requires exists k :: RefusedAt(meta, Sort(ByDate, Filter(InPeriod(sorted[v]), releases)), k, refusal)
    ensures PeriodRefuses(meta, releases, sorted[v], refusal)
  {
    forall r | r in releases && r.period < sorted[v]
      ensures meta.labelsAccepted && Alone(r, releases) && RightlyFlagged(r, releases)
    {
      var u :| 0 <= u < |sorted| && sorted[u] == r.period;
      assert PeriodPasses(releases, sorted[u]);
    }
  }

  lemma NothingDone(releases: seq<Release>, sorted: seq<real>)
    ensures Done(releases, sorted[..0], [])
  {
    assert sorted[..0] == [];
    FilterNone(InPeriods([]), releases);
  }

  /** Lifting succeeds on exactly the liftable lists, and comes to the ranks in (period, date) order. */
  method LiftReleases(meta: Metadata, n: Naming, releases: seq<Release>) returns (r: Result<seq<Record>, LiftRefusal>)
    ensures r.Ok? <==> Liftable(meta, releases)
    ensures r.Ok? ==> r.value == Lifted(n, releases)
    ensures r.Ok? ==> EachRestated(n, releases, r.value)
    ensures r.Err? ==> RightlyRefused(meta, releases, r.error)
  {
    var refusal, periods, byPeriod := GroupReleases(meta, releases);
    if refusal.Some? {
      return Err(refusal.value);
    }
    var sorted := Sort(Earliest, periods);
    PeriodsRise(periods, sorted);
    var records;
    ghost var done;
    assert forall i | 0 <= i < |sorted| :: sorted[i] in sorted;
    refusal, records, done := LiftPeriods(meta, n, releases, sorted, byPeriod);
    PeriodsDecide(releases, sorted);
    if refusal.Some? {
      assert sorted != [];
      assert sorted[0] in byPeriod && byPeriod[sorted[0]] != [];
      return Err(refusal.value);
    }
    AllDone(releases, sorted, done);
    if records == [] {
      return Err(NoReleases);
    }
    assert releases != [];
    assert releases[0].period in sorted;
    LiftedIsRestated(n, releases);
    return Ok(records);
  }

  /** No release is lost and none invented. */
  ghost predicate EachRestated(n: Naming, releases: seq<Release>, records: seq<Record>) {
    && |records| == |releases|
    && forall x :: x in records <==> exists r :: r in releases && Restates(n, releases, r, x)
  }

  lemma LiftedIsRestated(n: Naming, releases: seq<Release>)
    ensures EachRestated(n, releases, Lifted(n, releases))
  {
    var records := Lifted(n, releases);
    SortPermutes(ByPeriodAndDate, releases);
    forall x ensures x in records <==> exists r :: r in releases && Restates(n, releases, r, x) {
      LiftedMembers(n, releases, x);
    }
  }

  /** No release is lost and none invented: the records are the releases, each under its rank. */
  lemma LiftedMembers(n: Naming, releases: seq<Release>, x: Record)
    ensures |Lifted(n, releases)| == |releases|
    ensures x in Lifted(n, releases) <==> exists r :: r in releases && Restates(n, releases, r, x)
  {
    LiftedFrom(n, releases, x);
    if r :| r in releases && x == Vintage(n, r, Rank(r, releases)) {
      VintageRestates(n, releases, r, x);
    }
    if r :| r in releases && Restates(n, releases, r, x) {
      VintageRestates(n, releases, r, x);
    }
  }

  lemma LiftedFrom(n: Naming, releases: seq<Release>, x: Record)
    ensures |Lifted(n, releases)| == |releases|
    ensures x in Lifted(n, releases) <==> exists r :: r in releases && x == Vintage(n, r, Rank(r, releases))
  {
    var sorted := Sort(ByPeriodAndDate, releases);
    SortPermutes(ByPeriodAndDate, releases);
    MapMember(Numbered(n, releases), sorted, x);
    if r :| r in releases && x == Vintage(n, r, Rank(r, releases)) {
      assert r in sorted && x == Numbered(n, releases)(r);
    }
  }

  /** The periods pass one by one exactly when the whole list is distinct and rightly flagged. */
  lemma PeriodsDecide(releases: seq<Release>, sorted: seq<real>)
    requires forall r | r in releases :: r.period in sorted
    ensures (forall u | 0 <= u < |sorted| :: PeriodPasses(releases, sorted[u]))
       <==> DistinctReleases(releases) && FlagsAgree(releases)
  {
    if forall u | 0 <= u < |sorted| :: PeriodPasses(releases, sorted[u]) {
      forall r | r in releases ensures Alone(r, releases) && RightlyFlagged(r, releases) {
        var u :| 0 <= u < |sorted| && sorted[u] == r.period;
        assert PeriodPasses(releases, sorted[u]);
      }
    }
  }

  lemma {:induction false} AllDone(releases: seq<Release>, sorted: seq<real>, done: seq<Release>)
    requires forall r | r in releases :: r.period in sorted
    requires DistinctReleases(releases) && Done(releases, sorted, done)
    ensures done == Sort(ByPeriodAndDate, releases)
    ensures |done| == |releases|
  {
    FilterAll(InPeriods(sorted), releases);
    SameMembers(done, releases);
    OnlyOrder(releases, done);
  }

  lemma AloneIsOne(releases: seq<Release>, x: Release, y: Release)
    requires Alone(x, releases) && x in releases && y in releases
    requires x.period == y.period && x.releaseDate == y.releaseDate
    ensures x == y
  {
    FilterMember(Shares(x), releases, x);
    FilterMember(Shares(x), releases, y);
    var alone := Filter(Shares(x), releases);
    assert x == alone[0] && y == alone[0];
  }

  lemma OnlyOrder(releases: seq<Release>, done: seq<Release>)
    requires DistinctReleases(releases) && SortedBy(ByPeriodAndDate, done) && multiset(done) == multiset(releases)
    ensures done == Sort(ByPeriodAndDate, releases)
  {
    DistinctReleasesNoTies(releases);
    SameMembers(done, releases);
    ReleaseOrdersAreTotal();
    SortPermutes(ByPeriodAndDate, releases);
    SortSorts(ByPeriodAndDate, releases);
    SortedUnique(ByPeriodAndDate, done, Sort(ByPeriodAndDate, releases));
  }

  lemma DistinctReleasesNoTies(releases: seq<Release>)
    requires DistinctReleases(releases)
    ensures NoTies(ByPeriodAndDate, releases)
  {
    forall x, y | x in releases && y in releases && ByPeriodAndDate(x, y) && ByPeriodAndDate(y, x) ensures x == y {
      AloneIsOne(releases, x, y);
    }
  }
}
