/**
 What lifting an indicator's releases preserves: the arrival order never matters, nothing
 released later changes what was known earlier, and the lifted set reads as the releases did.
 */
module Vintages {
  import opened Outcomes
  import opened Ordering
  import opened PointInTime
  import opened Readings
  import opened ObservationSets
  import opened Releases

  lemma RankIgnoresArrival(r: Release, a: seq<Release>, b: seq<Release>)
    requires multiset(a) == multiset(b)
    ensures Rank(r, a) == Rank(r, b) && (Alone(r, a) <==> Alone(r, b))
  {
    FilterPermutes(Precedes(r), a, b);
    FilterPermutes(Shares(r), a, b);
  }

  /** The same releases in any order are lifted or refused alike, to the same records. */
  lemma LiftIgnoresArrival(meta: Metadata, n: Naming, a: seq<Release>, b: seq<Release>)
    requires multiset(a) == multiset(b)
    ensures Liftable(meta, a) <==> Liftable(meta, b)
    ensures Liftable(meta, a) ==> Lifted(n, a) == Lifted(n, b)
  {
    LiftableIgnoresArrival(meta, a, b);
    LiftableIgnoresArrival(meta, b, a);
    if Liftable(meta, a) {
      LiftedIgnoresArrival(n, a, b);
    }
  }

  lemma LiftableIgnoresArrival(meta: Metadata, a: seq<Release>, b: seq<Release>)
    requires multiset(a) == multiset(b)
    ensures Liftable(meta, a) ==> Liftable(meta, b)
  {
    SameMembers(a, b);
    if Liftable(meta, a) {
      forall r | r in b ensures Alone(r, b) && RightlyFlagged(r, b) {
        assert r in a;
        RankIgnoresArrival(r, a, b);
      }
    }
  }

  lemma LiftedIgnoresArrival(n: Naming, a: seq<Release>, b: seq<Release>)
    requires multiset(a) == multiset(b) && DistinctReleases(a)
    ensures Lifted(n, a) == Lifted(n, b)
  {
    ReleaseOrdersAreTotal();
    DistinctReleasesNoTies(a);
    SortIgnoresArrival(ByPeriodAndDate, a, b);
    var sorted := Sort(ByPeriodAndDate, a);
    forall i | 0 <= i < |sorted| ensures Numbered(n, a)(sorted[i]) == Numbered(n, b)(sorted[i]) {
      RankIgnoresArrival(sorted[i], a, b);
    }
    SameElements(Map(Numbered(n, a), sorted), Map(Numbered(n, b), sorted));
  }

  // ------------------------------------------------------------- the numbering

  lemma RankOrdersDates(releases: seq<Release>, q: Release, r: Release)
    requires q in releases && r in releases && q.period == r.period && q.releaseDate < r.releaseDate
    ensures Rank(q, releases) < Rank(r, releases)
  {
    FilterTwice(Precedes(r), Precedes(q), Precedes(q), releases);
    var earlier := Filter(Precedes(r), releases);
    FilterMember(Precedes(r), releases, q);
    FilterShrinks(Precedes(q), earlier, q);
  }

  lemma {:induction false} FilterShrinks<T>(keep: T -> bool, s: seq<T>, out: T)
    requires out in s && !keep(out)
    ensures |Filter(keep, s)| < |s|
  {
    if s[0] == out {
      FilterNoLonger(keep, s[1..]);
    } else {
      FilterShrinks(keep, s[1..], out);
    }
  }

  lemma {:induction false} FilterNoLonger<T>(keep: T -> bool, s: seq<T>)
    ensures |Filter(keep, s)| <= |s|
  {
    if s != [] {
      FilterNoLonger(keep, s[1..]);
    }
  }

  /** Within a period, ranks follow release dates: equal only for one and the same release. */
  lemma RanksFollowDates(releases: seq<Release>, q: Release, r: Release)
    requires DistinctReleases(releases) && q in releases && r in releases && q.period == r.period
    ensures q.releaseDate < r.releaseDate <==> Rank(q, releases) < Rank(r, releases)
    ensures Rank(q, releases) == Rank(r, releases) ==> q == r
  {
    if q.releaseDate < r.releaseDate {
      RankOrdersDates(releases, q, r);
    } else if r.releaseDate < q.releaseDate {
      RankOrdersDates(releases, r, q);
    } else {
      AloneIsOne(releases, q, r);
    }
  }

  /** The sorted releases: a permutation, in order, no two sharing period and date. */
  ghost predicate Arranged(releases: seq<Release>, sorted: seq<Release>) {
    && multiset(sorted) == multiset(releases) && SortedBy(ByPeriodAndDate, sorted)
    && forall i, j | 0 <= i < j < |sorted| ::
         sorted[i].period != sorted[j].period || sorted[i].releaseDate != sorted[j].releaseDate
  }

  lemma SortArranges(releases: seq<Release>)
    requires DistinctReleases(releases)
    ensures Arranged(releases, Sort(ByPeriodAndDate, releases))
  {
    var sorted := Sort(ByPeriodAndDate, releases);
    ReleaseOrdersAreTotal();
    SortPermutes(ByPeriodAndDate, releases);
    SortSorts(ByPeriodAndDate, releases);
    forall i, j | 0 <= i < j < |sorted|
      ensures sorted[i].period != sorted[j].period || sorted[i].releaseDate != sorted[j].releaseDate
    {
      SortedApart(releases, sorted, i, j);
    }
  }

  lemma SortedApart(releases: seq<Release>, sorted: seq<Release>, i: nat, j: nat)
    requires DistinctReleases(releases) && multiset(sorted) == multiset(releases) && i < j < |sorted|
    ensures sorted[i].period != sorted[j].period || sorted[i].releaseDate != sorted[j].releaseDate
  {
    var r := sorted[i];
    SameMembers(sorted, releases);
    assert r in releases && sorted[j] in releases;
    CountAtMostLength(Filter(Shares(r), releases), r);
    FilterCount(Shares(r), releases, r);
    if r.period == sorted[j].period && r.releaseDate == sorted[j].releaseDate {
      AloneIsOne(releases, r, sorted[j]);
      CountsTwice(sorted, i, j);
    }
  }

  /** The first of its period to appear is nobody's revision. */
  lemma FirstOfPeriod(releases: seq<Release>, sorted: seq<Release>, i: nat)
    requires Arranged(releases, sorted) && i < |sorted| && (i == 0 || sorted[i - 1].period != sorted[i].period)
    ensures Rank(sorted[i], releases) == 0
  {
    var r := sorted[i];
    FilterPermutes(Precedes(r), releases, sorted);
    forall j | 0 <= j < |sorted| ensures !Precedes(r)(sorted[j]) {
      if j < i {
        assert ByPeriodAndDate(sorted[i - 1], r);
        assert j < i - 1 ==> ByPeriodAndDate(sorted[j], sorted[i - 1]);
      } else if j > i {
        assert ByPeriodAndDate(r, sorted[j]);
      }
    }
    FilterNone(Precedes(r), sorted);
  }

  /** Between neighbours of one period, exactly the earlier one is new among the later one's predecessors. */
  lemma NextOfPeriod(releases: seq<Release>, sorted: seq<Release>, i: nat)
    requires Arranged(releases, sorted) && 0 < i < |sorted| && sorted[i - 1].period == sorted[i].period
    ensures Rank(sorted[i], releases) == Rank(sorted[i - 1], releases) + 1
    ensures sorted[i - 1].releaseDate < sorted[i].releaseDate
  {
    var q, r := sorted[i - 1], sorted[i];
    assert ByPeriodAndDate(q, r);
    FilterPermutes(Precedes(r), releases, sorted);
    FilterPermutes(Precedes(q), releases, sorted);
    forall j | 0 <= j < |sorted| && j != i - 1 ensures Precedes(r)(sorted[j]) == Precedes(q)(sorted[j]) {
      if j < i - 1 {
        assert ByPeriodAndDate(sorted[j], q);
      } else if j > i {
        assert ByPeriodAndDate(r, sorted[j]);
      }
    }
    FilterOneMore(Precedes(r), Precedes(q), sorted, i - 1);
  }

  /**
   Read in order, each period counts its vintages 0, 1, 2, ... at strictly later
   instants, and a new period starts again at 0.
   */
  lemma VintagesCountUp(n: Naming, releases: seq<Release>, i: nat)
    requires DistinctReleases(releases) && i < |Lifted(n, releases)|
    ensures var records := Lifted(n, releases);
            if i > 0 && records[i].stamp.observedAt == records[i - 1].stamp.observedAt
            then records[i].revision == records[i - 1].revision + 1
                 && records[i - 1].stamp.availableAt.value < records[i].stamp.availableAt.value
            else records[i].revision == 0
                 && (i > 0 ==> records[i - 1].stamp.observedAt < records[i].stamp.observedAt)
  {
    var sorted := Sort(ByPeriodAndDate, releases);
    SortArranges(releases);
    if i > 0 && sorted[i - 1].period == sorted[i].period {
      NextOfPeriod(releases, sorted, i);
    } else {
      FirstOfPeriod(releases, sorted, i);
      assert i > 0 ==> ByPeriodAndDate(sorted[i - 1], sorted[i]);
    }
  }

  // -------------------------------------------------------------- no look-ahead

  function AvailableBy(t: real): Record -> bool {
    (x: Record) => x.stamp.availableAt.Some? && x.stamp.availableAt.value <= t
  }

  lemma RankReadsThePast(r: Release, releases: seq<Release>, t: real)
    requires r.releaseDate <= t
    ensures Rank(r, releases) == Rank(r, Filter(ReleasedBy(t), releases))
  {
    FilterTwice(ReleasedBy(t), Precedes(r), Precedes(r), releases);
  }

  /**
   Two lists that agree on what was released by `t` lift to the same records known by `t`,
   revision numbers included: a later release never renumbers or removes an earlier one.
   */
  lemma LiftCannotSeeAhead(n: Naming, a: seq<Release>, b: seq<Release>, t: real)
    requires DistinctReleases(a)
    requires multiset(Filter(ReleasedBy(t), a)) == multiset(Filter(ReleasedBy(t), b))
    ensures Filter(AvailableBy(t), Lifted(n, a)) == Filter(AvailableBy(t), Lifted(n, b))
  {
    var pastA, pastB := Filter(ReleasedBy(t), a), Filter(ReleasedBy(t), b);
    KnownPart(n, a, t);
    KnownPart(n, b, t);
    SameMembers(pastA, pastB);
    forall r ensures r in pastA ==> r in a {
      FilterMember(ReleasedBy(t), a, r);
    }
    NoTiesWithin(a, pastA);
    ReleaseOrdersAreTotal();
    SortIgnoresArrival(ByPeriodAndDate, pastA, pastB);
    var sorted := Sort(ByPeriodAndDate, pastA);
    SortPermutes(ByPeriodAndDate, pastA);
    forall i | 0 <= i < |sorted| ensures Numbered(n, a)(sorted[i]) == Numbered(n, b)(sorted[i]) {
      assert sorted[i] in sorted;
      FilterMember(ReleasedBy(t), a, sorted[i]);
      RankReadsThePast(sorted[i], a, t);
      RankReadsThePast(sorted[i], b, t);
      RankIgnoresArrival(sorted[i], pastA, pastB);
    }
    assert Map(Numbered(n, a), sorted) == Map(Numbered(n, b), sorted);
  }

  lemma NoTiesWithin(releases: seq<Release>, part: seq<Release>)
    requires DistinctReleases(releases) && forall r | r in part :: r in releases
    ensures NoTies(ByPeriodAndDate, part)
  {
    DistinctReleasesNoTies(releases);
  }

  lemma KnownPart(n: Naming, releases: seq<Release>, t: real)
    ensures Filter(AvailableBy(t), Lifted(n, releases))
         == Map(Numbered(n, releases), Sort(ByPeriodAndDate, Filter(ReleasedBy(t), releases)))
  {
    var sorted := Sort(ByPeriodAndDate, releases);
    FilterMap(Numbered(n, releases), AvailableBy(t), ReleasedBy(t), sorted);
    ReleaseOrdersAreTotal();
    FilterSort(ByPeriodAndDate, ReleasedBy(t), releases);
  }

  // ------------------------------------------------------------- the lifted set

  lemma LiftedApart(n: Naming, releases: seq<Release>, i: nat, j: nat)
    requires Faithful(n, releases) && DistinctReleases(releases) && i < j < |Lifted(n, releases)|
    ensures var records := Lifted(n, releases);
            records[i].id != records[j].id
            && (FigureOf(records[i]) != FigureOf(records[j]) || records[i].revision != records[j].revision)
  {
    var sorted := Sort(ByPeriodAndDate, releases);
    SortArranges(releases);
    SameMembers(sorted, releases);
    var q, r := sorted[i], sorted[j];
    assert q in sorted && r in sorted;
    assert ToldApart(n, q, r);
    if q.period == r.period {
      RanksFollowDates(releases, q, r);
    }
  }

  lemma LiftedPublishedInOrder(n: Naming, releases: seq<Release>, x: Record, y: Record)
    requires Faithful(n, releases) && DistinctReleases(releases)
    requires Follows(Lifted(n, releases), x, y)
    ensures PublishedInOrder(x, y)
  {
    LiftedFrom(n, releases, x);
    LiftedFrom(n, releases, y);
    var q :| q in releases && x == Vintage(n, q, Rank(q, releases));
    var r :| r in releases && y == Vintage(n, r, Rank(r, releases));
    assert ToldApart(n, q, r);
    RanksFollowDates(releases, q, r);
  }

  /** A lifted list is always a set that will build: distinct identities, distinct revisions, published in order. */
  lemma LiftedIsAdmissible(meta: Metadata, n: Naming, releases: seq<Release>)
    requires Faithful(n, releases) && Liftable(meta, releases)
    ensures Admissible(Lifted(n, releases))
  {
    var records := Lifted(n, releases);
    SortPermutes(ByPeriodAndDate, releases);
    forall i, j | 0 <= i < j < |records|
      ensures records[i].id != records[j].id
      ensures FigureOf(records[i]) != FigureOf(records[j]) || records[i].revision != records[j].revision
    {
      LiftedApart(n, releases, i, j);
    }
    forall x, y | Follows(records, x, y) ensures PublishedInOrder(x, y) {
      LiftedPublishedInOrder(n, releases, x, y);
    }
  }

  /** The greatest under (period, release date), the first of equals: `max(known, key=...)`. */
  function MostRecent(s: seq<Release>): Option<Release> {
    if s == [] then None
    else
      var best, r := MostRecent(s[..|s| - 1]), s[|s| - 1];
      if best.None? || !ByPeriodAndDate(r, best.value) then Some(r) else best
  }

  /** The macro engine's own answer: a rescan of the releases out by `t`. */
  function KnownAsOf(releases: seq<Release>, t: real): Option<Release> {
    MostRecent(Filter(ReleasedBy(t), releases))
  }

  lemma {:induction false} MostRecentIsGreatest(s: seq<Release>)
    ensures MostRecent(s).None? <==> s == []
    ensures s != [] ==> MostRecent(s).value in s && forall x | x in s :: ByPeriodAndDate(x, MostRecent(s).value)
  {
    if s != [] {
      MostRecentIsGreatest(s[..|s| - 1]);
      assert s == s[..|s| - 1] + [s[|s| - 1]];
    }
  }

  function LiftedIndex(n: Naming, releases: seq<Release>): Index { IndexOf(Lifted(n, releases), Publication) }

  lemma LiftedIndexMembers(n: Naming, releases: seq<Release>, t: real, x: Record)
    requires WellBuilt(LiftedIndex(n, releases))
    ensures x in VisibleAsOf(LiftedIndex(n, releases), t) <==>
              exists r :: r in releases && r.releaseDate <= t && x == Vintage(n, r, Rank(r, releases))
  {
    BisectionIsRescan(Lifted(n, releases), Publication, t);
    SortPermutes(ByKnowledge(Publication), Filter(VisibleBy(t, Publication), Lifted(n, releases)));
    FilterMember(VisibleBy(t, Publication), Lifted(n, releases), x);
    LiftedFrom(n, releases, x);
  }

  /**
   Lifting preserves what was known: at every instant, the most recent figure read from the
   lifted set -- through the index or through its timeline -- is the release the macro
   engine's rescan gives, under its rank.
   */
  lemma LiftedReadsAsKnown(meta: Metadata, n: Naming, releases: seq<Release>, t: real)
    requires Faithful(n, releases) && Liftable(meta, releases)
    ensures WellBuilt(LiftedIndex(n, releases))
    ensures LatestInSeries(VisibleAsOf(LiftedIndex(n, releases), t), AsKnown)
         == NewestVisible(LiftedIndex(n, releases), AsKnown, t)
         == var known := KnownAsOf(releases, t);
            if known.None? then None else Some(Vintage(n, known.value, Rank(known.value, releases)))
    ensures var read := LatestInSeries(VisibleAsOf(LiftedIndex(n, releases), t), AsKnown);
            var known := KnownAsOf(releases, t);
            known.Some? ==> read.value.value == known.value.value && Restates(n, releases, known.value, read.value)
  {
    var index := LiftedIndex(n, releases);
    LiftedIsAdmissible(meta, n, releases);
    AdmissibleIndexIsWellBuilt(Lifted(n, releases), Publication);
    LiftedObservedForward(n, releases);
    ObservedForwardAgrees(index, t);
    LiftedNewest(n, releases, t);
    var known := KnownAsOf(releases, t);
    if known.Some? {
      VintageRestates(n, releases, known.value, Vintage(n, known.value, Rank(known.value, releases)));
    }
  }

  lemma SameFigureSamePeriod(n: Naming, releases: seq<Release>, a: Record, b: Record)
    requires Faithful(n, releases) && a in Lifted(n, releases) && b in Lifted(n, releases)
    requires FigureOf(a) == FigureOf(b)
    ensures a.stamp.observedAt == b.stamp.observedAt
  {
    LiftedFrom(n, releases, a);
    LiftedFrom(n, releases, b);
    var q :| q in releases && a == Vintage(n, q, Rank(q, releases));
    var r :| r in releases && b == Vintage(n, r, Rank(r, releases));
    assert ToldApart(n, q, r);
  }

  lemma LiftedObservedForward(n: Naming, releases: seq<Release>)
    requires Faithful(n, releases)
    ensures ObservedForward(LiftedIndex(n, releases).records)
  {
    var index := LiftedIndex(n, releases);
    IndexOfIndexed(Lifted(n, releases), Publication);
    forall a, b | a in index.records && b in index.records && FigureOf(a) == FigureOf(b) && a.revision < b.revision
      ensures a.stamp.observedAt <= b.stamp.observedAt
    {
      SameFigureSamePeriod(n, releases, a, b);
    }
  }

  lemma LiftedNewest(n: Naming, releases: seq<Release>, t: real)
    requires Faithful(n, releases) && DistinctReleases(releases) && WellBuilt(LiftedIndex(n, releases))
    ensures NewestVisible(LiftedIndex(n, releases), AsKnown, t)
         == var known := KnownAsOf(releases, t);
            if known.None? then None else Some(Vintage(n, known.value, Rank(known.value, releases)))
  {
    var index := LiftedIndex(n, releases);
    var visible := VisibleAsOf(index, t);
    var known := Filter(ReleasedBy(t), releases);
    FilterAll(ReadUnder(AsKnown), visible);
    MostRecentIsGreatest(known);
    if known == [] {
      if visible != [] {
        LiftedIndexMembers(n, releases, t, visible[0]);
        var r :| r in releases && r.releaseDate <= t && visible[0] == Vintage(n, r, Rank(r, releases));
        FilterMember(ReleasedBy(t), releases, r);
      }
    } else {
      var best := MostRecent(known).value;
      FilterMember(ReleasedBy(t), releases, best);
      var m := Vintage(n, best, Rank(best, releases));
      LiftedIndexMembers(n, releases, t, m);
      forall x | x in visible ensures ReadBefore(x, m) && x in index.records {
        LiftedIndexMembers(n, releases, t, x);
        VisibleMembers(index, t, x);
        var r :| r in releases && r.releaseDate <= t && x == Vintage(n, r, Rank(r, releases));
        FilterMember(ReleasedBy(t), releases, r);
        if r.period == best.period {
          RanksFollowDates(releases, best, r);
        }
      }
      GreatestIsNewest(visible, m);
    }
  }

  lemma RestatedInAnyOrder(n: Naming, releases: seq<Release>, a: seq<Record>, b: seq<Record>)
    requires EachRestated(n, releases, a) && multiset(a) == multiset(b)
    ensures EachRestated(n, releases, b)
  {
    assert |a| == |multiset(a)| == |multiset(b)| == |b|;
    SameMembers(a, b);
    assert forall x :: x in b <==> x in a;
  }

  /** `observations_from_indicator`: once the releases lift, building their set refuses nothing. */
  method ObservationsFromIndicator(meta: Metadata, n: Naming, releases: seq<Release>)
    returns (r: Result<seq<Record>, LiftRefusal>)
    requires Faithful(n, releases)
    ensures r.Ok? <==> Liftable(meta, releases)
    ensures r.Ok? ==> r.value == InOrder(Lifted(n, releases))
    ensures r.Ok? ==> EachRestated(n, releases, r.value) && KeptInOrder(r.value)
    ensures r.Err? ==> RightlyRefused(meta, releases, r.error)
  {
    var records := LiftReleases(meta, n, releases);
    if records.Err? {
      return Err(records.error);
    }
    LiftedIsAdmissible(meta, n, releases);
    var built := BuildObservationSet(records.value);
    RestatedInAnyOrder(n, releases, records.value, built.value);
    return Ok(built.value);
  }
}
