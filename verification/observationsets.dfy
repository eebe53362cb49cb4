/**
 Versioned sets of point-in-time records: what a set refuses to hold, and the per-series
 and per-figure indexes a view of it answers from.
 */
module ObservationSets {
  import opened Outcomes
  import opened Ordering
  import opened Text
  import opened PointInTime
  import opened Readings

  datatype SetRefusal = EmptySet | RepeatedRecord(id: string) | OutOfSetOrder | RepeatedRevision | PublishedAhead

  predicate ByRevision(a: Record, b: Record) { a.revision <= b.revision }

  /** (observation instant, identity): the order a set keeps its records in. */
  predicate InSetOrder(a: Record, b: Record) {
    if a.stamp.observedAt != b.stamp.observedAt then a.stamp.observedAt < b.stamp.observedAt else AtMost(a.id, b.id)
  }

  lemma SetOrderIsTotal()
    ensures TotalPreorder(InSetOrder)
  {
    forall x, y ensures InSetOrder(x, y) || InSetOrder(y, x) {
      AtMostTotal(x.id, y.id);
    }
    forall x, y, z | InSetOrder(x, y) && InSetOrder(y, z) ensures InSetOrder(x, z) {
      if AtMost(x.id, y.id) && AtMost(y.id, z.id) {
        AtMostChains(x.id, y.id, z.id);
      }
    }
  }

  // ------------------------------------------------------------------ vintages

  /** No figure has two records at one revision. */
  ghost predicate DistinctRevisions(s: seq<Record>) {
    forall i, j | 0 <= i < j < |s| :: FigureOf(s[i]) != FigureOf(s[j]) || s[i].revision != s[j].revision
  }

  /** `b` is the next revision of `a`'s figure that the records hold. */
  ghost predicate Follows(s: seq<Record>, a: Record, b: Record) {
    && a in s && b in s && FigureOf(a) == FigureOf(b) && a.revision < b.revision
    && forall c | c in s && FigureOf(c) == FigureOf(a) :: c.revision <= a.revision || b.revision <= c.revision
  }

  predicate PublishedInOrder(a: Record, b: Record) {
    a.stamp.availableAt.Some? && b.stamp.availableAt.Some? ==>
      a.stamp.availableAt.value <= b.stamp.availableAt.value
  }

  /** A revision was not published ahead of the one before it, where both instants are established. */
  ghost predicate RevisionsInOrder(s: seq<Record>) {
    forall a, b | Follows(s, a, b) :: PublishedInOrder(a, b)
  }

  /** The vintages of each figure, in the order they arrived. */
  ghost predicate Grouped(s: seq<Record>, figures: seq<Figure>, byVintage: map<Figure, seq<Record>>) {
    && (forall f :: f in figures <==> f in byVintage)
    && (forall f | f in byVintage :: byVintage[f] == Filter(OfFigure(f), s))
    && (forall i | 0 <= i < |s| :: FigureOf(s[i]) in byVintage)
  }

  /** The first pass of `_check_vintages`: grouping by figure, refusing a revision claimed twice. */
  method GroupVintages(s: seq<Record>)
    returns (repeated: bool, figures: seq<Figure>, byVintage: map<Figure, seq<Record>>)
    ensures repeated <==> !DistinctRevisions(s)
    ensures !repeated ==> Grouped(s, figures, byVintage)
  {
    byVintage, figures := map[], [];
    for k := 0 to |s|
      invariant Grouped(s[..k], figures, byVintage)
      invariant DistinctRevisions(s[..k])
    {
      var r := s[k];
      var f := FigureOf(r);
      var revisions := if f in byVintage then byVintage[f] else [];
      GroupStep(s, k, figures, byVintage);
      if exists q | q in revisions :: q.revision == r.revision {
        return true, figures, byVintage;
      }
      if f !in byVintage {
        figures := figures + [f];
      }
      byVintage := byVintage[f := revisions + [r]];
    }
    TakeAll(s);
    return false, figures, byVintage;
  }

  lemma GroupStep(s: seq<Record>, k: nat, figures: seq<Figure>, byVintage: map<Figure, seq<Record>>)
    requires k < |s| && Grouped(s[..k], figures, byVintage) && DistinctRevisions(s[..k])
    ensures var f := FigureOf(s[k]);
            var revisions := if f in byVintage then byVintage[f] else [];
            && Grouped(s[..k + 1], if f in byVintage then figures else figures + [f],
                       byVintage[f := revisions + [s[k]]])
            && (DistinctRevisions(s[..k + 1]) <==> forall q | q in revisions :: q.revision != s[k].revision)
    ensures !DistinctRevisions(s[..k + 1]) ==> !DistinctRevisions(s)
  {
    TakeOneMore(s, k);
    GroupGrows(s[..k], s[k], figures, byVintage);
    RevisionsSoFar(s[..k], FigureOf(s[k]), s[k]);
    RepeatedEarly(s, k + 1);
  }

  lemma RepeatedEarly(s: seq<Record>, k: nat)
    requires k <= |s|
    ensures !DistinctRevisions(s[..k]) ==> !DistinctRevisions(s)
  {
  }

  /** What a figure's entry holds so far: its records, in order, or nothing. */
  lemma FiledSoFar(s: seq<Record>, f: Figure, figures: seq<Figure>, byVintage: map<Figure, seq<Record>>)
    requires Grouped(s, figures, byVintage)
    ensures (if f in byVintage then byVintage[f] else []) == Filter(OfFigure(f), s)
  {
    if f !in byVintage {
      FilterNone(OfFigure(f), s);
    }
  }

  lemma GroupGrows(s: seq<Record>, r: Record, figures: seq<Figure>, byVintage: map<Figure, seq<Record>>)
    requires Grouped(s, figures, byVintage)
    ensures var f := FigureOf(r);
            var revisions := if f in byVintage then byVintage[f] else [];
            && revisions == Filter(OfFigure(f), s)
            && Grouped(s + [r], if f in byVintage then figures else figures + [f], byVintage[f := revisions + [r]])
  {
    var f := FigureOf(r);
    FiledSoFar(s, f, figures, byVintage);
    var figures' := if f in byVintage then figures else figures + [f];
    var after := byVintage[f := Filter(OfFigure(f), s) + [r]];
    FiguresGrow(figures, byVintage, f, figures', after);
    RowsGrow(s, r, figures, byVintage, after);
  }

  lemma RowsGrow(s: seq<Record>, r: Record, figures: seq<Figure>, byVintage: map<Figure, seq<Record>>,
                 after: map<Figure, seq<Record>>)
    requires Grouped(s, figures, byVintage) && after == byVintage[FigureOf(r) := Filter(OfFigure(FigureOf(r)), s) + [r]]
    ensures forall g | g in after :: after[g] == Filter(OfFigure(g), s + [r])
    ensures forall i | 0 <= i < |s + [r]| :: FigureOf((s + [r])[i]) in after
  {
    forall g | g in after ensures after[g] == Filter(OfFigure(g), s + [r]) {
      FilterAppend(OfFigure(g), s, r);
    }
    forall i | 0 <= i < |s + [r]| ensures FigureOf((s + [r])[i]) in after {
      assert i < |s| ==> (s + [r])[i] == s[i];
    }
  }

  lemma FiguresGrow(figures: seq<Figure>, byVintage: map<Figure, seq<Record>>, f: Figure,
                    figures': seq<Figure>, byVintage': map<Figure, seq<Record>>)
    requires forall g :: g in figures <==> g in byVintage
    requires figures' == (if f in byVintage then figures else figures + [f]) && byVintage'.Keys == byVintage.Keys + {f}
    ensures forall g :: g in figures' <==> g in byVintage'
  {
  }

  lemma RevisionsSoFar(s: seq<Record>, f: Figure, r: Record)
    requires f == FigureOf(r) && DistinctRevisions(s)
    ensures DistinctRevisions(s + [r]) <==> forall q | q in Filter(OfFigure(f), s) :: q.revision != r.revision
  {
    forall q ensures q in Filter(OfFigure(f), s) <==> q in s && FigureOf(q) == f {
      FilterMember(OfFigure(f), s, q);
    }
    if DistinctRevisions(s + [r]) {
      forall q | q in s && FigureOf(q) == f ensures q.revision != r.revision {
        var i :| 0 <= i < |s| && s[i] == q;
        assert (s + [r])[i] == q && (s + [r])[|s|] == r;
      }
    }
  }

  /** `_check_vintages`: grouped by figure, sorted by revision, adjacent pairs compared. */
  method CheckVintages(s: seq<Record>) returns (refusal: Option<SetRefusal>)
    ensures refusal.None? <==> DistinctRevisions(s) && RevisionsInOrder(s)
    ensures refusal.Some? ==> refusal.value == if DistinctRevisions(s) then PublishedAhead else RepeatedRevision
  {
    var repeated, figures, byVintage := GroupVintages(s);
    if repeated {
      return Some(RepeatedRevision);
    }
    for v := 0 to |figures|
      invariant forall u | 0 <= u < v :: FigureInOrder(s, figures[u])
    {
      var ordered := Sort(ByRevision, byVintage[figures[v]]);
      var ok := AdjacentInOrder(s, figures[v], ordered);
      if !ok {
        assert !RevisionsInOrder(s);
        return Some(PublishedAhead);
      }
    }
    FiguresInOrder(s, figures, byVintage);
    return None;
  }

  lemma FiguresInOrder(s: seq<Record>, figures: seq<Figure>, byVintage: map<Figure, seq<Record>>)
    requires Grouped(s, figures, byVintage)
    requires forall u | 0 <= u < |figures| :: FigureInOrder(s, figures[u])
    ensures RevisionsInOrder(s)
  {
    forall a, b | Follows(s, a, b) ensures PublishedInOrder(a, b) {
      assert FigureOf(a) in figures;
      var u :| 0 <= u < |figures| && figures[u] == FigureOf(a);
      assert FigureInOrder(s, figures[u]);
    }
  }

  ghost predicate FigureInOrder(s: seq<Record>, f: Figure) {
    forall a, b | Follows(s, a, b) && FigureOf(a) == f :: PublishedInOrder(a, b)
  }

  /** One figure's revisions, in order, compared pair by adjacent pair. */
  method AdjacentInOrder(s: seq<Record>, f: Figure, ordered: seq<Record>) returns (ok: bool)
    requires DistinctRevisions(s) && ordered == Sort(ByRevision, Filter(OfFigure(f), s))
    ensures ok <==> FigureInOrder(s, f)
  {
    OrderedFigure(s, f, ordered);
    ok := true;
    var i := 1;
    while i < |ordered|
      invariant 1 <= i
      invariant forall j | 1 <= j < i && j < |ordered| :: PublishedInOrder(ordered[j - 1], ordered[j])
    {
      if !PublishedInOrder(ordered[i - 1], ordered[i]) {
        AdjacentFollow(s, f, ordered, i);
        return false;
      }
      i := i + 1;
    }
    NeighboursDecide(s, f, ordered);
  }

  lemma NeighboursDecide(s: seq<Record>, f: Figure, ordered: seq<Record>)
    requires forall r :: r in ordered <==> r in s && FigureOf(r) == f
    requires forall i, j | 0 <= i < j < |ordered| :: ordered[i].revision < ordered[j].revision
    requires forall j | 1 <= j < |ordered| :: PublishedInOrder(ordered[j - 1], ordered[j])
    ensures FigureInOrder(s, f)
  {
    forall a, b | Follows(s, a, b) && FigureOf(a) == f ensures PublishedInOrder(a, b) {
      FollowersAdjacent(s, f, ordered, a, b);
    }
  }

  lemma FollowersAdjacent(s: seq<Record>, f: Figure, ordered: seq<Record>, a: Record, b: Record)
    requires Follows(s, a, b) && FigureOf(a) == f && forall r :: r in ordered <==> r in s && FigureOf(r) == f
    requires forall i, j | 0 <= i < j < |ordered| :: ordered[i].revision < ordered[j].revision
    ensures exists j :: 1 <= j < |ordered| && ordered[j - 1] == a && ordered[j] == b
  {
    assert a in ordered && b in ordered;
    var i :| 0 <= i < |ordered| && ordered[i] == a;
    var j :| 0 <= j < |ordered| && ordered[j] == b;
    assert i < j && ordered[i + 1] in ordered;
    assert j == i + 1;
  }

  lemma OrderedFigure(s: seq<Record>, f: Figure, ordered: seq<Record>)
    requires DistinctRevisions(s) && ordered == Sort(ByRevision, Filter(OfFigure(f), s))
    ensures forall r :: r in ordered <==> r in s && FigureOf(r) == f
    ensures forall i, j | 0 <= i < j < |ordered| :: ordered[i].revision < ordered[j].revision
  {
    var own := Filter(OfFigure(f), s);
    SortPermutes(ByRevision, own);
    SortSorts(ByRevision, own);
    forall r ensures r in ordered <==> r in s && FigureOf(r) == f {
      FilterMember(OfFigure(f), s, r);
    }
    OwnRevisionsDistinct(s, f);
    SortedStrictly(own, ordered);
  }

  lemma {:induction false} OwnRevisionsDistinct(s: seq<Record>, f: Figure)
    requires DistinctRevisions(s)
    ensures var own := Filter(OfFigure(f), s);
            forall i, j | 0 <= i < j < |own| :: own[i].revision != own[j].revision
  {
    if s != [] {
      OwnRevisionsDistinct(s[1..], f);
      var rest := Filter(OfFigure(f), s[1..]);
      forall j | 0 <= j < |rest| && FigureOf(s[0]) == f ensures rest[j].revision != s[0].revision {
        FilterMember(OfFigure(f), s[1..], rest[j]);
        var i :| 0 <= i < |s[1..]| && s[1..][i] == rest[j];
        assert s[i + 1] == rest[j];
      }
    }
  }

  /** A permutation of records with distinct revisions, in revision order, rises strictly. */
  lemma SortedStrictly(own: seq<Record>, ordered: seq<Record>)
    requires multiset(ordered) == multiset(own) && SortedBy(ByRevision, ordered)
    requires forall i, j | 0 <= i < j < |own| :: own[i].revision != own[j].revision
    ensures forall i, j | 0 <= i < j < |ordered| :: ordered[i].revision < ordered[j].revision
  {
    forall i, j | 0 <= i < j < |ordered| ensures ordered[i].revision < ordered[j].revision {
      if ordered[i].revision == ordered[j].revision {
        assert ordered[i] in multiset(own) && ordered[j] in multiset(own);
        var p :| 0 <= p < |own| && own[p] == ordered[i];
        var q :| 0 <= q < |own| && own[q] == ordered[j];
        assert p == q;
        CountsTwice(ordered, i, j);
        CountsOnce(own, p);
        assert false;
      }
    }
  }

  lemma CountsOnce(own: seq<Record>, p: nat)
    requires p < |own| && forall i, j | 0 <= i < j < |own| :: own[i].revision != own[j].revision
    ensures multiset(own)[own[p]] == 1
  {
    assert own == own[..p] + [own[p]] + own[p + 1..];
    assert own[p] !in own[..p] && own[p] !in own[p + 1..];
  }

  lemma AdjacentFollow(s: seq<Record>, f: Figure, ordered: seq<Record>, i: nat)
    requires 1 <= i < |ordered|
    requires forall r :: r in ordered <==> r in s && FigureOf(r) == f
    requires forall p, q | 0 <= p < q < |ordered| :: ordered[p].revision < ordered[q].revision
    ensures Follows(s, ordered[i - 1], ordered[i]) && FigureOf(ordered[i - 1]) == f
  {
    var a, b := ordered[i - 1], ordered[i];
    assert a in ordered && b in ordered;
    forall c | c in s && FigureOf(c) == f ensures c.revision <= a.revision || b.revision <= c.revision {
      assert c in ordered;
      var p :| 0 <= p < |ordered| && ordered[p] == c;
    }
  }

  /** No revision of unknown availability stands between two of known availability. */
  ghost predicate DatedTogether(s: seq<Record>, f: Figure) {
    forall a, c, b | Between(s, f, a, c, b) && a.stamp.availableAt.Some? && b.stamp.availableAt.Some? ::
      c.stamp.availableAt.Some?
  }

  ghost predicate Between(s: seq<Record>, f: Figure, a: Record, c: Record, b: Record) {
    a in s && c in s && b in s && FigureOf(a) == FigureOf(c) == FigureOf(b) == f && a.revision < c.revision < b.revision
  }

  /** Then the check orders all of a figure's revisions, not only neighbours. */
  lemma {:induction false} PublishedInRevisionOrder(s: seq<Record>, a: Record, b: Record)
    requires RevisionsInOrder(s) && a in s && b in s && FigureOf(a) == FigureOf(b) && a.revision < b.revision
    requires DatedTogether(s, FigureOf(a))
    ensures PublishedInOrder(a, b)
    decreases b.revision - a.revision
  {
    if a.stamp.availableAt.Some? && b.stamp.availableAt.Some? {
      if c :| c in s && FigureOf(c) == FigureOf(a) && a.revision < c.revision < b.revision {
        assert Between(s, FigureOf(a), a, c, b);
        PublishedInRevisionOrder(s, a, c);
        PublishedInRevisionOrder(s, c, b);
      } else {
        assert Follows(s, a, b);
      }
    }
  }

  /**
   With every availability established, what is visible of a figure is always its first revisions: a
   reading never skips one.
   */
  lemma VisibleRevisionsAreAPrefix(s: seq<Record>, t: real, a: Record, b: Record)
    requires RevisionsInOrder(s) && a in s && b in s && FigureOf(a) == FigureOf(b) && a.revision < b.revision
    requires forall r | r in s && FigureOf(r) == FigureOf(a) :: r.stamp.availableAt.Some?
    ensures b.stamp.VisibleAt(t, Publication) ==> a.stamp.VisibleAt(t, Publication)
  {
    PublishedInRevisionOrder(s, a, b);
  }

  /** What the check is for: no revision is available ahead of any earlier one. */
  ghost predicate NoneAhead(s: seq<Record>) {
    forall a, b | a in s && b in s && FigureOf(a) == FigureOf(b) && a.revision < b.revision :: PublishedInOrder(a, b)
  }

  /** Whatever is known to be available, made available at other instants. */
  function Redate(when: Record -> real): Record -> Record {
    (r: Record) => if r.stamp.availableAt.None? then r else r.(stamp := r.stamp.(availableAt := Some(when(r))))
  }

  function Redated(s: seq<Record>, when: Record -> real): seq<Record> { Map(Redate(when), s) }

  /** No record is available before it was observed; a stamp that says so is refused. */
  ghost predicate NotBeforeObserved(s: seq<Record>, when: Record -> real) {
    forall r | r in s :: r.stamp.observedAt <= when(r)
  }

  /** An instant by which every record has been observed. */
  function AllObserved(s: seq<Record>): (t: real)
    ensures forall r | r in s :: r.stamp.observedAt <= t
  {
    if s == [] then 0.0
    else
      var t, last := AllObserved(s[..|s| - 1]), s[|s| - 1];
      TakeOneMore(s, |s| - 1);
      TakeAll(s);
      if last.stamp.observedAt < t then t else last.stamp.observedAt
  }

  /** Everything available at once, but the revisions of one figure before one of them a little later. */
  function Behind(c: Record, t: real): Record -> real {
    (r: Record) => if FigureOf(r) == FigureOf(c) && r.revision < c.revision then t + 1.0 else t
  }

  /**
   Whatever the instants, the check keeps every revision behind the earlier ones exactly
   when no revision of unknown availability stands between two of known availability.
   */
  lemma ChecksRevisionsExactly(s: seq<Record>)
    requires DistinctRevisions(s)
    ensures (forall when | NotBeforeObserved(s, when) ::
               RevisionsInOrder(Redated(s, when)) ==> NoneAhead(Redated(s, when)))
       <==> forall f :: DatedTogether(s, f)
  {
    if forall f :: DatedTogether(s, f) {
      forall when | RevisionsInOrder(Redated(s, when)) ensures NoneAhead(Redated(s, when)) {
        TogetherNoneAhead(s, when);
      }
    } else {
      var f :| !DatedTogether(s, f);
      var a, c, b :| Between(s, f, a, c, b) && a.stamp.availableAt.Some? && b.stamp.availableAt.Some?
                     && c.stamp.availableAt.None?;
      var when := Behind(c, AllObserved(s));
      assert NotBeforeObserved(s, when);
      BehindPasses(s, c, AllObserved(s));
      BehindIsAhead(s, a, c, b, AllObserved(s));
    }
  }

  lemma TogetherNoneAhead(s: seq<Record>, when: Record -> real)
    requires RevisionsInOrder(Redated(s, when)) && forall f :: DatedTogether(s, f)
    ensures NoneAhead(Redated(s, when))
  {
    var s' := Redated(s, when);
    forall f ensures DatedTogether(s', f) {
      forall a, c, b | Between(s', f, a, c, b) && a.stamp.availableAt.Some? && b.stamp.availableAt.Some?
        ensures c.stamp.availableAt.Some?
      {
        var x := RedatedFrom(s, when, a);
        var y := RedatedFrom(s, when, c);
        var z := RedatedFrom(s, when, b);
        assert Between(s, f, x, y, z);
        assert DatedTogether(s, f);
      }
    }
    forall a, b | a in s' && b in s' && FigureOf(a) == FigureOf(b) && a.revision < b.revision
      ensures PublishedInOrder(a, b)
    {
      PublishedInRevisionOrder(s', a, b);
    }
  }

  lemma RedatedFrom(s: seq<Record>, when: Record -> real, r: Record) returns (x: Record)
    requires r in Redated(s, when)
    ensures x in s && r == Redate(when)(x)
  {
    MapMember(Redate(when), s, r);
    x :| x in s && r == Redate(when)(x);
  }

  /** With the earlier revisions all made late, neighbours still pass: the undated one separates them. */
  lemma BehindPasses(s: seq<Record>, c: Record, t: real)
    requires DistinctRevisions(s) && c in s && c.stamp.availableAt.None?
    ensures RevisionsInOrder(Redated(s, Behind(c, t)))
  {
    var s' := Redated(s, Behind(c, t));
    MapMember(Redate(Behind(c, t)), s, c);
    forall a, b | Follows(s', a, b) ensures PublishedInOrder(a, b) {
      var x := RedatedFrom(s, Behind(c, t), a);
      var y := RedatedFrom(s, Behind(c, t), b);
      BehindInOrder(s, c, t, x, y);
    }
  }

  lemma BehindInOrder(s: seq<Record>, c: Record, t: real, x: Record, y: Record)
    requires DistinctRevisions(s) && c in s && c.stamp.availableAt.None? && y in s
    requires FigureOf(x) == FigureOf(y) && x.revision < y.revision
    requires FigureOf(c) == FigureOf(x) ==> c.revision <= x.revision || y.revision <= c.revision
    ensures PublishedInOrder(Redate(Behind(c, t))(x), Redate(Behind(c, t))(y))
  {
    if y.revision == c.revision && FigureOf(y) == FigureOf(c) {
      OneAtARevision(s, y, c);
    }
  }

  lemma OneAtARevision(s: seq<Record>, a: Record, b: Record)
    requires DistinctRevisions(s) && a in s && b in s && FigureOf(a) == FigureOf(b) && a.revision == b.revision
    ensures a == b
  {
    var i :| 0 <= i < |s| && s[i] == a;
    var j :| 0 <= j < |s| && s[j] == b;
  }

  lemma BehindIsAhead(s: seq<Record>, a: Record, c: Record, b: Record, t: real)
    requires Between(s, FigureOf(c), a, c, b) && a.stamp.availableAt.Some? && b.stamp.availableAt.Some?
    ensures !NoneAhead(Redated(s, Behind(c, t)))
  {
    var s' := Redated(s, Behind(c, t));
    var a', b' := Redate(Behind(c, t))(a), Redate(Behind(c, t))(b);
    MapMember(Redate(Behind(c, t)), s, a');
    MapMember(Redate(Behind(c, t)), s, b');
    assert a' in s' && b' in s' && !PublishedInOrder(a', b');
  }

  const FIRST: Record := Record("a", Stamp(1.0, Some(9.0), None), "cpi", "2024", 0, 1.0)
  const UNDATED: Record := Record("b", Stamp(1.0, None, None), "cpi", "2024", 1, 2.0)
  const EARLY: Record := Record("c", Stamp(1.0, Some(3.0), None), "cpi", "2024", 2, 3.0)

  /** With an undated revision between, the check accepts a revision published ahead of the original. */
  lemma UndatedRevisionHidesTheOrder()
    ensures DistinctRevisions([FIRST, UNDATED, EARLY]) && RevisionsInOrder([FIRST, UNDATED, EARLY])
    ensures FigureOf(FIRST) == FigureOf(UNDATED) == FigureOf(EARLY)
    ensures FIRST.revision < UNDATED.revision < EARLY.revision
    ensures EARLY.stamp.VisibleAt(3.0, Publication) && !FIRST.stamp.VisibleAt(3.0, Publication)
  {
    var s := [FIRST, UNDATED, EARLY];
    assert s[1] in s;
    forall a, b | Follows(s, a, b) ensures PublishedInOrder(a, b) {
      assert !(a == FIRST && b == EARLY);
    }
  }

  // --------------------------------------------------------------------- a set

  ghost predicate Admissible(s: seq<Record>) {
    s != [] && DistinctIds(s) && DistinctRevisions(s) && RevisionsInOrder(s)
  }

  /** Different records in (observation instant, identity) order. */
  ghost predicate KeptInOrder(records: seq<Record>) {
    && DistinctIds(records)
    && forall i, j | 0 <= i < j < |records| ::
         || records[i].stamp.observedAt < records[j].stamp.observedAt
         || (records[i].stamp.observedAt == records[j].stamp.observedAt && AtMost(records[i].id, records[j].id))
  }

  /** Record `k` follows records a set would keep, and is refused: one of them again, else out of order. */
  ghost predicate RefusedAt(records: seq<Record>, k: nat, refusal: SetRefusal) {
    && k < |records| && KeptInOrder(records[..k])
    && if exists i :: 0 <= i < k && records[i].id == records[k].id then refusal == RepeatedRecord(records[k].id)
       else k > 0 && !InSetOrder(records[k - 1], records[k]) && refusal == OutOfSetOrder
  }

  /** One pass over the ordered records, then the vintages: `ObservationSet.__post_init__`. */
  method CheckSet(records: seq<Record>) returns (refusal: Option<SetRefusal>)
    ensures refusal.None? <==> Admissible(records) && KeptInOrder(records)
    ensures refusal.Some? ==>
              if records == [] then refusal.value == EmptySet
              else if KeptInOrder(records)
              then refusal.value == if DistinctRevisions(records) then PublishedAhead else RepeatedRevision
              else exists k :: RefusedAt(records, k, refusal.value)
  {
    if records == [] {
      return Some(EmptySet);
    }
    var seen: set<string> := {};
    for k := 0 to |records|
      invariant seen == set i | 0 <= i < k :: records[i].id
      invariant KeptInOrder(records[..k])
    {
      KeptStep(records, k);
      if records[k].id in seen {
        assert RefusedAt(records, k, RepeatedRecord(records[k].id));
        return Some(RepeatedRecord(records[k].id));
      }
      seen := seen + {records[k].id};
      if k > 0 && !InSetOrder(records[k - 1], records[k]) {
        assert RefusedAt(records, k, OutOfSetOrder);
        return Some(OutOfSetOrder);
      }
    }
    TakeAll(records);
    refusal := CheckVintages(records);
  }

  /** Comparing each record with the one before is enough: the order chains. */
  lemma KeptStep(records: seq<Record>, k: nat)
    requires k < |records| && KeptInOrder(records[..k])
    ensures KeptInOrder(records[..k + 1]) <==>
              && (forall i | 0 <= i < k :: records[i].id != records[k].id)
              && (k > 0 ==> InSetOrder(records[k - 1], records[k]))
    ensures !KeptInOrder(records[..k + 1]) ==> !KeptInOrder(records)
  {
    var before, through := records[..k], records[..k + 1];
    assert forall i | 0 <= i < k :: before[i] == through[i] == records[i];
    assert through[k] == records[k];
    if KeptInOrder(through) {
      assert forall i | 0 <= i < k :: through[i].id != through[k].id;
      assert k > 0 ==> InSetOrder(through[k - 1], through[k]);
    }
    if k > 0 && InSetOrder(records[k - 1], records[k]) {
      forall i | 0 <= i < k ensures InSetOrder(records[i], records[k]) {
        SetOrderIsTotal();
        assert i < k - 1 ==> InSetOrder(before[i], before[k - 1]);
      }
    }
  }

  function InOrder(records: seq<Record>): seq<Record> { Sort(InSetOrder, records) }

  /** Building a set accepts exactly the admissible records, in whatever order they come. */
  method BuildObservationSet(records: seq<Record>) returns (r: Result<seq<Record>, SetRefusal>)
    ensures r.Ok? <==> Admissible(records)
    ensures r.Ok? ==> r.value == InOrder(records) && multiset(r.value) == multiset(records) && KeptInOrder(r.value)
    ensures r.Err? ==> if records == [] then r.error == EmptySet
                       else if !DistinctIds(records) then Repeats(records, r.error)
                       else r.error == if DistinctRevisions(records) then PublishedAhead else RepeatedRevision
  {
    var ordered := Sort(InSetOrder, records);
    SortPermutes(InSetOrder, records);
    OrderedIsKept(records, ordered);
    AdmissibleIgnoresOrder(records, ordered);
    DistinctIgnoresOrder(records, ordered);
    var refusal := CheckSet(ordered);
    if refusal.Some? && !DistinctIds(records) {
      OnlyRepeatsRefuse(records, ordered, refusal.value);
    }
    r := if refusal.Some? then Err(refusal.value) else Ok(ordered);
  }

  /** Some two records share the identity it names. */
  ghost predicate Repeats(records: seq<Record>, refusal: SetRefusal) {
    refusal.RepeatedRecord? && exists i, j :: 0 <= i < j < |records| && records[i].id == records[j].id == refusal.id
  }

  lemma OrderedIsKept(records: seq<Record>, ordered: seq<Record>)
    requires ordered == Sort(InSetOrder, records)
    ensures DistinctIds(ordered) ==> KeptInOrder(ordered)
    ensures forall i, j | 0 <= i < j < |ordered| :: InSetOrder(ordered[i], ordered[j])
  {
    SetOrderIsTotal();
    SortSorts(InSetOrder, records);
  }

  lemma DistinctIgnoresOrder(a: seq<Record>, b: seq<Record>)
    requires multiset(a) == multiset(b)
    ensures DistinctIds(a) <==> DistinctIds(b)
    ensures DistinctRevisions(a) <==> DistinctRevisions(b)
    ensures |a| == |b|
  {
    assert |a| == |multiset(a)| == |multiset(b)| == |b|;
    PairwiseIgnoresOrder(a, b);
    PairwiseIgnoresOrder(b, a);
  }

  /** Records put in order can only be refused, by the pass, for a repeated identity. */
  lemma OnlyRepeatsRefuse(records: seq<Record>, ordered: seq<Record>, refusal: SetRefusal)
    requires multiset(ordered) == multiset(records) && exists k :: RefusedAt(ordered, k, refusal)
    requires forall i, j | 0 <= i < j < |ordered| :: InSetOrder(ordered[i], ordered[j])
    ensures Repeats(records, refusal)
  {
    var k: nat :| RefusedAt(ordered, k, refusal);
    assert k > 0 ==> InSetOrder(ordered[k - 1], ordered[k]);
    var i: nat :| 0 <= i < k && ordered[i].id == ordered[k].id;
    TwoWithTheId(records, ordered, i, k);
  }

  /** Two records that share an identity still do in another order. */
  lemma TwoWithTheId(records: seq<Record>, ordered: seq<Record>, i: nat, k: nat)
    requires multiset(ordered) == multiset(records) && i < k < |ordered| && ordered[i].id == ordered[k].id
    ensures exists p, q :: 0 <= p < q < |records| && records[p].id == records[q].id == ordered[i].id
  {
    var x, y := ordered[i], ordered[k];
    assert x in multiset(records) && y in multiset(records);
    if x == y {
      CountsTwice(ordered, i, k);
      var p :| 0 <= p < |records| && records[p] == x;
      assert records == records[..p] + [x] + records[p + 1..];
      assert x in records[..p] || x in records[p + 1..];
    } else {
      var p :| 0 <= p < |records| && records[p] == x;
      var q :| 0 <= q < |records| && records[q] == y;
    }
  }

  lemma AdmissibleIgnoresOrder(a: seq<Record>, b: seq<Record>)
    requires multiset(a) == multiset(b)
    ensures Admissible(a) <==> Admissible(b)
  {
    assert |a| == |multiset(a)| == |multiset(b)| == |b|;
    SameMembers(a, b);
    PairwiseIgnoresOrder(a, b);
    PairwiseIgnoresOrder(b, a);
    FollowsIgnoresOrder(a, b);
    FollowsIgnoresOrder(b, a);
  }

  lemma FollowsIgnoresOrder(a: seq<Record>, b: seq<Record>)
    requires forall x :: x in a <==> x in b
    ensures RevisionsInOrder(a) ==> RevisionsInOrder(b)
  {
    if RevisionsInOrder(a) {
      forall x, y | Follows(b, x, y) ensures PublishedInOrder(x, y) {
        assert Follows(a, x, y);
      }
    }
  }

  /** Two positions of a permutation hold two positions' worth of the original. */
  lemma PairwiseIgnoresOrder(a: seq<Record>, b: seq<Record>)
    requires multiset(a) == multiset(b)
    ensures DistinctIds(a) ==> DistinctIds(b)
    ensures DistinctRevisions(a) ==> DistinctRevisions(b)
  {
    forall i, j | 0 <= i < j < |b|
      ensures DistinctIds(a) ==> b[i].id != b[j].id
      ensures DistinctRevisions(a) ==> FigureOf(b[i]) != FigureOf(b[j]) || b[i].revision != b[j].revision
    {
      TwoPositions(a, b, i, j);
    }
  }

  // -------------------------------------------------------------------- a view

  /** A figure's knowable vintages, in knowledge order: what `vintage_as_of` reads instead of the index. */
  function FigureVintages(index: Index, f: Figure): seq<Record> { Filter(OfFigure(f), index.records) }

  /** The first record of highest revision: `max(candidates, key=revision)`. */
  function Highest(s: seq<Record>): Option<Record> {
    if s == [] then None
    else
      var best, r := Highest(s[..|s| - 1]), s[|s| - 1];
      if best.None? || r.revision > best.value.revision then Some(r) else best
  }

  function VintageAsOf(index: Index, f: Figure, t: real, policy: Policy): Option<Record> {
    var candidates := Filter(VisibleBy(t, index.rule), FigureVintages(index, f));
    if policy.AsKnown? then Highest(candidates)
    else
      var originals := Filter(ReadUnder(Original), candidates);
      if originals == [] then None else Some(originals[0])
  }

  lemma {:induction false} HighestIsHighest(s: seq<Record>)
    ensures Highest(s).None? <==> s == []
    ensures s != [] ==> Highest(s).value in s && forall x | x in s :: x.revision <= Highest(s).value.revision
  {
    if s != [] {
      HighestIsHighest(s[..|s| - 1]);
      assert s == s[..|s| - 1] + [s[|s| - 1]];
    }
  }

  lemma CandidateMembers(index: Index, f: Figure, t: real, r: Record)
    requires WellBuilt(index)
    ensures r in Filter(VisibleBy(t, index.rule), FigureVintages(index, f))
       <==> r in VisibleAsOf(index, t) && FigureOf(r) == f
  {
    FilterMember(VisibleBy(t, index.rule), FigureVintages(index, f), r);
    FilterMember(OfFigure(f), index.records, r);
    VisibleMembers(index, t, r);
    if r in index.records {
      var i :| 0 <= i < |index.records| && index.records[i] == r;
    }
  }

  /**
   Reading one figure from its own vintages answers exactly as choosing from everything
   visible would, under both policies and at every instant.
   */
  lemma FigureReadAgrees(index: Index, f: Figure, t: real, r: Record)
    requires WellBuilt(index)
    ensures VintageAsOf(index, f, t, AsKnown) == Some(r)
       <==> r in LatestOf(VisibleAsOf(index, t)) && FigureOf(r) == f
    ensures VintageAsOf(index, f, t, Original) == Some(r)
       <==> r in OriginalsOf(VisibleAsOf(index, t)) && FigureOf(r) == f
  {
    var visible := VisibleAsOf(index, t);
    var candidates := Filter(VisibleBy(t, index.rule), FigureVintages(index, f));
    forall x ensures x in candidates <==> x in visible && FigureOf(x) == f {
      CandidateMembers(index, f, t, x);
    }
    forall x | x in visible ensures x in index.records {
      VisibleMembers(index, t, x);
    }
    LatestOfChoosesCurrent(visible, r);
    HighestIsHighest(candidates);
    var originals := Filter(ReadUnder(Original), candidates);
    forall x ensures x in originals <==> x in candidates && x.revision == 0 {
      FilterMember(ReadUnder(Original), candidates, x);
    }
    SortPermutes(ReadBefore, Filter(ReadUnder(Original), visible));
    FilterMember(ReadUnder(Original), visible, r);
    if originals != [] {
      assert originals[0] in originals;
    }
  }

  /** A series' own index shows, at every instant, what the whole index shows of that series. */
  lemma SeriesIndexIsTheIndexOfTheSeries(records: seq<Record>, rule: Rule, series: string, t: real)
    ensures Indexed(IndexOf(records, rule)) && Indexed(IndexOf(Filter(InSeries(series), records), rule))
    ensures VisibleAsOf(IndexOf(Filter(InSeries(series), records), rule), t)
         == Filter(InSeries(series), VisibleAsOf(IndexOf(records, rule), t))
  {
    var own := Filter(InSeries(series), records);
    var visible := VisibleBy(t, rule);
    var both := (r: Record) => r.series == series && r.stamp.VisibleAt(t, rule);
    BisectionIsRescan(records, rule, t);
    BisectionIsRescan(own, rule, t);
    FilterTwice(InSeries(series), visible, both, records);
    FilterTwice(visible, InSeries(series), both, records);
    KnowledgeOrderIsTotal(rule);
    FilterSort(ByKnowledge(rule), InSeries(series), Filter(visible, records));
  }

  /** The index of an admissible set satisfies everything the readings above ask of it. */
  lemma AdmissibleIndexIsWellBuilt(records: seq<Record>, rule: Rule)
    requires DistinctRevisions(records)
    ensures WellBuilt(IndexOf(records, rule))
  {
    var index := IndexOf(records, rule);
    IndexOfIndexed(records, rule);
    assert forall i | 0 <= i < |index.records| :: index.records[i] in index.records;
    forall a, b | a in index.records && b in index.records && FigureOf(a) == FigureOf(b) && a.revision == b.revision
      ensures a == b
    {
      var i :| 0 <= i < |records| && records[i] == a;
      var j :| 0 <= j < |records| && records[j] == b;
    }
  }

  /** The two records on which the timeline and the rule part are a set that builds, under its own index. */
  lemma AdmissibleSetsCanDisagree()
    ensures Admissible([RESTATED, PRINTED]) && SortedBy(InSetOrder, [RESTATED, PRINTED])
    ensures WellBuilt(IndexOf([RESTATED, PRINTED], Publication))
    ensures !AgreesAt(IndexOf([RESTATED, PRINTED], Publication), AsKnown, 4.0)
  {
    RestatedIsAdmissible();
    PairIsIndexed();
    TimelineCanDisagree();
  }

  lemma RestatedIsAdmissible()
    ensures Admissible([RESTATED, PRINTED]) && SortedBy(InSetOrder, [RESTATED, PRINTED])
  {
    forall a, b | Follows([RESTATED, PRINTED], a, b) ensures PublishedInOrder(a, b) {
      assert a == PRINTED && b == RESTATED;
    }
  }

  lemma PairIsIndexed()
    ensures IndexOf([RESTATED, PRINTED], Publication) == PairIndex(PRINTED, RESTATED)
  {
    var s, le := [RESTATED, PRINTED], ByKnowledge(Publication);
    FilterAll(IsKnowable(Publication), s);
    FilterNone(NeverKnowable(Publication), s);
    assert s[1..] == [PRINTED] && [PRINTED][1..] == [];
    assert Sort(le, [PRINTED]) == [PRINTED];
    assert !le(RESTATED, PRINTED);
    assert Insert(le, RESTATED, [PRINTED]) == [PRINTED] + Insert(le, RESTATED, []);
    SameElements(Map(InstantUnder(Publication), [PRINTED, RESTATED]), [3.0, 4.0]);
  }
}
