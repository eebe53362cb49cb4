/**
 Reading a set of vintages at an instant: one record per figure, the most recent
 figure of a series, and the timeline that precomputes the latter.
 */
module Readings {
  import opened Outcomes
  import opened Ordering
  import opened Text
  import opened PointInTime

  /** Which revision research reads: the highest knowable, or the value as first published. */
  datatype Policy = AsKnown | Original

  datatype Figure = Figure(series: string, period: string)

  function FigureOf(r: Record): Figure { Figure(r.series, r.figure) }

  function OfFigure(f: Figure): Record -> bool { (r: Record) => FigureOf(r) == f }

  function InSeries(s: string): Record -> bool { (r: Record) => r.series == s }

  function ReadUnder(policy: Policy): Record -> bool { (r: Record) => policy.AsKnown? || r.revision == 0 }

  /** No figure has two records at one revision: what every observation set checks of itself. */
  ghost predicate UniqueVintages(s: seq<Record>) {
    forall a, b | a in s && b in s && FigureOf(a) == FigureOf(b) && a.revision == b.revision :: a == b
  }

  // ------------------------------------------------------------- reading order

  predicate FigureAtMost(a: Figure, b: Figure) {
    if a.series != b.series then AtMost(a.series, b.series) else AtMost(a.period, b.period)
  }

  /** (observation instant, figure, revision). */
  predicate ReadBefore(a: Record, b: Record) {
    if a.stamp.observedAt != b.stamp.observedAt then a.stamp.observedAt < b.stamp.observedAt
    else if FigureOf(a) != FigureOf(b) then FigureAtMost(FigureOf(a), FigureOf(b))
    else a.revision <= b.revision
  }

  lemma FigureOrderIsTotal(a: Figure, b: Figure, c: Figure)
    ensures FigureAtMost(a, b) || FigureAtMost(b, a)
    ensures FigureAtMost(a, b) && FigureAtMost(b, a) ==> a == b
    ensures FigureAtMost(a, b) && FigureAtMost(b, c) ==> FigureAtMost(a, c)
  {
    AtMostTotal(a.series, b.series);
    AtMostTotal(a.period, b.period);
    if FigureAtMost(a, b) && FigureAtMost(b, a) {
      if a.series != b.series {
        AtMostBothWays(a.series, b.series);
      } else {
        AtMostBothWays(a.period, b.period);
      }
    }
    if FigureAtMost(a, b) && FigureAtMost(b, c) {
      if a.series != b.series && b.series != c.series {
        AtMostChains(a.series, b.series, c.series);
        if a.series == c.series {
          AtMostBothWays(a.series, b.series);
        }
      } else if a.series == b.series && b.series == c.series {
        AtMostChains(a.period, b.period, c.period);
      }
    }
  }

  lemma ReadingOrderIsTotal()
    ensures TotalPreorder(ReadBefore)
  {
    forall x, y ensures ReadBefore(x, y) || ReadBefore(y, x) {
      FigureOrderIsTotal(FigureOf(x), FigureOf(y), FigureOf(y));
    }
    forall x, y, z | ReadBefore(x, y) && ReadBefore(y, z) ensures ReadBefore(x, z) {
      FigureOrderIsTotal(FigureOf(x), FigureOf(y), FigureOf(z));
      FigureOrderIsTotal(FigureOf(x), FigureOf(y), FigureOf(y));
    }
  }

  lemma UniqueVintagesNoTies(s: seq<Record>)
    requires UniqueVintages(s)
    ensures NoTies(ReadBefore, s)
  {
    forall x, y | x in s && y in s && ReadBefore(x, y) && ReadBefore(y, x) ensures x == y {
      FigureOrderIsTotal(FigureOf(x), FigureOf(y), FigureOf(y));
    }
  }

  // ------------------------------------------------------ one record per figure

  /** The dictionary `latest_vintages` fills: a later record displaces only a lower revision. */
  function BestOf(s: seq<Record>): map<Figure, Record> {
    if s == [] then map[]
    else
      var best, r := BestOf(s[..|s| - 1]), s[|s| - 1];
      if FigureOf(r) !in best || r.revision > best[FigureOf(r)].revision then best[FigureOf(r) := r] else best
  }

  /** No record of the same figure in `s` carries a higher revision. */
  ghost predicate Current(s: seq<Record>, r: Record) {
    r in s && forall q | q in s && FigureOf(q) == FigureOf(r) :: q.revision <= r.revision
  }

  lemma {:induction false} BestOfFacts(s: seq<Record>)
    ensures forall f | f in BestOf(s) :: FigureOf(BestOf(s)[f]) == f && Current(s, BestOf(s)[f])
    ensures forall r | r in s :: FigureOf(r) in BestOf(s)
  {
    if s == [] {
    } else {
      var front, r := s[..|s| - 1], s[|s| - 1];
      BestOfFacts(front);
      assert s == front + [r];
    }
  }

  /** One record per figure, its highest revision, in reading order. */
  method LatestVintages(s: seq<Record>) returns (chosen: seq<Record>)
    ensures chosen == LatestOf(s) && InReadingOrder(chosen)
  {
    var best: map<Figure, Record> := map[];
    var figures: seq<Figure> := [];
    for k := 0 to |s|
      invariant best == BestOf(s[..k])
      invariant figures == FiguresOf(s[..k])
    {
      var r := s[k];
      assert s[..k + 1][..k] == s[..k] && s[..k + 1][k] == r;
      FiguresMatch(s[..k]);
      if FigureOf(r) !in best {
        figures := figures + [FigureOf(r)];
        best := best[FigureOf(r) := r];
      } else if r.revision > best[FigureOf(r)].revision {
        best := best[FigureOf(r) := r];
      }
    }
    TakeAll(s);
    FiguresMatch(s);
    chosen := Sort(ReadBefore, seq(|figures|, i requires 0 <= i < |figures| => best[figures[i]]));
    SortedReads(seq(|figures|, i requires 0 <= i < |figures| => best[figures[i]]));
  }

  /** By observation instant, then by series, then by period. */
  ghost predicate InReadingOrder(s: seq<Record>) {
    forall i, j | 0 <= i < j < |s| ::
      var a, b := s[i], s[j];
      a.stamp.observedAt < b.stamp.observedAt
      || (a.stamp.observedAt == b.stamp.observedAt
          && if a.series != b.series then AtMost(a.series, b.series) else AtMost(a.figure, b.figure))
  }

  lemma SortedReads(s: seq<Record>)
    ensures InReadingOrder(Sort(ReadBefore, s))
  {
    ReadingOrderIsTotal();
    SortSorts(ReadBefore, s);
    var sorted := Sort(ReadBefore, s);
    forall i, j | 0 <= i < j < |sorted|
      ensures ReadBefore(sorted[i], sorted[j]) && AtMost(sorted[i].figure, sorted[i].figure)
    {
      AtMostTotal(sorted[i].figure, sorted[i].figure);
    }
  }

  /** The dictionary's keys in the order they were first inserted. */
  function FiguresOf(s: seq<Record>): seq<Figure> {
    if s == [] then []
    else
      var figures, f := FiguresOf(s[..|s| - 1]), FigureOf(s[|s| - 1]);
      if f in figures then figures else figures + [f]
  }

  lemma {:induction false} FiguresMatch(s: seq<Record>)
    ensures forall f :: f in FiguresOf(s) <==> f in BestOf(s)
    ensures Distinct(FiguresOf(s))
  {
    if s != [] {
      FiguresMatch(s[..|s| - 1]);
    }
  }

  function LatestOf(s: seq<Record>): seq<Record> {
    var figures, best := FiguresOf(s), BestOf(s);
    FiguresMatch(s);
    Sort(ReadBefore, seq(|figures|, i requires 0 <= i < |figures| => best[figures[i]]))
  }

  /** A record is chosen exactly when it is its figure's highest revision. */
  lemma LatestOfChoosesCurrent(s: seq<Record>, r: Record)
    requires UniqueVintages(s)
    ensures r in LatestOf(s) <==> Current(s, r)
  {
    var figures, best := FiguresOf(s), BestOf(s);
    FiguresMatch(s);
    BestOfFacts(s);
    var values := seq(|figures|, i requires 0 <= i < |figures| => best[figures[i]]);
    SortPermutes(ReadBefore, values);
    if r in values {
      var i :| 0 <= i < |values| && values[i] == r;
      assert figures[i] in best;
    }
    if Current(s, r) {
      assert FigureOf(r) in figures;
      var i :| 0 <= i < |figures| && figures[i] == FigureOf(r);
      var chosen := best[figures[i]];
      assert Current(s, chosen) && FigureOf(chosen) == FigureOf(r);
      assert chosen.revision == r.revision;
      assert values[i] == r;
    }
  }

  /** The values as first published, in reading order. */
  function OriginalsOf(s: seq<Record>): seq<Record> { Sort(ReadBefore, Filter(ReadUnder(Original), s)) }

  // ---------------------------------------------------- the most recent figure

  /** `chosen[-1] if chosen else None`, with the vintages `policy` chooses. */
  function LatestInSeries(visible: seq<Record>, policy: Policy): Option<Record> {
    var chosen := if policy.AsKnown? then LatestOf(visible) else OriginalsOf(visible);
    if chosen == [] then None else Some(chosen[|chosen| - 1])
  }

  /** The greatest record in reading order, the first of equals. */
  function Newest(s: seq<Record>): Option<Record> {
    if s == [] then None
    else
      var best, r := Newest(s[..|s| - 1]), s[|s| - 1];
      if best.None? || !ReadBefore(r, best.value) then Some(r) else best
  }

  lemma {:induction false} NewestIsGreatest(s: seq<Record>)
    ensures Newest(s).None? <==> s == []
    ensures s != [] ==> Newest(s).value in s && forall x | x in s :: ReadBefore(x, Newest(s).value)
  {
    if s == [] {
    } else {
      var front, r := s[..|s| - 1], s[|s| - 1];
      NewestIsGreatest(front);
      assert s == front + [r];
      ReadingOrderIsTotal();
    }
  }

  lemma GreatestIsNewest(s: seq<Record>, m: Record)
    requires UniqueVintages(s) && m in s && forall x | x in s :: ReadBefore(x, m)
    ensures Newest(s) == Some(m)
  {
    NewestIsGreatest(s);
    UniqueVintagesNoTies(s);
  }

  lemma LastIsGreatest(s: seq<Record>)
    ensures var chosen := Sort(ReadBefore, s);
            |chosen| == |s| && (s != [] ==> chosen[|s| - 1] in s && forall x | x in s :: ReadBefore(x, chosen[|s| - 1]))
    ensures forall x :: x in Sort(ReadBefore, s) <==> x in s
  {
    ReadingOrderIsTotal();
    SortPermutes(ReadBefore, s);
    SortSorts(ReadBefore, s);
    var chosen := Sort(ReadBefore, s);
    forall x | x in s ensures ReadBefore(x, chosen[|s| - 1]) {
      assert x in chosen;
      var i :| 0 <= i < |chosen| && chosen[i] == x;
      assert i == |s| - 1 || ReadBefore(chosen[i], chosen[|s| - 1]);
      assert ReadBefore(x, x);
    }
  }

  /**
   Under `AsKnown`, the most recent figure of a series is the newest visible record
   exactly when that record has not been revised by another visible one.
   */
  lemma AsKnownIsNewestExactly(visible: seq<Record>)
    requires UniqueVintages(visible)
    ensures LatestInSeries(visible, AsKnown) == Newest(visible)
       <==> visible == [] || Current(visible, Newest(visible).value)
  {
    if visible != [] {
      NewestIsGreatest(visible);
      var m := Newest(visible).value;
      LatestHasGreatest(visible);
      LatestOfChoosesCurrent(visible, m);
      if Current(visible, m) {
        LastOfLatest(visible, m);
      }
    }
  }

  /** The newest record, if it is chosen, is read last. */
  lemma LastOfLatest(visible: seq<Record>, m: Record)
    requires UniqueVintages(visible) && m in visible && m in LatestOf(visible)
    requires forall x | x in visible :: ReadBefore(x, m)
    ensures LatestOf(visible)[|LatestOf(visible)| - 1] == m
  {
    LatestHasGreatest(visible);
    UniqueVintagesNoTies(visible);
  }

  lemma LatestHasGreatest(s: seq<Record>)
    requires UniqueVintages(s) && s != []
    ensures var latest := LatestOf(s);
            latest != [] && latest[|latest| - 1] in latest && latest[|latest| - 1] in s
            && forall x | x in latest :: ReadBefore(x, latest[|latest| - 1])
  {
    var latest := LatestOf(s);
    var values := LatestUnsorted(s);
    LastIsGreatest(values);
    LatestOfChoosesCurrent(s, latest[|latest| - 1]);
  }

  lemma LatestUnsorted(s: seq<Record>) returns (values: seq<Record>)
    ensures LatestOf(s) == Sort(ReadBefore, values)
    ensures s != [] ==> values != []
  {
    var figures, best := FiguresOf(s), BestOf(s);
    FiguresMatch(s);
    values := seq(|figures|, i requires 0 <= i < |figures| => best[figures[i]]);
    if s != [] {
      BestOfFacts(s);
      assert s[0] in s;
      assert FigureOf(s[0]) in figures;
    }
  }

  /** Under `Original`, it always is the newest of the originals. */
  lemma OriginalIsNewest(visible: seq<Record>)
    requires UniqueVintages(visible)
    ensures LatestInSeries(visible, Original) == Newest(Filter(ReadUnder(Original), visible))
    ensures LatestInSeries(visible, Original).None? <==> forall r | r in visible :: r.revision != 0
    ensures LatestInSeries(visible, Original).Some? ==>
              var m := LatestInSeries(visible, Original).value;
              m in visible && m.revision == 0 && forall r | r in visible && r.revision == 0 :: ReadBefore(r, m)
  {
    forall r: Record ensures r in Filter(ReadUnder(Original), visible) <==> r in visible && r.revision == 0 {
      FilterMember(ReadUnder(Original), visible, r);
    }
    var originals := Filter(ReadUnder(Original), visible);
    LastIsGreatest(originals);
    if originals != [] {
      OriginalsStayUnique(visible);
      GreatestIsNewest(originals, OriginalsOf(visible)[|originals| - 1]);
    }
  }

  lemma OriginalsStayUnique(visible: seq<Record>)
    requires UniqueVintages(visible)
    ensures UniqueVintages(Filter(ReadUnder(Original), visible))
  {
    forall x ensures x in Filter(ReadUnder(Original), visible) ==> x in visible {
      FilterMember(ReadUnder(Original), visible, x);
    }
  }

  /** Revising a figure never moves its observation instant back. */
  ghost predicate ObservedForward(s: seq<Record>) {
    forall a, b | a in s && b in s && FigureOf(a) == FigureOf(b) && a.revision < b.revision ::
      a.stamp.observedAt <= b.stamp.observedAt
  }

  // ---------------------------------------------------------------- the timeline

  /** The last entry at or before an instant. */
  function AnswerAt(timeline: seq<(real, Record)>, t: real): Option<Record> {
    if timeline == [] then None
    else
      var last := timeline[|timeline| - 1];
      if last.0 <= t then Some(last.1) else AnswerAt(timeline[..|timeline| - 1], t)
  }

  /** The answer a timeline precomputes: the newest of what `policy` reads among the visible. */
  function NewestVisible(index: Index, policy: Policy, t: real): Option<Record>
    requires Indexed(index)
  {
    Newest(Filter(ReadUnder(policy), VisibleAsOf(index, t)))
  }

  /** The timeline built from the first `done` records answers for those records at every instant. */
  ghost predicate AnswersFor(index: Index, policy: Policy, done: nat, timeline: seq<(real, Record)>)
    requires Indexed(index) && done <= |index.records|
  {
    && (timeline != [] ==> done > 0 && timeline[|timeline| - 1].0 <= index.instants[done - 1])
    && (forall t: real ::
          AnswerAt(timeline, t) == NewestOf(index, policy, done, t))
  }

  /** `done` does not cut a group of records known at the same instant. */
  ghost predicate Boundary(index: Index, done: nat)
    requires Indexed(index) && done <= |index.records|
  {
    0 < done < |index.records| ==> index.instants[done - 1] < index.instants[done]
  }

  lemma TimelineStep(index: Index, policy: Policy, from: nat, to: nat, timeline: seq<(real, Record)>,
                     best: Option<Record>, timeline': seq<(real, Record)>)
    requires Indexed(index) && from < to <= |index.records|
    requires Boundary(index, from) && Boundary(index, to)
    requires forall i | from <= i < to :: index.instants[i] == index.instants[from]
    requires AnswersFor(index, policy, from, timeline)
    requires best == Newest(Filter(ReadUnder(policy), index.records[..to]))
    requires timeline' == if best.Some? && (timeline == [] || timeline[|timeline| - 1].1 != best.value)
                          then timeline + [(index.instants[from], best.value)] else timeline
    requires best.None? ==> timeline == []
    ensures AnswersFor(index, policy, to, timeline')
  {
    forall t: real ensures AnswerAt(timeline', t) == NewestOf(index, policy, to, t) {
      TimelineStepAt(index, policy, from, to, timeline, best, timeline', t);
    }
  }

  /** The newest of the first `done` records that can be seen at `t`. */
  function NewestOf(index: Index, policy: Policy, done: nat, t: real): Option<Record>
    requires Indexed(index) && done <= |index.records|
  {
    var seen := if CountVisible(index, t) < done then CountVisible(index, t) else done;
    Newest(Filter(ReadUnder(policy), index.records[..seen]))
  }

  lemma TimelineStepAt(index: Index, policy: Policy, from: nat, to: nat, timeline: seq<(real, Record)>,
                       best: Option<Record>, timeline': seq<(real, Record)>, t: real)
    requires Indexed(index) && from < to <= |index.records|
    requires Boundary(index, from) && Boundary(index, to)
    requires forall i | from <= i < to :: index.instants[i] == index.instants[from]
    requires AnswerAt(timeline, t) == NewestOf(index, policy, from, t)
    requires timeline != [] ==> from > 0 && timeline[|timeline| - 1].0 <= index.instants[from - 1]
    requires timeline != [] && index.instants[from] <= t ==> AnswerAt(timeline, t) == Some(timeline[|timeline| - 1].1)
    requires best == Newest(Filter(ReadUnder(policy), index.records[..to]))
    requires timeline' == if best.Some? && (timeline == [] || timeline[|timeline| - 1].1 != best.value)
                          then timeline + [(index.instants[from], best.value)] else timeline
    requires best.None? ==> timeline == []
    ensures AnswerAt(timeline', t) == NewestOf(index, policy, to, t)
  {
    SeenAt(index, from, to, t);
    if timeline' != timeline {
      AnswerAfterAppend(timeline, (index.instants[from], best.value), t);
    }
  }

  /** A group of records known at one instant is seen whole or not at all. */
  lemma SeenAt(index: Index, from: nat, to: nat, t: real)
    requires Indexed(index) && from < to <= |index.records|
    requires forall i | from <= i < to :: index.instants[i] == index.instants[from]
    ensures if t < index.instants[from] then CountVisible(index, t) <= from else CountVisible(index, t) >= to
  {
    var k := CountVisible(index, t);
    assert k < |index.records| ==> t < index.instants[k];
    assert forall i | 0 <= i < to :: index.instants[i] <= index.instants[from];
  }

  lemma AnswerAfterAppend(timeline: seq<(real, Record)>, entry: (real, Record), t: real)
    ensures AnswerAt(timeline + [entry], t) == if entry.0 <= t then Some(entry.1) else AnswerAt(timeline, t)
  {
    assert (timeline + [entry])[..|timeline|] == timeline;
  }

  /** An empty reading stays empty only while nothing has been read, so nothing has been written either. */
  lemma NothingReadNothingWritten(index: Index, policy: Policy, done: nat, more: nat, timeline: seq<(real, Record)>)
    requires Indexed(index) && done <= more <= |index.records| && AnswersFor(index, policy, done, timeline)
    requires Newest(Filter(ReadUnder(policy), index.records[..more])).None?
    ensures timeline == []
  {
    if timeline != [] {
      var last := timeline[|timeline| - 1];
      assert AnswerAt(timeline, index.instants[done - 1]) == Some(last.1);
      var k := CountVisible(index, index.instants[done - 1]);
      var shorter := if k < done then k else done;
      NewestIsGreatest(Filter(ReadUnder(policy), index.records[..shorter]));
      NewestIsGreatest(Filter(ReadUnder(policy), index.records[..more]));
      assert index.records[..more] == index.records[..shorter] + index.records[shorter..more];
      FilterConcat(ReadUnder(policy), index.records[..shorter], index.records[shorter..more]);
      assert false;
    }
  }

  /** The inner loop: every record known at one instant, read before the timeline may change. */
  method ReadInstant(index: Index, policy: Policy, from: nat, read: Option<Record>)
    returns (position: nat, best: Option<Record>)
    requires Indexed(index) && from < |index.records|
    requires read == Newest(Filter(ReadUnder(policy), index.records[..from]))
    ensures from < position <= |index.records| && Boundary(index, position)
    ensures forall i | from <= i < position :: index.instants[i] == index.instants[from]
    ensures best == Newest(Filter(ReadUnder(policy), index.records[..position]))
  {
    position, best := from, read;
    var instant := index.instants[from];
    while position < |index.records| && index.instants[position] == instant
      invariant from <= position <= |index.records|
      invariant forall i | from <= i < position :: index.instants[i] == instant
      invariant best == Newest(Filter(ReadUnder(policy), index.records[..position]))
      decreases |index.records| - position
    {
      var record := index.records[position];
      ReadOne(index.records, policy, position, best);
      position := position + 1;
      if policy.Original? && record.revision != 0 {
        continue;
      }
      if best.None? || !ReadBefore(record, best.value) {
        best := Some(record);
      }
    }
    GroupEnds(index, from, position);
  }

  /** In strictly increasing time order, so one bisection reads it, and no entry repeating the one before. */
  ghost predicate EachEntryAChange(timeline: seq<(real, Record)>) {
    && (forall i, j | 0 <= i < j < |timeline| :: timeline[i].0 < timeline[j].0)
    && (forall i | 0 < i < |timeline| :: timeline[i - 1].1 != timeline[i].1)
  }

  /** An entry for the next group of records comes after every entry there is, and is written only for a change. */
  lemma ChangeAppended(index: Index, policy: Policy, from: nat, timeline: seq<(real, Record)>,
                       next: (real, Option<Record>))
    requires Indexed(index) && from < |index.records| && Boundary(index, from) && next.0 == index.instants[from]
    requires AnswersFor(index, policy, from, timeline) && EachEntryAChange(timeline)
    ensures next.1.Some? && (timeline == [] || timeline[|timeline| - 1].1 != next.1.value) ==>
              EachEntryAChange(timeline + [(next.0, next.1.value)])
  {
  }

  /** One linear pass precomputes the answer at every instant, as one entry for each change of it. */
  method LatestTimeline(index: Index, policy: Policy) returns (timeline: seq<(real, Record)>)
    requires Indexed(index)
    ensures forall t: real :: AnswerAt(timeline, t) == NewestVisible(index, policy, t)
    ensures EachEntryAChange(timeline)
  {
    timeline := [];
    var best: Option<Record> := None;
    var position := 0;
    NothingRead(index, policy);
    while position < |index.records|
      invariant position <= |index.records| && Boundary(index, position)
      invariant best == Newest(Filter(ReadUnder(policy), index.records[..position]))
      invariant AnswersFor(index, policy, position, timeline)
      invariant EachEntryAChange(timeline)
    {
      ghost var from, before := position, timeline;
      var instant := index.instants[position];
      position, best := ReadInstant(index, policy, position, best);
      if best.None? {
        NothingReadNothingWritten(index, policy, from, position, timeline);
      }
      if best.Some? && (timeline == [] || timeline[|timeline| - 1].1 != best.value) {
        timeline := timeline + [(instant, best.value)];
      }
      TimelineStep(index, policy, from, position, before, best, timeline);
      ChangeAppended(index, policy, from, before, (instant, best));
    }
    EverythingRead(index, policy, timeline);
  }

  lemma NothingRead(index: Index, policy: Policy)
    requires Indexed(index)
    ensures AnswersFor(index, policy, 0, []) && Newest(Filter(ReadUnder(policy), index.records[..0])) == None
  {
    assert index.records[..0] == [];
  }

  lemma EverythingRead(index: Index, policy: Policy, timeline: seq<(real, Record)>)
    requires Indexed(index) && AnswersFor(index, policy, |index.records|, timeline)
    ensures forall t: real :: AnswerAt(timeline, t) == NewestVisible(index, policy, t)
  {
    forall t: real ensures AnswerAt(timeline, t) == NewestVisible(index, policy, t) {
      var k := CountVisible(index, t);
      assert AnswerAt(timeline, t) == Newest(Filter(ReadUnder(policy),
               index.records[..if k < |index.records| then k else |index.records|]));
    }
  }

  lemma ReadOne(records: seq<Record>, policy: Policy, k: nat, best: Option<Record>)
    requires k < |records| && best == Newest(Filter(ReadUnder(policy), records[..k]))
    ensures Newest(Filter(ReadUnder(policy), records[..k + 1]))
         == if ReadUnder(policy)(records[k]) && (best.None? || !ReadBefore(records[k], best.value))
            then Some(records[k]) else best
  {
    var before, r := Filter(ReadUnder(policy), records[..k]), records[k];
    assert records[..k + 1] == records[..k] + [r];
    FilterConcat(ReadUnder(policy), records[..k], [r]);
    assert Filter(ReadUnder(policy), [r]) == if ReadUnder(policy)(r) then [r] else [];
    assert (before + [r])[..|before|] == before;
    if !ReadUnder(policy)(r) {
      assert before + [] == before;
    }
  }

  lemma GroupEnds(index: Index, from: nat, to: nat)
    requires Indexed(index) && from < to <= |index.records|
    requires forall i | from <= i < to :: index.instants[i] == index.instants[from]
    requires to == |index.records| || index.instants[to] != index.instants[from]
    ensures Boundary(index, to)
  {
    assert to < |index.records| ==> index.instants[to - 1] <= index.instants[to];
  }

  // --------------------------------------------- the timeline against the rule

  /** At `t`, the timeline gives what reading the series there gives. */
  ghost predicate AgreesAt(index: Index, policy: Policy, t: real)
    requires Indexed(index)
  {
    NewestVisible(index, policy, t) == LatestInSeries(VisibleAsOf(index, t), policy)
  }

  /** A built index of vintages: every record knowable, at the instant listed beside it. */
  ghost predicate WellBuilt(index: Index) {
    && Indexed(index) && UniqueVintages(index.records)
    && (forall i | 0 <= i < |index.records| ::
          Knowable(index.records[i], index.rule) && index.instants[i] == Instant(index.records[i], index.rule))
  }

  ghost function LaterInstant(index: Index, a: Record, b: Record): real {
    if Instant(a, index.rule) < Instant(b, index.rule) then Instant(b, index.rule) else Instant(a, index.rule)
  }

  /**
   By the time a record and a revision of it are both knowable, something knowable
   reads after the record: the revision itself, or a newer figure.
   */
  ghost predicate RevisedAreOutranked(index: Index) {
    forall m, q | m in index.records && q in index.records && FigureOf(m) == FigureOf(q) && m.revision < q.revision ::
      Outranked(index, m, LaterInstant(index, m, q))
  }

  ghost predicate Outranked(index: Index, m: Record, at: real) {
    exists x :: x in index.records && Instant(x, index.rule) <= at && !ReadBefore(x, m)
  }

  lemma VisibleMembers(index: Index, t: real, r: Record)
    requires WellBuilt(index)
    ensures r in VisibleAsOf(index, t) <==> r in index.records && Instant(r, index.rule) <= t
  {
    SplitIsFilter(index, t);
    FilterMember(VisibleBy(t, index.rule), index.records, r);
    if r in index.records {
      var i :| 0 <= i < |index.records| && index.records[i] == r;
    }
  }

  lemma OriginalAgrees(index: Index, t: real)
    requires WellBuilt(index)
    ensures AgreesAt(index, Original, t)
  {
    forall r | r in VisibleAsOf(index, t) ensures r in index.records {
      VisibleMembers(index, t, r);
    }
    OriginalIsNewest(VisibleAsOf(index, t));
  }

  lemma AsKnownAgreesWhereCurrent(index: Index, t: real)
    requires WellBuilt(index)
    ensures AgreesAt(index, AsKnown, t)
       <==> VisibleAsOf(index, t) == [] || Current(VisibleAsOf(index, t), Newest(VisibleAsOf(index, t)).value)
  {
    var visible := VisibleAsOf(index, t);
    forall r | r in visible ensures r in index.records {
      VisibleMembers(index, t, r);
    }
    FilterAll(ReadUnder(AsKnown), visible);
    AsKnownIsNewestExactly(visible);
  }

  /**
   The timeline agrees with reading the series at every instant exactly when no record
   is still the newest at the moment one of its revisions is knowable beside it.
   */
  lemma TimelineAgreesExactly(index: Index)
    requires WellBuilt(index)
    ensures (forall t: real :: AgreesAt(index, AsKnown, t)) <==> RevisedAreOutranked(index)
  {
    if RevisedAreOutranked(index) {
      forall t: real ensures AgreesAt(index, AsKnown, t) {
        OutrankedAgrees(index, t);
      }
    }
    if forall t: real :: AgreesAt(index, AsKnown, t) {
      forall m, q | m in index.records && q in index.records && FigureOf(m) == FigureOf(q) && m.revision < q.revision
        ensures Outranked(index, m, LaterInstant(index, m, q))
      {
        assert AgreesAt(index, AsKnown, LaterInstant(index, m, q));
        AgreementOutranks(index, m, q);
      }
    }
  }

  lemma OutrankedAgrees(index: Index, t: real)
    requires WellBuilt(index) && RevisedAreOutranked(index)
    ensures AgreesAt(index, AsKnown, t)
  {
    AsKnownAgreesWhereCurrent(index, t);
    var visible := VisibleAsOf(index, t);
    if visible != [] {
      NewestIsGreatest(visible);
      var m := Newest(visible).value;
      VisibleMembers(index, t, m);
      forall q | q in visible && FigureOf(q) == FigureOf(m) ensures q.revision <= m.revision {
        VisibleMembers(index, t, q);
        if m.revision < q.revision {
          assert Outranked(index, m, LaterInstant(index, m, q));
          var x :| x in index.records && Instant(x, index.rule) <= LaterInstant(index, m, q) && !ReadBefore(x, m);
          VisibleMembers(index, t, x);
          assert false;
        }
      }
    }
  }

  lemma AgreementOutranks(index: Index, m: Record, q: Record)
    requires WellBuilt(index) && m in index.records && q in index.records
    requires FigureOf(m) == FigureOf(q) && m.revision < q.revision
    requires AgreesAt(index, AsKnown, LaterInstant(index, m, q))
    ensures Outranked(index, m, LaterInstant(index, m, q))
  {
    var t := LaterInstant(index, m, q);
    var visible := VisibleAsOf(index, t);
    VisibleMembers(index, t, m);
    VisibleMembers(index, t, q);
    AsKnownAgreesWhereCurrent(index, t);
    NewestIsGreatest(visible);
    var newest := Newest(visible).value;
    VisibleMembers(index, t, newest);
    if ReadBefore(newest, m) {
      forall x | x in visible ensures ReadBefore(x, m) && x in index.records {
        VisibleMembers(index, t, x);
        ReadingOrderIsTotal();
      }
      GreatestIsNewest(visible, m);
    }
  }

  /** Where no revision is observed before what it revises, the timeline always agrees. */
  lemma ObservedForwardAgrees(index: Index, t: real)
    requires WellBuilt(index) && ObservedForward(index.records)
    ensures AgreesAt(index, AsKnown, t)
  {
    forall m, q | m in index.records && q in index.records && FigureOf(m) == FigureOf(q) && m.revision < q.revision
      ensures Outranked(index, m, LaterInstant(index, m, q))
    {
      assert !ReadBefore(q, m);
    }
    OutrankedAgrees(index, t);
  }

  function PairIndex(first: Record, revised: Record): Index {
    Index(Publication, [first, revised], [Instant(first, Publication), Instant(revised, Publication)], [])
  }

  /** Every restatement observed earlier in its period than what it restates is misread, on its own. */
  lemma ObservedEarlierDisagrees(first: Record, revised: Record)
    requires FigureOf(first) == FigureOf(revised) && first.revision < revised.revision
    requires revised.stamp.observedAt < first.stamp.observedAt
    requires Knowable(first, Publication) && Knowable(revised, Publication)
    requires Instant(first, Publication) <= Instant(revised, Publication)
    ensures WellBuilt(PairIndex(first, revised))
    ensures !AgreesAt(PairIndex(first, revised), AsKnown, Instant(revised, Publication))
  {
    var index := PairIndex(first, revised);
    PairIsWellBuilt(first, revised);
    assert first in index.records && revised in index.records;
    assert !Outranked(index, first, Instant(revised, Publication));
    if AgreesAt(index, AsKnown, Instant(revised, Publication)) {
      AgreementOutranks(index, first, revised);
    }
  }

  lemma PairIsWellBuilt(first: Record, revised: Record)
    requires FigureOf(first) == FigureOf(revised) && first.revision < revised.revision
    requires Knowable(first, Publication) && Knowable(revised, Publication)
    requires Instant(first, Publication) <= Instant(revised, Publication)
    ensures WellBuilt(PairIndex(first, revised))
  {
  }

  const PRINTED: Record := Record("a", Stamp(2.0, Some(3.0), None), "cpi", "2024", 0, 1.0)
  const RESTATED: Record := Record("b", Stamp(1.0, Some(4.0), None), "cpi", "2024", 1, 2.0)

  /** So the timeline and the rule it precomputes can part: the 2024 figure, restated as of earlier in 2024. */
  lemma TimelineCanDisagree()
    ensures FigureOf(PRINTED) == FigureOf(RESTATED) && PRINTED.revision < RESTATED.revision
    ensures WellBuilt(PairIndex(PRINTED, RESTATED)) && !AgreesAt(PairIndex(PRINTED, RESTATED), AsKnown, 4.0)
  {
    ObservedEarlierDisagrees(PRINTED, RESTATED);
  }
}
