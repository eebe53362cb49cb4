/** Narrowing a dataset to what a study asked for, without showing it the future. */
module Selection {
  import opened Outcomes
  import opened Ordering
  import opened Datasets

  /** No symbols means every instrument; an absent bound leaves its side open. */
  datatype Request = Request(
    symbols: set<string>, start: Option<real>, end: Option<real>, basis: Option<PriceBasis>, asOf: Option<real>)

  datatype Selected = Selected(records: seq<WireRecord>, version: Option<string>, request: Request)

  datatype SelectionRefusal = Unversioned | OnAnotherBasis

  predicate InWindow(q: Request, t: real) {
    && (q.start.None? || q.start.value <= t)
    && (q.end.None? || t < q.end.value)
    && (q.asOf.None? || t <= q.asOf.value)
  }

  function Wanted(q: Request): WireRecord -> bool {
    (r: WireRecord) => (q.symbols == {} || r.symbol in q.symbols) && InWindow(q, r.timestamp)
  }

  function Narrow(records: seq<WireRecord>, q: Request): seq<WireRecord> { Filter(Wanted(q), records) }

  /** `select`: refused only over the price basis, otherwise the wanted records under the dataset's version. */
  function Select(d: Dataset, q: Request): (r: Result<Selected, SelectionRefusal>)
    ensures r.Ok? <==> q.basis.None? || (d.provenance.Some? && d.provenance.value.basis == q.basis.value)
    ensures r.Ok? ==> r.value.records == Narrow(d.records, q) && r.value.request == q
    ensures r.Ok? ==> forall x :: x in r.value.records <==>
              && x in d.records && (q.symbols == {} || x.symbol in q.symbols)
              && (q.start.Some? ==> q.start.value <= x.timestamp) && (q.end.Some? ==> x.timestamp < q.end.value)
              && (q.asOf.Some? ==> x.timestamp <= q.asOf.value)
    ensures r.Err? ==> r.error == if d.provenance.None? then Unversioned else OnAnotherBasis
    ensures r.Ok? ==> (r.value.version.Some? <==> d.provenance.Some?)
                      && (d.provenance.Some? ==> r.value.version.value == d.provenance.value.version)
  {
    if q.basis.Some? && d.provenance.None? then Err(Unversioned)
    else if q.basis.Some? && d.provenance.value.basis != q.basis.value then Err(OnAnotherBasis)
    else
      NarrowMembers(d.records, q);
      Ok(Selected(Narrow(d.records, q), if d.provenance.None? then None else Some(d.provenance.value.version), q))
  }

  lemma NarrowMembers(records: seq<WireRecord>, q: Request)
    ensures forall x :: x in Narrow(records, q) <==> x in records && Wanted(q)(x)
  {
    forall x ensures x in Narrow(records, q) <==> x in records && Wanted(q)(x) {
      FilterMember(Wanted(q), records, x);
    }
  }

  // ---------------------------------------------------------------- composition

  function Later(a: Option<real>, b: Option<real>): Option<real> {
    if a.None? then b else if b.None? then a else if a.value < b.value then b else a
  }

  function Earlier(a: Option<real>, b: Option<real>): Option<real> {
    if a.None? then b else if b.None? then a else if b.value < a.value then b else a
  }

  /** The one request that asks for what two in sequence ask for. */
  function Both(a: Request, b: Request): Request {
    Request(if a.symbols == {} then b.symbols else if b.symbols == {} then a.symbols else a.symbols * b.symbols,
            Later(a.start, b.start), Earlier(a.end, b.end), None, Earlier(a.asOf, b.asOf))
  }

  /** No instant is inside the window: it ends, or is cut off, before it starts. */
  predicate Impossible(q: Request) {
    q.start.Some? && ((q.end.Some? && q.end.value <= q.start.value) || (q.asOf.Some? && q.asOf.value < q.start.value))
  }

  /** The symbols do not cancel out to the empty set, which would ask for everything. */
  predicate Overlap(a: Request, b: Request) {
    a.symbols == {} || b.symbols == {} || a.symbols * b.symbols != {}
  }

  function SomeInstant(q: Request): (t: real)
    requires !Impossible(q)
    ensures InWindow(q, t)
  {
    if q.start.Some? then q.start.value
    else if q.end.None? && q.asOf.None? then 0.0
    else if q.end.None? then q.asOf.value
    else if q.asOf.None? || q.end.value <= q.asOf.value then q.end.value - 1.0
    else q.asOf.value
  }

  /**
   Selecting twice is selecting once by the combined request, on every dataset, exactly
   when the symbols overlap (or one side names none) or the combined window is impossible.
   */
  lemma SelectionsComposeExactly(a: Request, b: Request)
    ensures (forall records :: Narrow(Narrow(records, a), b) == Narrow(records, Both(a, b)))
       <==> Overlap(a, b) || Impossible(Both(a, b))
  {
    if Overlap(a, b) || Impossible(Both(a, b)) {
      forall records ensures Narrow(Narrow(records, a), b) == Narrow(records, Both(a, b)) {
        FilterTwice(Wanted(a), Wanted(b), Wanted(Both(a, b)), records);
      }
    } else {
      var r := WireBar("", SomeInstant(Both(a, b)), []);
      var records := [r];
      NarrowMembers(records, a);
      NarrowMembers(Narrow(records, a), b);
      NarrowMembers(records, Both(a, b));
      assert r in Narrow(records, Both(a, b));
      assert r.symbol !in a.symbols * b.symbols;
      assert r !in Narrow(Narrow(records, a), b);
    }
  }

  /** "A" and then "B" selects nothing, and the one request for both would select everything. */
  lemma DisjointSymbolsPart()
    ensures var a, b := Request({"A"}, None, None, None, None), Request({"B"}, None, None, None, None);
            var records := [WireBar("C", 0.0, [])];
            Narrow(Narrow(records, a), b) == [] && Narrow(records, Both(a, b)) == records
  {
    var a, b := Request({"A"}, None, None, None, None), Request({"B"}, None, None, None, None);
    var records := [WireBar("C", 0.0, [])];
    assert a.symbols * b.symbols == {};
    FilterNone(Wanted(a), records);
    FilterAll(Wanted(Both(a, b)), records);
  }

  // -------------------------------------------------------------- no look-ahead

  function NotAfter(t: real): WireRecord -> bool { (r: WireRecord) => r.timestamp <= t }

  /** Whatever is added, removed or changed after `as_of`, the selection is the same. */
  lemma SelectionCannotSeeAhead(a: seq<WireRecord>, b: seq<WireRecord>, q: Request)
    requires q.asOf.Some?
    requires Filter(NotAfter(q.asOf.value), a) == Filter(NotAfter(q.asOf.value), b)
    ensures Narrow(a, q) == Narrow(b, q)
  {
    FilterTwice(NotAfter(q.asOf.value), Wanted(q), Wanted(q), a);
    FilterTwice(NotAfter(q.asOf.value), Wanted(q), Wanted(q), b);
  }

  function AsOfOnly(t: real): Request { Request({}, None, None, None, Some(t)) }

  ghost predicate TimeOrdered(records: seq<WireRecord>) {
    forall i, j | 0 <= i < j < |records| :: records[i].timestamp <= records[j].timestamp
  }

  /** On a time-ordered dataset a cut-off selects a prefix, and a later cut-off a longer one. */
  lemma CutOffsSelectPrefixes(records: seq<WireRecord>, t: real, t': real)
    requires TimeOrdered(records) && t <= t'
    ensures Narrow(records, AsOfOnly(t)) <= records
    ensures Narrow(records, AsOfOnly(t)) <= Narrow(records, AsOfOnly(t'))
  {
    var k, k' := CutOff(records, t), CutOff(records, t');
    FilterPrefix(Wanted(AsOfOnly(t)), records, k);
    FilterPrefix(Wanted(AsOfOnly(t')), records, k');
    assert forall i | 0 <= i < k :: records[i].timestamp <= t';
    assert k' < |records| ==> t' < records[k'].timestamp;
  }

  ghost function CutOff(records: seq<WireRecord>, t: real): (k: nat)
    requires TimeOrdered(records)
    ensures k <= |records| && forall i | 0 <= i < |records| :: records[i].timestamp <= t <==> i < k
  {
    if records == [] then 0
    else if records[|records| - 1].timestamp <= t then |records|
    else CutOff(records[..|records| - 1], t)
  }
}
