/**
 A research study: each feature computed from a cached frame of its field, each feature
 and horizon measured, and the measurements flattened under keys that can be read back.
 */
module Studies {
  import opened Outcomes
  import opened Ordering
  import opened Text

  datatype Field = Open | High | Low | Close | Volume | Price | Size | Bid | Ask | Mid | Observation

  /** A feature definition, by what it is called, its derived version and the field it extracted. */
  datatype Feature = Feature(id: string, version: string, field: Field)

  datatype Failure =
    | NoHorizons
    | NoImplementationLag
    | WrongDelistings
    | NoDatasetNamed
    | UnversionedDataset
    | AnotherDataset
    | NotComputable(detail: string)
    | NothingMeasured

  // --------------------------------------------------------------- the frames

  /** What `study_panels` computes with no cache at all: a frame extracted for every feature. */
  function Recomputed<Frame, Panel>(features: seq<Feature>,
                                    extract: Field -> Result<Frame, Failure>,
                                    compute: (Feature, Frame) -> Result<Panel, Failure>)
    : Result<map<string, Panel>, Failure>
  {
    if features == [] then Ok(map[])
    else
      var panels, f := Recomputed(features[..|features| - 1], extract, compute), features[|features| - 1];
      if panels.Err? then panels
      else
        var frame := extract(f.field);
        if frame.Err? then Err(frame.error)
        else
          var panel := compute(f, frame.value);
          if panel.Err? then Err(panel.error) else Ok(panels.value[f.version := panel.value])
  }

  lemma {:induction false} RefusalStands<Frame, Panel>(features: seq<Feature>, k: nat,
                                                       extract: Field -> Result<Frame, Failure>,
                                                       compute: (Feature, Frame) -> Result<Panel, Failure>)
    requires k <= |features| && Recomputed(features[..k], extract, compute).Err?
    ensures Recomputed(features, extract, compute) == Recomputed(features[..k], extract, compute)
  {
    if k == |features| {
      assert features[..k] == features;
    } else {
      assert features[..|features| - 1][..k] == features[..k];
      RefusalStands(features[..|features| - 1], k, extract, compute);
    }
  }

  lemma RecomputedStep<Frame, Panel>(features: seq<Feature>, k: nat, extract: Field -> Result<Frame, Failure>,
                                     compute: (Feature, Frame) -> Result<Panel, Failure>)
    requires k < |features| && Recomputed(features[..k], extract, compute).Ok?
    ensures var f, panels := features[k], Recomputed(features[..k], extract, compute).value;
            Recomputed(features[..k + 1], extract, compute) ==
            if extract(f.field).Err? then Err(extract(f.field).error)
            else if compute(f, extract(f.field).value).Err? then Err(compute(f, extract(f.field).value).error)
            else Ok(panels[f.version := compute(f, extract(f.field).value).value])
  {
    assert features[..k + 1][..k] == features[..k];
  }

  /**
   The cached computation returns or refuses what recomputing every frame would, while
   `extracted` -- the fields in the order they were extracted -- never repeats one.
   */
  method StudyPanels<Frame, Panel>(features: seq<Feature>,
                                   extract: Field -> Result<Frame, Failure>,
                                   compute: (Feature, Frame) -> Result<Panel, Failure>)
    returns (r: Result<map<string, Panel>, Failure>, extracted: seq<Field>)
    ensures r == Recomputed(features, extract, compute)
    ensures Distinct(extracted) && forall field | field in extracted :: ReadBy(features, field)
    ensures r.Ok? ==> forall i | 0 <= i < |features| :: features[i].field in extracted
  {
    var frames: map<Field, Frame> := map[];
    var panels: map<string, Panel> := map[];
    extracted := [];
    for k := 0 to |features|
      invariant Recomputed(features[..k], extract, compute) == Ok(panels)
      invariant ReadOnce(features, extracted) && CachedUpTo(features, k, extracted, frames, extract)
    {
      var definition := features[k];
      RecomputedStep(features, k, extract, compute);
      var frame;
      frame, extracted, frames := FrameOf(features, k, extracted, frames, extract);
      if frame.Err? {
        RefusalStands(features, k + 1, extract, compute);
        return Err(frame.error), extracted;
      }
      var panel := compute(definition, frame.value);
      if panel.Err? {
        RefusalStands(features, k + 1, extract, compute);
        return Err(panel.error), extracted;
      }
      panels := panels[definition.version := panel.value];
    }
    TakeAll(features);
    return Ok(panels), extracted;
  }

  /** A feature's frame, out of the cache or extracted into it. */
  method FrameOf<Frame>(features: seq<Feature>, k: nat, extracted: seq<Field>, frames: map<Field, Frame>,
                        extract: Field -> Result<Frame, Failure>)
    returns (r: Result<Frame, Failure>, extracted': seq<Field>, frames': map<Field, Frame>)
    requires k < |features| && ReadOnce(features, extracted) && CachedUpTo(features, k, extracted, frames, extract)
    ensures r == extract(features[k].field) && ReadOnce(features, extracted')
    ensures r.Ok? ==> CachedUpTo(features, k + 1, extracted', frames', extract)
  {
    var field := features[k].field;
    extracted', frames' := extracted, frames;
    if field !in frames {
      ExtractedOnceMore(features, k, extracted, frames, extract);
      extracted' := extracted + [field];
      var frame := extract(field);
      if frame.Err? {
        return Err(frame.error), extracted', frames';
      }
      frames' := frames[field := frame.value];
    }
    r := Ok(frames'[field]);
  }

  ghost predicate ReadBy(features: seq<Feature>, field: Field) {
    exists i :: 0 <= i < |features| && features[i].field == field
  }

  ghost predicate ReadOnce(features: seq<Feature>, extracted: seq<Field>) {
    Distinct(extracted) && forall field | field in extracted :: ReadBy(features, field)
  }

  /** The cache holds the frame of every field extracted, and of no other. */
  ghost predicate Cached<Frame>(extracted: seq<Field>, frames: map<Field, Frame>,
                                extract: Field -> Result<Frame, Failure>) {
    && (forall field :: field in extracted <==> field in frames)
    && (forall field | field in frames :: extract(field) == Ok(frames[field]))
  }

  ghost predicate CachedUpTo<Frame>(features: seq<Feature>, k: nat, extracted: seq<Field>, frames: map<Field, Frame>,
                                    extract: Field -> Result<Frame, Failure>)
    requires k <= |features|
  {
    Cached(extracted, frames, extract) && forall i | 0 <= i < k :: features[i].field in frames
  }

  lemma ExtractedOnceMore<Frame>(features: seq<Feature>, k: nat, extracted: seq<Field>, frames: map<Field, Frame>,
                                 extract: Field -> Result<Frame, Failure>)
    requires k < |features| && features[k].field !in frames && Cached(extracted, frames, extract)
    requires ReadOnce(features, extracted)
    ensures var more := extracted + [features[k].field];
            && ReadOnce(features, more)
            && (extract(features[k].field).Ok? ==>
                  Cached(more, frames[features[k].field := extract(features[k].field).value], extract))
  {
    assert forall i | 0 <= i < |extracted| :: extracted[i] in extracted;
  }

  // -------------------------------------------------------------- the flat keys

  datatype Quantity = RankIc | Instants | Observations | PearsonIc | IcHitRate | RankIcNwT | Spread | Monotonicity

  function Name(q: Quantity): (s: string)
    ensures '.' !in s
  {
    match q
    case RankIc => "rank_ic"
    case Instants => "instants"
    case Observations => "observations"
    case PearsonIc => "pearson_ic"
    case IcHitRate => "ic_hit_rate"
    case RankIcNwT => "rank_ic_nw_t"
    case Spread => "spread"
    case Monotonicity => "monotonicity"
  }

  function Named(s: string): (r: Option<Quantity>)
    ensures r.Some? ==> Name(r.value) == s
    ensures r.None? ==> forall q :: Name(q) != s
  {
    if s == Name(RankIc) then Some(RankIc)
    else if s == Name(Instants) then Some(Instants)
    else if s == Name(Observations) then Some(Observations)
    else if s == Name(PearsonIc) then Some(PearsonIc)
    else if s == Name(IcHitRate) then Some(IcHitRate)
    else if s == Name(RankIcNwT) then Some(RankIcNwT)
    else if s == Name(Spread) then Some(Spread)
    else if s == Name(Monotonicity) then Some(Monotonicity)
    else None
  }

  function Prefix(id: string, horizon: nat): string { id + ".h" + Numeral(horizon) }

  function MetricKey(id: string, horizon: nat, q: Quantity): string { Prefix(id, horizon) + "." + Name(q) }

  /** The text before and after the last occurrence of `c`. */
  function SplitLast(s: string, c: char): (r: Option<(string, string)>)
    ensures r.Some? ==> s == r.value.0 + [c] + r.value.1 && c !in r.value.1
    ensures r.None? ==> c !in s
  {
    if s == [] then None
    else
      var n := |s| - 1;
      assert s == s[..n] + [s[n]];
      if s[n] == c then Some((s[..n], []))
      else
        var front := SplitLast(s[..n], c);
        if front.None? then None else Some((front.value.0, front.value.1 + [s[n]]))
  }

  lemma {:induction false} SplitLastUnique(head: string, c: char, tail: string)
    requires c !in tail
    ensures SplitLast(head + [c] + tail, c) == Some((head, tail))
  {
    var s := head + [c] + tail;
    var n := |s| - 1;
    if tail == [] {
      assert s[..n] == head;
    } else {
      var m := |tail| - 1;
      assert s[n] == tail[m] && tail[m] in tail;
      assert s[..n] == head + [c] + tail[..m];
      assert forall x | x in tail[..m] :: x in tail;
      SplitLastUnique(head, c, tail[..m]);
      assert tail == tail[..m] + [tail[m]];
    }
  }

  /** Reads a key from its right end: the quantity, then the horizon, and what is left is the feature. */
  function ReadKey(key: string): Option<(string, nat, Quantity)> {
    var outer := SplitLast(key, '.');
    if outer.None? then None
    else
      var q := Named(outer.value.1);
      var inner := SplitLast(outer.value.0, '.');
      if q.None? || inner.None? then None
      else
        var h := inner.value.1;
        if h == [] || h[0] != 'h' || !IsNumeral(h[1..]) then None
        else Some((inner.value.0, Value(h[1..]), q.value))
  }

  /** Every key extracted back to the feature, horizon and quantity it was written from -- dots, ".h" and all. */
  lemma KeysReadBack(id: string, horizon: nat, q: Quantity)
    ensures ReadKey(MetricKey(id, horizon, q)) == Some((id, horizon, q))
  {
    SplitLastUnique(Prefix(id, horizon), '.', Name(q));
    NamesDistinct(q, Named(Name(q)).value);
    PrefixReadsBack(id, horizon);
  }

  lemma PrefixReadsBack(id: string, horizon: nat)
    ensures SplitLast(Prefix(id, horizon), '.') == Some((id, "h" + Numeral(horizon)))
    ensures ("h" + Numeral(horizon))[1..] == Numeral(horizon) && IsNumeral(Numeral(horizon))
  {
    var numeral := Numeral(horizon);
    assert forall c | c in numeral :: IsDigit(c);
    assert Prefix(id, horizon) == id + ['.'] + ("h" + numeral);
    SplitLastUnique(id, '.', "h" + numeral);
    assert numeral[0] == '0' ==> numeral == "0";
  }

  lemma NamesDistinct(p: Quantity, q: Quantity)
    ensures Name(p) == Name(q) ==> p == q
  {
    var first := map[RankIc := 'r', Instants := 'i', Observations := 'o', PearsonIc := 'p', IcHitRate := 'i',
                     RankIcNwT := 'r', Spread := 's', Monotonicity := 'm'];
    assert Name(p)[0] == first[p] && Name(q)[0] == first[q];
    assert |Name(RankIc)| == 7 && |Name(RankIcNwT)| == 12 && |Name(Instants)| == 8 && |Name(IcHitRate)| == 11;
  }

  lemma ReadKeyWrites(key: string)
    requires ReadKey(key).Some?
    ensures var (id, horizon, q) := ReadKey(key).value; key == MetricKey(id, horizon, q)
  {
    var outer := SplitLast(key, '.').value;
    var inner := SplitLast(outer.0, '.').value;
    var numeral := inner.1[1..];
    NumeralOfValue(numeral);
    assert inner.1 == "h" + numeral;
    WrittenPrefix(outer.0, inner.0, inner.1, Value(numeral));
    assert key == outer.0 + "." + outer.1;
  }

  lemma WrittenPrefix(prefix: string, id: string, h: string, horizon: nat)
    requires prefix == id + ['.'] + h && h == "h" + Numeral(horizon)
    ensures prefix == Prefix(id, horizon)
  {
  }

  /** And only such keys read back: what `ReadKey` accepts is exactly what the study writes. */
  lemma OnlyKeysReadBack(key: string, id: string, horizon: nat, q: Quantity)
    ensures ReadKey(key) == Some((id, horizon, q)) <==> key == MetricKey(id, horizon, q)
  {
    if key == MetricKey(id, horizon, q) {
      KeysReadBack(id, horizon, q);
    } else if ReadKey(key).Some? {
      ReadKeyWrites(key);
    }
  }

  // ------------------------------------------------------------ the measurements

  /** What one feature measured at one horizon came to; an absent measurement is not a zero. */
  datatype Diagnostics = Diagnostics(
    meanRank: Option<real>, meanPearson: Option<real>, hitRate: Option<real>, rankT: Option<real>,
    instants: nat, observations: nat, spread: Option<real>, monotonicity: Option<real>)

  /** The value a diagnostic contributes to a quantity, if it measured one. */
  function Measured(d: Diagnostics, q: Quantity): Option<real> {
    match q
    case RankIc => d.meanRank
    case Instants => if d.meanRank.Some? then Some(d.instants as real) else None
    case Observations => if d.meanRank.Some? then Some(d.observations as real) else None
    case PearsonIc => if d.meanRank.Some? then d.meanPearson else None
    case IcHitRate => if d.meanRank.Some? then d.hitRate else None
    case RankIcNwT => if d.meanRank.Some? then d.rankT else None
    case Spread => d.spread
    case Monotonicity => d.monotonicity
  }

  /** A finding names the measurement that could not be made, by the prefix its key would have had. */
  datatype Finding = Finding(prefix: string, missing: Quantity)

  datatype Row = Row(id: string, horizon: nat, d: Diagnostics)

  function Put(m: map<string, real>, row: Row, q: Quantity): map<string, real> {
    var value := Measured(row.d, q);
    if value.None? then m else m[MetricKey(row.id, row.horizon, q) := value.value]
  }

  const WRITTEN: seq<Quantity> :=
    [RankIc, Instants, Observations, PearsonIc, IcHitRate, RankIcNwT, Spread, Monotonicity]

  function PutAll(m: map<string, real>, row: Row, qs: seq<Quantity>): map<string, real> {
    if qs == [] then m else Put(PutAll(m, row, qs[..|qs| - 1]), row, qs[|qs| - 1])
  }

  /** The flat mapping the rows fill, later rows over earlier ones. */
  function MetricsOf(rows: seq<Row>): map<string, real> {
    if rows == [] then map[] else PutAll(MetricsOf(rows[..|rows| - 1]), rows[|rows| - 1], WRITTEN)
  }

  function RowFindings(row: Row): seq<Finding> {
    (if row.d.meanRank.None? then [Finding(Prefix(row.id, row.horizon), RankIc)] else [])
    + (if row.d.spread.None? then [Finding(Prefix(row.id, row.horizon), Spread)] else [])
  }

  function FindingsOf(rows: seq<Row>): seq<Finding> {
    if rows == [] then [] else FindingsOf(rows[..|rows| - 1]) + RowFindings(rows[|rows| - 1])
  }

  /** `key` is where `row` writes its measurement of `q`. */
  ghost predicate WritesTo(row: Row, q: Quantity, key: string) {
    Measured(row.d, q).Some? && key == MetricKey(row.id, row.horizon, q)
  }

  lemma {:induction false} PutAllMembers(m: map<string, real>, row: Row, qs: seq<Quantity>, key: string)
    ensures key in PutAll(m, row, qs) <==> key in m || SomeWriteTo(row, qs, key)
  {
    if qs != [] {
      PutAllMembers(m, row, qs[..|qs| - 1], key);
      SomeWriteToStep(row, qs, key);
    }
  }

  ghost predicate SomeWriteTo(row: Row, qs: seq<Quantity>, key: string) {
    exists q :: q in qs && WritesTo(row, q, key)
  }

  lemma SomeWriteToStep(row: Row, qs: seq<Quantity>, key: string)
    requires qs != []
    ensures SomeWriteTo(row, qs, key) <==> WritesTo(row, qs[|qs| - 1], key) || SomeWriteTo(row, qs[..|qs| - 1], key)
  {
    if q :| q in qs && WritesTo(row, q, key) && q != qs[|qs| - 1] {
      assert q in qs[..|qs| - 1];
    }
  }

  lemma {:induction false} PutAllLeaves(m: map<string, real>, row: Row, qs: seq<Quantity>, key: string)
    requires key in m && forall q | q in qs :: !WritesTo(row, q, key)
    ensures key in PutAll(m, row, qs) && PutAll(m, row, qs)[key] == m[key]
  {
    if qs != [] {
      var n := |qs| - 1;
      PutAllLeaves(m, row, qs[..n], key);
      assert !WritesTo(row, qs[n], key);
    }
  }

  lemma {:induction false} PutAllValues(m: map<string, real>, row: Row, qs: seq<Quantity>, q: Quantity)
    requires q in qs && Measured(row.d, q).Some?
    ensures var key := MetricKey(row.id, row.horizon, q);
            key in PutAll(m, row, qs) && PutAll(m, row, qs)[key] == Measured(row.d, q).value
  {
    var n := |qs| - 1;
    if q != qs[n] {
      SplitAt(qs, n);
      PutAllValues(m, row, qs[..n], q);
      PutLeaves(PutAll(m, row, qs[..n]), row, q, qs[n]);
    }
  }

  /** Writing one quantity leaves the value under another's key. */
  lemma PutLeaves(m: map<string, real>, row: Row, q: Quantity, other: Quantity)
    requires q != other && MetricKey(row.id, row.horizon, q) in m
    ensures var key := MetricKey(row.id, row.horizon, q);
            key in Put(m, row, other) && Put(m, row, other)[key] == m[key]
  {
    DistinctKeys(row, q, other);
  }

  lemma DistinctKeys(row: Row, p: Quantity, q: Quantity)
    requires p != q
    ensures MetricKey(row.id, row.horizon, p) != MetricKey(row.id, row.horizon, q)
  {
    KeysReadBack(row.id, row.horizon, p);
    KeysReadBack(row.id, row.horizon, q);
  }

  lemma WrittenIsEverything(q: Quantity)
    ensures q in WRITTEN
  {
    assert WRITTEN[0] == RankIc && WRITTEN[1] == Instants && WRITTEN[2] == Observations && WRITTEN[3] == PearsonIc;
    assert WRITTEN[4] == IcHitRate && WRITTEN[5] == RankIcNwT && WRITTEN[6] == Spread && WRITTEN[7] == Monotonicity;
  }

  /** Row `i` measured `q`, and `key` is where it is written. */
  ghost predicate Writes(rows: seq<Row>, i: nat, q: Quantity, key: string) {
    i < |rows| && WritesTo(rows[i], q, key)
  }

  /** A key is present exactly when some row measured its quantity; nothing else is ever written. */
  lemma {:induction false} KeysAreMeasurements(rows: seq<Row>, key: string)
    ensures key in MetricsOf(rows) <==> exists i: nat, q :: Writes(rows, i, q, key)
  {
    if rows == [] {
    } else {
      var n := |rows| - 1;
      KeysAreMeasurements(rows[..n], key);
      PutAllKeys(MetricsOf(rows[..n]), rows[n], key);
      forall i: nat, q ensures Writes(rows, i, q, key) <==>
        Writes(rows[..n], i, q, key) || (i == n && WritesTo(rows[n], q, key))
      {
      }
      if q :| WritesTo(rows[n], q, key) {
        assert Writes(rows, n, q, key);
      }
    }
  }

  lemma PutAllKeys(m: map<string, real>, row: Row, key: string)
    ensures key in PutAll(m, row, WRITTEN) <==> key in m || exists q :: WritesTo(row, q, key)
  {
    PutAllMembers(m, row, WRITTEN, key);
    forall q ensures q in WRITTEN {
      WrittenIsEverything(q);
    }
  }

  /** No two rows of one feature and horizon disagree. */
  ghost predicate OneAnswer(rows: seq<Row>) {
    forall i, j | 0 <= i < |rows| && 0 <= j < |rows| && rows[i].id == rows[j].id
                  && rows[i].horizon == rows[j].horizon ::
      rows[i].d == rows[j].d
  }

  /** Then every measurement can be looked up under its key, with its own value. */
  lemma {:induction false} MeasurementsAreKept(rows: seq<Row>, i: nat, q: Quantity)
    requires OneAnswer(rows) && i < |rows| && Measured(rows[i].d, q).Some?
    ensures var key := MetricKey(rows[i].id, rows[i].horizon, q);
            key in MetricsOf(rows) && MetricsOf(rows)[key] == Measured(rows[i].d, q).value
  {
    var n := |rows| - 1;
    if i == n {
      PutAllWrites(MetricsOf(rows[..n]), rows[n], q);
    } else {
      MeasurementsAreKept(rows[..n], i, q);
      assert rows[..n][i] == rows[i];
      PutAllKeeps(MetricsOf(rows[..n]), rows[n], rows[i], q);
    }
  }

  lemma PutAllWrites(m: map<string, real>, row: Row, q: Quantity)
    requires Measured(row.d, q).Some?
    ensures var key := MetricKey(row.id, row.horizon, q);
            key in PutAll(m, row, WRITTEN) && PutAll(m, row, WRITTEN)[key] == Measured(row.d, q).value
  {
    WrittenIsEverything(q);
    PutAllValues(m, row, WRITTEN, q);
  }

  /** A row leaves another's measurement alone, unless it is of the same pair -- and then it says the same. */
  lemma PutAllKeeps(m: map<string, real>, row: Row, other: Row, q: Quantity)
    requires Measured(other.d, q).Some?
    requires other.id == row.id && other.horizon == row.horizon ==> other.d == row.d
    requires var key := MetricKey(other.id, other.horizon, q); key in m && m[key] == Measured(other.d, q).value
    ensures var key := MetricKey(other.id, other.horizon, q);
            key in PutAll(m, row, WRITTEN) && PutAll(m, row, WRITTEN)[key] == Measured(other.d, q).value
  {
    if other.id == row.id && other.horizon == row.horizon {
      PutAllWrites(m, row, q);
    } else {
      var key := MetricKey(other.id, other.horizon, q);
      forall p ensures MetricKey(row.id, row.horizon, p) != key {
        KeysReadBack(other.id, other.horizon, q);
        KeysReadBack(row.id, row.horizon, p);
      }
      PutAllLeaves(m, row, WRITTEN, key);
    }
  }

  lemma {:induction false} FindingsAreAbsences(rows: seq<Row>, f: Finding)
    ensures f in FindingsOf(rows) <==> SomeRowFinds(rows, f)
  {
    if rows != [] {
      FindingsAreAbsences(rows[..|rows| - 1], f);
      SomeRowFindsStep(rows, f);
    }
  }

  ghost predicate SomeRowFinds(rows: seq<Row>, f: Finding) {
    exists row :: row in rows && f in RowFindings(row)
  }

  lemma SomeRowFindsStep(rows: seq<Row>, f: Finding)
    requires rows != []
    ensures SomeRowFinds(rows, f) <==> f in RowFindings(rows[|rows| - 1]) || SomeRowFinds(rows[..|rows| - 1], f)
  {
    if row :| row in rows && f in RowFindings(row) && row != rows[|rows| - 1] {
      assert row in rows[..|rows| - 1];
    }
  }

  lemma PrefixesDistinct(id: string, h: nat, id': string, h': nat)
    requires Prefix(id, h) == Prefix(id', h')
    ensures id == id' && h == h'
  {
    KeysReadBack(id, h, RankIc);
    KeysReadBack(id', h', RankIc);
  }

  lemma {:induction false} MeasuredLeavesNoFinding(rows: seq<Row>, i: nat, q: Quantity)
    requires OneAnswer(rows) && i < |rows| && Measured(rows[i].d, q).Some? && (q == RankIc || q == Spread)
    ensures MetricKey(rows[i].id, rows[i].horizon, q) in MetricsOf(rows)
    ensures Finding(Prefix(rows[i].id, rows[i].horizon), q) !in FindingsOf(rows)
  {
    MeasurementsAreKept(rows, i, q);
    var finding := Finding(Prefix(rows[i].id, rows[i].horizon), q);
    FindingsAreAbsences(rows, finding);
    forall row | row in rows ensures finding !in RowFindings(row) {
      if Prefix(rows[i].id, rows[i].horizon) == Prefix(row.id, row.horizon) {
        PrefixesDistinct(rows[i].id, rows[i].horizon, row.id, row.horizon);
        var j :| 0 <= j < |rows| && rows[j] == row;
        assert row.d == rows[i].d;
      }
    }
  }

  lemma {:induction false} AbsentLeavesAFinding(rows: seq<Row>, i: nat, q: Quantity)
    requires OneAnswer(rows) && i < |rows| && Measured(rows[i].d, q).None? && (q == RankIc || q == Spread)
    ensures MetricKey(rows[i].id, rows[i].horizon, q) !in MetricsOf(rows)
    ensures Finding(Prefix(rows[i].id, rows[i].horizon), q) in FindingsOf(rows)
  {
    var key, finding := MetricKey(rows[i].id, rows[i].horizon, q), Finding(Prefix(rows[i].id, rows[i].horizon), q);
    FindingsAreAbsences(rows, finding);
    assert finding in RowFindings(rows[i]);
    KeysAreMeasurements(rows, key);
    KeysReadBack(rows[i].id, rows[i].horizon, q);
    forall j: nat, p ensures !Writes(rows, j, p, key) {
      if j < |rows| {
        KeysReadBack(rows[j].id, rows[j].horizon, p);
      }
    }
  }

  /** Each pair yields its measurement or the finding that it could not be made, never both. */
  lemma {:induction false} MetricOrFinding(rows: seq<Row>, i: nat, q: Quantity)
    requires OneAnswer(rows) && i < |rows| && (q == RankIc || q == Spread)
    ensures MetricKey(rows[i].id, rows[i].horizon, q) in MetricsOf(rows)
       <==> Finding(Prefix(rows[i].id, rows[i].horizon), q) !in FindingsOf(rows)
  {
    if Measured(rows[i].d, q).Some? {
      MeasuredLeavesNoFinding(rows, i, q);
    } else {
      AbsentLeavesAFinding(rows, i, q);
    }
  }
}
