/** Running a study: its input checks, its nested measuring loops, and when its flat mapping loses nothing. */
module StudyRuns {
  import opened Outcomes
  import opened Ordering
  import opened Text
  import opened Studies

  /** `delistings` and `dataset` are the identities the study names. */
  datatype Study = Study(
    features: seq<Feature>, horizons: seq<nat>, lag: Option<nat>, delistings: Option<string>, dataset: Option<string>)

  datatype StudyRecord = StudyRecord(metrics: map<string, real>, findings: seq<Finding>, lineage: map<string, string>)

  /** The rows the nested loops visit: every feature, and within it every horizon. */
  function RowsFor(f: Feature, horizons: seq<nat>, answer: (Feature, nat) -> Diagnostics): (rows: seq<Row>)
    ensures |rows| == |horizons|
  {
    seq(|horizons|, j requires 0 <= j < |horizons| => Row(f.id, horizons[j], answer(f, horizons[j])))
  }

  function RowsOf(features: seq<Feature>, horizons: seq<nat>, answer: (Feature, nat) -> Diagnostics): seq<Row> {
    if features == [] then []
    else RowsOf(features[..|features| - 1], horizons, answer) + RowsFor(features[|features| - 1], horizons, answer)
  }

  function LineageOf<Panel>(features: seq<Feature>, panels: map<string, Panel>, lineage: Panel -> string)
    : map<string, string>
    requires forall i | 0 <= i < |features| :: features[i].version in panels
  {
    if features == [] then map[]
    else
      var f := features[|features| - 1];
      LineageOf(features[..|features| - 1], panels, lineage)[f.version := lineage(panels[f.version])]
  }

  lemma MetricsConcat(a: seq<Row>, row: Row)
    ensures MetricsOf(a + [row]) == PutAll(MetricsOf(a), row, WRITTEN)
    ensures FindingsOf(a + [row]) == FindingsOf(a) + RowFindings(row)
  {
    assert (a + [row])[..|a|] == a;
  }

  /** The quantities written only beside a rank correlation. */
  function PutRanks(m: map<string, real>, row: Row): map<string, real> {
    Put(Put(Put(Put(Put(Put(m, row, RankIc), row, Instants), row, Observations), row, PearsonIc), row, IcHitRate),
        row, RankIcNwT)
  }

  lemma PutAllUnfolds(m: map<string, real>, row: Row)
    ensures PutAll(m, row, WRITTEN) == Put(Put(PutRanks(m, row), row, Spread), row, Monotonicity)
  {
    PutAllStep(m, row, WRITTEN, [RankIc, Instants, Observations, PearsonIc, IcHitRate, RankIcNwT, Spread],
        Monotonicity);
    PutAllStep(m, row, [RankIc, Instants, Observations, PearsonIc, IcHitRate, RankIcNwT, Spread],
        [RankIc, Instants, Observations, PearsonIc, IcHitRate, RankIcNwT], Spread);
    PutAllStep(m, row, [RankIc, Instants, Observations, PearsonIc, IcHitRate, RankIcNwT],
        [RankIc, Instants, Observations, PearsonIc, IcHitRate], RankIcNwT);
    PutAllStep(m, row, [RankIc, Instants, Observations, PearsonIc, IcHitRate],
        [RankIc, Instants, Observations, PearsonIc], IcHitRate);
    PutAllStep(m, row, [RankIc, Instants, Observations, PearsonIc], [RankIc, Instants, Observations], PearsonIc);
    PutAllStep(m, row, [RankIc, Instants, Observations], [RankIc, Instants], Observations);
    PutAllStep(m, row, [RankIc, Instants], [RankIc], Instants);
    PutAllStep(m, row, [RankIc], [], RankIc);
  }

  lemma PutAllStep(m: map<string, real>, row: Row, whole: seq<Quantity>, qs: seq<Quantity>, q: Quantity)
    requires whole == qs + [q]
    ensures PutAll(m, row, whole) == Put(PutAll(m, row, qs), row, q)
  {
    assert whole[..|whole| - 1] == qs;
  }

  lemma PutRanksIs(m: map<string, real>, row: Row)
    ensures row.d.meanRank.None? ==> PutRanks(m, row) == m
    ensures row.d.meanRank.Some? ==>
              var d, id, h := row.d, row.id, row.horizon;
              var m3 := m[MetricKey(id, h, RankIc) := d.meanRank.value]
                         [MetricKey(id, h, Instants) := d.instants as real]
                         [MetricKey(id, h, Observations) := d.observations as real];
              var m4 := if d.meanPearson.Some? then m3[MetricKey(id, h, PearsonIc) := d.meanPearson.value] else m3;
              var m5 := if d.hitRate.Some? then m4[MetricKey(id, h, IcHitRate) := d.hitRate.value] else m4;
              PutRanks(m, row) == if d.rankT.Some? then m5[MetricKey(id, h, RankIcNwT) := d.rankT.value] else m5
  {
  }

  ghost predicate Written(metrics: map<string, real>, key: string, value: Option<real>) {
    value.Some? ==> key in metrics && metrics[key] == value.value
  }

  /** Each measurement under the pair's prefix and its own name; the first six only beside a rank correlation. */
  ghost predicate WrittenByName(row: Row, metrics: map<string, real>) {
    var d, at := row.d, row.id + ".h" + Numeral(row.horizon) + ".";
    && (d.meanRank.Some? ==>
          && Written(metrics, at + "rank_ic", d.meanRank)
          && Written(metrics, at + "instants", Some(d.instants as real))
          && Written(metrics, at + "observations", Some(d.observations as real))
          && Written(metrics, at + "pearson_ic", d.meanPearson)
          && Written(metrics, at + "ic_hit_rate", d.hitRate)
          && Written(metrics, at + "rank_ic_nw_t", d.rankT))
    && Written(metrics, at + "spread", d.spread)
    && Written(metrics, at + "monotonicity", d.monotonicity)
  }

  lemma KeysByName(metrics: map<string, real>, row: Row)
    ensures WrittenByName(row, PutAll(metrics, row, WRITTEN))
  {
    WrittenAt(metrics, row, RankIc, "rank_ic");
    WrittenAt(metrics, row, Instants, "instants");
    WrittenAt(metrics, row, Observations, "observations");
    WrittenAt(metrics, row, PearsonIc, "pearson_ic");
    WrittenAt(metrics, row, IcHitRate, "ic_hit_rate");
    WrittenAt(metrics, row, RankIcNwT, "rank_ic_nw_t");
    WrittenAt(metrics, row, Spread, "spread");
    WrittenAt(metrics, row, Monotonicity, "monotonicity");
  }

  lemma WrittenAt(metrics: map<string, real>, row: Row, q: Quantity, name: string)
    requires name == Name(q)
    ensures Written(PutAll(metrics, row, WRITTEN), row.id + ".h" + Numeral(row.horizon) + "." + name,
                    Measured(row.d, q))
  {
    if Measured(row.d, q).Some? {
      PutAllWrites(metrics, row, q);
    }
  }

  /** One pair's diagnostics written into the mapping and the findings, in the order the loop body writes them. */
  method WriteRow(metrics: map<string, real>, findings: seq<Finding>, row: Row)
    returns (metrics': map<string, real>, findings': seq<Finding>)
    ensures metrics' == PutAll(metrics, row, WRITTEN)
    ensures findings' == findings + RowFindings(row)
    ensures WrittenByName(row, metrics')
  {
    KeysByName(metrics, row);
    PutAllUnfolds(metrics, row);
    PutRanksIs(metrics, row);
    var d := row.d;
    metrics', findings' := metrics, findings;
    if d.meanRank.None? {
      findings' := findings' + [Finding(Prefix(row.id, row.horizon), RankIc)];
    } else {
      metrics' := metrics'[MetricKey(row.id, row.horizon, RankIc) := d.meanRank.value];
      metrics' := metrics'[MetricKey(row.id, row.horizon, Instants) := d.instants as real];
      metrics' := metrics'[MetricKey(row.id, row.horizon, Observations) := d.observations as real];
      if d.meanPearson.Some? {
        metrics' := metrics'[MetricKey(row.id, row.horizon, PearsonIc) := d.meanPearson.value];
      }
      if d.hitRate.Some? {
        metrics' := metrics'[MetricKey(row.id, row.horizon, IcHitRate) := d.hitRate.value];
      }
      if d.rankT.Some? {
        metrics' := metrics'[MetricKey(row.id, row.horizon, RankIcNwT) := d.rankT.value];
      }
    }
    assert metrics' == PutRanks(metrics, row);
    if d.spread.None? {
      findings' := findings' + [Finding(Prefix(row.id, row.horizon), Spread)];
    } else {
      metrics' := metrics'[MetricKey(row.id, row.horizon, Spread) := d.spread.value];
    }
    if d.monotonicity.Some? {
      metrics' := metrics'[MetricKey(row.id, row.horizon, Monotonicity) := d.monotonicity.value];
    }
  }

  /** What a measurement answers where it does not refuse. */
  const NOTHING: Diagnostics := Diagnostics(None, None, None, None, 0, 0, None, None)

  ghost function Answers<Panel>(panels: map<string, Panel>, measure: (Panel, nat) -> Result<Diagnostics, Failure>)
    : (Feature, nat) -> Diagnostics
  {
    (f: Feature, h: nat) =>
      if f.version in panels && measure(panels[f.version], h).Ok? then measure(panels[f.version], h).value else NOTHING
  }

  ghost predicate FeatureMeasures<Panel>(panel: Panel, horizons: seq<nat>,
                                         measure: (Panel, nat) -> Result<Diagnostics, Failure>) {
    forall j | 0 <= j < |horizons| :: measure(panel, horizons[j]).Ok?
  }

  /** What the first horizon that cannot be measured is refused with. */
  ghost predicate FirstRefused<Panel>(panel: Panel, horizons: seq<nat>,
                                      measure: (Panel, nat) -> Result<Diagnostics, Failure>, why: Failure) {
    exists j :: 0 <= j < |horizons| && FeatureMeasures(panel, horizons[..j], measure)
        && measure(panel, horizons[j]) == Err(why)
  }

  /** The inner loop: one feature measured at every horizon, or the first refusal. */
  method MeasureFeature<Panel>(f: Feature, ghost panels: map<string, Panel>, panel: Panel, horizons: seq<nat>,
                               measure: (Panel, nat) -> Result<Diagnostics, Failure>, ghost before: seq<Row>,
                               metrics: map<string, real>, findings: seq<Finding>)
    returns (failure: Option<Failure>, metrics': map<string, real>, findings': seq<Finding>)
    requires f.version in panels && panels[f.version] == panel
    requires metrics == MetricsOf(before) && findings == FindingsOf(before)
    ensures failure.None? <==> FeatureMeasures(panel, horizons, measure)
    ensures failure.Some? ==> FirstRefused(panel, horizons, measure, failure.value)
    ensures failure.None? ==>
              var rows := before + RowsFor(f, horizons, Answers(panels, measure));
              metrics' == MetricsOf(rows) && findings' == FindingsOf(rows)
  {
    metrics', findings' := metrics, findings;
    ghost var answer := Answers(panels, measure);
    ghost var rows := before;
    NoRowsYet(f, horizons, answer, before);
    for j := 0 to |horizons|
      invariant FeatureMeasures(panel, horizons[..j], measure)
      invariant rows == before + RowsFor(f, horizons[..j], answer)
      invariant metrics' == MetricsOf(rows) && findings' == FindingsOf(rows)
    {
      var measured := measure(panel, horizons[j]);
      MeasuresStep(panel, horizons, j, measure);
      if measured.Err? {
        return Some(measured.error), metrics', findings';
      }
      var row := Row(f.id, horizons[j], measured.value);
      MeasureStep(f, horizons, j, answer, before, rows, row);
      MetricsConcat(rows, row);
      metrics', findings' := WriteRow(metrics', findings', row);
      rows := rows + [row];
    }
    TakeAll(horizons);
    failure := None;
  }

  lemma MeasuresStep<Panel>(panel: Panel, horizons: seq<nat>, j: nat,
                            measure: (Panel, nat) -> Result<Diagnostics, Failure>)
    requires j < |horizons|
    ensures FeatureMeasures(panel, horizons[..j + 1], measure) <==>
              FeatureMeasures(panel, horizons[..j], measure) && measure(panel, horizons[j]).Ok?
    ensures FeatureMeasures(panel, horizons, measure) ==> measure(panel, horizons[j]).Ok?
  {
    assert forall i | 0 <= i < j :: horizons[..j + 1][i] == horizons[..j][i];
    assert horizons[..j + 1][j] == horizons[j];
  }

  lemma NoRowsYet(f: Feature, horizons: seq<nat>, answer: (Feature, nat) -> Diagnostics, before: seq<Row>)
    ensures before + RowsFor(f, horizons[..0], answer) == before
  {
  }

  lemma MeasureStep(f: Feature, horizons: seq<nat>, j: nat, answer: (Feature, nat) -> Diagnostics,
                    before: seq<Row>, rows: seq<Row>, row: Row)
    requires j < |horizons| && row == Row(f.id, horizons[j], answer(f, horizons[j]))
    requires rows == before + RowsFor(f, horizons[..j], answer)
    ensures rows + [row] == before + RowsFor(f, horizons[..j + 1], answer)
  {
    assert horizons[..j + 1][..j] == horizons[..j];
  }

  /** Each of the first `k` features is measured at every horizon without a refusal. */
  ghost predicate Measures<Panel>(features: seq<Feature>, k: nat, panels: map<string, Panel>, horizons: seq<nat>,
                                  measure: (Panel, nat) -> Result<Diagnostics, Failure>)
    requires k <= |features| && forall i | 0 <= i < |features| :: features[i].version in panels
  {
    forall i | 0 <= i < k :: FeatureMeasures(panels[features[i].version], horizons, measure)
  }

  /** The first refusal in the order of the loops: earlier features measured throughout, this one until this horizon. */
  ghost predicate FirstPairRefused<Panel>(features: seq<Feature>, panels: map<string, Panel>, horizons: seq<nat>,
                                          measure: (Panel, nat) -> Result<Diagnostics, Failure>, why: Failure)
    requires forall i | 0 <= i < |features| :: features[i].version in panels
  {
    exists k :: 0 <= k < |features| && Measures(features, k, panels, horizons, measure)
                && FirstRefused(panels[features[k].version], horizons, measure, why)
  }

  lemma MeasuresOneMore<Panel>(features: seq<Feature>, k: nat, panels: map<string, Panel>, horizons: seq<nat>,
                               measure: (Panel, nat) -> Result<Diagnostics, Failure>)
    requires k < |features| && (forall i | 0 <= i < |features| :: features[i].version in panels)
    requires Measures(features, k, panels, horizons, measure)
    ensures Measures(features, k + 1, panels, horizons, measure)
       <==> FeatureMeasures(panels[features[k].version], horizons, measure)
    ensures Measures(features, |features|, panels, horizons, measure)
        ==> FeatureMeasures(panels[features[k].version], horizons, measure)
  {
  }

  /** The outer loop, over every feature's panel. */
  method MeasureAll<Panel>(features: seq<Feature>, panels: map<string, Panel>, horizons: seq<nat>,
                           measure: (Panel, nat) -> Result<Diagnostics, Failure>, lineageOf: Panel -> string)
    returns (r: Result<StudyRecord, Failure>)
    requires forall i | 0 <= i < |features| :: features[i].version in panels
    ensures r.Ok? <==> Measures(features, |features|, panels, horizons, measure)
    ensures r.Err? ==> FirstPairRefused(features, panels, horizons, measure, r.error)
    ensures r.Ok? ==>
              var rows := RowsOf(features, horizons, Answers(panels, measure));
              r.value == StudyRecord(MetricsOf(rows), FindingsOf(rows), LineageOf(features, panels, lineageOf))
  {
    var metrics: map<string, real> := map[];
    var findings: seq<Finding> := [];
    var lineage: map<string, string> := map[];
    ghost var answer := Answers(panels, measure);
    for k := 0 to |features|
      invariant Measures(features, k, panels, horizons, measure)
      invariant metrics == MetricsOf(RowsOf(features[..k], horizons, answer))
      invariant findings == FindingsOf(RowsOf(features[..k], horizons, answer))
      invariant lineage == LineageOf(features[..k], panels, lineageOf)
    {
      var f := features[k];
      lineage := lineage[f.version := lineageOf(panels[f.version])];
      OneFeatureMore(features, k, horizons, answer, panels, lineageOf);
      var failure;
      failure, metrics, findings :=
        MeasureFeature(f, panels, panels[f.version], horizons, measure, RowsOf(features[..k], horizons, answer),
                       metrics, findings);
      MeasuresOneMore(features, k, panels, horizons, measure);
      if failure.Some? {
        return Err(failure.value);
      }
    }
    TakeAll(features);
    return Ok(StudyRecord(metrics, findings, lineage));
  }

  lemma OneFeatureMore<Panel>(features: seq<Feature>, k: nat, horizons: seq<nat>, answer: (Feature, nat) -> Diagnostics,
                              panels: map<string, Panel>, lineageOf: Panel -> string)
    requires k < |features| && forall i | 0 <= i < |features| :: features[i].version in panels
    ensures RowsOf(features[..k + 1], horizons, answer)
         == RowsOf(features[..k], horizons, answer) + RowsFor(features[k], horizons, answer)
    ensures LineageOf(features[..k + 1], panels, lineageOf)
         == LineageOf(features[..k], panels, lineageOf)[features[k].version := lineageOf(panels[features[k].version])]
  {
    assert features[..k + 1][..k] == features[..k];
  }

  lemma {:induction false} RecomputedHasEveryVersion<Frame, Panel>(features: seq<Feature>,
      extract: Field -> Result<Frame, Failure>, compute: (Feature, Frame) -> Result<Panel, Failure>)
    requires Recomputed(features, extract, compute).Ok?
    ensures forall i | 0 <= i < |features| :: features[i].version in Recomputed(features, extract, compute).value
  {
    if features != [] {
      var n := |features| - 1;
      RecomputedHasEveryVersion(features[..n], extract, compute);
      assert forall i | 0 <= i < n :: features[..n][i] == features[i];
    }
  }

  /**
   `run_study`. `actual` is the version of the dataset it is handed, `supplied` the identity of the delistings.
   Whatever it is handed, nothing is measured unless a horizon and a lag are stated and both are the ones it
   names, and each missing or different one is refused in that order. Past that it is refused as its
   computations are, or when no pair measured anything, and otherwise records every row's metrics and findings.
   */
  method RunStudy<Frame, Panel(!new)>(study: Study, actual: Option<string>, supplied: Option<string>, priceField: Field,
                                extract: Field -> Result<Frame, Failure>,
                                compute: (Feature, Frame) -> Result<Panel, Failure>,
                                measureOn: (Frame, nat, Panel, nat) -> Result<Diagnostics, Failure>,
                                lineageOf: Panel -> string)
    returns (r: Result<StudyRecord, Failure>)
    ensures r.Ok? ==> study.horizons != [] && study.lag.Some? && study.delistings == supplied
                      && study.dataset.Some? && actual == study.dataset
    ensures if study.horizons == [] then r == Err(NoHorizons)
            else if study.lag.None? then r == Err(NoImplementationLag)
            else if study.delistings != supplied then r == Err(WrongDelistings)
            else if study.dataset.None? then r == Err(NoDatasetNamed)
            else if actual.None? then r == Err(UnversionedDataset)
            else if actual != study.dataset then r == Err(AnotherDataset)
            else
              var panels := Recomputed(study.features, extract, compute);
              if panels.Err? then r == Err(panels.error)
              else if extract(priceField).Err? then r == Err(extract(priceField).error)
              else MeasuredAs(study, panels.value, extract(priceField).value, study.lag.value, measureOn, lineageOf, r)
  {
    if study.horizons == [] {
      return Err(NoHorizons);
    }
    if study.lag.None? {
      return Err(NoImplementationLag);
    }
    if study.delistings != supplied {
      return Err(WrongDelistings);
    }
    var mismatch := RequireMatchingDataset(study, actual);
    if mismatch.Some? {
      return Err(mismatch.value);
    }
    var panels, _ := StudyPanels(study.features, extract, compute);
    if panels.Err? {
      return Err(panels.error);
    }
    RecomputedHasEveryVersion(study.features, extract, compute);
    var prices := extract(priceField);
    if prices.Err? {
      return Err(prices.error);
    }
    var measured :=
      MeasureAll(study.features, panels.value, study.horizons, OnPrices(prices.value, study.lag.value, measureOn),
                 lineageOf);
    if measured.Ok? && measured.value.metrics == map[] {
      return Err(NothingMeasured);
    }
    return measured;
  }

  /** The study and the dataset must name the same bytes, and are compared. */
  method RequireMatchingDataset(study: Study, actual: Option<string>) returns (failure: Option<Failure>)
    ensures failure.None? <==> study.dataset.Some? && actual == study.dataset
    ensures failure.Some? ==> failure.value == if study.dataset.None? then NoDatasetNamed
                                               else if actual.None? then UnversionedDataset else AnotherDataset
  {
    if study.dataset.None? {
      return Some(NoDatasetNamed);
    }
    if actual.None? {
      return Some(UnversionedDataset);
    }
    if actual.value != study.dataset.value {
      return Some(AnotherDataset);
    }
    return None;
  }

  /** Each panel measured against the prices' forward returns, entered `lag` observations late. */
  function OnPrices<Frame, Panel(!new)>(prices: Frame, lag: nat,
                                  measureOn: (Frame, nat, Panel, nat) -> Result<Diagnostics, Failure>)
    : (measure: (Panel, nat) -> Result<Diagnostics, Failure>)
    ensures forall panel, h :: measure(panel, h) == measureOn(prices, lag, panel, h)
  {
    (panel: Panel, h: nat) => measureOn(prices, lag, panel, h)
  }

  /** What measuring the panels comes to. */
  ghost predicate MeasuredAs<Frame, Panel(!new)>(study: Study, panels: map<string, Panel>, prices: Frame, lag: nat,
      measureOn: (Frame, nat, Panel, nat) -> Result<Diagnostics, Failure>, lineageOf: Panel -> string,
      r: Result<StudyRecord, Failure>)
  {
    var measure := OnPrices(prices, lag, measureOn);
    && (forall i | 0 <= i < |study.features| :: study.features[i].version in panels)
    && var rows := RowsOf(study.features, study.horizons, Answers(panels, measure));
       if Measures(study.features, |study.features|, panels, study.horizons, measure)
       then r == if MetricsOf(rows) == map[] then Err(NothingMeasured)
                 else Ok(StudyRecord(MetricsOf(rows), FindingsOf(rows), LineageOf(study.features, panels, lineageOf)))
       else r.Err? && FirstPairRefused(study.features, panels, study.horizons, measure, r.error)
  }

  lemma {:induction false} LineageHolds<Panel>(features: seq<Feature>, panels: map<string, Panel>,
                                               lineage: Panel -> string)
    requires forall i | 0 <= i < |features| :: features[i].version in panels
    ensures forall v :: v in LineageOf(features, panels, lineage) <==>
              exists i :: 0 <= i < |features| && features[i].version == v
    ensures forall i | 0 <= i < |features| ::
              LineageOf(features, panels, lineage)[features[i].version] == lineage(panels[features[i].version])
  {
    if features != [] {
      var n := |features| - 1;
      LineageHolds(features[..n], panels, lineage);
      assert forall i | 0 <= i < n :: features[..n][i] == features[i];
    }
  }

  /**
   What an accepted study of distinct feature ids records, pair by pair: every measurement of the pair's panel
   against the prices under its key, no key for what was not measured, and every panel's lineage.
   */
  lemma RecordsEveryPair<Frame, Panel(!new)>(study: Study, panels: map<string, Panel>, prices: Frame, lag: nat,
      measureOn: (Frame, nat, Panel, nat) -> Result<Diagnostics, Failure>, lineageOf: Panel -> string,
      r: Result<StudyRecord, Failure>, i: nat, j: nat, q: Quantity)
    requires MeasuredAs(study, panels, prices, lag, measureOn, lineageOf, r) && r.Ok?
    requires DistinctFeatureIds(study.features) && i < |study.features| && j < |study.horizons|
    ensures var f, h := study.features[i], study.horizons[j];
            var key := f.id + ".h" + Numeral(h) + "." + Name(q);
            && f.version in panels && measureOn(prices, lag, panels[f.version], h).Ok?
            && var value := Measured(measureOn(prices, lag, panels[f.version], h).value, q);
               (key in r.value.metrics <==> value.Some?) && (value.Some? ==> r.value.metrics[key] == value.value)
    ensures study.features[i].version in r.value.lineage
            && r.value.lineage[study.features[i].version] == lineageOf(panels[study.features[i].version])
  {
    var f, h := study.features[i], study.horizons[j];
    var measure := OnPrices(prices, lag, measureOn);
    var answer := Answers(panels, measure);
    assert FeatureMeasures(panels[f.version], study.horizons, measure);
    assert answer(f, h) == measureOn(prices, lag, panels[f.version], h).value;
    DistinctIdsKeepEverything(study.features, study.horizons, answer);
    if MetricKey(f.id, h, q) in r.value.metrics {
      OnlyThisPairWrites(study.features, study.horizons, answer, i, j, q);
    }
    LineageHolds(study.features, panels, lineageOf);
  }

  /** With distinct ids, a pair's key is written by that pair alone. */
  lemma OnlyThisPairWrites(features: seq<Feature>, horizons: seq<nat>, answer: (Feature, nat) -> Diagnostics,
                           i: nat, j: nat, q: Quantity)
    requires DistinctFeatureIds(features) && i < |features| && j < |horizons|
    requires MetricKey(features[i].id, horizons[j], q) in MetricsOf(RowsOf(features, horizons, answer))
    ensures Measured(answer(features[i], horizons[j]), q).Some?
  {
    var rows, key := RowsOf(features, horizons, answer), MetricKey(features[i].id, horizons[j], q);
    KeysAreMeasurements(rows, key);
    var k: nat, p :| k < |rows| && Writes(rows, k, p, key);
    KeysReadBack(features[i].id, horizons[j], q);
    KeysReadBack(rows[k].id, rows[k].horizon, p);
    RowsAre(features, horizons, answer, rows[k]);
    var i', j' :| 0 <= i' < |features| && 0 <= j' < |horizons|
                  && rows[k] == Row(features[i'].id, horizons[j'], answer(features[i'], horizons[j']));
    assert i' == i;
  }

  // ------------------------------------------------------ when nothing is lost

  lemma {:induction false} RowsAre(features: seq<Feature>, horizons: seq<nat>, answer: (Feature, nat) -> Diagnostics,
                                   row: Row)
    ensures row in RowsOf(features, horizons, answer) <==>
              exists i, j :: 0 <= i < |features| && 0 <= j < |horizons|
                             && row == Row(features[i].id, horizons[j], answer(features[i], horizons[j]))
  {
    if features != [] {
      var n := |features| - 1;
      RowsAre(features[..n], horizons, answer, row);
      assert forall i | 0 <= i < n :: features[..n][i] == features[i];
      var last := RowsFor(features[n], horizons, answer);
      assert forall j | 0 <= j < |horizons| ::
        last[j] == Row(features[n].id, horizons[j], answer(features[n], horizons[j]));
      if j :| 0 <= j < |horizons| && row == Row(features[n].id, horizons[j], answer(features[n], horizons[j])) {
        assert last[j] in last;
      }
    }
  }

  /** Nothing was measured exactly when no pair measured any quantity. */
  lemma {:induction false} NothingMeasuredExactly(features: seq<Feature>, horizons: seq<nat>,
                                                  answer: (Feature, nat) -> Diagnostics)
    ensures MetricsOf(RowsOf(features, horizons, answer)) == map[] <==>
              forall i, j, q | 0 <= i < |features| && 0 <= j < |horizons| ::
                Measured(answer(features[i], horizons[j]), q).None?
  {
    var rows := RowsOf(features, horizons, answer);
    if forall i, j, q | 0 <= i < |features| && 0 <= j < |horizons| ::
         Measured(answer(features[i], horizons[j]), q).None? {
      forall key ensures key !in MetricsOf(rows) {
        KeysAreMeasurements(rows, key);
        forall k: nat, q ensures !Writes(rows, k, q, key) {
          if k < |rows| {
            RowsAre(features, horizons, answer, rows[k]);
          }
        }
      }
    } else {
      var i, j, q :| 0 <= i < |features| && 0 <= j < |horizons| && Measured(answer(features[i], horizons[j]), q).Some?;
      var row := Row(features[i].id, horizons[j], answer(features[i], horizons[j]));
      RowsAre(features, horizons, answer, row);
      var k: nat :| k < |rows| && rows[k] == row;
      assert Writes(rows, k, q, MetricKey(row.id, row.horizon, q));
      KeysAreMeasurements(rows, MetricKey(row.id, row.horizon, q));
    }
  }

  /** Every measurement of every pair can be looked up under its own key. */
  ghost predicate KeepsEverything(features: seq<Feature>, horizons: seq<nat>, answer: (Feature, nat) -> Diagnostics) {
    var metrics := MetricsOf(RowsOf(features, horizons, answer));
    forall i, j, q | 0 <= i < |features| && 0 <= j < |horizons|
                     && Measured(answer(features[i], horizons[j]), q).Some? ::
      var key := MetricKey(features[i].id, horizons[j], q);
      key in metrics && metrics[key] == Measured(answer(features[i], horizons[j]), q).value
  }

  ghost predicate DistinctFeatureIds(features: seq<Feature>) {
    forall i, j | 0 <= i < j < |features| :: features[i].id != features[j].id
  }

  lemma DistinctIdsGiveOneAnswer(features: seq<Feature>, horizons: seq<nat>, answer: (Feature, nat) -> Diagnostics)
    requires DistinctFeatureIds(features)
    ensures OneAnswer(RowsOf(features, horizons, answer))
  {
    var rows := RowsOf(features, horizons, answer);
    forall a, b | 0 <= a < |rows| && 0 <= b < |rows| && rows[a].id == rows[b].id && rows[a].horizon == rows[b].horizon
      ensures rows[a].d == rows[b].d
    {
      RowsAre(features, horizons, answer, rows[a]);
      RowsAre(features, horizons, answer, rows[b]);
      var i, j :| 0 <= i < |features| && 0 <= j < |horizons|
                  && rows[a] == Row(features[i].id, horizons[j], answer(features[i], horizons[j]));
      var i', j' :| 0 <= i' < |features| && 0 <= j' < |horizons|
                    && rows[b] == Row(features[i'].id, horizons[j'], answer(features[i'], horizons[j']));
      assert i == i';
    }
  }

  lemma DistinctIdsKeepEverything(features: seq<Feature>, horizons: seq<nat>, answer: (Feature, nat) -> Diagnostics)
    requires DistinctFeatureIds(features)
    ensures KeepsEverything(features, horizons, answer)
  {
    var rows := RowsOf(features, horizons, answer);
    DistinctIdsGiveOneAnswer(features, horizons, answer);
    forall i, j, q | 0 <= i < |features| && 0 <= j < |horizons| && Measured(answer(features[i], horizons[j]), q).Some?
      ensures var key := MetricKey(features[i].id, horizons[j], q);
              key in MetricsOf(rows) && MetricsOf(rows)[key] == Measured(answer(features[i], horizons[j]), q).value
    {
      var row := Row(features[i].id, horizons[j], answer(features[i], horizons[j]));
      RowsAre(features, horizons, answer, row);
      var k: nat :| k < |rows| && rows[k] == row;
      MeasurementsAreKept(rows, k, q);
    }
  }

  /** Diagnostics that tell one feature version from the others by its spread. */
  function Telling(version: string): (Feature, nat) -> Diagnostics {
    (f: Feature, h: nat) => NOTHING.(spread := Some(if f.version == version then 1.0 else 2.0))
  }

  /**
   A study's features are checked to have different versions, not different ids. Whatever is
   measured, the flat mapping loses nothing exactly when the ids differ too.
   */
  lemma NothingIsLostExactly(features: seq<Feature>, horizons: seq<nat>)
    requires horizons != []
    requires forall i, j | 0 <= i < j < |features| :: features[i].version != features[j].version
    ensures (forall answer :: KeepsEverything(features, horizons, answer)) <==> DistinctFeatureIds(features)
  {
    if DistinctFeatureIds(features) {
      forall answer ensures KeepsEverything(features, horizons, answer) {
        DistinctIdsKeepEverything(features, horizons, answer);
      }
    } else {
      var i, j :| 0 <= i < j < |features| && features[i].id == features[j].id;
      var answer := Telling(features[i].version);
      assert Measured(answer(features[i], horizons[0]), Spread) == Some(1.0);
      assert Measured(answer(features[j], horizons[0]), Spread) == Some(2.0);
      assert !KeepsEverything(features, horizons, answer);
    }
  }

  /** Two versions of one feature: the second's spread is kept, the first's is gone. */
  lemma OneIdLosesAMetric()
    ensures var features := [Feature("m", "v1", Close), Feature("m", "v2", Close)];
            var key := MetricKey("m", 1, Spread);
            var metrics := MetricsOf(RowsOf(features, [1], Telling("v1")));
            key in metrics && metrics[key] == 2.0 && Measured(Telling("v1")(features[0], 1), Spread) == Some(1.0)
  {
    var first, second := Feature("m", "v1", Close), Feature("m", "v2", Close);
    var rows := RowsOf([first, second], [1], Telling("v1"));
    var row := Row("m", 1, Telling("v1")(second, 1));
    assert [first, second][..1] == [first];
    assert RowsFor(second, [1], Telling("v1")) == [row];
    assert rows == RowsOf([first], [1], Telling("v1")) + [row];
    MetricsConcat(RowsOf([first], [1], Telling("v1")), row);
    PutAllWrites(MetricsOf(RowsOf([first], [1], Telling("v1"))), row, Spread);
  }
}
