/**
 The rotation strategy: hold the asset with the best trailing return, selling one close
 before buying the next.
 */
module RotationStrategy {
  import opened Outcomes
  import opened Ordering
  import opened Text
  import opened Strategies

  const STRATEGY_ID: string := "EX09-ROTATION"
  const LOOKBACK: nat := 5
  const UNIVERSE: nat := 3
  const INVESTED: real := 0.95

  datatype Decision = Decision(timestamp: real, asset: string, gains: map<string, real>)

  /** `assets` are the instruments a record at this instant was about. */
  datatype Slice = Slice(timestamp: real, assets: seq<string>)

  /** A close to divide by was zero. */
  datatype Failure = DivisionByZero

  datatype State = State(closes: map<string, seq<real>>, held: Option<string>, next: Option<string>,
                         decisions: seq<Decision>)

  const INITIAL: State := State(map[], None, None, [])

  function History(closes: map<string, seq<real>>, asset: string): seq<real> {
    if asset in closes then closes[asset] else []
  }

  // ---------------------------------------------------------------- the choice

  /** Every asset of the slice, mapped to its closes: fewer than the universe, or too short, decides nothing. */
  predicate Decides(closes: map<string, seq<real>>, assets: set<string>) {
    |assets| >= UNIVERSE && forall a | a in assets :: |History(closes, a)| > LOOKBACK
  }

  /** `closes[-1 - LOOKBACK]`. */
  function Earlier(history: seq<real>): real
    requires |history| > LOOKBACK
  {
    history[|history| - 1 - LOOKBACK]
  }

  function Return(history: seq<real>): real
    requires |history| > LOOKBACK && Earlier(history) != 0.0
  {
    history[|history| - 1] / Earlier(history) - 1.0
  }

  predicate Divisible(closes: map<string, seq<real>>, assets: set<string>)
    requires Decides(closes, assets)
  {
    forall a | a in assets :: Earlier(History(closes, a)) != 0.0
  }

  function Returns(closes: map<string, seq<real>>, assets: set<string>): map<string, real>
    requires Decides(closes, assets) && Divisible(closes, assets)
  {
    map a | a in assets :: Return(History(closes, a))
  }

  /** Nothing returned more, and of those that returned as much it sorts first. */
  predicate IsBest(gains: map<string, real>, best: string) {
    && best in gains
    && (forall a | a in gains :: gains[a] <= gains[best])
    && (forall a | a in gains && gains[a] == gains[best] :: AtMost(best, a))
  }

  /** The keys of a dictionary filled from `assets`: each at its first appearance. */
  function Once(assets: seq<string>): seq<string> {
    if assets == [] then []
    else
      var front, last := Once(assets[..|assets| - 1]), assets[|assets| - 1];
      if last in front then front else front + [last]
  }

  lemma {:induction false} OnceMembers(assets: seq<string>, a: string)
    ensures a in Once(assets) <==> a in assets
  {
    if assets != [] {
      OnceMembers(assets[..|assets| - 1], a);
      TakeOneMore(assets, |assets| - 1);
      TakeAll(assets);
    }
  }

  /** `max(ids, key=...)`: read in turn, an id displacing only one that returned strictly less. */
  function FirstGreatest(gains: map<string, real>, ids: seq<string>): Option<string>
    requires forall a | a in ids :: a in gains
  {
    if ids == [] then None
    else
      var best, last := FirstGreatest(gains, ids[..|ids| - 1]), ids[|ids| - 1];
      if best.None? || best.value !in gains || gains[last] > gains[best.value] then Some(last) else best
  }

  lemma {:induction false} FirstGreatestIsBest(gains: map<string, real>, ids: seq<string>)
    requires SortedBy(AtMost, ids) && ids != [] && forall a | a in ids :: a in gains
    ensures var best := FirstGreatest(gains, ids);
            && best.Some? && best.value in ids
            && (forall a | a in ids :: gains[a] <= gains[best.value])
            && (forall a | a in ids && gains[a] == gains[best.value] :: AtMost(best.value, a))
  {
    var n := |ids| - 1;
    TakeOneMore(ids, n);
    TakeAll(ids);
    AtMostTotal(ids[n], ids[n]);
    if n > 0 {
      FirstGreatestIsBest(gains, ids[..n]);
      var best := FirstGreatest(gains, ids[..n]).value;
      var i :| 0 <= i < n && ids[..n][i] == best;
      assert AtMost(ids[i], ids[n]);
    }
  }

  /** `max(sorted(returns), key=...)`, the returns keyed by `assets`. */
  function Best(gains: map<string, real>, assets: seq<string>): (best: string)
    requires assets != [] && gains.Keys == set a | a in assets
    ensures IsBest(gains, best)
  {
    SortedKeys(gains, assets);
    FirstGreatestIsBest(gains, Sort(AtMost, Once(assets)));
    FirstGreatest(gains, Sort(AtMost, Once(assets))).value
  }

  lemma SortedKeys(gains: map<string, real>, assets: seq<string>)
    requires assets != [] && gains.Keys == set a | a in assets
    ensures var ids := Sort(AtMost, Once(assets));
            SortedBy(AtMost, ids) && ids != [] && forall a :: a in ids <==> a in gains
  {
    TextIsOrdered();
    SortPermutes(AtMost, Once(assets));
    SortSorts(AtMost, Once(assets));
    forall a ensures a in Once(assets) <==> a in gains {
      OnceMembers(assets, a);
    }
    assert assets[0] in gains;
  }

  // ------------------------------------------------------------------ the steps

  function Buy(asset: string, timestamp: real): Intent {
    Intent(STRATEGY_ID, asset, INVESTED, FULL_STRENGTH, timestamp, TargetWeight)
  }

  function Sell(asset: string, timestamp: real): Intent {
    Intent(STRATEGY_ID, asset, 0.0, FULL_STRENGTH, timestamp, TargetQuantity)
  }

  function AfterBar(s: State, bar: Bar): State {
    s.(closes := s.closes[bar.assetId := History(s.closes, bar.assetId) + [bar.close]])
  }

  function AssetSet(slice: Slice): set<string> { set a | a in slice.assets }

  /** What a slice does to the strategy, and what it asks for. */
  function AfterSlice(s: State, slice: Slice): Result<(State, seq<Intent>), Failure> {
    var assets := AssetSet(slice);
    if s.next.Some? then Ok((s.(held := s.next, next := None), [Buy(s.next.value, slice.timestamp)]))
    else if !Decides(s.closes, assets) then Ok((s, []))
    else if !Divisible(s.closes, assets) then Err(DivisionByZero)
    else
      var gains := Returns(s.closes, assets);
      assert assets == gains.Keys;
      var best := Best(gains, slice.assets);
      if s.held == Some(best) then Ok((s, []))
      else
        var decisions := s.decisions + [Decision(slice.timestamp, best, gains)];
        if s.held.None? then Ok((s.(held := Some(best), decisions := decisions), [Buy(best, slice.timestamp)]))
        else Ok((s.(held := None, next := Some(best), decisions := decisions), [Sell(s.held.value, slice.timestamp)]))
  }

  class Rotation {
    var closes: map<string, seq<real>>
    var held: Option<string>
    var next: Option<string>
    var decisions: seq<Decision>

    function Now(): State
      reads this
    {
      State(closes, held, next, decisions)
    }

    constructor ()
      ensures Now() == INITIAL
    {
      closes, held, next, decisions := map[], None, None, [];
    }

    method OnBar(bar: Bar) returns (intents: seq<Intent>)
      modifies this
      ensures Now() == AfterBar(old(Now()), bar) && intents == []
    {
      if bar.assetId !in closes {
        closes := closes[bar.assetId := []];
      }
      closes := closes[bar.assetId := closes[bar.assetId] + [bar.close]];
      intents := [];
    }

    method OnSlice(slice: Slice) returns (r: Result<seq<Intent>, Failure>)
      modifies this
      ensures var after := AfterSlice(old(Now()), slice);
              if after.Err? then r == Err(after.error) && Now() == old(Now())
              else r == Ok(after.value.1) && Now() == after.value.0
    {
      if next.Some? {
        held, next := next, None;
        return Ok([Buy(held.value, slice.timestamp)]);
      }
      var assets := AssetSet(slice);
      if !Decides(closes, assets) {
        return Ok([]);
      }
      if !Divisible(closes, assets) {
        return Err(DivisionByZero);
      }
      var gains := Returns(closes, assets);
      assert gains.Keys == assets;
      var best := Best(gains, slice.assets);
      if held == Some(best) {
        return Ok([]);
      }
      decisions := decisions + [Decision(slice.timestamp, best, gains)];
      if held.None? {
        held := Some(best);
        return Ok([Buy(best, slice.timestamp)]);
      }
      var sale := Sell(held.value, slice.timestamp);
      held, next := None, Some(best);
      return Ok([sale]);
    }
  }

  // -------------------------------------------------------------------- a run

  datatype Event = OnBar(bar: Bar) | OnSlice(slice: Slice)

  /** The strategy and everything it has asked for, after some events; a failure ends the run. */
  function Run(events: seq<Event>): Result<(State, seq<Intent>), Failure> {
    if events == [] then Ok((INITIAL, []))
    else
      var before := Run(events[..|events| - 1]);
      if before.Err? then before
      else
        var (s, intents) := before.value;
        match events[|events| - 1]
        case OnBar(bar) => Ok((AfterBar(s, bar), intents))
        case OnSlice(slice) =>
          var after := AfterSlice(s, slice);
          if after.Err? then Err(after.error) else Ok((after.value.0, intents + after.value.1))
  }

  lemma {:induction false} FailureStands(events: seq<Event>, k: nat)
    requires k <= |events| && Run(events[..k]).Err?
    ensures Run(events) == Run(events[..k])
  {
    if k == |events| {
      TakeAll(events);
    } else {
      var n := |events| - 1;
      assert events[..n][..k] == events[..k];
      FailureStands(events[..n], k);
    }
  }

  /** A fresh strategy shown every event, up to the first that fails: its own state and intents are the run's. */
  method Drive(events: seq<Event>) returns (rotation: Rotation, r: Result<seq<Intent>, Failure>)
    ensures fresh(rotation)
    ensures var run := Run(events);
            if run.Err? then r == Err(run.error) else r == Ok(run.value.1) && rotation.Now() == run.value.0
  {
    rotation := new Rotation();
    var intents: seq<Intent> := [];
    for k := 0 to |events|
      invariant fresh(rotation)
      invariant Run(events[..k]) == Ok((rotation.Now(), intents))
    {
      assert events[..k + 1][..k] == events[..k] && events[..k + 1][k] == events[k];
      match events[k]
      case OnBar(bar) =>
        var more := rotation.OnBar(bar);
        assert intents + more == intents;
        intents := intents + more;
      case OnSlice(slice) =>
        var more := rotation.OnSlice(slice);
        if more.Err? {
          FailureStands(events, k + 1);
          return rotation, Err(more.error);
        }
        intents := intents + more.value;
    }
    TakeAll(events);
    return rotation, Ok(intents);
  }

  predicate IsBuy(i: Intent) { i.kind == TargetWeight }

  ghost predicate Flat(targets: map<string, real>) { forall a | a in targets :: targets[a] == 0.0 }

  /** Obeying everything asked so far leaves at most one asset with a target. */
  ghost predicate AtMostOneTarget(targets: map<string, real>) {
    forall a, b | a in targets && b in targets && targets[a] != 0.0 && targets[b] != 0.0 :: a == b
  }

  /** The asset held, or the one about to be, is the last decided on; never both. */
  ghost predicate HoldsLastDecision(s: State) {
    if s.decisions == [] then s.held.None? && s.next.None?
    else
      var last := Some(s.decisions[|s.decisions| - 1].asset);
      (s.held == last && s.next.None?) || (s.held.None? && s.next == last)
  }

  ghost predicate DecidesBest(s: State) {
    && (forall i | 0 <= i < |s.decisions| :: IsBest(s.decisions[i].gains, s.decisions[i].asset))
    && (forall i | 0 < i < |s.decisions| :: s.decisions[i - 1].asset != s.decisions[i].asset)
  }

  function Pending(s: State): nat { if s.next.Some? then 1 else 0 }

  /** The intents alternate: a buy for each decision, a sale between one buy and the next. */
  ghost predicate Alternates(s: State, intents: seq<Intent>) {
    && |intents| == (if s.decisions == [] then 0 else 2 * |s.decisions| - 1 - Pending(s))
    && (forall k | 0 <= k < |intents| ::
          if k % 2 == 0 then IsBuy(intents[k]) && intents[k].instrument == s.decisions[k / 2].asset
          else !IsBuy(intents[k]) && intents[k].instrument == s.decisions[k / 2].asset && intents[k].target == 0.0)
  }

  /** Only what is held has a target. */
  ghost predicate TargetsHeld(s: State, intents: seq<Intent>) {
    && (forall a | a in Targets(intents) && Targets(intents)[a] != 0.0 :: s.held == Some(a))
    && (s.held.Some? ==> s.held.value in Targets(intents) && Targets(intents)[s.held.value] == INVESTED)
  }

  /** At every point of the run: at most one target, and nothing bought while anything is. */
  ghost predicate OneAtATime(intents: seq<Intent>) {
    && (forall k | 0 <= k <= |intents| :: AtMostOneTarget(Targets(intents[..k])))
    && (forall k | 0 <= k < |intents| && IsBuy(intents[k]) :: Flat(Targets(intents[..k])))
  }

  lemma TargetsAppend(intents: seq<Intent>, i: Intent)
    ensures Targets(intents + [i]) == Targets(intents)[i.instrument := i.target]
  {
    assert (intents + [i])[..|intents|] == intents;
  }

  lemma OneAtATimeAppend(intents: seq<Intent>, i: Intent)
    requires OneAtATime(intents) && AtMostOneTarget(Targets(intents + [i]))
    requires IsBuy(i) ==> Flat(Targets(intents))
    ensures OneAtATime(intents + [i])
  {
    var longer := intents + [i];
    forall k | 0 <= k <= |longer|
      ensures AtMostOneTarget(Targets(longer[..k])) && (k < |longer| && IsBuy(longer[k]) ==> Flat(Targets(longer[..k])))
    {
      PrefixOfAppend(intents, i, k);
    }
  }

  lemma PrefixOfAppend(intents: seq<Intent>, i: Intent, k: nat)
    requires k <= |intents| + 1
    ensures (intents + [i])[..k] == if k <= |intents| then intents[..k] else intents + [i]
    ensures k == |intents| ==> intents[..k] == intents
    ensures k < |intents| ==> (intents + [i])[k] == intents[k]
  {
  }

  lemma BuyStep(s: State, intents: seq<Intent>, asset: string, t: real, s': State)
    requires TargetsHeld(s, intents) && OneAtATime(intents) && s.held.None? && s'.held == Some(asset)
    ensures TargetsHeld(s', intents + [Buy(asset, t)]) && OneAtATime(intents + [Buy(asset, t)])
  {
    TargetsAppend(intents, Buy(asset, t));
    OneAtATimeAppend(intents, Buy(asset, t));
  }

  lemma SellStep(s: State, intents: seq<Intent>, t: real, s': State)
    requires TargetsHeld(s, intents) && OneAtATime(intents) && s.held.Some? && s'.held.None?
    ensures TargetsHeld(s', intents + [Sell(s.held.value, t)]) && OneAtATime(intents + [Sell(s.held.value, t)])
  {
    TargetsAppend(intents, Sell(s.held.value, t));
    OneAtATimeAppend(intents, Sell(s.held.value, t));
  }

  /** A slice keeps the intents alternating with the decisions. */
  lemma AlternatesStep(s: State, slice: Slice, intents: seq<Intent>)
    requires HoldsLastDecision(s) && Alternates(s, intents) && AfterSlice(s, slice).Ok?
    ensures var (s', more) := AfterSlice(s, slice).value;
            HoldsLastDecision(s') && Alternates(s', intents + more)
  {
    var (s', more) := AfterSlice(s, slice).value;
    if more != [] {
      OneMoreIntent(s, s', intents, more[0]);
    } else {
      assert intents + more == intents;
    }
  }

  /** A buy for the decision awaited or just made, or a sale of the last one's asset, keeps the alternation. */
  lemma OneMoreIntent(s: State, s': State, intents: seq<Intent>, i: Intent)
    requires Alternates(s, intents) && s.decisions <= s'.decisions && s'.decisions != []
    requires |intents| + 1 == 2 * |s'.decisions| - 1 - Pending(s')
    requires var k := |intents|;
             k / 2 < |s'.decisions| && i.instrument == s'.decisions[k / 2].asset && IsBuy(i) == (k % 2 == 0)
             && (!IsBuy(i) ==> i.target == 0.0)
    ensures Alternates(s', intents + [i])
  {
    var longer := intents + [i];
    forall k | 0 <= k < |longer|
      ensures k / 2 < |s'.decisions| && longer[k].instrument == s'.decisions[k / 2].asset
      ensures IsBuy(longer[k]) == (k % 2 == 0) && (!IsBuy(longer[k]) ==> longer[k].target == 0.0)
    {
      if k < |intents| {
        assert longer[k] == intents[k];
        assert k / 2 < |s.decisions|;
      }
    }
  }

  /** A slice that decides, decides for the best, and for something else than the last time. */
  lemma DecidesStep(s: State, slice: Slice)
    requires HoldsLastDecision(s) && DecidesBest(s) && AfterSlice(s, slice).Ok?
    ensures DecidesBest(AfterSlice(s, slice).value.0)
  {
  }

  lemma TargetsStep(s: State, slice: Slice, intents: seq<Intent>)
    requires HoldsLastDecision(s) && TargetsHeld(s, intents) && OneAtATime(intents) && AfterSlice(s, slice).Ok?
    ensures var (s', more) := AfterSlice(s, slice).value;
            TargetsHeld(s', intents + more) && OneAtATime(intents + more)
  {
    var (s', more) := AfterSlice(s, slice).value;
    if more == [] {
      assert intents + more == intents;
    } else if IsBuy(more[0]) {
      BuyStep(s, intents, more[0].instrument, slice.timestamp, s');
    } else {
      SellStep(s, intents, slice.timestamp, s');
    }
  }

  /**
   Over every run: the asset held or pending is the last decided on and never both are set;
   every decision is the smallest id among the best returns and differs from the one before;
   intents number 2 * decisions - 1, less one while a buy is pending, buys and sales alternating;
   and at every point at most one asset has a target, nothing being bought until all are flat.
   */
  lemma {:induction false} EveryRun(events: seq<Event>)
    requires Run(events).Ok?
    ensures var (s, intents) := Run(events).value;
            HoldsLastDecision(s) && DecidesBest(s) && Alternates(s, intents)
            && TargetsHeld(s, intents) && OneAtATime(intents)
  {
    if events == [] {
      var nothing: seq<Intent> := [];
      assert nothing[..0] == [];
    } else {
      EveryRun(events[..|events| - 1]);
      var (s, intents) := Run(events[..|events| - 1]).value;
      match events[|events| - 1]
      case OnBar(bar) =>
      case OnSlice(slice) =>
        AlternatesStep(s, slice, intents);
        DecidesStep(s, slice);
        TargetsStep(s, slice, intents);
    }
  }

  // --------------------------------------------------------- what is decided on

  /** The closes of one asset's bars, in the order they came. */
  function ClosesOf(events: seq<Event>, asset: string): seq<real> {
    if events == [] then []
    else
      ClosesOf(events[..|events| - 1], asset) +
      match events[|events| - 1]
      case OnBar(bar) => if bar.assetId == asset then [bar.close] else []
      case OnSlice(_) => []
  }

  /** What the strategy remembers of an asset is every close it was shown, whatever was decided meanwhile. */
  lemma {:induction false} HistoriesAreBars(events: seq<Event>, asset: string)
    requires Run(events).Ok?
    ensures History(Run(events).value.0.closes, asset) == ClosesOf(events, asset)
  {
    if events != [] {
      HistoriesAreBars(events[..|events| - 1], asset);
    }
  }

  /** Event `k` is the slice `d` was decided on, over the trailing returns of the bars before it. */
  ghost predicate DecidedAt(events: seq<Event>, k: nat, d: Decision) {
    && k < |events| && events[k].OnSlice? && events[k].slice.timestamp == d.timestamp
    && d.gains.Keys == AssetSet(events[k].slice) && |d.gains| >= UNIVERSE
    && forall a | a in d.gains :: Trailed(ClosesOf(events[..k], a), d.gains[a])
  }

  /** The last close is `gain` more than the one `LOOKBACK` closes before it, as a fraction of that one. */
  ghost predicate Trailed(closes: seq<real>, gain: real) {
    |closes| > LOOKBACK && closes[|closes| - 1 - LOOKBACK] != 0.0
    && closes[|closes| - 1] == (1.0 + gain) * closes[|closes| - 1 - LOOKBACK]
  }

  lemma ReturnTrails(closes: seq<real>)
    requires |closes| > LOOKBACK && closes[|closes| - 1 - LOOKBACK] != 0.0
    ensures Trailed(closes, Return(closes))
  {
  }

  lemma SliceDecides(s: State, slice: Slice)
    requires AfterSlice(s, slice).Ok? && AfterSlice(s, slice).value.0.decisions != s.decisions
    ensures Decides(s.closes, AssetSet(slice)) && Divisible(s.closes, AssetSet(slice))
    ensures var gains := Returns(s.closes, AssetSet(slice));
            gains.Keys == AssetSet(slice) && slice.assets != []
            && AfterSlice(s, slice).value.0.decisions
                == s.decisions + [Decision(slice.timestamp, Best(gains, slice.assets), gains)]
  {
    assert Returns(s.closes, AssetSet(slice)).Keys == AssetSet(slice);
  }

  lemma DecidedNow(events: seq<Event>, n: nat, s: State, d: Decision)
    requires n + 1 == |events| && events[n].OnSlice? && Run(events[..n]).Ok? && Run(events[..n]).value.0 == s
    requires var assets := AssetSet(events[n].slice);
             Decides(s.closes, assets) && Divisible(s.closes, assets)
             && d.gains == Returns(s.closes, assets) && d.gains.Keys == assets
             && d.timestamp == events[n].slice.timestamp
    ensures DecidedAt(events, n, d)
  {
    forall a | a in d.gains ensures Trailed(ClosesOf(events[..n], a), d.gains[a]) {
      RememberedTrails(events[..n], AssetSet(events[n].slice), a);
    }
  }

  lemma RememberedTrails(events: seq<Event>, assets: set<string>, a: string)
    requires Run(events).Ok? && a in assets
    requires var closes := Run(events).value.0.closes; Decides(closes, assets) && Divisible(closes, assets)
    ensures Trailed(ClosesOf(events, a), Returns(Run(events).value.0.closes, assets)[a])
  {
    HistoriesAreBars(events, a);
    ReturnTrails(History(Run(events).value.0.closes, a));
  }

  lemma DecidedStays(events: seq<Event>, n: nat, k: nat, d: Decision)
    requires n <= |events| && DecidedAt(events[..n], k, d)
    ensures DecidedAt(events, k, d)
  {
    assert events[..n][..k] == events[..k];
  }

  /** One event keeps every decision, and adds at most one. */
  lemma DecisionsGrow(events: seq<Event>)
    requires events != [] && Run(events).Ok?
    ensures var n := |events| - 1;
            Run(events[..n]).Ok? &&
            var before, after := Run(events[..n]).value.0.decisions, Run(events).value.0.decisions;
            after == before
            || (events[n].OnSlice? && |after| == |before| + 1 && after[..|before|] == before
                && DecidedAt(events, n, after[|before|]))
  {
    var n := |events| - 1;
    var s := Run(events[..n]).value.0;
    if events[n].OnSlice? && AfterSlice(s, events[n].slice).value.0.decisions != s.decisions {
      SliceDecides(s, events[n].slice);
      DecidedNow(events, n, s, Run(events).value.0.decisions[|s.decisions|]);
    }
  }

  lemma {:induction false} DecisionFound(events: seq<Event>, i: nat) returns (k: nat)
    requires Run(events).Ok? && i < |Run(events).value.0.decisions|
    ensures DecidedAt(events, k, Run(events).value.0.decisions[i])
  {
    k := |events| - 1;
    DecisionsGrow(events);
    var before, after := Run(events[..k]).value.0.decisions, Run(events).value.0.decisions;
    if i < |before| {
      assert after[i] == after[..|before|][i] == before[i];
      var n := k;
      k := DecisionFound(events[..n], i);
      DecidedStays(events, n, k, before[i]);
    }
  }

  /** Every decision of a run is over the trailing returns of the bars before its slice, for every asset of it. */
  lemma {:induction false} EveryDecision(events: seq<Event>, i: nat)
    requires Run(events).Ok? && i < |Run(events).value.0.decisions|
    ensures exists k :: DecidedAt(events, k, Run(events).value.0.decisions[i])
  {
    var k := DecisionFound(events, i);
  }

  // -------------------------------------------------------- when it must decide

  /** At least three different assets, and every one of them shown six closes or more. */
  ghost predicate Ready(events: seq<Event>, slice: Slice) {
    |AssetSet(slice)| >= 3 && forall a | a in slice.assets :: |ClosesOf(events, a)| >= 6
  }

  ghost function FiveBefore(closes: seq<real>): real
    requires |closes| >= 6
  {
    closes[|closes| - 6]
  }

  ghost predicate Priced(events: seq<Event>, slice: Slice)
    requires Ready(events, slice)
  {
    forall a | a in slice.assets :: FiveBefore(ClosesOf(events, a)) != 0.0
  }

  ghost function Growth(closes: seq<real>): real
    requires |closes| >= 6 && FiveBefore(closes) != 0.0
  {
    closes[|closes| - 1] / FiveBefore(closes)
  }

  /** No asset of the slice has grown more, and of those that have grown as much it sorts first. */
  ghost predicate Leads(events: seq<Event>, slice: Slice, best: string)
    requires Ready(events, slice) && Priced(events, slice)
  {
    && best in slice.assets
    && forall a | a in slice.assets ::
         var mine, its := Growth(ClosesOf(events, best)), Growth(ClosesOf(events, a));
         its < mine || (its == mine && AtMost(best, a))
  }

  lemma OneLeader(events: seq<Event>, slice: Slice, a: string, b: string)
    requires Ready(events, slice) && Priced(events, slice) && Leads(events, slice, a) && Leads(events, slice, b)
    ensures a == b
  {
    AtMostBothWays(a, b);
  }

  /** The decision for `best`, and what is asked at once: to buy it, or to sell what is held and buy it next. */
  ghost predicate DecidesFor(s: State, slice: Slice, best: string, s': State, asked: seq<Intent>) {
    && s'.closes == s.closes && |s'.decisions| == |s.decisions| + 1 && s.decisions <= s'.decisions
    && s'.decisions[|s.decisions|].asset == best && s'.decisions[|s.decisions|].timestamp == slice.timestamp
    && if s.held.None?
       then s'.held == Some(best) && s'.next == None
            && asked == [Intent("EX09-ROTATION", best, 0.95, 1.0, slice.timestamp, TargetWeight)]
       else s'.held == None && s'.next == Some(best)
            && asked == [Intent("EX09-ROTATION", s.held.value, 0.0, 1.0, slice.timestamp, TargetQuantity)]
  }

  /**
   What one more slice comes to, after any run, in the bars of the run: a pending asset is bought whatever the
   slice holds; otherwise a slice that is ready decides for its leader, unless that is held already; and any
   other changes nothing.
   */
  lemma SliceExactly(events: seq<Event>, slice: Slice)
    requires Run(events).Ok?
    ensures var (s, intents) := Run(events).value;
            var after := Run(events + [OnSlice(slice)]);
            if s.next.Some?
            then after == Ok((State(s.closes, s.next, None, s.decisions),
                              intents + [Intent("EX09-ROTATION", s.next.value, 0.95, 1.0, slice.timestamp,
                                                TargetWeight)]))
            else if !Ready(events, slice) then after == Ok((s, intents))
            else if !Priced(events, slice) then after == Err(DivisionByZero)
            else exists best ::
                   && Leads(events, slice, best)
                   && if s.held == Some(best) then after == Ok((s, intents))
                      else exists s', asked ::
                             DecidesFor(s, slice, best, s', asked) && after == Ok((s', intents + asked))
  {
    var (s, intents) := Run(events).value;
    OneMoreSlice(events, slice);
    RunRemembers(events, slice);
    ReadyExactly(events, slice, s.closes);
    if Ready(events, slice) {
      PricedExactly(events, slice, s.closes);
    }
    if s.next.None? && Ready(events, slice) && Priced(events, slice) {
      var gains := Returns(s.closes, AssetSet(slice));
      assert gains.Keys == AssetSet(slice);
      var best := Best(gains, slice.assets);
      BestLeads(events, slice, s.closes, best);
      var (s', asked) := AfterSlice(s, slice).value;
      if s.held != Some(best) {
        assert DecidesFor(s, slice, best, s', asked);
      } else {
        assert intents + asked == intents;
      }
    } else if s.next.None? {
      var nothing: seq<Intent> := [];
      assert intents + nothing == intents;
    }
  }

  lemma OneMoreSlice(events: seq<Event>, slice: Slice)
    requires Run(events).Ok?
    ensures var (s, intents) := Run(events).value;
            var step := AfterSlice(s, slice);
            Run(events + [OnSlice(slice)])
            == if step.Err? then Err(step.error) else Ok((step.value.0, intents + step.value.1))
  {
    assert (events + [OnSlice(slice)])[..|events|] == events;
  }

  ghost predicate Remembers(events: seq<Event>, slice: Slice, closes: map<string, seq<real>>) {
    forall a | a in slice.assets :: History(closes, a) == ClosesOf(events, a)
  }

  lemma RunRemembers(events: seq<Event>, slice: Slice)
    requires Run(events).Ok?
    ensures Remembers(events, slice, Run(events).value.0.closes)
  {
    forall a | a in slice.assets ensures History(Run(events).value.0.closes, a) == ClosesOf(events, a) {
      HistoriesAreBars(events, a);
    }
  }

  /** What is asked of the remembered closes is asked of the bars. */
  lemma ReadyExactly(events: seq<Event>, slice: Slice, closes: map<string, seq<real>>)
    requires Remembers(events, slice, closes)
    ensures Ready(events, slice) <==> Decides(closes, AssetSet(slice))
  {
    assert forall a | a in AssetSet(slice) :: a in slice.assets && History(closes, a) == ClosesOf(events, a);
    assert forall a | a in slice.assets :: a in AssetSet(slice) && History(closes, a) == ClosesOf(events, a);
  }

  lemma PricedExactly(events: seq<Event>, slice: Slice, closes: map<string, seq<real>>)
    requires Remembers(events, slice, closes) && Ready(events, slice) && Decides(closes, AssetSet(slice))
    ensures Priced(events, slice) <==> Divisible(closes, AssetSet(slice))
  {
    forall a | a in slice.assets
      ensures a in AssetSet(slice) && Earlier(History(closes, a)) == FiveBefore(ClosesOf(events, a))
    {
      assert History(closes, a) == ClosesOf(events, a);
      EarlierIsFiveBefore(ClosesOf(events, a));
    }
  }

  lemma EarlierIsFiveBefore(closes: seq<real>)
    requires |closes| >= 6
    ensures Earlier(closes) == FiveBefore(closes)
  {
  }

  lemma BestLeads(events: seq<Event>, slice: Slice, closes: map<string, seq<real>>, best: string)
    requires Remembers(events, slice, closes) && Ready(events, slice) && Priced(events, slice)
    requires Decides(closes, AssetSet(slice)) && Divisible(closes, AssetSet(slice))
    requires IsBest(Returns(closes, AssetSet(slice)), best)
    ensures Leads(events, slice, best)
  {
    GainIsGrowth(events, slice, closes, best);
    forall a | a in slice.assets
      ensures var mine, its := Growth(ClosesOf(events, best)), Growth(ClosesOf(events, a));
              its < mine || (its == mine && AtMost(best, a))
    {
      GainIsGrowth(events, slice, closes, a);
    }
  }

  lemma GainIsGrowth(events: seq<Event>, slice: Slice, closes: map<string, seq<real>>, a: string)
    requires Remembers(events, slice, closes) && Ready(events, slice) && Priced(events, slice)
    requires Decides(closes, AssetSet(slice)) && Divisible(closes, AssetSet(slice))
    ensures var gains := Returns(closes, AssetSet(slice));
            a in gains <==> a in slice.assets
    ensures a in slice.assets ==> Returns(closes, AssetSet(slice))[a] == Growth(ClosesOf(events, a)) - 1.0
  {
    if a in slice.assets {
      var history := History(closes, a);
      assert a in AssetSet(slice) && history == ClosesOf(events, a);
      ReturnIsGrowth(history);
    }
  }

  lemma ReturnIsGrowth(closes: seq<real>)
    requires |closes| >= 6 && FiveBefore(closes) != 0.0
    ensures Return(closes) == Growth(closes) - 1.0
  {
  }

  /** A slice is decided on exactly when nothing is pending, it is ready, and its leader is not what is held. */
  lemma DecidesExactly(events: seq<Event>, slice: Slice)
    requires Run(events + [OnSlice(slice)]).Ok? && Run(events).Ok?
    ensures var s, s' := Run(events).value.0, Run(events + [OnSlice(slice)]).value.0;
            |s'.decisions| == |s.decisions| + 1 <==>
              && s.next.None? && Ready(events, slice) && Priced(events, slice)
              && forall best | Leads(events, slice, best) :: s.held != Some(best)
  {
    SliceExactly(events, slice);
    var s := Run(events).value.0;
    if s.next.None? && Ready(events, slice) && Priced(events, slice) {
      forall a, b | Leads(events, slice, a) && Leads(events, slice, b) ensures a == b {
        OneLeader(events, slice, a, b);
      }
    }
  }
}
