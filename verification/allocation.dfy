/**
 From intents to netted orders: each intent sized for its own strategy, the sizes netted
 per order, and each order's strategies named with what they asked for.
 */
module Allocation {
  import opened Outcomes
  import opened Ordering
  import opened Dictionaries
  import opened Contributions
  import opened Strategies

  /** What one strategy asks of one order; `key` is the order: an asset, or an asset and its terms. */
  datatype Ask<K> = Ask(strategyId: string, key: K, quantity: real)

  /** A sizing model: a quantity, or its refusal to size. */
  type Sizing<!Budget> = (Intent, Budget, real) -> Result<real, string>

  /** What stands in for a missing price; a model that needs one refuses it. */
  const UNPRICED: real := 0.0

  // ------------------------------------------------------------------- sizing

  function SizeIntent<Budget>(intent: Intent, budget: Budget, prices: map<string, real>,
                              model: Sizing<Budget>): Result<real, string> {
    model(intent, budget, if intent.instrument in prices then prices[intent.instrument] else UNPRICED)
  }

  /** Every intent's ask, or the first refusal. */
  function SizeIntents<Budget>(intents: seq<Intent>, budget: Budget, prices: map<string, real>, model: Sizing<Budget>)
    : Result<seq<Ask<string>>, string>
  {
    if intents == [] then Ok([])
    else
      match SizeIntent(intents[0], budget, prices, model)
      case Err(why) => Err(why)
      case Ok(quantity) =>
        match SizeIntents(intents[1..], budget, prices, model)
        case Err(why) => Err(why)
        case Ok(rest) => Ok([Ask(intents[0].strategyId, intents[0].instrument, quantity)] + rest)
  }

  /** One intent's ask; the quantity of one that is refused does not matter. */
  function AskOf<Budget>(budget: Budget, prices: map<string, real>, model: Sizing<Budget>): Intent -> Ask<string> {
    (intent: Intent) =>
      var size := SizeIntent(intent, budget, prices, model);
      Ask(intent.strategyId, intent.instrument, if size.Ok? then size.value else 0.0)
  }

  /** Each ask of a batch is its own intent's, sized at its own price. */
  lemma EachIsSized<Budget>(intents: seq<Intent>, budget: Budget, prices: map<string, real>, model: Sizing<Budget>)
    ensures SizeIntents(intents, budget, prices, model).Ok? ==>
              var asks := SizeIntents(intents, budget, prices, model).value;
              && |asks| == |intents|
              && forall i | 0 <= i < |intents| :: IsSized(intents[i], budget, prices, model, asks[i])
  {
    BatchIsSizedExactly(intents, budget, prices, model);
  }

  /** The ask is the intent's own strategy and instrument, and what the model makes of it at its price. */
  ghost predicate IsSized<Budget>(intent: Intent, budget: Budget, prices: map<string, real>, model: Sizing<Budget>,
                                  ask: Ask<string>) {
    && ask.strategyId == intent.strategyId && ask.key == intent.instrument
    && (intent.instrument in prices ==> model(intent, budget, prices[intent.instrument]) == Ok(ask.quantity))
    && (intent.instrument !in prices ==> model(intent, budget, 0.0) == Ok(ask.quantity))
  }

  /**
   A batch is refused exactly when some intent alone would be, with the first such refusal;
   otherwise each intent keeps its place, its strategy and its own size.
   */
  lemma {:induction false} BatchIsSizedExactly<Budget>(intents: seq<Intent>, budget: Budget,
                                                       prices: map<string, real>, model: Sizing<Budget>)
    ensures SizeIntents(intents, budget, prices, model).Ok? <==>
              forall i | 0 <= i < |intents| :: SizeIntent(intents[i], budget, prices, model).Ok?
    ensures SizeIntents(intents, budget, prices, model).Ok? ==>
              SizeIntents(intents, budget, prices, model).value == Map(AskOf(budget, prices, model), intents)
    ensures SizeIntents(intents, budget, prices, model).Err? ==>
              exists i :: 0 <= i < |intents|
                && SizeIntent(intents[i], budget, prices, model)
                    == Err(SizeIntents(intents, budget, prices, model).error)
                && forall j | 0 <= j < i :: SizeIntent(intents[j], budget, prices, model).Ok?
  {
    if intents != [] {
      var rest := intents[1..];
      BatchIsSizedExactly(rest, budget, prices, model);
      if SizeIntent(intents[0], budget, prices, model).Ok? {
        assert forall i | 0 < i < |intents| :: intents[i] == rest[i - 1];
        var whole := SizeIntents(rest, budget, prices, model);
        if whole.Err? {
          var i :| 0 <= i < |rest| && SizeIntent(rest[i], budget, prices, model) == Err(whole.error)
                   && forall j | 0 <= j < i :: SizeIntent(rest[j], budget, prices, model).Ok?;
          assert SizeIntent(intents[i + 1], budget, prices, model) == Err(whole.error);
        }
      }
    }
  }

  /** Reordering a batch changes neither whether it is sized nor what is asked for. */
  lemma {:induction false} SizingIgnoresArrival<Budget>(a: seq<Intent>, b: seq<Intent>, budget: Budget,
                                                        prices: map<string, real>, model: Sizing<Budget>)
    requires multiset(a) == multiset(b)
    ensures var sized, sized' := SizeIntents(a, budget, prices, model), SizeIntents(b, budget, prices, model);
            sized.Ok? == sized'.Ok? && (sized.Ok? ==> multiset(sized.value) == multiset(sized'.value))
  {
    BatchIsSizedExactly(a, budget, prices, model);
    BatchIsSizedExactly(b, budget, prices, model);
    MapPermutes(AskOf(budget, prices, model), a, b);
    SameMembers(a, b);
    assert forall i | 0 <= i < |a| :: a[i] in b;
    assert forall i | 0 <= i < |b| :: b[i] in a;
  }

  // ------------------------------------------------------------------- netting

  function Share<K>(): Ask<K> -> Contribution { (a: Ask<K>) => Contribution(a.strategyId, a.quantity) }

  function OfOrder<K(==)>(key: K): Ask<K> -> bool { (a: Ask<K>) => a.key == key }

  /** Who asked for one order, and for how much, as they arrived. */
  function RowsOf<K(==)>(asks: seq<Ask<K>>, key: K): seq<Contribution> {
    Map(Share(), Filter(OfOrder(key), asks))
  }

  ghost predicate Asked<K>(asks: seq<Ask<K>>, key: K) {
    exists a :: a in asks && a.key == key
  }

  lemma AskedStep<K>(asks: seq<Ask<K>>, key: K)
    requires asks != []
    ensures Asked(asks, key) <==> Asked(asks[..|asks| - 1], key) || asks[|asks| - 1].key == key
  {
    if a :| a in asks && a.key == key && a != asks[|asks| - 1] {
      assert a in asks[..|asks| - 1];
    }
  }

  lemma RowsStep<K>(asks: seq<Ask<K>>, k: nat, key: K)
    requires k < |asks|
    ensures RowsOf(asks[..k + 1], key)
         == RowsOf(asks[..k], key) + if asks[k].key == key then [Share()(asks[k])] else []
  {
    TakeOneMore(asks, k);
    FilterConcat(OfOrder(key), asks[..k], [asks[k]]);
    MapConcat(Share(), Filter(OfOrder(key), asks[..k]), Filter(OfOrder(key), [asks[k]]));
    assert Filter(OfOrder(key), [asks[k]]) == if asks[k].key == key then [asks[k]] else [];
    assert Map(Share(), [asks[k]]) == [Share()(asks[k])];
  }

  /** All that was asked of one order. */
  ghost function NetOf<K>(asks: seq<Ask<K>>, key: K): real { Sum(RowsOf(asks, key)) }

  lemma NetOfStep<K>(asks: seq<Ask<K>>, k: nat, key: K)
    requires k < |asks|
    ensures NetOf(asks[..k + 1], key) == NetOf(asks[..k], key) + if asks[k].key == key then asks[k].quantity else 0.0
  {
    RowsStep(asks, k, key);
    SumOneMore(RowsOf(asks[..k], key), Share<K>()(asks[k]));
    assert RowsOf(asks[..k], key) + [] == RowsOf(asks[..k], key);
  }

  /** `net[key] = net.get(key, 0) + qty`, ask by ask. */
  function Netting<K(==)>(asks: seq<Ask<K>>): Dict<K, real> {
    if asks == [] then Dict([], map[])
    else
      var last := asks[|asks| - 1];
      var net := Netting(asks[..|asks| - 1]);
      Put(net, last.key, Get(net, last.key, 0.0) + last.quantity)
  }

  lemma {:induction false} NettingHolds<K>(asks: seq<Ask<K>>, key: K)
    ensures var net := Netting(asks);
            && (key in net.order <==> Asked(asks, key))
            && Get(net, key, 0.0) == NetOf(asks, key)
            && Distinct(net.order)
            && (key in net.order <==> key in net.entries)
  {
    if asks != [] {
      var n := |asks| - 1;
      var front, last := asks[..n], asks[n];
      NettingHolds(front, key);
      NettingHolds(front, last.key);
      PutHolds(Netting(front), last.key, Get(Netting(front), last.key, 0.0) + last.quantity, key);
      NetOfStep(asks, n, key);
      TakeAll(asks);
      AskedStep(asks, key);
    }
  }

  /** Every order asked for, and no other, nets to all that was asked of it. */
  ghost predicate Nets<K(!new)>(asks: seq<Ask<K>>, net: map<K, real>) {
    && (forall key :: key in net <==> Asked(asks, key))
    && (forall key | key in net :: net[key] == NetOf(asks, key))
  }

  /** The net of every order, each entered where it is first asked for. */
  method NetQuantities<K(==,!new)>(asks: seq<Ask<K>>) returns (net: Dict<K, real>)
    ensures Nets(asks, net.entries) && FirstAsked(asks, net.order)
  {
    net := Dict([], map[]);
    for k := 0 to |asks|
      invariant net == Netting(asks[..k])
    {
      assert asks[..k + 1][..k] == asks[..k];
      net := Put(net, asks[k].key, Get(net, asks[k].key, 0.0) + asks[k].quantity);
    }
    TakeAll(asks);
    NettingNets(asks);
    NettingOrder(asks);
  }

  lemma NettingNets<K(!new)>(asks: seq<Ask<K>>)
    ensures Nets(asks, Netting(asks).entries)
  {
    forall key
      ensures (key in Netting(asks).entries <==> Asked(asks, key)) && Get(Netting(asks), key, 0.0) == NetOf(asks, key)
    {
      NettingHolds(asks, key);
    }
  }

  /** Each order listed once, ahead of the orders first asked for after it. */
  ghost predicate FirstAsked<K(!new)>(asks: seq<Ask<K>>, order: seq<K>) {
    && (forall key :: key in order <==> Asked(asks, key))
    && (forall i, j | 0 <= i < j < |order| :: AskedBefore(asks, order[i], order[j]))
  }

  /** Some ask for `a` comes before every ask for `b`. */
  ghost predicate AskedBefore<K>(asks: seq<Ask<K>>, a: K, b: K) {
    exists p :: 0 <= p < |asks| && asks[p].key == a && forall q | 0 <= q <= p :: asks[q].key != b
  }

  lemma AskedBeforeStays<K>(asks: seq<Ask<K>>, n: nat, a: K, b: K)
    requires n <= |asks| && AskedBefore(asks[..n], a, b)
    ensures AskedBefore(asks, a, b)
  {
    var p :| 0 <= p < n && asks[..n][p].key == a && forall q | 0 <= q <= p :: asks[..n][q].key != b;
    assert forall q | 0 <= q <= p :: asks[q] == asks[..n][q];
  }

  lemma AskedBeforeLast<K>(asks: seq<Ask<K>>, a: K)
    requires asks != [] && Asked(asks[..|asks| - 1], a) && !Asked(asks[..|asks| - 1], asks[|asks| - 1].key)
    ensures AskedBefore(asks, a, asks[|asks| - 1].key)
  {
    var n := |asks| - 1;
    var p :| 0 <= p < n && asks[..n][p].key == a;
    assert forall q | 0 <= q < n :: asks[q] in asks[..n];
  }

  lemma {:induction false} NettingOrder<K(!new)>(asks: seq<Ask<K>>)
    ensures FirstAsked(asks, Netting(asks).order)
  {
    forall key ensures key in Netting(asks).order <==> Asked(asks, key) {
      NettingHolds(asks, key);
    }
    if asks != [] {
      var n := |asks| - 1;
      var order, before := Netting(asks).order, Netting(asks[..n]).order;
      NettingOrder(asks[..n]);
      NettingHolds(asks[..n], asks[n].key);
      forall i, j | 0 <= i < j < |order| ensures AskedBefore(asks, order[i], order[j]) {
        assert order[i] == before[i];
        if j < |before| {
          AskedBeforeStays(asks, n, before[i], before[j]);
        } else {
          assert before[i] in before;
          AskedBeforeLast(asks, before[i]);
        }
      }
    }
  }

  /** `by_key.setdefault(key, []).append((strategy_id, qty))`, ask by ask. */
  function Grouping<K(==)>(asks: seq<Ask<K>>): Dict<K, seq<Contribution>> {
    if asks == [] then Dict([], map[])
    else
      var last := asks[|asks| - 1];
      var rows := Grouping(asks[..|asks| - 1]);
      Put(rows, last.key, Get(rows, last.key, []) + [Share()(last)])
  }

  lemma {:induction false} GroupingHolds<K>(asks: seq<Ask<K>>, key: K)
    ensures Grouping(asks).order == Netting(asks).order
    ensures key in Grouping(asks).entries <==> Asked(asks, key)
    ensures Get(Grouping(asks), key, []) == RowsOf(asks, key)
  {
    NettingHolds(asks, key);
    if asks != [] {
      var n := |asks| - 1;
      var front, last := asks[..n], asks[n];
      GroupingHolds(front, key);
      GroupingHolds(front, last.key);
      NettingHolds(front, last.key);
      RowsStep(asks, n, key);
      TakeAll(asks);
      AskedStep(asks, key);
    }
  }

  /** Every order asked for, and no other, names the strategies it nets from. */
  ghost predicate Attributes<K(!new)>(asks: seq<Ask<K>>, parts: map<K, seq<Contribution>>) {
    && (forall key :: key in parts <==> Asked(asks, key))
    && (forall key | key in parts :: Contributes(RowsOf(asks, key), parts[key]))
  }

  /** Who each order nets from, each order entered where it is first asked for. */
  method ContributionsByOrder<K(==,!new)>(asks: seq<Ask<K>>) returns (parts: Dict<K, seq<Contribution>>)
    ensures Attributes(asks, parts.entries) && FirstAsked(asks, parts.order)
  {
    var rows: Dict<K, seq<Contribution>> := Dict([], map[]);
    for k := 0 to |asks|
      invariant rows == Grouping(asks[..k])
    {
      assert asks[..k + 1][..k] == asks[..k];
      rows := Put(rows, asks[k].key, Get(rows, asks[k].key, []) + [Share()(asks[k])]);
    }
    TakeAll(asks);
    NettingOrder(asks);
    if asks != [] {
      GroupingHolds(asks, asks[0].key);
    }
    var accounts := AccountAll(asks, rows);
    parts := Dict(rows.order, accounts);
  }

  /** `{key: contributions_from(rows) for key, rows in by_key.items()}`. */
  method AccountAll<K(==,!new)>(ghost asks: seq<Ask<K>>, rows: Dict<K, seq<Contribution>>)
    returns (accounts: map<K, seq<Contribution>>)
    requires rows == Grouping(asks)
    ensures forall key :: key in accounts <==> key in rows.order
    ensures forall key | key in accounts :: Contributes(RowsOf(asks, key), accounts[key])
  {
    accounts := map[];
    for k := 0 to |rows.order|
      invariant forall key :: key in accounts <==> key in rows.order[..k]
      invariant forall key | key in accounts :: Contributes(RowsOf(asks, key), accounts[key])
    {
      var key := rows.order[k];
      GroupingHolds(asks, key);
      var cs := ContributionsFrom(Get(rows, key, []));
      TakeOneMore(rows.order, k);
      accounts := accounts[key := cs];
    }
    TakeAll(rows.order);
  }

  /** Both read the same asks: the orders attributed are the orders netted, and each adds up to its net. */
  lemma AttributionIsConserved<K(!new)>(asks: seq<Ask<K>>, net: map<K, real>, parts: map<K, seq<Contribution>>)
    requires Nets(asks, net) && Attributes(asks, parts)
    ensures net.Keys == parts.Keys
    ensures forall key | key in net :: Sum(parts[key]) == net[key]
  {
    forall key | key in net ensures Sum(parts[key]) == net[key] {
      ContributionsAddUp(RowsOf(asks, key), parts[key]);
    }
  }

  lemma AskedPermutes<K(!new)>(a: seq<Ask<K>>, b: seq<Ask<K>>, key: K)
    requires multiset(a) == multiset(b)
    ensures Asked(a, key) <==> Asked(b, key)
    ensures multiset(RowsOf(a, key)) == multiset(RowsOf(b, key))
  {
    SameMembers(a, b);
    FilterPermutes(OfOrder(key), a, b);
    MapPermutes(Share(), Filter(OfOrder(key), a), Filter(OfOrder(key), b));
  }

  /** The same asks in another sequence net to the same quantities. */
  lemma NettingIgnoresArrival<K(!new)>(a: seq<Ask<K>>, b: seq<Ask<K>>, net: map<K, real>, net': map<K, real>)
    requires multiset(a) == multiset(b) && Nets(a, net) && Nets(b, net')
    ensures net == net'
  {
    forall key ensures (key in net <==> key in net') && (key in net ==> net[key] == net'[key]) {
      AskedPermutes(a, b, key);
      SumPermutes(RowsOf(a, key), RowsOf(b, key));
    }
  }

  /** The same asks in another sequence are attributed alike, strategy by strategy. */
  lemma AttributionIgnoresArrival<K(!new)>(a: seq<Ask<K>>, b: seq<Ask<K>>, parts: map<K, seq<Contribution>>,
                                           parts': map<K, seq<Contribution>>)
    requires multiset(a) == multiset(b) && Attributes(a, parts) && Attributes(b, parts')
    ensures parts == parts'
  {
    forall key ensures (key in parts <==> key in parts') && (key in parts ==> parts[key] == parts'[key]) {
      AskedPermutes(a, b, key);
      if key in parts {
        ContributionsIgnoreArrival(RowsOf(a, key), RowsOf(b, key), parts[key], parts'[key]);
      }
    }
  }

  /** From intents to orders: reordering a batch changes no net and no strategy's part in one. */
  lemma IntentOrderIsImmaterial<Budget>(a: seq<Intent>, b: seq<Intent>, budget: Budget, prices: map<string, real>,
                                        model: Sizing<Budget>,
                                        net: map<string, real>, net': map<string, real>,
                                        parts: map<string, seq<Contribution>>, parts': map<string, seq<Contribution>>)
    requires multiset(a) == multiset(b) && SizeIntents(a, budget, prices, model).Ok?
    requires SizeIntents(b, budget, prices, model).Ok? ==>
               && Nets(SizeIntents(a, budget, prices, model).value, net)
               && Nets(SizeIntents(b, budget, prices, model).value, net')
               && Attributes(SizeIntents(a, budget, prices, model).value, parts)
               && Attributes(SizeIntents(b, budget, prices, model).value, parts')
    ensures SizeIntents(b, budget, prices, model).Ok? && net == net' && parts == parts'
  {
    SizingIgnoresArrival(a, b, budget, prices, model);
    NettingIgnoresArrival(SizeIntents(a, budget, prices, model).value, SizeIntents(b, budget, prices, model).value,
        net, net');
    AttributionIgnoresArrival(SizeIntents(a, budget, prices, model).value,
        SizeIntents(b, budget, prices, model).value, parts, parts');
  }
}
