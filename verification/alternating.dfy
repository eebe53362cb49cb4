/** A strategy whose only memory is a counter, stopped, captured, restored and continued. */
module AlternatingRuns {
  import opened Outcomes
  import opened Ordering
  import opened Strategies

  const STATE_VERSION: nat := 1

  datatype Quote = Quote(timestamp: real)

  /** The durable state: what `capture_state` writes and `restore_state` reads. */
  datatype Payload = Payload(seen: int)

  datatype RestoreFailure = UnreadableVersion(version: int)

  /** What the strategy asks for on the quote that brings its counter to `seen`. */
  function Ask(strategyId: string, asset: string, seen: int, q: Quote): seq<Intent> {
    if seen % 2 == 0 then []
    else [Intent(strategyId, asset, if seen % 4 == 1 then 10.0 else -6.0, FULL_STRENGTH, q.timestamp, Delta)]
  }

  /** What a run asks for from a counter on. */
  function Asked(strategyId: string, asset: string, seen: int, quotes: seq<Quote>): seq<Intent>
    decreases quotes
  {
    if quotes == [] then []
    else Ask(strategyId, asset, seen + 1, quotes[0]) + Asked(strategyId, asset, seen + 1, quotes[1..])
  }

  class AlternatingStrategy {
    const strategyId: string
    const asset: string
    var seen: int

    constructor (strategyId: string, asset: string)
      ensures this.strategyId == strategyId && this.asset == asset && seen == 0
    {
      this.strategyId, this.asset := strategyId, asset;
      seen := 0;
    }

    method OnQuote(q: Quote) returns (intents: seq<Intent>)
      modifies this
      ensures seen == old(seen) + 1 && intents == Ask(strategyId, asset, seen, q)
    {
      seen := seen + 1;
      if seen % 2 == 0 {
        return [];
      }
      var quantity := if seen % 4 == 1 then 10.0 else -6.0;
      return [Intent(strategyId, asset, quantity, FULL_STRENGTH, q.timestamp, Delta)];
    }

    method CaptureState() returns (payload: Payload)
      ensures payload == Payload(seen)
    {
      payload := Payload(seen);
    }

    method RestoreState(payload: Payload, version: int) returns (failure: Option<RestoreFailure>)
      modifies this
      ensures failure == if version != 1 then Some(UnreadableVersion(version)) else None
      ensures seen == if failure.None? then payload.seen else old(seen)
    {
      if version != STATE_VERSION {
        return Some(UnreadableVersion(version));
      }
      seen := payload.seen;
      return None;
    }

    /** Every record of a batch, in turn. */
    method Drive(quotes: seq<Quote>) returns (intents: seq<Intent>)
      modifies this
      ensures seen == old(seen) + |quotes| && intents == Asked(strategyId, asset, old(seen), quotes)
    {
      intents := [];
      for k := 0 to |quotes|
        invariant seen == old(seen) + k
        invariant intents == Asked(strategyId, asset, old(seen), quotes[..k])
      {
        var more := OnQuote(quotes[k]);
        AskedConcat(strategyId, asset, old(seen), quotes[..k], [quotes[k]], old(seen) + k);
        TakeOneMore(quotes, k);
        AskedOne(strategyId, asset, old(seen) + k, quotes[k]);
        intents := intents + more;
      }
      TakeAll(quotes);
    }
  }

  lemma {:induction false} AskedConcat(strategyId: string, asset: string, seen: int, a: seq<Quote>, b: seq<Quote>,
                                       between: int)
    requires between == seen + |a|
    ensures Asked(strategyId, asset, seen, a + b)
         == Asked(strategyId, asset, seen, a) + Asked(strategyId, asset, between, b)
    decreases a
  {
    if a == [] {
      assert a + b == b;
    } else {
      TailOfConcat(a, b);
      AskedConcat(strategyId, asset, seen + 1, a[1..], b, between);
      Regrouped(Ask(strategyId, asset, seen + 1, a[0]), Asked(strategyId, asset, seen + 1, a[1..]),
                Asked(strategyId, asset, between, b));
    }
  }

  function Joined(segments: seq<seq<Quote>>): seq<Quote> {
    if segments == [] then [] else Joined(segments[..|segments| - 1]) + segments[|segments| - 1]
  }

  /**
   A run cut anywhere, each segment driven by a fresh instance restored from the payload the
   one before it captured, asks for exactly what the uninterrupted run asks for.
   */
  method DriveInSegments(strategyId: string, asset: string, segments: seq<seq<Quote>>) returns (intents: seq<Intent>)
    ensures intents == Asked(strategyId, asset, 0, Joined(segments))
  {
    intents := [];
    var stored := Payload(0);
    for k := 0 to |segments|
      invariant stored.seen == |Joined(segments[..k])|
      invariant intents == Asked(strategyId, asset, 0, Joined(segments[..k]))
    {
      var strategy := new AlternatingStrategy(strategyId, asset);
      var failure := strategy.RestoreState(stored, STATE_VERSION);
      var more := strategy.Drive(segments[k]);
      AskedConcat(strategyId, asset, 0, Joined(segments[..k]), segments[k], |Joined(segments[..k])|);
      assert segments[..k + 1][..k] == segments[..k];
      intents := intents + more;
      stored := strategy.CaptureState();
    }
    TakeAll(segments);
  }

  function Net(intents: seq<Intent>): real {
    if intents == [] then 0.0 else Net(intents[..|intents| - 1]) + intents[|intents| - 1].target
  }

  function NetAfter(n: nat): int { 10 * ((n + 3) / 4) - 6 * ((n + 1) / 4) }

  function StepOf(n: nat): int { if n % 2 == 0 then 0 else if n % 4 == 1 then 10 else -6 }

  lemma Residue(n: int, k: int, r: int)
    requires n == 4 * k + r && 0 <= r < 4
    ensures n / 4 == k && n % 4 == r && n % 2 == r % 2
  {
    var pairs := 2 * k + r / 2;
    assert n == 2 * pairs + r % 2;
  }

  lemma NetAfterSteps(n: nat)
    ensures NetAfter(n + 1) == NetAfter(n) + StepOf(n + 1)
    ensures NetAfter(n) >= 0
  {
    var k, r := n / 4, n % 4;
    Residue(n + 1, if r < 3 then k else k + 1, (r + 1) % 4);
    Residue(n + 2, if r < 2 then k else k + 1, (r + 2) % 4);
    Residue(n + 3, if r < 1 then k else k + 1, (r + 3) % 4);
    Residue(n + 4, k + 1, r);
  }

  lemma NetAppend(before: seq<Intent>, strategyId: string, asset: string, n: nat, q: Quote)
    ensures Net(before + Ask(strategyId, asset, n, q)) == Net(before) + StepOf(n) as real
  {
    var more := Ask(strategyId, asset, n, q);
    if more != [] {
      assert (before + more)[..|before|] == before;
    } else {
      assert before + more == before;
    }
  }

  /** What has been asked for nets to a closed form in the number of quotes, and is never short. */
  lemma {:induction false} NetOfARun(strategyId: string, asset: string, quotes: seq<Quote>)
    ensures Net(Asked(strategyId, asset, 0, quotes)) == NetAfter(|quotes|) as real
    ensures NetAfter(|quotes|) >= 0
  {
    NetAfterSteps(|quotes|);
    if quotes != [] {
      var n := |quotes| - 1;
      NetOfARun(strategyId, asset, quotes[..n]);
      AskedLast(strategyId, asset, quotes);
      NetAppend(Asked(strategyId, asset, 0, quotes[..n]), strategyId, asset, n + 1, quotes[n]);
      NetAfterSteps(n);
    }
  }

  lemma AskedLast(strategyId: string, asset: string, quotes: seq<Quote>)
    requires quotes != []
    ensures var n := |quotes| - 1;
            Asked(strategyId, asset, 0, quotes)
                == Asked(strategyId, asset, 0, quotes[..n]) + Ask(strategyId, asset, n + 1, quotes[n])
  {
    var n := |quotes| - 1;
    AskedConcat(strategyId, asset, 0, quotes[..n], [quotes[n]], n);
    assert quotes == quotes[..n] + [quotes[n]];
    AskedOne(strategyId, asset, n, quotes[n]);
  }

  lemma AskedOne(strategyId: string, asset: string, seen: int, q: Quote)
    ensures Asked(strategyId, asset, seen, [q]) == Ask(strategyId, asset, seen + 1, q)
  {
    assert [q][1..] == [];
  }

  /** Forgetting the counter goes unnoticed exactly when it stood at a multiple of four. */
  lemma ForgettingShowsExactly(strategyId: string, asset: string, seen: int)
    ensures (forall quotes :: Asked(strategyId, asset, seen, quotes) == Asked(strategyId, asset, 0, quotes))
       <==> seen % 4 == 0
  {
    if seen % 4 == 0 {
      forall quotes ensures Asked(strategyId, asset, seen, quotes) == Asked(strategyId, asset, 0, quotes) {
        CountsModuloFour(strategyId, asset, seen, 0, quotes);
      }
    } else {
      OneQuoteShows(strategyId, asset, seen);
    }
  }

  lemma OneQuoteShows(strategyId: string, asset: string, seen: int)
    requires seen % 4 != 0
    ensures Asked(strategyId, asset, seen, [Quote(0.0)]) != Asked(strategyId, asset, 0, [Quote(0.0)])
  {
    AskedOne(strategyId, asset, seen, Quote(0.0));
    AskedOne(strategyId, asset, 0, Quote(0.0));
    var r := seen % 4;
    Residue(seen + 1, if r < 3 then seen / 4 else seen / 4 + 1, (r + 1) % 4);
    assert Ask(strategyId, asset, 1, Quote(0.0)) == [Intent(strategyId, asset, 10.0, FULL_STRENGTH, 0.0, Delta)];
  }

  lemma {:induction false} CountsModuloFour(strategyId: string, asset: string, s: int, t: int, quotes: seq<Quote>)
    requires s % 4 == t % 4
    ensures Asked(strategyId, asset, s, quotes) == Asked(strategyId, asset, t, quotes)
    decreases quotes
  {
    if quotes != [] {
      SameResidue(s, t);
      CountsModuloFour(strategyId, asset, s + 1, t + 1, quotes[1..]);
    }
  }

  lemma SameResidue(s: int, t: int)
    requires s % 4 == t % 4
    ensures (s + 1) % 4 == (t + 1) % 4 && (s + 1) % 2 == (t + 1) % 2
  {
    var r := s % 4;
    Residue(s + 1, if r < 3 then s / 4 else s / 4 + 1, (r + 1) % 4);
    Residue(t + 1, if r < 3 then t / 4 else t / 4 + 1, (r + 1) % 4);
  }
}
