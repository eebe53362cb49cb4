/** Buying a constructed book once: each position asked for at its first session, then held. */
module BookHolding {
  import opened Outcomes
  import opened Ordering
  import opened Strategies

  const STRATEGY_ID: string := "EX10-BOOK"

  function Ask(bar: Bar, quantity: real): Intent {
    Intent(STRATEGY_ID, bar.assetId, quantity, FULL_STRENGTH, bar.timestamp, TargetQuantity)
  }

  predicate Fires(book: map<string, real>, start: real, bar: Bar) { bar.assetId in book && start <= bar.timestamp }

  class HoldTheBook {
    const start: real
    var book: map<string, real>

    constructor (book: map<string, real>, start: real)
      ensures this.book == book && this.start == start
    {
      this.book, this.start := book, start;
    }

    /** Takes the position out, and puts it back if it is too early to ask for it. */
    method OnBar(bar: Bar) returns (intents: seq<Intent>)
      modifies this
      ensures book == if Fires(old(book), start, bar) then old(book) - {bar.assetId} else old(book)
      ensures intents == if Fires(old(book), start, bar) then [Ask(bar, old(book)[bar.assetId])] else []
    {
      var quantity := if bar.assetId in book then Some(book[bar.assetId]) else None;
      book := book - {bar.assetId};
      if bar.timestamp < start || quantity.None? {
        if quantity.Some? {
          book := book[bar.assetId := quantity.value];
        }
        return [];
      }
      return [Ask(bar, quantity.value)];
    }

    /** Every bar of a run. */
    method Hold(bars: seq<Bar>) returns (intents: seq<Intent>)
      modifies this
      ensures book == Remaining(old(book), start, bars)
      ensures intents == Emitted(old(book), start, bars)
    {
      intents := [];
      for k := 0 to |bars|
        invariant book == Remaining(old(book), start, bars[..k])
        invariant intents == Emitted(old(book), start, bars[..k])
      {
        assert bars[..k + 1][..k] == bars[..k];
        var more := OnBar(bars[k]);
        intents := intents + more;
      }
      TakeAll(bars);
    }
  }

  function Remaining(book: map<string, real>, start: real, bars: seq<Bar>): map<string, real> {
    if bars == [] then book
    else
      var before, bar := Remaining(book, start, bars[..|bars| - 1]), bars[|bars| - 1];
      if Fires(before, start, bar) then before - {bar.assetId} else before
  }

  function Emitted(book: map<string, real>, start: real, bars: seq<Bar>): seq<Intent> {
    if bars == [] then []
    else
      var before, bar := Remaining(book, start, bars[..|bars| - 1]), bars[|bars| - 1];
      Emitted(book, start, bars[..|bars| - 1])
          + if Fires(before, start, bar) then [Ask(bar, before[bar.assetId])] else []
  }

  /** Whether bar `k` is its asset's first at or after the start. */
  ghost predicate FirstSession(start: real, bars: seq<Bar>, k: nat)
    requires k < |bars|
  {
    start <= bars[k].timestamp
    && forall j | 0 <= j < k && bars[j].assetId == bars[k].assetId :: bars[j].timestamp < start
  }

  /** A position is still in the book exactly when its asset has not traded since the start. */
  lemma {:induction false} RemainsExactly(book: map<string, real>, start: real, bars: seq<Bar>, asset: string)
    ensures var left := Remaining(book, start, bars);
            && (asset in left <==>
                  asset in book && forall j | 0 <= j < |bars| && bars[j].assetId == asset :: bars[j].timestamp < start)
            && (asset in left ==> left[asset] == book[asset])
  {
    if bars != [] {
      var n := |bars| - 1;
      RemainsExactly(book, start, bars[..n], asset);
      assert forall j | 0 <= j < n :: bars[..n][j] == bars[j];
    }
  }

  /** An intent is emitted exactly by the first session of a position, for its own quantity. */
  lemma {:induction false} EmittedExactly(book: map<string, real>, start: real, bars: seq<Bar>, i: Intent)
    ensures i in Emitted(book, start, bars) <==>
              exists k :: 0 <= k < |bars| && FirstSession(start, bars, k) && bars[k].assetId in book
                          && i == Intent("EX10-BOOK", bars[k].assetId, book[bars[k].assetId], 1.0, bars[k].timestamp,
                                         TargetQuantity)
  {
    if bars != [] {
      var n := |bars| - 1;
      EmittedExactly(book, start, bars[..n], i);
      RemainsExactly(book, start, bars[..n], bars[n].assetId);
      assert forall j | 0 <= j < n :: bars[..n][j] == bars[j];
      assert forall k | 0 <= k < n :: FirstSession(start, bars[..n], k) <==> FirstSession(start, bars, k);
    }
  }

  ghost predicate NoAssetTwice(intents: seq<Intent>) {
    forall i, j | 0 <= i < j < |intents| :: intents[i].instrument != intents[j].instrument
  }

  ghost predicate Names(intents: seq<Intent>, asset: string) {
    exists i :: i in intents && i.instrument == asset
  }

  lemma {:induction false} TargetsAreNamed(intents: seq<Intent>, asset: string)
    ensures asset in Targets(intents) <==> Names(intents, asset)
  {
    if intents != [] {
      var front, last := intents[..|intents| - 1], intents[|intents| - 1];
      TargetsAreNamed(front, asset);
      NamesAppend(front, last, asset);
      SameElements(intents, front + [last]);
    }
  }

  lemma NamesAppend(emitted: seq<Intent>, i: Intent, asset: string)
    ensures Names(emitted + [i], asset) <==> Names(emitted, asset) || asset == i.instrument
  {
    assert i in emitted + [i];
    if x :| x in emitted && x.instrument == asset {
      assert x in emitted + [i];
    }
  }

  lemma AppendNew(emitted: seq<Intent>, i: Intent)
    requires NoAssetTwice(emitted) && i.instrument !in Targets(emitted)
    ensures NoAssetTwice(emitted + [i])
    ensures Targets(emitted + [i]) == Targets(emitted)[i.instrument := i.target]
  {
    TargetsAreNamed(emitted, i.instrument);
    assert forall j | 0 <= j < |emitted| :: emitted[j] in emitted;
    assert (emitted + [i])[..|emitted|] == emitted;
  }

  /** What was asked for and what is left share no asset and together are the book. */
  ghost predicate Shares(book: map<string, real>, emitted: map<string, real>, left: map<string, real>) {
    emitted.Keys !! left.Keys && emitted + left == book
  }

  lemma OneMoreAsked(book: map<string, real>, emitted: map<string, real>, left: map<string, real>, asset: string)
    requires Shares(book, emitted, left) && asset in left
    ensures asset !in emitted && Shares(book, emitted[asset := left[asset]], left - {asset})
  {
  }

  /**
   The book is conserved: every position is asked for at most once, with its own quantity, and what
   is not is left.
   */
  lemma {:induction false} BookIsConserved(book: map<string, real>, start: real, bars: seq<Bar>)
    ensures NoAssetTwice(Emitted(book, start, bars))
    ensures Shares(book, Targets(Emitted(book, start, bars)), Remaining(book, start, bars))
  {
    if bars != [] {
      var n := |bars| - 1;
      var before, bar := Remaining(book, start, bars[..n]), bars[n];
      var emitted := Emitted(book, start, bars[..n]);
      BookIsConserved(book, start, bars[..n]);
      if Fires(before, start, bar) {
        OneMoreAsked(book, Targets(emitted), before, bar.assetId);
        AppendNew(emitted, Ask(bar, before[bar.assetId]));
      } else {
        assert emitted + [] == emitted;
      }
    }
  }
}
