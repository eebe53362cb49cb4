/**
 A map whose every version stays readable: views over one append-only store, copied when an
 old view is written to and when the store has grown too long.
 */
module PersistentMaps {
  import opened Outcomes
  import opened Ordering
  import opened Dictionaries

  /** The writes to one key: the version of each, ascending, and what it wrote; `None` is a deletion. */
  datatype Chain<V> = Chain(at: seq<nat>, values: seq<Option<V>>)

  /** A first write to a key, or a write to it after a deletion. */
  datatype Insertion<K> = Insertion(key: K, at: nat)

  /** A store's fields. `reinsertions` holds the versions of a key inserted more than once. */
  datatype Log<K, V> = Log(
    chains: map<K, Chain<V>>, insertions: seq<Insertion<K>>, reinsertions: map<K, seq<nat>>, live: nat, entries: nat)

  ghost predicate Rising(at: seq<nat>) { forall i, j | 0 <= i < j < |at| :: at[i] < at[j] }

  /** How many of ascending versions are at most `version`. */
  function UpTo(at: seq<nat>, version: nat): (n: nat)
    ensures n <= |at|
  {
    if at == [] then 0 else if at[|at| - 1] <= version then |at| else UpTo(at[..|at| - 1], version)
  }

  lemma {:induction false} UpToSplits(at: seq<nat>, version: nat, n: nat)
    requires Rising(at) && n <= |at|
    requires (n > 0 ==> at[n - 1] <= version) && (n < |at| ==> version < at[n])
    ensures UpTo(at, version) == n
  {
    if n < |at| {
      UpToSplits(at[..|at| - 1], version, n);
    }
  }

  lemma UpToAppend(at: seq<nat>, next: nat, version: nat)
    ensures UpTo(at + [next], version) == if next <= version then |at| + 1 else UpTo(at, version)
  {
    assert (at + [next])[..|at|] == at;
  }

  // ------------------------------------------------------------ what a view reads

  /** The newest write of a chain at or before a version. */
  function Newest<V>(chain: Chain<V>, version: nat): Option<V> {
    var n := UpTo(chain.at, version);
    if n == 0 || n > |chain.values| then None else chain.values[n - 1]
  }

  lemma NewestAppend<V>(chain: Chain<V>, next: nat, value: Option<V>, version: nat)
    requires |chain.at| == |chain.values|
    ensures Newest(Chain(chain.at + [next], chain.values + [value]), version)
         == if next <= version then value else Newest(chain, version)
  {
    UpToAppend(chain.at, next, version);
  }

  /** What a key holds at a version. */
  function Lookup<K, V>(log: Log<K, V>, key: K, version: nat): Option<V> {
    if key in log.chains then Newest(log.chains[key], version) else None
  }

  /** Whether the newest of some versions, at or before one, is `at`. */
  predicate NewestIs(history: seq<nat>, version: nat, at: nat) {
    var n := UpTo(history, version);
    n > 0 && history[n - 1] == at
  }

  lemma NewestIsPast(history: seq<nat>, next: nat, version: nat, at: nat)
    requires version < next
    ensures NewestIs(history + [next], version, at) == NewestIs(history, version, at)
  {
    UpToAppend(history, next, version);
  }

  lemma NewestIsNext(history: seq<nat>, next: nat, at: nat)
    requires at < next
    ensures !NewestIs(history + [next], next, at) && NewestIs(history + [next], next, next)
  {
    UpToAppend(history, next, next);
  }

  lemma NewestIsLast(history: seq<nat>, version: nat, later: nat, at: nat)
    requires history != [] && history[|history| - 1] <= version <= later
    ensures NewestIs(history, later, at) == NewestIs(history, version, at)
  {
  }

  lemma NewestIsOnly(only: nat, version: nat)
    ensures NewestIs([only], version, only) == (only <= version)
  {
    UpToAppend([], only, version);
    assert [] + [only] == [only];
  }

  /** Whether an insertion is its key's newest at or before a version. */
  predicate Places<K, V>(log: Log<K, V>, version: nat, i: Insertion<K>) {
    i.at <= version && (i.key in log.reinsertions ==> NewestIs(log.reinsertions[i.key], version, i.at))
  }

  /** Whether it gives its key a place at a version: the key may have been deleted since. */
  function Current<K, V>(log: Log<K, V>, version: nat): Insertion<K> -> bool {
    (i: Insertion<K>) => Places(log, version, i) && Lookup(log, i.key, version).Some?
  }

  function KeyOf<K>(): Insertion<K> -> K { (i: Insertion<K>) => i.key }

  function OrderAt<K, V>(log: Log<K, V>, version: nat): seq<K> {
    Map(KeyOf(), Filter(Current(log, version), log.insertions))
  }

  /** The dictionary a view at a version reads. */
  ghost function ContentsAt<K(!new), V>(log: Log<K, V>, version: nat): Dict<K, V> {
    Dict(OrderAt(log, version),
         map key | key in log.chains && Lookup(log, key, version).Some? :: Lookup(log, key, version).value)
  }

  // --------------------------------------------------------------- what is kept

  ghost predicate KeptChain<V>(chain: Chain<V>, live: nat) {
    |chain.at| == |chain.values| > 0 && Rising(chain.at) && chain.at[|chain.at| - 1] <= live
  }

  /** What every write keeps of a store. */
  ghost predicate Kept<K(!new), V>(log: Log<K, V>) {
    && |log.insertions| <= log.entries
    && (forall key | key in log.chains :: KeptChain(log.chains[key], log.live))
    && (forall i | i in log.insertions :: i.key in log.chains && i.at <= log.live)
    && (forall p, q | 0 <= p < q < |log.insertions| :: log.insertions[p].at <= log.insertions[q].at)
    && (forall key | key in log.reinsertions :: key in log.chains && KeptHistory(log.reinsertions[key], log.live))
    && (forall i | i in log.insertions ::
          if i.key in log.reinsertions then i.at in log.reinsertions[i.key] else i.at == log.chains[i.key].at[0])
  }

  ghost predicate KeptHistory(history: seq<nat>, live: nat) {
    history != [] && Rising(history) && history[|history| - 1] <= live
  }

  // -------------------------------------------------------------------- writing

  /** A key's chain with one more write. */
  function NextChain<K, V>(log: Log<K, V>, key: K, value: Option<V>): Chain<V> {
    var chain := if key in log.chains then log.chains[key] else Chain([], []);
    Chain(chain.at + [log.live + 1], chain.values + [value])
  }

  /** Whether a write follows its key's deletion. */
  predicate Reinserts<K, V>(log: Log<K, V>, key: K, value: Option<V>) {
    key in log.chains && value.Some? &&
    var values := log.chains[key].values;
    values != [] && values[|values| - 1].None?
  }

  /** One more write to the newest version: a value, or a deletion. */
  function Wrote<K, V>(log: Log<K, V>, key: K, value: Option<V>): Log<K, V> {
    Log(log.chains[key := NextChain(log, key, value)],
        if key !in log.chains || Reinserts(log, key, value) then log.insertions + [Insertion(key, log.live + 1)]
        else log.insertions,
        if Reinserts(log, key, value) then log.reinsertions[key := HistoryOf(log, key) + [log.live + 1]]
        else log.reinsertions,
        log.live + 1, log.entries + 1)
  }

  /** The insertions of a key so far; where only one was made, it is its chain's first write. */
  function HistoryOf<K, V>(log: Log<K, V>, key: K): seq<nat> {
    if key in log.reinsertions then log.reinsertions[key]
    else if key in log.chains && log.chains[key].at != [] then [log.chains[key].at[0]]
    else []
  }

  /** A deletion is of a key that is there. */
  ghost predicate Writable<K(!new), V>(log: Log<K, V>, key: K, value: Option<V>) {
    Kept(log) && (value.None? ==> Lookup(log, key, log.live).Some?)
  }

  lemma LastIsNewest<K(!new), V>(log: Log<K, V>, key: K)
    requires Kept(log) && key in log.chains
    ensures var chain := log.chains[key]; Lookup(log, key, log.live) == chain.values[|chain.values| - 1]
  {
    assert KeptChain(log.chains[key], log.live);
  }

  lemma WroteKeepsChains<K(!new), V>(log: Log<K, V>, key: K, value: Option<V>)
    requires Writable(log, key, value)
    ensures var after := Wrote(log, key, value); forall k | k in after.chains :: KeptChain(after.chains[k], after.live)
  {
    var after := Wrote(log, key, value);
    forall k | k in after.chains ensures KeptChain(after.chains[k], after.live) {
      if k == key {
        NextChainIsKept(log, key, value);
      } else {
        assert KeptChain(log.chains[k], log.live);
      }
    }
  }

  lemma NextChainIsKept<K(!new), V>(log: Log<K, V>, key: K, value: Option<V>)
    requires Kept(log)
    ensures KeptChain(NextChain(log, key, value), log.live + 1)
  {
    if key in log.chains {
      assert KeptChain(log.chains[key], log.live);
    }
  }

  lemma WroteKeepsHistories<K(!new), V>(log: Log<K, V>, key: K, value: Option<V>)
    requires Writable(log, key, value)
    ensures var after := Wrote(log, key, value);
            forall k | k in after.reinsertions :: k in after.chains && KeptHistory(after.reinsertions[k], after.live)
  {
    var after := Wrote(log, key, value);
    forall k | k in after.reinsertions ensures k in after.chains && KeptHistory(after.reinsertions[k], after.live) {
      if k == key && Reinserts(log, key, value) {
        HistoryIsKept(log, key);
        LaterHistory(HistoryOf(log, key), log.live, after.live);
      } else {
        assert KeptHistory(log.reinsertions[k], log.live);
      }
    }
  }

  lemma HistoryIsKept<K(!new), V>(log: Log<K, V>, key: K)
    requires Kept(log) && key in log.chains
    ensures KeptHistory(HistoryOf(log, key), log.live)
  {
    assert KeptChain(log.chains[key], log.live);
  }

  lemma LaterHistory(history: seq<nat>, live: nat, next: nat)
    requires KeptHistory(history, live) && live < next
    ensures KeptHistory(history + [next], next)
  {
  }

  lemma WroteKeepsOrigin<K(!new), V>(log: Log<K, V>, key: K, value: Option<V>, i: Insertion<K>)
    requires Writable(log, key, value) && i in Wrote(log, key, value).insertions
    ensures var after := Wrote(log, key, value);
            && i.key in after.chains && i.at <= after.live
            && if i.key in after.reinsertions then i.at in after.reinsertions[i.key]
               else i.at == after.chains[i.key].at[0]
  {
    assert i in log.insertions || i == Insertion(key, log.live + 1);
    assert key in log.chains ==> KeptChain(log.chains[key], log.live);
  }

  lemma WroteKeepsInsertions<K(!new), V>(log: Log<K, V>, key: K, value: Option<V>)
    requires Writable(log, key, value)
    ensures var after := Wrote(log, key, value);
            && (forall i | i in after.insertions :: i.key in after.chains && i.at <= after.live)
            && (forall p, q | 0 <= p < q < |after.insertions| :: after.insertions[p].at <= after.insertions[q].at)
            && (forall i | i in after.insertions ::
                  if i.key in after.reinsertions then i.at in after.reinsertions[i.key]
                  else i.at == after.chains[i.key].at[0])
  {
    var after := Wrote(log, key, value);
    forall i | i in after.insertions
      ensures && i.key in after.chains && i.at <= after.live
              && if i.key in after.reinsertions then i.at in after.reinsertions[i.key]
                 else i.at == after.chains[i.key].at[0]
    {
      WroteKeepsOrigin(log, key, value, i);
    }
    assert forall p | 0 <= p < |log.insertions| :: log.insertions[p] in log.insertions;
  }

  lemma WroteIsKept<K(!new), V>(log: Log<K, V>, key: K, value: Option<V>)
    requires Writable(log, key, value)
    ensures Kept(Wrote(log, key, value))
  {
    WroteKeepsChains(log, key, value);
    WroteKeepsHistories(log, key, value);
    WroteKeepsInsertions(log, key, value);
  }

  // ------------------------------------------------------------- older versions

  lemma PastLookup<K(!new), V>(log: Log<K, V>, key: K, value: Option<V>, version: nat, k: K)
    requires Writable(log, key, value) && version <= log.live
    ensures Lookup(Wrote(log, key, value), k, version) == Lookup(log, k, version)
  {
    if k == key {
      PastNewest(log, key, value, version);
    }
  }

  lemma PastNewest<K(!new), V>(log: Log<K, V>, key: K, value: Option<V>, version: nat)
    requires Writable(log, key, value) && version <= log.live
    ensures Newest(NextChain(log, key, value), version) == Lookup(log, key, version)
  {
    var chain := if key in log.chains then log.chains[key] else Chain([], []);
    assert key in log.chains ==> KeptChain(chain, log.live);
    NewestAppend(chain, log.live + 1, value, version);
  }

  /** The insertions that a key inserted again had. */
  lemma HistoryHolds<K(!new), V>(log: Log<K, V>, i: Insertion<K>)
    requires Kept(log) && i in log.insertions
    ensures i.at <= log.live
    ensures i.key !in log.reinsertions ==> HistoryOf(log, i.key) == [i.at]
    ensures i.key in log.reinsertions ==> KeptHistory(log.reinsertions[i.key], log.live)
  {
    assert KeptChain(log.chains[i.key], log.live);
  }

  lemma PastPlaces<K(!new), V>(log: Log<K, V>, key: K, value: Option<V>, version: nat, i: Insertion<K>)
    requires Writable(log, key, value) && version <= log.live && i in log.insertions
    ensures Places(Wrote(log, key, value), version, i) == Places(log, version, i)
  {
    PlacesAfter(log, key, value, version, i);
    if Reinserts(log, key, value) && i.key == key {
      PastPlacesAgain(log, version, i, log.live + 1);
    }
  }

  lemma PlacesAfter<K(!new), V>(log: Log<K, V>, key: K, value: Option<V>, version: nat, i: Insertion<K>)
    ensures Places(Wrote(log, key, value), version, i)
         == if Reinserts(log, key, value) && i.key == key then PlacedAgain(log, version, i, log.live + 1)
            else Places(log, version, i)
  {
  }

  /** Whether an insertion is its key's newest once the key is inserted again at `next`. */
  ghost predicate PlacedAgain<K(!new), V>(log: Log<K, V>, version: nat, i: Insertion<K>, next: nat) {
    i.at <= version && NewestIs(HistoryOf(log, i.key) + [next], version, i.at)
  }

  /** An insertion's place in its key's history does not change with a later one. */
  lemma PastPlacesAgain<K(!new), V>(log: Log<K, V>, version: nat, i: Insertion<K>, next: nat)
    requires Kept(log) && i in log.insertions && version <= log.live < next
    ensures PlacedAgain(log, version, i, next) == Places(log, version, i)
  {
    HistoryHolds(log, i);
    NewestIsPast(HistoryOf(log, i.key), next, version, i.at);
    NewestIsOnly(i.at, version);
  }

  lemma PastCurrent<K(!new), V>(log: Log<K, V>, key: K, value: Option<V>, version: nat, i: Insertion<K>)
    requires Writable(log, key, value) && version <= log.live
    ensures i in log.insertions ==> Current(Wrote(log, key, value), version)(i) == Current(log, version)(i)
    ensures i.at == log.live + 1 ==> !Current(Wrote(log, key, value), version)(i)
  {
    if i in log.insertions {
      PastPlaces(log, key, value, version, i);
      PastLookup(log, key, value, version, i.key);
    }
  }

  /** A write is invisible to every older version. */
  lemma PastContents<K(!new), V>(log: Log<K, V>, key: K, value: Option<V>, version: nat)
    requires Writable(log, key, value) && version <= log.live
    ensures ContentsAt(Wrote(log, key, value), version) == ContentsAt(log, version)
  {
    var after := Wrote(log, key, value);
    forall k ensures Lookup(after, k, version) == Lookup(log, k, version) {
      PastLookup(log, key, value, version, k);
    }
    PastOrder(log, key, value, version);
    EntriesAgree(after, version, log, version);
  }

  lemma PastOrder<K(!new), V>(log: Log<K, V>, key: K, value: Option<V>, version: nat)
    requires Writable(log, key, value) && version <= log.live
    ensures OrderAt(Wrote(log, key, value), version) == OrderAt(log, version)
  {
    var after := Wrote(log, key, value);
    forall i | i in log.insertions ensures Current(after, version)(i) == Current(log, version)(i) {
      PastCurrent(log, key, value, version, i);
    }
    FilterAgree(Current(after, version), Current(log, version), log.insertions);
    if after.insertions != log.insertions {
      var next := Insertion(key, log.live + 1);
      PastCurrent(log, key, value, version, next);
      FilterAppend(Current(after, version), log.insertions, next);
    }
  }

  lemma EntriesAgree<K(!new), V>(a: Log<K, V>, v: nat, b: Log<K, V>, w: nat)
    requires forall k :: Lookup(a, k, v) == Lookup(b, k, w)
    ensures ContentsAt(a, v).entries == ContentsAt(b, w).entries
  {
    forall k ensures k in ContentsAt(a, v).entries <==> k in ContentsAt(b, w).entries {
      assert Lookup(a, k, v) == Lookup(b, k, w);
    }
  }

  // ------------------------------------------------------------ the newest version

  lemma NowLookup<K(!new), V>(log: Log<K, V>, key: K, value: Option<V>, k: K)
    requires Writable(log, key, value)
    ensures Lookup(Wrote(log, key, value), k, log.live + 1) == if k == key then value else Lookup(log, k, log.live)
  {
    if k == key {
      NowNewest(log, key, value);
    } else if k in log.chains {
      NewestStays(log.chains[k], log.live);
    }
  }

  lemma NewestStays<V>(chain: Chain<V>, live: nat)
    requires KeptChain(chain, live)
    ensures Newest(chain, live + 1) == Newest(chain, live)
  {
  }

  lemma NowNewest<K(!new), V>(log: Log<K, V>, key: K, value: Option<V>)
    requires Writable(log, key, value)
    ensures Newest(NextChain(log, key, value), log.live + 1) == value
  {
    var chain := if key in log.chains then log.chains[key] else Chain([], []);
    assert key in log.chains ==> KeptChain(chain, log.live);
    NewestAppend(chain, log.live + 1, value, log.live + 1);
  }

  /** A write leaves every insertion its place, but the older ones of a key it inserts again. */
  lemma NowPlaces<K(!new), V>(log: Log<K, V>, key: K, value: Option<V>, i: Insertion<K>)
    requires Writable(log, key, value) && i in log.insertions
    ensures Places(Wrote(log, key, value), log.live + 1, i)
       <==> Places(log, log.live, i) && !(Reinserts(log, key, value) && i.key == key)
  {
    var next := log.live + 1;
    HistoryHolds(log, i);
    PlacesAfter(log, key, value, next, i);
    if Reinserts(log, key, value) && i.key == key {
      NewestIsNext(HistoryOf(log, key), next, i.at);
    } else {
      LaterPlaces(log, i, next);
    }
  }

  /** With no write between, an insertion has the place it had. */
  lemma LaterPlaces<K(!new), V>(log: Log<K, V>, i: Insertion<K>, next: nat)
    requires Kept(log) && i in log.insertions && log.live <= next
    ensures Places(log, next, i) == Places(log, log.live, i)
  {
    HistoryHolds(log, i);
    if i.key in log.reinsertions {
      NewestIsLast(log.reinsertions[i.key], log.live, next, i.at);
    }
  }

  /** An insertion keeps its place through a write, unless its key is what was deleted. */
  lemma NowCurrent<K(!new), V>(log: Log<K, V>, key: K, value: Option<V>, i: Insertion<K>)
    requires Writable(log, key, value) && i in log.insertions
    ensures Current(Wrote(log, key, value), log.live + 1)(i)
         == (Current(log, log.live)(i) && !(value.None? && i.key == key))
  {
    NowPlaces(log, key, value, i);
    NowLookup(log, key, value, i.key);
    if i.key == key {
      InsertsExactly(log, key, value);
    }
  }

  /** A value is an insertion exactly when the key was not there. */
  lemma InsertsExactly<K(!new), V>(log: Log<K, V>, key: K, value: Option<V>)
    requires Writable(log, key, value)
    ensures value.Some? ==>
              (key !in log.chains || Reinserts(log, key, value) <==> Lookup(log, key, log.live).None?)
  {
    if key in log.chains {
      LastIsNewest(log, key);
    }
  }

  lemma NowOrder<K(!new), V>(log: Log<K, V>, key: K, value: Option<V>)
    requires Writable(log, key, value)
    ensures OrderAt(Wrote(log, key, value), log.live + 1)
         == if value.None? then Filter((k: K) => k != key, OrderAt(log, log.live))
            else if Lookup(log, key, log.live).Some? then OrderAt(log, log.live)
            else OrderAt(log, log.live) + [key]
  {
    var after, version := Wrote(log, key, value), log.live + 1;
    var was, now := Current(log, log.live), Current(after, version);
    forall i | i in log.insertions ensures now(i) == (was(i) && !(value.None? && i.key == key)) {
      NowCurrent(log, key, value, i);
    }
    if key in log.chains {
      LastIsNewest(log, key);
    }
    if value.None? {
      var others := (i: Insertion<K>) => i.key != key;
      FilterTwice(was, others, now, log.insertions);
      FilterMap(KeyOf(), (k: K) => k != key, others, Filter(was, log.insertions));
    } else {
      FilterAgree(now, was, log.insertions);
      if Lookup(log, key, log.live).None? {
        NewPlace(log, key, value);
        FilterAppend(now, log.insertions, Insertion(key, version));
        MapConcat(KeyOf(), Filter(was, log.insertions), [Insertion(key, version)]);
      }
    }
  }

  /** A key that was not there is placed last. */
  lemma NewPlace<K(!new), V>(log: Log<K, V>, key: K, value: Option<V>)
    requires Writable(log, key, value) && value.Some? && Lookup(log, key, log.live).None?
    ensures Wrote(log, key, value).insertions == log.insertions + [Insertion(key, log.live + 1)]
    ensures Current(Wrote(log, key, value), log.live + 1)(Insertion(key, log.live + 1))
  {
    NowLookup(log, key, value, key);
    InsertsExactly(log, key, value);
    NewestIsNext(HistoryOf(log, key), log.live + 1, log.live);
  }

  /** The newest version reads what a dictionary would after the same write. */
  lemma NowContents<K(!new), V>(log: Log<K, V>, key: K, value: Option<V>)
    requires Writable(log, key, value)
    ensures ContentsAt(Wrote(log, key, value), log.live + 1)
         == if value.None? then Remove(ContentsAt(log, log.live), key)
            else Put(ContentsAt(log, log.live), key, value.value)
  {
    NowOrder(log, key, value);
    NowEntries(log, key, value);
    var was := ContentsAt(log, log.live);
    assert key in was.entries <==> Lookup(log, key, log.live).Some?;
  }

  lemma NowEntries<K(!new), V>(log: Log<K, V>, key: K, value: Option<V>)
    requires Writable(log, key, value)
    ensures ContentsAt(Wrote(log, key, value), log.live + 1).entries
         == if value.None? then ContentsAt(log, log.live).entries - {key}
            else ContentsAt(log, log.live).entries[key := value.value]
  {
    var after, was := ContentsAt(Wrote(log, key, value), log.live + 1).entries, ContentsAt(log, log.live).entries;
    forall k
      ensures Entry(after, k) == if k == key then value else Entry(was, k)
    {
      NowLookup(log, key, value, k);
      EntryIsLookup(Wrote(log, key, value), log.live + 1, k);
      EntryIsLookup(log, log.live, k);
    }
    EntriesChanged(was, after, key, value);
  }

  ghost function Entry<K, V>(entries: map<K, V>, k: K): Option<V> { if k in entries then Some(entries[k]) else None }

  lemma EntryIsLookup<K(!new), V>(log: Log<K, V>, version: nat, k: K)
    ensures Entry(ContentsAt(log, version).entries, k) == Lookup(log, k, version)
  {
  }

  lemma EntriesChanged<K(!new), V>(was: map<K, V>, after: map<K, V>, key: K, value: Option<V>)
    requires forall k :: Entry(after, k) == if k == key then value else Entry(was, k)
    ensures after == if value.None? then was - {key} else was[key := value.value]
  {
    var expected := if value.None? then was - {key} else was[key := value.value];
    forall k ensures k in after <==> k in expected {
      assert Entry(after, k) == if k == key then value else Entry(was, k);
    }
    forall k | k in after ensures after[k] == expected[k] {
      assert Entry(after, k) == if k == key then value else Entry(was, k);
    }
  }

  // --------------------------------------------------------------- a fresh store

  /** A store of one dictionary and no history. */
  function FreshLog<K(==), V>(d: Dict<K, V>): Log<K, V> {
    Log(FreshChains(d.entries), FreshInsertions(d.order), map[], 0, |d.order|)
  }

  function FreshChains<K(==), V>(entries: map<K, V>): map<K, Chain<V>> {
    map key | key in entries :: Chain([0], [Some(entries[key])])
  }

  function FreshInsertions<K>(order: seq<K>): seq<Insertion<K>> { Map((k: K) => Insertion(k, 0), order) }

  lemma FreshHolds<K(!new), V>(d: Dict<K, V>)
    requires WellFormed(d)
    ensures Kept(FreshLog(d)) && ContentsAt(FreshLog(d), 0) == d
  {
    FreshIsKept(d);
    FreshOrder(d);
    FreshEntries(d);
  }

  lemma FreshEntries<K(!new), V>(d: Dict<K, V>)
    ensures ContentsAt(FreshLog(d), 0).entries == d.entries
  {
    forall k ensures Lookup(FreshLog(d), k, 0) == if k in d.entries then Some(d.entries[k]) else None {
      assert k in d.entries ==> Newest(FreshChains(d.entries)[k], 0) == Some(d.entries[k]);
    }
    assert ContentsAt(FreshLog(d), 0).entries.Keys == d.entries.Keys;
  }

  lemma FreshIsKept<K(!new), V>(d: Dict<K, V>)
    requires WellFormed(d)
    ensures Kept(FreshLog(d))
  {
    var insertions, chains := FreshInsertions(d.order), FreshChains(d.entries);
    forall i | i in insertions ensures i.key in chains && i.at == 0 && chains[i.key].at[0] == 0 {
      FreshInsertion(d, i);
    }
    FreshInsertionsRise(d.order);
    assert forall key | key in chains :: KeptChain(chains[key], 0);
  }

  lemma FreshInsertionsRise<K(!new)>(order: seq<K>)
    ensures var insertions := FreshInsertions(order);
            forall p, q | 0 <= p < q < |insertions| :: insertions[p].at <= insertions[q].at
  {
  }

  lemma FreshInsertion<K(!new), V>(d: Dict<K, V>, i: Insertion<K>)
    requires WellFormed(d) && i in FreshInsertions(d.order)
    ensures i.at == 0 && i.key in d.entries && FreshChains(d.entries)[i.key] == Chain([0], [Some(d.entries[i.key])])
  {
    MapMember((k: K) => Insertion(k, 0), d.order, i);
  }

  lemma FreshOrder<K(!new), V>(d: Dict<K, V>)
    requires WellFormed(d)
    ensures OrderAt(FreshLog(d), 0) == d.order
  {
    var log := FreshLog(d);
    forall i | i in log.insertions ensures Current(log, 0)(i) {
      FreshIsCurrent(d, i);
    }
    FilterAll(Current(log, 0), log.insertions);
    FreshKeys(d.order);
  }

  lemma FreshIsCurrent<K(!new), V>(d: Dict<K, V>, i: Insertion<K>)
    requires WellFormed(d) && i in FreshInsertions(d.order)
    ensures Current(FreshLog(d), 0)(i)
  {
    FreshInsertion(d, i);
  }

  lemma FreshKeys<K(!new)>(order: seq<K>)
    ensures Map(KeyOf(), FreshInsertions(order)) == order
  {
    SameElements(Map(KeyOf(), FreshInsertions(order)), order);
  }

  lemma NewestIsWellFormed<K(!new), V>(log: Log<K, V>, key: K, value: Option<V>)
    requires Writable(log, key, value) && WellFormed(ContentsAt(log, log.live))
    ensures WellFormed(ContentsAt(Wrote(log, key, value), log.live + 1))
  {
    NowContents(log, key, value);
    if value.None? {
      RemoveIsWellFormed(ContentsAt(log, log.live), key);
    } else {
      PutIsWellFormed(ContentsAt(log, log.live), key, value.value);
    }
  }

  /** What the newest version holds after a write. */
  ghost function Changed<K(!new), V>(d: Dict<K, V>, key: K, value: Option<V>): Dict<K, V> {
    if value.None? then Remove(d, key) else Put(d, key, value.value)
  }

  ghost function SizeAfter<K(!new), V>(d: Dict<K, V>, key: K, value: Option<V>): int {
    if value.None? then |d.order| - 1 else if key in d.entries then |d.order| else |d.order| + 1
  }

  lemma ChangedSize<K(!new), V>(d: Dict<K, V>, key: K, value: Option<V>)
    requires WellFormed(d) && (value.None? ==> key in d.entries)
    ensures |Changed(d, key, value).order| == SizeAfter(d, key, value)
  {
    if value.None? {
      RemoveShortens(d, key);
    }
  }

  // ------------------------------------------------------------- stores and views

  ghost predicate SoundAt<K(!new), V>(log: Log<K, V>, version: nat, size: nat) {
    && Kept(log) && version <= log.live
    && WellFormed(ContentsAt(log, version)) && size == |ContentsAt(log, version).order|
  }

  /** The dictionary a view of this version and size is, if it is one. */
  ghost function DictionaryAt<K(!new), V>(log: Log<K, V>, version: nat, size: nat): (d: Option<Dict<K, V>>) {
    if SoundAt(log, version, size) then Some(ContentsAt(log, version)) else None
  }

  /** Every view there was is still the dictionary it was. */
  ghost predicate KeepsViews<K(!new), V>(before: Log<K, V>, after: Log<K, V>) {
    forall version, size | DictionaryAt(before, version, size).Some? ::
      DictionaryAt(after, version, size) == DictionaryAt(before, version, size)
  }

  lemma FreshIsDictionary<K(!new), V>(d: Dict<K, V>)
    requires WellFormed(d)
    ensures DictionaryAt(FreshLog(d), 0, |d.order|) == Some(d)
  {
    FreshHolds(d);
  }

  lemma OldVersionsStay<K(!new), V>(log: Log<K, V>, key: K, value: Option<V>, after: Log<K, V>)
    requires Writable(log, key, value) && after == Wrote(log, key, value)
    ensures KeepsViews(log, after)
  {
    WroteIsKept(log, key, value);
    forall version, size | DictionaryAt(log, version, size).Some?
      ensures DictionaryAt(after, version, size) == DictionaryAt(log, version, size)
    {
      PastContents(log, key, value, version);
    }
  }

  lemma NewVersionIsSound<K(!new), V>(log: Log<K, V>, key: K, value: Option<V>)
    requires Writable(log, key, value) && WellFormed(ContentsAt(log, log.live))
    ensures ContentsAt(Wrote(log, key, value), log.live + 1) == Changed(ContentsAt(log, log.live), key, value)
    ensures WellFormed(Changed(ContentsAt(log, log.live), key, value))
    ensures |Changed(ContentsAt(log, log.live), key, value).order| == SizeAfter(ContentsAt(log, log.live), key, value)
  {
    NowContents(log, key, value);
    NewestIsWellFormed(log, key, value);
    assert value.None? ==> key in ContentsAt(log, log.live).entries;
    ChangedSize(ContentsAt(log, log.live), key, value);
  }

  /** What a write leaves of the newest view: a dictionary changed as a dictionary is. */
  lemma NewestIsChanged<K(!new), V>(log: Log<K, V>, size: nat, d: Dict<K, V>, key: K, value: Option<V>,
                                         after: Log<K, V>, version: nat, size': nat)
    requires version == log.live + 1 && after == Wrote(log, key, value)
    requires DictionaryAt(log, log.live, size) == Some(d) && (value.None? ==> key in d.entries)
    requires size' == SizeAfter(d, key, value)
    ensures DictionaryAt(after, version, size') == Some(Changed(d, key, value))
  {
    WroteIsKept(log, key, value);
    NewVersionIsSound(log, key, value);
  }

  /** Append-only storage shared by every view of one lineage; its fields are one record, written in place. */
  class Store<K(==,!new), V> {
    var log: Log<K, V>

    constructor (chains: map<K, Chain<V>>, insertions: seq<Insertion<K>>, entries: nat)
      ensures log == Log(chains, insertions, map[], 0, entries)
    {
      log := Log(chains, insertions, map[], 0, entries);
    }
  }

  /** A map: what its store held at a version. */
  datatype View<K(==,!new), V> = View(store: Store<K, V>, version: nat, size: nat)

  /** The dictionary a map is; `None` of what no run can make. */
  ghost function Dictionary<K(!new), V>(m: View<K, V>): Option<Dict<K, V>>
    reads m.store
  {
    DictionaryAt(m.store.log, m.version, m.size)
  }

  /** A map of pairs, a repeated key keeping its place and its last value. */
  method Of<K(==,!new), V>(pairs: seq<(K, V)>) returns (m: View<K, V>)
    ensures fresh(m.store) && Dictionary(m) == Some(DictOf(pairs))
    ensures m.version == m.store.log.live && m.store.log.entries == m.size
  {
    var chains: map<K, Chain<V>> := map[];
    var keys: seq<K> := [];
    for k := 0 to |pairs|
      invariant keys == DictOf(pairs[..k]).order
      invariant chains == FreshChains(DictOf(pairs[..k]).entries)
    {
      assert pairs[..k + 1][..k] == pairs[..k];
      var (key, value) := pairs[k];
      ChainPut(DictOf(pairs[..k]), key, value);
      if key !in chains {
        keys := keys + [key];
      }
      chains := chains[key := Chain([0], [Some(value)])];
    }
    TakeAll(pairs);
    DictOfIsWellFormed(pairs);
    m := FreshView(DictOf(pairs), chains, keys);
  }

  lemma ChainPut<K, V>(d: Dict<K, V>, key: K, value: V)
    ensures FreshChains(Put(d, key, value).entries) == FreshChains(d.entries)[key := Chain([0], [Some(value)])]
  {
  }

  /** A store built for one dictionary, seen at its only version. */
  method FreshView<K(==,!new), V>(ghost d: Dict<K, V>, chains: map<K, Chain<V>>, keys: seq<K>) returns (m: View<K, V>)
    requires WellFormed(d) && chains == FreshChains(d.entries) && keys == d.order
    ensures fresh(m.store) && Dictionary(m) == Some(d)
    ensures m.version == m.store.log.live && m.store.log.entries == m.size
  {
    FreshIsDictionary(d);
    var store := new Store(chains, FreshInsertions(keys), |keys|);
    m := View(store, 0, |keys|);
  }

  // ---------------------------------------------------------------------- reading

  /** What a key holds at a version: the last write if it is visible, else a binary search of the chain. */
  method Read<K(==,!new), V>(log: Log<K, V>, version: nat, key: K) returns (value: Option<V>)
    requires Kept(log)
    ensures value == Lookup(log, key, version)
  {
    if key !in log.chains {
      return None;
    }
    var chain := log.chains[key];
    assert KeptChain(chain, log.live);
    value := ReadChain(chain, version);
  }

  method ReadChain<V>(chain: Chain<V>, version: nat) returns (value: Option<V>)
    requires |chain.at| == |chain.values| > 0 && Rising(chain.at)
    ensures value == Newest(chain, version)
  {
    var last := |chain.at| - 1;
    if chain.at[last] <= version {
      return chain.values[last];
    }
    var low, high := 0, |chain.at|;
    while low < high
      invariant low <= high <= |chain.at|
      invariant low > 0 ==> chain.at[low - 1] <= version
      invariant high < |chain.at| ==> version < chain.at[high]
    {
      var middle := (low + high) / 2;
      if chain.at[middle] <= version {
        low := middle + 1;
      } else {
        high := middle;
      }
    }
    UpToSplits(chain.at, version, low);
    value := if low == 0 then None else chain.values[low - 1];
  }

  /** `m.get(key)`. */
  method Get<K(==,!new), V>(m: View<K, V>, key: K) returns (value: Option<V>)
    requires Dictionary(m).Some?
    ensures value == var d := Dictionary(m).value; if key in d.entries then Some(d.entries[key]) else None
  {
    value := Read(m.store.log, m.version, key);
  }

  /** A dictionary's pairs, in its order. */
  ghost function ItemsOf<K(!new), V>(d: Dict<K, V>): (items: seq<(K, V)>)
    requires WellFormed(d)
    ensures |items| == |d.order|
  {
    seq(|d.order|, i requires 0 <= i < |d.order| => assert d.order[i] in d.order; (d.order[i], d.entries[d.order[i]]))
  }

  /** The places a log's insertions give up to the first that is too new. */
  lemma NothingLater<K(!new), V>(log: Log<K, V>, version: nat, k: nat)
    requires Kept(log) && k < |log.insertions| && version < log.insertions[k].at
    ensures OrderAt(log, version) == Map(KeyOf(), Filter(Current(log, version), log.insertions[..k]))
  {
    var front, back := log.insertions[..k], log.insertions[k..];
    SplitAt(log.insertions, k);
    FilterConcat(Current(log, version), front, back);
    forall i | i in back ensures !Current(log, version)(i) {
      TooNew(log, version, k, i);
    }
    FilterNone(Current(log, version), back);
    var kept := Filter(Current(log, version), front);
    assert kept + [] == kept;
  }

  lemma TooNew<K(!new), V>(log: Log<K, V>, version: nat, k: nat, i: Insertion<K>)
    requires Kept(log) && k < |log.insertions| && version < log.insertions[k].at && i in log.insertions[k..]
    ensures !Current(log, version)(i)
  {
    var p :| 0 <= p < |log.insertions| - k && log.insertions[k..][p] == i;
    assert log.insertions[k + p] == i;
  }

  lemma OneMorePlace<K(!new), V>(log: Log<K, V>, version: nat, k: nat)
    requires k < |log.insertions|
    ensures Map(KeyOf(), Filter(Current(log, version), log.insertions[..k + 1]))
         == Map(KeyOf(), Filter(Current(log, version), log.insertions[..k]))
            + if Current(log, version)(log.insertions[k]) then [log.insertions[k].key] else []
  {
    var current, i := Current(log, version), log.insertions[k];
    TakeOneMore(log.insertions, k);
    FilterAppend(current, log.insertions[..k], i);
    MapConcat(KeyOf(), Filter(current, log.insertions[..k]), if current(i) then [i] else []);
    assert Map(KeyOf(), [i]) == [i.key];
  }

  /** The newest insertion of a key inserted again: the last if the view can see it, else by bisection. */
  function NewestInsertion(history: seq<nat>, version: nat): nat
    requires history != []
  {
    var n := UpTo(history, version);
    if history[|history| - 1] <= version || n == 0 then history[|history| - 1] else history[n - 1]
  }

  lemma PlacesExactly<K(!new), V>(log: Log<K, V>, version: nat, i: Insertion<K>)
    requires Kept(log) && i in log.insertions && i.at <= version
    ensures i.key in log.reinsertions ==> log.reinsertions[i.key] != []
    ensures Places(log, version, i)
       <==> i.key in log.reinsertions ==> NewestInsertion(log.reinsertions[i.key], version) == i.at
  {
    if i.key in log.reinsertions {
      var history := log.reinsertions[i.key];
      assert KeptHistory(history, log.live);
      SomeUpTo(history, version, i.at);
    }
  }

  lemma {:induction false} SomeUpTo(history: seq<nat>, version: nat, at: nat)
    requires at in history && at <= version
    ensures UpTo(history, version) > 0
  {
    var n := |history| - 1;
    if history[n] > version {
      assert at in history[..n];
      SomeUpTo(history[..n], version, at);
    }
  }

  ghost predicate Reads<K(!new), V>(log: Log<K, V>, version: nat, key: K, item: (K, V)) {
    item.0 == key && Lookup(log, key, version) == Some(item.1)
  }

  ghost predicate ReadSoFar<K(!new), V>(log: Log<K, V>, version: nat, order: seq<K>, items: seq<(K, V)>) {
    |items| == |order| && forall i | 0 <= i < |order| :: Reads(log, version, order[i], items[i])
  }

  lemma OneMoreRead<K(!new), V>(log: Log<K, V>, version: nat, order: seq<K>, items: seq<(K, V)>, key: K, value: V)
    requires ReadSoFar(log, version, order, items) && Lookup(log, key, version) == Some(value)
    ensures ReadSoFar(log, version, order + [key], items + [(key, value)])
  {
    assert forall i | 0 <= i < |order| :: (order + [key])[i] == order[i] && (items + [(key, value)])[i] == items[i];
  }

  lemma ItemsInOrder<K(!new), V>(log: Log<K, V>, version: nat, items: seq<(K, V)>)
    requires WellFormed(ContentsAt(log, version)) && ReadSoFar(log, version, OrderAt(log, version), items)
    ensures items == ItemsOf(ContentsAt(log, version))
  {
    var d := ContentsAt(log, version);
    forall i | 0 <= i < |items| ensures items[i] == ItemsOf(d)[i] {
      assert Reads(log, version, OrderAt(log, version)[i], items[i]);
      assert d.order[i] in d.order;
    }
    SameElements(items, ItemsOf(d));
  }

  /**
   Every pair in the order a `dict` of the same writes would give, stopping at the first insertion
   that is too new.
   */
  method ReadItems<K(==,!new), V>(log: Log<K, V>, version: nat) returns (items: seq<(K, V)>)
    requires Kept(log) && WellFormed(ContentsAt(log, version))
    ensures items == ItemsOf(ContentsAt(log, version))
  {
    items := [];
    ghost var order: seq<K> := [];
    for k := 0 to |log.insertions|
      invariant order == Map(KeyOf(), Filter(Current(log, version), log.insertions[..k]))
      invariant ReadSoFar(log, version, order, items)
    {
      var i := log.insertions[k];
      if i.at > version {
        NothingLater(log, version, k);
        ItemsInOrder(log, version, items);
        return items;
      }
      OneMorePlace(log, version, k);
      PlacesExactly(log, version, i);
      if i.key in log.reinsertions && NewestInsertion(log.reinsertions[i.key], version) != i.at {
        continue;
      }
      var value := Read(log, version, i.key);
      if value.Some? {
        OneMoreRead(log, version, order, items, i.key, value.value);
        items := items + [(i.key, value.value)];
        order := order + [i.key];
      }
    }
    TakeAll(log.insertions);
    ItemsInOrder(log, version, items);
  }

  /** `m.items()`. */
  method Items<K(==,!new), V>(m: View<K, V>) returns (items: seq<(K, V)>)
    requires Dictionary(m).Some?
    ensures WellFormed(Dictionary(m).value) && items == ItemsOf(Dictionary(m).value)
  {
    items := ReadItems(m.store.log, m.version);
  }

  // ---------------------------------------------------------------------- writing

  /** The store has accumulated enough history to start over. */
  predicate RebaseDue<K(==,!new), V>(m: View<K, V>)
    reads m.store
  {
    m.store.log.entries > 2 * m.size + 64
  }

  /** A view of a store of its own that holds the same. */
  method Branch<K(==,!new), V>(m: View<K, V>) returns (r: View<K, V>)
    requires Dictionary(m).Some?
    ensures fresh(r.store) && Dictionary(r) == Dictionary(m)
    ensures r.version == r.store.log.live && r.store.log.entries == r.size
  {
    if m.version != m.store.log.live {
      var items := Items(m);
      ItemsRebuild(Dictionary(m).value);
      r := Of(items);
      return;
    }
    var chains, keys := Rebase(m.store.log);
    r := FreshView(Dictionary(m).value, chains, keys);
  }

  /** The newest version's live keys, each with its last value alone. */
  method Rebase<K(==,!new), V>(log: Log<K, V>) returns (chains: map<K, Chain<V>>, keys: seq<K>)
    requires Kept(log) && WellFormed(ContentsAt(log, log.live))
    ensures keys == ContentsAt(log, log.live).order && chains == FreshChains(ContentsAt(log, log.live).entries)
  {
    chains, keys := map[], [];
    for k := 0 to |log.insertions|
      invariant keys == Map(KeyOf(), Filter(Current(log, log.live), log.insertions[..k]))
      invariant LastValues(log, keys, chains)
    {
      var i := log.insertions[k];
      OneMorePlace(log, log.live, k);
      CurrentNow(log, i);
      if i.key in log.reinsertions && log.reinsertions[i.key][|log.reinsertions[i.key]| - 1] != i.at {
        continue;
      }
      var value := log.chains[i.key].values[|log.chains[i.key].values| - 1];
      if value.None? {
        continue;
      }
      chains := chains[i.key := Chain([0], [value])];
      keys := keys + [i.key];
    }
    TakeAll(log.insertions);
    LiveChains(log, chains);
  }

  /** Each key with the last value of its chain alone. */
  ghost predicate LastValues<K(!new), V>(log: Log<K, V>, keys: seq<K>, chains: map<K, Chain<V>>) {
    && (forall key :: key in chains <==> key in keys)
    && (forall key | key in chains ::
          Lookup(log, key, log.live).Some? && chains[key] == Chain([0], [Lookup(log, key, log.live)]))
  }

  /** For the newest version, an insertion is current if it is its key's last and the chain does not end deleted. */
  lemma CurrentNow<K(!new), V>(log: Log<K, V>, i: Insertion<K>)
    requires Kept(log) && i in log.insertions
    ensures i.key in log.reinsertions ==> log.reinsertions[i.key] != []
    ensures log.chains[i.key].values != []
    ensures Lookup(log, i.key, log.live) == log.chains[i.key].values[|log.chains[i.key].values| - 1]
    ensures Current(log, log.live)(i) <==>
              && (i.key in log.reinsertions ==> log.reinsertions[i.key][|log.reinsertions[i.key]| - 1] == i.at)
              && Lookup(log, i.key, log.live).Some?
  {
    assert KeptChain(log.chains[i.key], log.live);
    PlacesExactly(log, log.live, i);
    LastIsNewest(log, i.key);
    if i.key in log.reinsertions {
      assert KeptHistory(log.reinsertions[i.key], log.live);
    }
  }

  lemma LiveChains<K(!new), V>(log: Log<K, V>, chains: map<K, Chain<V>>)
    requires WellFormed(ContentsAt(log, log.live)) && LastValues(log, ContentsAt(log, log.live).order, chains)
    ensures chains == FreshChains(ContentsAt(log, log.live).entries)
  {
    var entries := ContentsAt(log, log.live).entries;
    forall key ensures key in chains <==> key in FreshChains(entries) {
      assert key in ContentsAt(log, log.live).order <==> key in entries;
    }
  }

  /** A dictionary's pairs, put in turn, are the dictionary. */
  lemma {:induction false} ItemsRebuild<K(!new), V>(d: Dict<K, V>)
    requires WellFormed(d)
    ensures DictOf(ItemsOf(d)) == d
    decreases |d.order|
  {
    if d.order == [] {
      assert forall k :: k in d.order <==> k in d.entries;
      assert d.entries == map[];
    } else {
      var front := ButLast(d);
      ItemsRebuild(front);
    }
  }

  /** Without the pair in its last place, a dictionary is one a last put makes whole. */
  lemma ButLast<K(!new), V>(d: Dict<K, V>) returns (front: Dict<K, V>)
    requires WellFormed(d) && d.order != []
    ensures WellFormed(front) && |front.order| == |d.order| - 1
    ensures ItemsOf(d)[..|d.order| - 1] == ItemsOf(front)
    ensures var last := ItemsOf(d)[|d.order| - 1]; Put(front, last.0, last.1) == d
  {
    var n := |d.order| - 1;
    var last := d.order[n];
    front := Dict(d.order[..n], d.entries - {last});
    FrontIsWellFormed(d, front);
    FrontItems(d, front);
    PutBack(d, front);
  }

  lemma FrontIsWellFormed<K(!new), V>(d: Dict<K, V>, front: Dict<K, V>)
    requires WellFormed(d) && d.order != []
    requires front == Dict(d.order[..|d.order| - 1], d.entries - {d.order[|d.order| - 1]})
    ensures WellFormed(front) && d.order[|d.order| - 1] in d.entries
  {
    assert d.order[|d.order| - 1] in d.order;
    forall k ensures k in front.order <==> k in front.entries {
      FrontPlaces(d, k);
    }
  }

  lemma FrontItems<K(!new), V>(d: Dict<K, V>, front: Dict<K, V>)
    requires WellFormed(d) && d.order != [] && WellFormed(front)
    requires front == Dict(d.order[..|d.order| - 1], d.entries - {d.order[|d.order| - 1]})
    ensures ItemsOf(d)[..|d.order| - 1] == ItemsOf(front)
  {
    assert forall i | 0 <= i < |front.order| :: front.order[i] in front.order;
    SameElements(ItemsOf(d)[..|d.order| - 1], ItemsOf(front));
  }

  lemma PutBack<K(!new), V>(d: Dict<K, V>, front: Dict<K, V>)
    requires d.order != [] && d.order[|d.order| - 1] in d.entries
    requires front == Dict(d.order[..|d.order| - 1], d.entries - {d.order[|d.order| - 1]})
    ensures var last := d.order[|d.order| - 1]; Put(front, last, d.entries[last]) == d
  {
    var last := d.order[|d.order| - 1];
    assert d.order == front.order + [last];
    assert d.entries == front.entries[last := d.entries[last]];
  }

  lemma FrontPlaces<K(!new), V>(d: Dict<K, V>, k: K)
    requires WellFormed(d) && d.order != []
    ensures var n := |d.order| - 1; k in d.order[..n] <==> k in d.entries && k != d.order[n]
  {
    assert k in d.order <==> k in d.entries;
    if k in d.order && k != d.order[|d.order| - 1] {
      assert k in d.order[..|d.order| - 1];
    }
  }

  /** The write itself: a new chain, or one entry more, and a place for a key that had none. */
  method Append<K(==,!new), V>(store: Store<K, V>, key: K, value: Option<V>)
    requires Writable(store.log, key, value)
    modifies store
    ensures store.log == old(Wrote(store.log, key, value)) && KeepsViews(old(store.log), store.log)
  {
    ghost var log := store.log;
    var insertion := Insertion(key, store.log.live + 1);
    var again := Reinserts(store.log, key, value);
    var next := NextChain(store.log, key, value);
    if again {
      var history := HistoryOf(store.log, key) + [insertion.at];
      store.log := store.log.(reinsertions := store.log.reinsertions[key := history]);
    }
    if key !in store.log.chains || again {
      store.log := store.log.(insertions := store.log.insertions + [insertion]);
    }
    store.log := store.log.(chains := store.log.chains[key := next]);
    store.log := store.log.(entries := store.log.entries + 1, live := insertion.at);
    OldVersionsStay(log, key, value, store.log);
  }

  /** One write to the newest view, the dictionary `d`. */
  method Write<K(==,!new), V>(m: View<K, V>, ghost d: Dict<K, V>, key: K, value: Option<V>, size: nat)
    returns (r: View<K, V>)
    requires Dictionary(m) == Some(d) && m.version == m.store.log.live
    requires (value.None? ==> key in d.entries) && size == SizeAfter(d, key, value)
    modifies m.store
    ensures r.store == m.store && KeepsViews(old(m.store.log), m.store.log)
    ensures r.size == size && r.store.log.entries == old(m.store.log.entries) + 1
    ensures Dictionary(r) == Some(Changed(d, key, value))
  {
    ghost var log := m.store.log;
    Append(m.store, key, value);
    var version := m.version + 1;
    NewestIsChanged(log, m.size, d, key, value, m.store.log, version, size);
    r := View(m.store, version, size);
  }

  /** The map itself while it is the newest of its store and no rebase is due, and otherwise a branch of it. */
  method NewestOf<K(==,!new), V>(m: View<K, V>, ghost d: Dict<K, V>) returns (target: View<K, V>)
    requires Dictionary(m) == Some(d)
    ensures Dictionary(target) == Some(d) && target.version == target.store.log.live
    ensures if m.version == m.store.log.live && m.store.log.entries <= 2 * m.size + 64 then target == m
            else fresh(target.store)
    ensures target.store.log.entries <= 2 * target.size + 64
  {
    target := m;
    if m.version != m.store.log.live || RebaseDue(m) {
      target := Branch(m);
    }
  }

  /** A new map with `key` bound to `value`. Every view there was is still the dictionary it was. */
  method Set<K(==,!new), V>(m: View<K, V>, key: K, value: V) returns (r: View<K, V>)
    requires Dictionary(m).Some?
    modifies m.store
    ensures if old(m.version == m.store.log.live && m.store.log.entries <= 2 * m.size + 64) then r.store == m.store
            else fresh(r.store)
    ensures r.store.log.entries <= 2 * r.size + 65
    ensures Dictionary(r) == Some(Put(old(Dictionary(m).value), key, value))
    ensures KeepsViews(old(m.store.log), m.store.log)
  {
    ghost var d := Dictionary(m).value;
    var target := NewestOf(m, d);
    var size := SizeWith(target, d, key, value);
    r := Write(target, d, key, Some(value), size);
  }

  /** One place more for a key never written or last deleted. */
  method SizeWith<K(==,!new), V>(m: View<K, V>, ghost d: Dict<K, V>, key: K, value: V) returns (size: nat)
    requires Dictionary(m) == Some(d) && m.version == m.store.log.live
    ensures size == SizeAfter(d, key, Some(value))
  {
    InsertsExactly(m.store.log, key, Some(value));
    var inserts := key !in m.store.log.chains || Reinserts(m.store.log, key, Some(value));
    size := if inserts then m.size + 1 else m.size;
  }

  /** A new map without `key`, or nothing for a key that is not there. */
  method Delete<K(==,!new), V>(m: View<K, V>, key: K) returns (r: Option<View<K, V>>)
    requires Dictionary(m).Some?
    modifies m.store
    ensures r.Some? <==> key in old(Dictionary(m).value.entries)
    ensures r.Some? ==> Dictionary(r.value) == Some(Remove(old(Dictionary(m).value), key))
                        && r.value.store.log.entries <= 2 * r.value.size + 67
                        && if old(m.version == m.store.log.live && m.store.log.entries <= 2 * m.size + 64)
                           then r.value.store == m.store else fresh(r.value.store)
    ensures KeepsViews(old(m.store.log), m.store.log)
  {
    ghost var d := Dictionary(m).value;
    var was := Get(m, key);
    if was.None? {
      return None;
    }
    var view := DeleteFound(m, d, key);
    r := Some(view);
  }

  /** A new map without a key that is there. */
  method DeleteFound<K(==,!new), V>(m: View<K, V>, ghost d: Dict<K, V>, key: K) returns (r: View<K, V>)
    requires Dictionary(m) == Some(d) && key in d.entries
    modifies m.store
    ensures if old(m.version == m.store.log.live && m.store.log.entries <= 2 * m.size + 64) then r.store == m.store
            else fresh(r.store)
    ensures r.store.log.entries <= 2 * r.size + 67
    ensures Dictionary(r) == Some(Changed(d, key, None))
    ensures KeepsViews(old(m.store.log), m.store.log)
  {
    var target := NewestOf(m, d);
    var size := SizeWithout(target, d, key);
    r := Write(target, d, key, None, size);
  }

  /** One place fewer. */
  method SizeWithout<K(==,!new), V>(m: View<K, V>, ghost d: Dict<K, V>, ghost key: K) returns (size: nat)
    requires Dictionary(m) == Some(d) && key in d.entries
    ensures size == SizeAfter(d, key, None) == m.size - 1
  {
    assert key in d.order;
    size := m.size - 1;
  }

  // ------------------------------------------------------------------- whole runs

  /** A write to any map made so far, by its number. */
  datatype Op<K, V> = SetIn(map_: nat, key: K, value: V) | DeleteFrom(map_: nat, key: K)

  ghost predicate Ordered<K, V>(ops: seq<Op<K, V>>) { forall i | 0 <= i < |ops| :: ops[i].map_ <= i }

  /** What map number `i` is, were every map a dictionary of its own. A deletion of nothing makes no change. */
  ghost function Meant<K(!new), V>(start: seq<(K, V)>, ops: seq<Op<K, V>>, i: nat): Dict<K, V>
    requires Ordered(ops) && i <= |ops|
    decreases i
  {
    if i == 0 then DictOf(start) else AfterOp(Meant(start, ops, ops[i - 1].map_), ops[i - 1])
  }

  ghost function AfterOp<K(!new), V>(d: Dict<K, V>, op: Op<K, V>): Dict<K, V> {
    match op
    case SetIn(_, key, value) => Put(d, key, value)
    case DeleteFrom(_, key) => if key in d.entries then Remove(d, key) else d
  }

  /** The maps a run has made are the dictionaries they are meant to be. */
  ghost predicate AllMeant<K(!new), V>(start: seq<(K, V)>, ops: seq<Op<K, V>>, views: seq<View<K, V>>)
    requires Ordered(ops) && |views| <= |ops| + 1
    reads set m | m in views :: m.store
  {
    forall i | 0 <= i < |views| :: Dictionary(views[i]) == Some(Meant(start, ops, i))
  }

  lemma AppendMeant<K(!new), V>(start: seq<(K, V)>, ops: seq<Op<K, V>>, i: nat, views: seq<View<K, V>>,
                                next: View<K, V>)
    requires Ordered(ops) && i < |ops| && |views| == i + 1 && AllMeant(start, ops, views)
    requires Dictionary(next) == Some(AfterOp(Meant(start, ops, ops[i].map_), ops[i]))
    ensures AllMeant(start, ops, views + [next])
  {
    var longer, k := views + [next], i + 1;
    NextMeant(start, ops, i, k);
    assert longer[k] == next;
    forall j | 0 <= j < |longer| ensures Dictionary(longer[j]) == Some(Meant(start, ops, j)) {
      if j != k {
        assert longer[j] == views[j];
      }
    }
  }

  lemma NextMeant<K(!new), V>(start: seq<(K, V)>, ops: seq<Op<K, V>>, i: nat, k: nat)
    requires Ordered(ops) && i < |ops| && k == i + 1
    ensures Meant(start, ops, k) == AfterOp(Meant(start, ops, ops[i].map_), ops[i])
  {
  }

  /** A view of a store that keeps its views is the dictionary it was. */
  lemma StillMeant<K(!new), V>(before: Log<K, V>, after: Log<K, V>, version: nat, size: nat, d: Dict<K, V>)
    requires KeepsViews(before, after) && DictionaryAt(before, version, size) == Some(d)
    ensures DictionaryAt(after, version, size) == Some(d)
  {
  }

  /** One write of a run, and every map made before it left as it was. */
  method Step<K(==,!new), V>(ghost start: seq<(K, V)>, ops: seq<Op<K, V>>, i: nat, views: seq<View<K, V>>)
    returns (next: View<K, V>)
    requires Ordered(ops) && i < |ops| && |views| == i + 1 && AllMeant(start, ops, views)
    modifies views[ops[i].map_].store
    ensures next.store == views[ops[i].map_].store || fresh(next.store)
    ensures Dictionary(next) == Some(AfterOp(Meant(start, ops, ops[i].map_), ops[i]))
    ensures AllMeant(start, ops, views)
  {
    var m := views[ops[i].map_];
    ghost var before := m.store.log;
    next := Apply(ops[i], m);
    forall j | 0 <= j < |views| ensures Dictionary(views[j]) == Some(Meant(start, ops, j)) {
      if views[j].store == m.store {
        StillMeant(before, m.store.log, views[j].version, views[j].size, Meant(start, ops, j));
      }
    }
  }

  /**
   Any run of writes to any of the maps made so far, newest or long superseded: at its end
   every map ever made, however many stores they share, is exactly its own dictionary.
   */
  method Replay<K(==,!new), V>(start: seq<(K, V)>, ops: seq<Op<K, V>>) returns (views: seq<View<K, V>>)
    requires Ordered(ops)
    ensures |views| == |ops| + 1 && AllMeant(start, ops, views)
  {
    var first := Of(start);
    views := [first];
    for i := 0 to |ops|
      invariant |views| == i + 1 && forall m | m in views :: fresh(m.store)
      invariant AllMeant(start, ops, views)
    {
      assert views[ops[i].map_] in views;
      var next := Step(start, ops, i, views);
      AppendMeant(start, ops, i, views, next);
      views := views + [next];
    }
  }

  /** One write to one map. */
  method Apply<K(==,!new), V>(op: Op<K, V>, m: View<K, V>) returns (next: View<K, V>)
    requires Dictionary(m).Some?
    modifies m.store
    ensures next.store == m.store || fresh(next.store)
    ensures Dictionary(next) == Some(AfterOp(old(Dictionary(m).value), op))
    ensures KeepsViews(old(m.store.log), m.store.log)
  {
    if op.SetIn? {
      next := Set(m, op.key, op.value);
    } else {
      var r := Delete(m, op.key);
      next := if r.Some? then r.value else m;
    }
  }
}
