/**
 Who asked for a netted order: per-strategy quantities added up into a canonically ordered
 list, each strategy once. Quantities are exact reals.
 */
module Contributions {
  import opened Ordering
  import opened Dictionaries
  import opened Text

  /** A strategy, with its signed share of something. */
  datatype Contribution = Contribution(strategyId: string, quantity: real)

  // ------------------------------------------------------------------- totals

  function Sum(s: seq<Contribution>): real {
    if s == [] then 0.0 else Sum(s[..|s| - 1]) + s[|s| - 1].quantity
  }

  lemma {:induction false} SumConcat(a: seq<Contribution>, b: seq<Contribution>)
    ensures Sum(a + b) == Sum(a) + Sum(b)
  {
    if b == [] {
      assert a + b == a;
    } else {
      assert (a + b)[..|a + b| - 1] == a + b[..|b| - 1];
      SumConcat(a, b[..|b| - 1]);
    }
  }

  lemma SumOneMore(s: seq<Contribution>, c: Contribution)
    ensures Sum(s + [c]) == Sum(s) + c.quantity
  {
    assert (s + [c])[..|s|] == s;
  }

  lemma {:induction false} SumPermutes(a: seq<Contribution>, b: seq<Contribution>)
    requires multiset(a) == multiset(b)
    ensures Sum(a) == Sum(b)
  {
    if a == [] {
      assert |b| == |multiset(b)| == 0;
    } else {
      var i := Without(a, b);
      SumPermutes(a[1..], b[..i] + b[i + 1..]);
      SumConcat(b[..i], b[i + 1..]);
      SumConcat(b[..i], [b[i]] + b[i + 1..]);
      SumConcat([b[i]], b[i + 1..]);
      SumConcat([a[0]], a[1..]);
      assert a == [a[0]] + a[1..];
    }
  }

  function By(strategyId: string): Contribution -> bool { (c: Contribution) => c.strategyId == strategyId }

  function NotBy(strategyId: string): Contribution -> bool { (c: Contribution) => c.strategyId != strategyId }

  /** What one strategy asked for in all. */
  ghost function TotalBy(rows: seq<Contribution>, strategyId: string): real {
    Sum(Filter(By(strategyId), rows))
  }

  lemma TotalByStep(rows: seq<Contribution>, k: nat, strategyId: string)
    requires k < |rows|
    ensures TotalBy(rows[..k + 1], strategyId)
         == TotalBy(rows[..k], strategyId) + if rows[k].strategyId == strategyId then rows[k].quantity else 0.0
  {
    TakeOneMore(rows, k);
    FilterConcat(By(strategyId), rows[..k], [rows[k]]);
    SumConcat(Filter(By(strategyId), rows[..k]), Filter(By(strategyId), [rows[k]]));
    assert Filter(By(strategyId), [rows[k]]) == if rows[k].strategyId == strategyId then [rows[k]] else [];
  }

  // ------------------------------------------------------------- contributions

  ghost predicate Named(s: seq<Contribution>, strategyId: string) {
    exists c :: c in s && c.strategyId == strategyId
  }

  /** Strategy names in ascending order, none twice. */
  ghost predicate Ascending(cs: seq<Contribution>) {
    forall i, j | 0 <= i < j < |cs| ::
      AtMost(cs[i].strategyId, cs[j].strategyId) && cs[i].strategyId != cs[j].strategyId
  }

  /** `cs` names every strategy of `rows`, and no other, once and in order, with all it asked for. */
  ghost predicate Contributes(rows: seq<Contribution>, cs: seq<Contribution>) {
    && Ascending(cs)
    && (forall name :: Named(cs, name) <==> Named(rows, name))
    && (forall c | c in cs :: c.quantity == TotalBy(rows, c.strategyId))
  }

  /** `totals[strategy_id] = totals.get(strategy_id, 0) + quantity`, row by row. */
  function Gathering(rows: seq<Contribution>): Dict<string, real> {
    if rows == [] then Dict([], map[])
    else
      var last := rows[|rows| - 1];
      var totals := Gathering(rows[..|rows| - 1]);
      Put(totals, last.strategyId, Get(totals, last.strategyId, 0.0) + last.quantity)
  }

  lemma {:induction false} GatheringHolds(rows: seq<Contribution>, name: string)
    ensures var totals := Gathering(rows);
            && (name in totals.order <==> Named(rows, name))
            && Get(totals, name, 0.0) == TotalBy(rows, name)
            && Distinct(totals.order)
            && (name in totals.order <==> name in totals.entries)
  {
    if rows != [] {
      var n := |rows| - 1;
      var front, last := rows[..n], rows[n];
      GatheringHolds(front, name);
      GatheringHolds(front, last.strategyId);
      PutHolds(Gathering(front), last.strategyId, Get(Gathering(front), last.strategyId, 0.0) + last.quantity, name);
      TotalByStep(rows, n, name);
      TakeAll(rows);
      NamedStep(rows, name);
    }
  }

  lemma NamedStep(rows: seq<Contribution>, name: string)
    requires rows != []
    ensures Named(rows, name) <==> Named(rows[..|rows| - 1], name) || rows[|rows| - 1].strategyId == name
  {
    if c :| c in rows && c.strategyId == name && c != rows[|rows| - 1] {
      assert c in rows[..|rows| - 1];
    }
  }

  function FromTotals(totals: Dict<string, real>): string -> Contribution {
    (name: string) => Contribution(name, Get(totals, name, 0.0))
  }

  function Account(totals: Dict<string, real>): seq<Contribution> {
    Map(FromTotals(totals), Sort(AtMost, totals.order))
  }

  lemma NamesInOrder(order: seq<string>) returns (names: seq<string>)
    requires Distinct(order)
    ensures names == Sort(AtMost, order) && SortedBy(AtMost, names) && Distinct(names)
    ensures forall name :: name in names <==> name in order
  {
    names := Sort(AtMost, order);
    TextIsOrdered();
    SortPermutes(AtMost, order);
    SortSorts(AtMost, order);
    PermutedStaysDistinct(order, names);
  }

  /** The gathered totals, read in name order, are what each strategy contributed. */
  lemma {:induction false} OrderedTotals(rows: seq<Contribution>)
    ensures Contributes(rows, Account(Gathering(rows)))
  {
    var totals := Gathering(rows);
    GatheringHolds(rows, "");
    var names := NamesInOrder(totals.order);
    forall name ensures Named(Account(totals), name) <==> Named(rows, name) {
      AccountNames(names, totals, Account(totals), name);
      GatheringHolds(rows, name);
    }
    forall c | c in Account(totals) ensures c.quantity == TotalBy(rows, c.strategyId) {
      MapMember(FromTotals(totals), names, c);
      GatheringHolds(rows, c.strategyId);
    }
    NamesAscend(names, totals);
  }

  lemma NamesAscend(names: seq<string>, totals: Dict<string, real>)
    requires SortedBy(AtMost, names) && Distinct(names)
    ensures Ascending(Map(FromTotals(totals), names))
  {
  }

  lemma AccountNames(names: seq<string>, totals: Dict<string, real>, cs: seq<Contribution>, name: string)
    requires cs == Map(FromTotals(totals), names)
    ensures Named(cs, name) <==> name in names
  {
    if name in names {
      var i :| 0 <= i < |names| && names[i] == name;
      assert cs[i] in cs;
    }
    if c :| c in cs && c.strategyId == name {
      var i :| 0 <= i < |cs| && cs[i] == c;
      assert names[i] == name;
    }
  }

  /** Each strategy's quantities for one order, added up, in name order. */
  method ContributionsFrom(rows: seq<Contribution>) returns (cs: seq<Contribution>)
    ensures Contributes(rows, cs)
  {
    var totals: Dict<string, real> := Dict([], map[]);
    for k := 0 to |rows|
      invariant totals == Gathering(rows[..k])
    {
      assert rows[..k + 1][..k] == rows[..k];
      totals := Put(totals, rows[k].strategyId, Get(totals, rows[k].strategyId, 0.0) + rows[k].quantity);
    }
    TakeAll(rows);
    OrderedTotals(rows);
    cs := Account(totals);
  }

  // --------------------------------------------------- what a contribution means

  lemma {:induction false} TotalSplits(rows: seq<Contribution>, name: string)
    ensures Sum(rows) == TotalBy(rows, name) + Sum(Filter(NotBy(name), rows))
  {
    if rows != [] {
      var front, last := rows[..|rows| - 1], rows[|rows| - 1];
      TotalSplits(front, name);
      assert rows == front + [last];
      FilterConcat(By(name), front, [last]);
      FilterConcat(NotBy(name), front, [last]);
      SumConcat(Filter(By(name), front), Filter(By(name), [last]));
      SumConcat(Filter(NotBy(name), front), Filter(NotBy(name), [last]));
      assert Filter(By(name), [last]) == if last.strategyId == name then [last] else [];
      assert Filter(NotBy(name), [last]) == if last.strategyId == name then [] else [last];
    }
  }

  lemma OthersKeepTheirTotals(rows: seq<Contribution>, name: string, other: string)
    requires name != other
    ensures TotalBy(Filter(NotBy(name), rows), other) == TotalBy(rows, other)
  {
    FilterTwice(NotBy(name), By(other), By(other), rows);
  }

  /** The last strategy named, set aside with its rows, leaves the rest contributing as they did. */
  lemma ContributesWithoutLast(rows: seq<Contribution>, cs: seq<Contribution>)
    requires Contributes(rows, cs) && cs != []
    ensures Contributes(Filter(NotBy(cs[|cs| - 1].strategyId), rows), cs[..|cs| - 1])
  {
    var n := |cs| - 1;
    var name := cs[n].strategyId;
    forall c | c in cs[..n] ensures c.quantity == TotalBy(Filter(NotBy(name), rows), c.strategyId) {
      assert c in cs && c.strategyId != name;
      OthersKeepTheirTotals(rows, name, c.strategyId);
    }
    forall other ensures Named(cs[..n], other) <==> Named(Filter(NotBy(name), rows), other) {
      assert Named(cs, other) <==> Named(rows, other);
      NamesWithout(rows, name, other);
      NamesWithoutLast(cs, other);
    }
  }

  lemma NamesWithout(rows: seq<Contribution>, name: string, other: string)
    ensures Named(Filter(NotBy(name), rows), other) <==> other != name && Named(rows, other)
  {
    if r :| r in rows && r.strategyId == other && other != name {
      FilterMember(NotBy(name), rows, r);
    }
    if r :| r in Filter(NotBy(name), rows) && r.strategyId == other {
      FilterMember(NotBy(name), rows, r);
    }
  }

  lemma NamesWithoutLast(cs: seq<Contribution>, other: string)
    requires Ascending(cs) && cs != []
    ensures Named(cs[..|cs| - 1], other) <==> other != cs[|cs| - 1].strategyId && Named(cs, other)
  {
    if c :| c in cs && c.strategyId == other && c != cs[|cs| - 1] {
      assert c in cs[..|cs| - 1];
    }
  }

  lemma EmptyAccount(rows: seq<Contribution>, cs: seq<Contribution>)
    requires Contributes(rows, cs)
    ensures cs == [] <==> rows == []
  {
    if cs != [] {
      assert Named(cs, cs[0].strategyId);
    }
    if rows != [] {
      assert Named(rows, rows[0].strategyId);
    }
  }

  /** Nothing is lost or invented: what the strategies contributed adds up to what was asked. */
  lemma {:induction false} ContributionsAddUp(rows: seq<Contribution>, cs: seq<Contribution>)
    requires Contributes(rows, cs)
    ensures Sum(cs) == Sum(rows)
    decreases |cs|
  {
    EmptyAccount(rows, cs);
    if cs != [] {
      var last := cs[|cs| - 1];
      assert last in cs;
      ContributesWithoutLast(rows, cs);
      ContributionsAddUp(Filter(NotBy(last.strategyId), rows), cs[..|cs| - 1]);
      TotalSplits(rows, last.strategyId);
    }
  }

  lemma NamedPermutes(a: seq<Contribution>, b: seq<Contribution>, name: string)
    requires multiset(a) == multiset(b)
    ensures Named(a, name) <==> Named(b, name)
    ensures TotalBy(a, name) == TotalBy(b, name)
  {
    SameMembers(a, b);
    FilterPermutes(By(name), a, b);
    SumPermutes(Filter(By(name), a), Filter(By(name), b));
  }

  lemma ContributesPermutes(a: seq<Contribution>, b: seq<Contribution>, cs: seq<Contribution>)
    requires multiset(a) == multiset(b) && Contributes(a, cs)
    ensures Contributes(b, cs)
  {
    forall name ensures (Named(cs, name) <==> Named(b, name)) && TotalBy(a, name) == TotalBy(b, name) {
      NamedPermutes(a, b, name);
    }
  }

  /** The last name of one account is at most the last name of another account of the same rows. */
  lemma LastNameAtMost(rows: seq<Contribution>, cs: seq<Contribution>, cs': seq<Contribution>)
    requires Contributes(rows, cs) && Contributes(rows, cs') && cs != [] && cs' != []
    ensures AtMost(cs[|cs| - 1].strategyId, cs'[|cs'| - 1].strategyId)
  {
    var name := cs[|cs| - 1].strategyId;
    assert Named(cs, name);
    assert Named(rows, name);
    NamedAtMostLast(cs', name);
  }

  lemma NamedAtMostLast(cs: seq<Contribution>, name: string)
    requires Ascending(cs) && Named(cs, name)
    ensures AtMost(name, cs[|cs| - 1].strategyId)
  {
    var c :| c in cs && c.strategyId == name;
    var j :| 0 <= j < |cs| && cs[j] == c;
    if j == |cs| - 1 {
      AtMostTotal(name, name);
    }
  }

  /** Rows have one account. */
  lemma {:induction false} OneAccount(rows: seq<Contribution>, cs: seq<Contribution>, cs': seq<Contribution>)
    requires Contributes(rows, cs) && Contributes(rows, cs')
    ensures cs == cs'
    decreases |cs|
  {
    EmptyAccount(rows, cs);
    EmptyAccount(rows, cs');
    if cs != [] {
      var rest := SameLast(rows, cs, cs');
      OneAccount(rest, cs[..|cs| - 1], cs'[..|cs'| - 1]);
      SameFrontAndLast(cs, cs');
    }
  }

  /** Two accounts end alike, and the rows of the strategies before have both fronts for an account. */
  lemma SameLast(rows: seq<Contribution>, cs: seq<Contribution>, cs': seq<Contribution>)
    returns (rest: seq<Contribution>)
    requires Contributes(rows, cs) && Contributes(rows, cs') && cs != [] && cs' != []
    ensures cs[|cs| - 1] == cs'[|cs'| - 1]
    ensures Contributes(rest, cs[..|cs| - 1]) && Contributes(rest, cs'[..|cs'| - 1])
  {
    LastNameAtMost(rows, cs, cs');
    LastNameAtMost(rows, cs', cs);
    AtMostBothWays(cs[|cs| - 1].strategyId, cs'[|cs'| - 1].strategyId);
    assert cs[|cs| - 1] in cs && cs'[|cs'| - 1] in cs';
    ContributesWithoutLast(rows, cs);
    ContributesWithoutLast(rows, cs');
    rest := Filter(NotBy(cs[|cs| - 1].strategyId), rows);
  }

  /** Two runs that state the same rows in a different sequence account for them alike. */
  lemma ContributionsIgnoreArrival(rows: seq<Contribution>, rows': seq<Contribution>, cs: seq<Contribution>,
                                   cs': seq<Contribution>)
    requires multiset(rows) == multiset(rows')
    requires Contributes(rows, cs) && Contributes(rows', cs')
    ensures cs == cs'
  {
    ContributesPermutes(rows', rows, cs');
    OneAccount(rows, cs, cs');
  }
}
