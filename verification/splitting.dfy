/**
 One amount divided among the strategies that asked for an order: signed weights, every
 part but the last rounded to the quantum, and the last what remains. Exact reals.
 */
module ContributionSplit {
  import opened Ordering
  import opened Contributions
  import opened Allocation

  // ------------------------------------------------------------------ rounding

  /** The nearest integer, and the even one of two equally near. */
  function HalfEven(x: real): (n: int)
    ensures -0.5 <= x - n as real <= 0.5
    ensures x - n as real == 0.5 || x - n as real == -0.5 ==> n % 2 == 0
  {
    var floor := x.Floor;
    var rest := x - floor as real;
    if rest < 0.5 || (rest == 0.5 && floor % 2 == 0) then floor else floor + 1
  }

  function Units(n: int, quantum: real): real { n as real * quantum }

  /** The quantum `1E<exponent>`: a decimal quantum's exponent is all that rounding to it reads. */
  function TenTo(exponent: int): (quantum: real)
    ensures quantum > 0.0
    decreases if exponent < 0 then -exponent else exponent
  {
    if exponent == 0 then 1.0 else if exponent > 0 then 10.0 * TenTo(exponent - 1) else TenTo(exponent + 1) / 10.0
  }

  /** One digit more is a tenth, from one on, in both directions. */
  lemma TenToExactly(exponent: int)
    ensures TenTo(0) == 1.0 && TenTo(exponent + 1) == 10.0 * TenTo(exponent)
  {
  }

  /** `x` is a whole number of quanta. */
  ghost predicate OnGrid(x: real, quantum: real) { exists n :: x == Units(n, quantum) }

  function Quantize(x: real, quantum: real): real
    requires quantum > 0.0
  {
    Units(HalfEven(x / quantum), quantum)
  }

  lemma QuantizeIsNear(x: real, quantum: real)
    requires quantum > 0.0
    ensures OnGrid(Quantize(x, quantum), quantum)
    ensures -quantum / 2.0 <= x - Quantize(x, quantum) <= quantum / 2.0
  {
    NearInUnits(x, x / quantum, HalfEven(x / quantum), quantum);
  }

  lemma NearInUnits(x: real, ratio: real, n: int, quantum: real)
    requires quantum > 0.0 && ratio * quantum == x && -0.5 <= ratio - n as real <= 0.5
    ensures -quantum / 2.0 <= x - Units(n, quantum) <= quantum / 2.0
  {
    var rest := ratio - n as real;
    assert x - Units(n, quantum) == rest * quantum;
    ProductNonNegative(rest + 0.5, quantum);
    ProductNonNegative(0.5 - rest, quantum);
  }

  lemma ProductNonNegative(a: real, b: real)
    requires a >= 0.0 && b >= 0.0
    ensures a * b >= 0.0
  {
  }

  lemma QuantizeOnGrid(x: real, quantum: real)
    requires quantum > 0.0 && OnGrid(x, quantum)
    ensures Quantize(x, quantum) == x
  {
    var n :| x == Units(n, quantum);
    assert x / quantum == n as real;
  }

  // ------------------------------------------------------------------- dividing

  /** One strategy's exact part: its signed share of the net, or an equal share of a flat one. */
  function Fair(amount: real, net: real, quantity: real, count: nat): real
    requires count > 0
  {
    if net == 0.0 then Portion(amount, 1.0, count as real) else Portion(amount, quantity, net)
  }

  function Portion(amount: real, weight: real, whole: real): real
    requires whole != 0.0
  {
    amount * weight / whole
  }

  /** Each strategy in place, every part but the last its exact part rounded, and all of them the amount. */
  ghost predicate Splits(amount: real, cs: seq<Contribution>, quantum: real, parts: seq<Contribution>)
    requires quantum > 0.0
  {
    && |parts| == |cs|
    && (forall i | 0 <= i < |cs| :: parts[i].strategyId == cs[i].strategyId)
    && (forall i | 0 <= i < |cs| - 1 ::
          parts[i].quantity == Quantize(Fair(amount, Sum(cs), cs[i].quantity, |cs|), quantum))
    && (cs != [] ==> Sum(parts) == amount)
  }

  lemma SumStep(s: seq<Contribution>, k: nat)
    requires k < |s|
    ensures Sum(s[..k + 1]) == Sum(s[..k]) + s[k].quantity
  {
    assert s[..k + 1][..k] == s[..k];
  }

  lemma {:induction false} SumOfEqual(s: seq<Contribution>, share: real)
    requires forall i | 0 <= i < |s| :: s[i].quantity == share
    ensures Sum(s) == share * (|s| as real)
  {
    if s != [] {
      SumOfEqual(s[..|s| - 1], share);
    }
  }

  /** All the parts but the last, as `Splits` has them. */
  ghost predicate Heads(amount: real, net: real, cs: seq<Contribution>, quantum: real, head: seq<Contribution>)
    requires quantum > 0.0 && cs != []
  {
    && |head| < |cs|
    && forall i | 0 <= i < |head| ::
         head[i] == Contribution(cs[i].strategyId, Quantize(Fair(amount, net, cs[i].quantity, |cs|), quantum))
  }

  lemma HeadsStep(amount: real, net: real, cs: seq<Contribution>, quantum: real, head: seq<Contribution>,
                  c: Contribution)
    requires quantum > 0.0 && cs != [] && Heads(amount, net, cs, quantum, head) && |head| < |cs| - 1
    requires c == Contribution(cs[|head|].strategyId, Quantize(Fair(amount, net, cs[|head|].quantity, |cs|), quantum))
    ensures Heads(amount, net, cs, quantum, head + [c]) && Sum(head + [c]) == Sum(head) + c.quantity
  {
    SumOneMore(head, c);
    assert forall i | 0 <= i < |head| :: (head + [c])[i] == head[i];
  }

  /** The last strategy takes what remains. */
  lemma HeadsAndTheRest(amount: real, cs: seq<Contribution>, quantum: real, head: seq<Contribution>, given: real)
    requires quantum > 0.0 && cs != [] && Heads(amount, Sum(cs), cs, quantum, head)
    requires |head| == |cs| - 1 && given == Sum(head)
    ensures Splits(amount, cs, quantum, head + [Contribution(cs[|cs| - 1].strategyId, amount - given)])
  {
    var n := |cs| - 1;
    var last := Contribution(cs[n].strategyId, amount - given);
    var parts := head + [last];
    SumOneMore(head, last);
    assert parts[n] == last;
    forall i | 0 <= i < n
      ensures parts[i]
           == Contribution(cs[i].strategyId, Quantize(Fair(amount, Sum(cs), cs[i].quantity, |cs|), quantum))
    {
      assert parts[i] == head[i];
    }
  }

  /** A flat net: equal parts. */
  method SplitEqually(amount: real, contributions: seq<Contribution>, quantum: real) returns (parts: seq<Contribution>)
    requires quantum > 0.0 && contributions != [] && Sum(contributions) == 0.0
    ensures Splits(amount, contributions, quantum, parts)
  {
    var last := |contributions| - 1;
    var share := Quantize(Portion(amount, 1.0, |contributions| as real), quantum);
    var head := seq(last, i requires 0 <= i < last => Contribution(contributions[i].strategyId, share));
    var given := share * (|head| as real);
    EqualHeads(amount, contributions, quantum, share, head);
    HeadsAndTheRest(amount, contributions, quantum, head, given);
    parts := head + [Contribution(contributions[last].strategyId, amount - given)];
  }

  lemma EqualHeads(amount: real, cs: seq<Contribution>, quantum: real, share: real, head: seq<Contribution>)
    requires quantum > 0.0 && cs != [] && Sum(cs) == 0.0
    requires share == Quantize(Portion(amount, 1.0, |cs| as real), quantum)
    requires |head| < |cs| && forall i | 0 <= i < |head| :: head[i] == Contribution(cs[i].strategyId, share)
    ensures Heads(amount, Sum(cs), cs, quantum, head) && Sum(head) == share * (|head| as real)
  {
    SumOfEqual(head, share);
  }

  /** Any other net: signed weights. */
  method SplitByWeight(amount: real, contributions: seq<Contribution>, net: real, quantum: real)
    returns (parts: seq<Contribution>)
    requires quantum > 0.0 && contributions != [] && net == Sum(contributions) && net != 0.0
    ensures Splits(amount, contributions, quantum, parts)
  {
    var last := |contributions| - 1;
    parts := [];
    var given := 0.0;
    for k := 0 to last
      invariant |parts| == k && given == Sum(parts) && Heads(amount, net, contributions, quantum, parts)
    {
      var share := Quantize(Portion(amount, contributions[k].quantity, net), quantum);
      HeadsStep(amount, net, contributions, quantum, parts, Contribution(contributions[k].strategyId, share));
      parts := parts + [Contribution(contributions[k].strategyId, share)];
      given := given + share;
    }
    HeadsAndTheRest(amount, contributions, quantum, parts, given);
    parts := parts + [Contribution(contributions[last].strategyId, amount - given)];
  }

  /** `split_by_contribution`, with a quantum of the given exponent. */
  method SplitByContribution(amount: real, contributions: seq<Contribution>, exponent: int)
    returns (parts: seq<Contribution>)
    ensures Splits(amount, contributions, TenTo(exponent), parts)
  {
    var quantum := TenTo(exponent);
    if contributions == [] {
      return [];
    }
    var net := 0.0;
    for k := 0 to |contributions|
      invariant net == Sum(contributions[..k])
    {
      SumStep(contributions, k);
      net := net + contributions[k].quantity;
    }
    TakeAll(contributions);
    if net == 0.0 {
      parts := SplitEqually(amount, contributions, quantum);
    } else {
      parts := SplitByWeight(amount, contributions, net, quantum);
    }
  }

  // ------------------------------------------------------- how exact a split is

  /** The first `n` exact parts, added up. */
  ghost function FairSum(amount: real, net: real, cs: seq<Contribution>, n: nat): real
    requires n <= |cs|
  {
    if n == 0 then 0.0 else FairSum(amount, net, cs, n - 1) + Fair(amount, net, cs[n - 1].quantity, |cs|)
  }

  /** What the first `n` strategies weigh, and all of them: by count where the net is flat. */
  ghost function Weight(net: real, cs: seq<Contribution>, n: nat): real
    requires n <= |cs|
  {
    if net == 0.0 then n as real else Sum(cs[..n])
  }

  ghost function Whole(net: real, cs: seq<Contribution>): real {
    if net == 0.0 then |cs| as real else net
  }

  lemma WeightStep(amount: real, net: real, cs: seq<Contribution>, k: nat) returns (w: real)
    requires k < |cs|
    ensures Weight(net, cs, k + 1) == Weight(net, cs, k) + w && Whole(net, cs) != 0.0
    ensures Fair(amount, net, cs[k].quantity, |cs|) == Portion(amount, w, Whole(net, cs))
  {
    SumStep(cs, k);
    w := if net == 0.0 then 1.0 else cs[k].quantity;
  }

  ghost predicate Balanced(sum: real, whole: real, amount: real, weight: real) { sum * whole == amount * weight }

  lemma {:induction false} FairSumIs(amount: real, net: real, cs: seq<Contribution>, n: nat)
    requires n <= |cs|
    ensures Balanced(FairSum(amount, net, cs, n), Whole(net, cs), amount, Weight(net, cs, n))
  {
    if n > 0 {
      FairSumIs(amount, net, cs, n - 1);
      var w := WeightStep(amount, net, cs, n - 1);
      FairTerm(amount, FairSum(amount, net, cs, n - 1), FairSum(amount, net, cs, n),
               Weight(net, cs, n - 1), Weight(net, cs, n),
               w, Fair(amount, net, cs[n - 1].quantity, |cs|), Whole(net, cs));
    }
  }

  lemma FairTerm(amount: real, sum: real, sum': real, weight: real, weight': real, w: real, fair: real, whole: real)
    requires whole != 0.0 && fair == Portion(amount, w, whole) && sum' == sum + fair && weight' == weight + w
    requires Balanced(sum, whole, amount, weight)
    ensures Balanced(sum', whole, amount, weight')
  {
    assert fair * whole == amount * w;
    assert sum' * whole == sum * whole + fair * whole;
  }

  /** The exact parts of an amount add up to it. */
  lemma FairPartsAddUp(amount: real, cs: seq<Contribution>)
    requires cs != []
    ensures FairSum(amount, Sum(cs), cs, |cs|) == amount
  {
    FairSumIs(amount, Sum(cs), cs, |cs|);
    TakeAll(cs);
    BalancedBy(FairSum(amount, Sum(cs), cs, |cs|), amount, Whole(Sum(cs), cs));
  }

  lemma BalancedBy(a: real, b: real, factor: real)
    requires factor != 0.0 && Balanced(a, factor, b, factor)
    ensures a == b
  {
    assert (a - b) * factor == 0.0;
  }

  /** Half a quantum for each of `n` parts. */
  function Slack(n: nat, quantum: real): real { n as real * quantum / 2.0 }

  lemma {:induction false} RoundedWithin(amount: real, cs: seq<Contribution>, quantum: real, parts: seq<Contribution>,
                                         n: nat)
    requires quantum > 0.0 && Splits(amount, cs, quantum, parts) && n < |cs|
    ensures -Slack(n, quantum) <= FairSum(amount, Sum(cs), cs, n) - Sum(parts[..n]) <= Slack(n, quantum)
  {
    if n > 0 {
      RoundedWithin(amount, cs, quantum, parts, n - 1);
      SumStep(parts, n - 1);
      QuantizeIsNear(Fair(amount, Sum(cs), cs[n - 1].quantity, |cs|), quantum);
      SlackStep(n - 1, quantum);
    }
  }

  lemma SlackStep(n: nat, quantum: real)
    ensures Slack(n + 1, quantum) == Slack(n, quantum) + quantum / 2.0
  {
    assert (n + 1) as real * quantum == n as real * quantum + quantum;
  }

  /** Every part but the last is within half a quantum of exact; the last within half a quantum for each other part. */
  lemma {:induction false} SplitIsNear(amount: real, cs: seq<Contribution>, quantum: real, parts: seq<Contribution>,
                                       i: nat)
    requires quantum > 0.0 && Splits(amount, cs, quantum, parts) && i < |cs|
    ensures var slack := Slack(if i < |cs| - 1 then 1 else |cs| - 1, quantum);
            -slack <= parts[i].quantity - Fair(amount, Sum(cs), cs[i].quantity, |cs|) <= slack
  {
    if i < |cs| - 1 {
      QuantizeIsNear(Fair(amount, Sum(cs), cs[i].quantity, |cs|), quantum);
      SlackStep(0, quantum);
    } else {
      RoundedWithin(amount, cs, quantum, parts, i);
      WhatRemains(amount, cs, quantum, parts);
    }
  }

  /** The last part's distance from exact is what the others' rounding left over. */
  lemma WhatRemains(amount: real, cs: seq<Contribution>, quantum: real, parts: seq<Contribution>)
    requires quantum > 0.0 && Splits(amount, cs, quantum, parts) && cs != []
    ensures var n := |cs| - 1;
            parts[n].quantity - Fair(amount, Sum(cs), cs[n].quantity, |cs|)
                == FairSum(amount, Sum(cs), cs, n) - Sum(parts[..n])
  {
    FairPartsAddUp(amount, cs);
    SumStep(parts, |cs| - 1);
    TakeAll(parts);
  }

  /** Where every exact part but the last is on the grid, the split is exact in every part. */
  lemma {:induction false} ExactOnGrid(amount: real, cs: seq<Contribution>, quantum: real, parts: seq<Contribution>,
                                       n: nat)
    requires quantum > 0.0 && Splits(amount, cs, quantum, parts) && n < |cs|
    requires forall i | 0 <= i < n :: OnGrid(Fair(amount, Sum(cs), cs[i].quantity, |cs|), quantum)
    ensures Sum(parts[..n]) == FairSum(amount, Sum(cs), cs, n)
  {
    if n > 0 {
      ExactOnGrid(amount, cs, quantum, parts, n - 1);
      SumStep(parts, n - 1);
      QuantizeOnGrid(Fair(amount, Sum(cs), cs[n - 1].quantity, |cs|), quantum);
    }
  }

  /** A net split among its own contributions, each a whole number of quanta, gives every strategy what it asked. */
  lemma NetSplitsBack(cs: seq<Contribution>, quantum: real, parts: seq<Contribution>)
    requires quantum > 0.0 && Sum(cs) != 0.0 && Splits(Sum(cs), cs, quantum, parts)
    requires forall i | 0 <= i < |cs| :: OnGrid(cs[i].quantity, quantum)
    ensures parts == cs
  {
    var net, n := Sum(cs), |cs| - 1;
    forall i | 0 <= i < |cs| ensures Fair(net, net, cs[i].quantity, |cs|) == cs[i].quantity {
      OwnShare(net, cs[i].quantity, |cs|);
    }
    ExactOnGrid(net, cs, quantum, parts, n);
    WhatRemains(net, cs, quantum, parts);
    forall i | 0 <= i < |cs| ensures parts[i] == cs[i] {
      QuantizeOnGrid(cs[i].quantity, quantum);
    }
  }

  lemma OwnShare(net: real, quantity: real, count: nat)
    requires net != 0.0 && count > 0
    ensures Fair(net, net, quantity, count) == quantity
  {
    assert net * quantity / net == quantity;
  }

  // -------------------------------------------- netted, filled, and given back

  lemma {:induction false} SumOnGrid(s: seq<Contribution>, quantum: real)
    requires forall c | c in s :: OnGrid(c.quantity, quantum)
    ensures OnGrid(Sum(s), quantum)
  {
    if s == [] {
      assert Sum(s) == Units(0, quantum);
    } else {
      SumOnGrid(s[..|s| - 1], quantum);
      var a :| Sum(s[..|s| - 1]) == Units(a, quantum);
      var b :| s[|s| - 1].quantity == Units(b, quantum);
      assert Sum(s) == Units(a + b, quantum);
    }
  }

  lemma ContributionsOnGrid(rows: seq<Contribution>, cs: seq<Contribution>, quantum: real)
    requires Contributes(rows, cs) && forall r | r in rows :: OnGrid(r.quantity, quantum)
    ensures forall i | 0 <= i < |cs| :: OnGrid(cs[i].quantity, quantum)
  {
    forall i | 0 <= i < |cs| ensures OnGrid(cs[i].quantity, quantum) {
      assert cs[i] in cs;
      var own := Filter(By(cs[i].strategyId), rows);
      forall r | r in own ensures OnGrid(r.quantity, quantum) {
        FilterMember(By(cs[i].strategyId), rows, r);
      }
      SumOnGrid(own, quantum);
    }
  }

  /**
   A batch netted, attributed, and one order filled in full: splitting the fill gives every
   strategy exactly the total it asked of that order, however the others offset it.
   */
  lemma FillReturnsWhatWasAsked<K(!new)>(asks: seq<Ask<K>>, net: map<K, real>, parts: map<K, seq<Contribution>>,
                                         key: K, quantum: real, shares: seq<Contribution>)
    requires Nets(asks, net) && Attributes(asks, parts) && key in net && net[key] != 0.0 && quantum > 0.0
    requires forall a | a in asks :: OnGrid(a.quantity, quantum)
    requires key in parts ==> Splits(net[key], parts[key], quantum, shares)
    ensures key in parts && shares == parts[key] && Contributes(RowsOf(asks, key), shares)
  {
    AttributionIsConserved(asks, net, parts);
    var rows := RowsOf(asks, key);
    forall r | r in rows ensures OnGrid(r.quantity, quantum) {
      MapMember(Share<K>(), Filter(OfOrder(key), asks), r);
      var a :| a in Filter(OfOrder(key), asks) && r == Share<K>()(a);
      FilterMember(OfOrder(key), asks, a);
    }
    ContributionsOnGrid(rows, parts[key], quantum);
    NetSplitsBack(parts[key], quantum, shares);
  }
}
