/** The moving-average cross: hold the size while the fast trailing average is above the slow one. */
module MovingAverages {
  import opened Outcomes
  import opened Ordering
  import opened Strategies

  const STRATEGY_ID: string := "EX02-MA-CROSS"

  datatype Failure = DivisionByZero

  function Sum(s: seq<real>): real {
    if s == [] then 0.0 else Sum(s[..|s| - 1]) + s[|s| - 1]
  }

  /** `s[-k:]`: the last `k`, all of a shorter list, and -- `-0` being `0` -- all of it for none. */
  function Trailing(s: seq<real>, k: nat): seq<real> {
    if k == 0 || |s| <= k then s else s[|s| - k..]
  }

  /** What the history asks for at its last bar. */
  function Signal(closes: seq<real>, fast: nat, slow: nat, size: real): Result<Option<real>, Failure> {
    if |closes| < slow then Ok(None)
    else if fast == 0 || slow == 0 then Err(DivisionByZero)
    else if Above(Sum(Trailing(closes, fast)), fast, Sum(Trailing(closes, slow)), slow) then Ok(Some(size))
    else Ok(Some(0.0))
  }

  function Hold(asset: string, quantity: real, timestamp: real): Intent {
    Intent(STRATEGY_ID, asset, quantity, FULL_STRENGTH, timestamp, TargetQuantity)
  }

  /** A signal as what is asked for. */
  function Asking(asset: string, signal: Result<Option<real>, Failure>, timestamp: real): Result<seq<Intent>, Failure> {
    if signal.Err? then Err(signal.error)
    else if signal.value.None? then Ok([])
    else Ok([Hold(asset, signal.value.value, timestamp)])
  }

  /** One average over another. */
  predicate Above(sumFast: real, fast: nat, sumSlow: real, slow: nat)
    requires fast > 0 && slow > 0
  {
    sumFast / fast as real > sumSlow / slow as real
  }

  class MovingAverageCross {
    const asset: string
    const fast: nat
    const slow: nat
    const size: real
    var closes: seq<real>

    constructor (asset: string, fast: nat, slow: nat, size: real)
      ensures this.asset == asset && this.fast == fast && this.slow == slow && this.size == size && closes == []
    {
      this.asset, this.fast, this.slow, this.size := asset, fast, slow, size;
      closes := [];
    }

    /** Remembers the close, then asks for what the whole history signals. */
    method OnBar(bar: Bar) returns (r: Result<seq<Intent>, Failure>)
      modifies this
      ensures closes == old(closes) + [bar.close]
      ensures r == Asking(asset, Signal(closes, fast, slow, size), bar.timestamp)
    {
      closes := closes + [bar.close];
      if |closes| < slow {
        return Ok([]);
      }
      if fast == 0 || slow == 0 {
        return Err(DivisionByZero);
      }
      var quick := Sum(Trailing(closes, fast)) / fast as real;
      var steady := Sum(Trailing(closes, slow)) / slow as real;
      return Ok([Hold(asset, if quick > steady then size else 0.0, bar.timestamp)]);
    }
  }

  lemma {:induction false} SumConcat(a: seq<real>, b: seq<real>)
    ensures Sum(a + b) == Sum(a) + Sum(b)
  {
    if b == [] {
      assert a + b == a;
    } else {
      var n := |b| - 1;
      assert (a + b)[..|a + b| - 1] == a + b[..n];
      SumConcat(a, b[..n]);
    }
  }

  lemma {:induction false} SumAtLeast(s: seq<real>, n: nat, c: real)
    requires n == |s| && forall i | 0 <= i < |s| :: c <= s[i]
    ensures n as real * c <= Sum(s)
  {
    if s != [] {
      SumAtLeast(s[..n - 1], n - 1, c);
      OneMore(n, c);
    }
  }

  lemma {:induction false} SumAtMost(s: seq<real>, n: nat, c: real)
    requires n == |s| && forall i | 0 <= i < |s| :: s[i] <= c
    ensures Sum(s) <= n as real * c
  {
    if s != [] {
      SumAtMost(s[..n - 1], n - 1, c);
      OneMore(n, c);
    }
  }

  lemma SumBelow(s: seq<real>, n: nat, c: real)
    requires n == |s| > 0 && forall i | 0 <= i < |s| :: s[i] < c
    ensures Sum(s) < n as real * c
  {
    SumAtMost(s[..n - 1], n - 1, c);
    OneMore(n, c);
  }

  lemma OneMore(n: nat, c: real)
    requires n > 0
    ensures n as real * c == (n - 1) as real * c + c
  {
    assert n as real == (n - 1) as real + 1.0;
  }

  lemma {:induction false} SumScales(s: seq<real>, t: seq<real>, k: real) returns (sum: real, scaled: real)
    requires |s| == |t| && forall i | 0 <= i < |s| :: t[i] == k * s[i]
    ensures sum == Sum(s) && scaled == Sum(t) && scaled == k * sum
  {
    sum, scaled := 0.0, 0.0;
    if s != [] {
      var n := |s| - 1;
      sum, scaled := SumScales(s[..n], t[..n], k);
      assert k * (sum + s[n]) == k * sum + k * s[n];
      sum, scaled := sum + s[n], scaled + t[n];
    }
  }

  /** The slow window is the bars before the fast one, followed by the fast one. */
  lemma WindowSplits(closes: seq<real>, fast: nat, slow: nat)
    requires 1 <= fast < slow <= |closes|
    ensures var older := closes[|closes| - slow..|closes| - fast];
            && |older| == slow - fast && |Trailing(closes, fast)| == fast
            && Trailing(closes, slow) == older + Trailing(closes, fast)
            && Sum(Trailing(closes, slow)) == Sum(older) + Sum(Trailing(closes, fast))
  {
    var older, newer := closes[|closes| - slow..|closes| - fast], Trailing(closes, fast);
    assert Trailing(closes, slow) == older + newer;
    SumConcat(older, newer);
  }

  /** The fast average is above the slow one exactly when it is above the average of the bars before it. */
  lemma FastAboveSlowExactly(sumFast: real, sumOld: real, fast: nat, slow: nat)
    requires 1 <= fast < slow
    ensures Above(sumFast, fast, sumOld + sumFast, slow)
       <==> (slow - fast) as real * sumFast > fast as real * sumOld
  {
    var f, s := fast as real, slow as real;
    var a, b := sumFast / f, (sumOld + sumFast) / s;
    assert a * f == sumFast && b * s == sumOld + sumFast;
    assert (a - b) * (f * s) == sumFast * s - (sumOld + sumFast) * f;
    assert sumFast * s - (sumOld + sumFast) * f == (s - f) * sumFast - f * sumOld;
    assert f * s > 0.0;
    SameSign(a - b, f * s);
    assert (slow - fast) as real == s - f;
  }

  lemma SameSign(x: real, k: real)
    requires k > 0.0
    ensures x * k > 0.0 <==> x > 0.0
  {
    if x > 0.0 {
      assert x * k > 0.0;
    } else {
      assert x * k <= 0.0;
    }
  }

  /** A newer window at or above a level that the older one is below crosses it, and the other way about. */
  lemma LevelSeparates(sumFast: real, sumOld: real, fast: nat, slow: nat, level: real)
    requires 1 <= fast < slow
    ensures fast as real * level <= sumFast && sumOld < (slow - fast) as real * level ==>
              (slow - fast) as real * sumFast > fast as real * sumOld
    ensures sumFast <= fast as real * level && (slow - fast) as real * level <= sumOld ==>
              (slow - fast) as real * sumFast <= fast as real * sumOld
  {
    var f, g := fast as real, (slow - fast) as real;
    assert g * (f * level) == f * (g * level);
    if f * level <= sumFast && sumOld < g * level {
      Scaled(g, f * level, sumFast);
      Scaled(f, sumOld, g * level);
    }
    if sumFast <= f * level && g * level <= sumOld {
      Scaled(g, sumFast, f * level);
      Scaled(f, g * level, sumOld);
    }
  }

  lemma Scaled(k: real, x: real, y: real)
    requires k > 0.0
    ensures x <= y ==> k * x <= k * y
    ensures x < y ==> k * x < k * y
  {
  }

  function Newer(closes: seq<real>, fast: nat): (s: seq<real>)
    requires 1 <= fast <= |closes|
    ensures |s| == fast && s == Trailing(closes, fast)
  {
    closes[|closes| - fast..]
  }

  function Older(closes: seq<real>, fast: nat, slow: nat): (s: seq<real>)
    requires 1 <= fast < slow <= |closes|
    ensures |s| == slow - fast
  {
    closes[|closes| - slow..|closes| - fast]
  }

  /** The two windows' sums, and the signal they come to. */
  lemma WindowSums(closes: seq<real>, fast: nat, slow: nat, size: real) returns (sumFast: real, sumOld: real)
    requires 1 <= fast < slow <= |closes|
    ensures sumFast == Sum(Newer(closes, fast)) && sumOld == Sum(Older(closes, fast, slow))
    ensures Signal(closes, fast, slow, size)
         == Ok(Some(if Above(sumFast, fast, sumOld + sumFast, slow) then size else 0.0))
  {
    WindowSplits(closes, fast, slow);
    sumFast, sumOld := Sum(Newer(closes, fast)), Sum(Older(closes, fast, slow));
  }

  lemma LevelCrossed(sumFast: real, sumOld: real, fast: nat, slow: nat, level: real)
    requires 1 <= fast < slow
    ensures fast as real * level <= sumFast && sumOld < (slow - fast) as real * level ==>
              Above(sumFast, fast, sumOld + sumFast, slow)
    ensures sumFast <= fast as real * level && (slow - fast) as real * level <= sumOld ==>
              !Above(sumFast, fast, sumOld + sumFast, slow)
  {
    LevelSeparates(sumFast, sumOld, fast, slow, level);
    FastAboveSlowExactly(sumFast, sumOld, fast, slow);
  }

  lemma CrossesUp(closes: seq<real>, fast: nat, slow: nat, size: real, level: real)
    requires 1 <= fast < slow <= |closes|
    requires fast as real * level <= Sum(Newer(closes, fast))
    requires Sum(Older(closes, fast, slow)) < (slow - fast) as real * level
    ensures Signal(closes, fast, slow, size) == Ok(Some(size))
  {
    var sumFast, sumOld := WindowSums(closes, fast, slow, size);
    LevelCrossed(sumFast, sumOld, fast, slow, level);
  }

  lemma StaysDown(closes: seq<real>, fast: nat, slow: nat, size: real, level: real)
    requires 1 <= fast < slow <= |closes|
    requires Sum(Newer(closes, fast)) <= fast as real * level
    requires (slow - fast) as real * level <= Sum(Older(closes, fast, slow))
    ensures Signal(closes, fast, slow, size) == Ok(Some(0.0))
  {
    var sumFast, sumOld := WindowSums(closes, fast, slow, size);
    LevelCrossed(sumFast, sumOld, fast, slow, level);
  }

  lemma RisingSignalsSize(closes: seq<real>, fast: nat, slow: nat, size: real)
    requires 1 <= fast < slow <= |closes|
    requires forall i, j | 0 <= i < j < |closes| :: closes[i] < closes[j]
    ensures Signal(closes, fast, slow, size) == Ok(Some(size))
  {
    var pivot := closes[|closes| - fast];
    SumAtLeast(Newer(closes, fast), fast, pivot);
    SumBelow(Older(closes, fast, slow), slow - fast, pivot);
    CrossesUp(closes, fast, slow, size, pivot);
  }

  lemma NeverRisingSignalsZero(closes: seq<real>, fast: nat, slow: nat, size: real)
    requires 1 <= fast < slow <= |closes|
    requires forall i, j | 0 <= i < j < |closes| :: closes[j] <= closes[i]
    ensures Signal(closes, fast, slow, size) == Ok(Some(0.0))
  {
    var pivot := closes[|closes| - fast];
    SumAtMost(Newer(closes, fast), fast, pivot);
    SumAtLeast(Older(closes, fast, slow), slow - fast, pivot);
    StaysDown(closes, fast, slow, size, pivot);
  }

  /** Every close quoted in another unit, `k` to one of the old. */
  function Requoted(closes: seq<real>, k: real): (r: seq<real>)
    ensures |r| == |closes|
  {
    if closes == [] then [] else Requoted(closes[..|closes| - 1], k) + [k * closes[|closes| - 1]]
  }

  lemma {:induction false} RequotedAt(closes: seq<real>, k: real)
    ensures forall i | 0 <= i < |closes| :: Requoted(closes, k)[i] == k * closes[i]
  {
    if closes != [] {
      RequotedAt(closes[..|closes| - 1], k);
    }
  }

  lemma TrailingScales(closes: seq<real>, k: real, window: nat) returns (sum: real, quoted: real)
    ensures sum == Sum(Trailing(closes, window)) && quoted == Sum(Trailing(Requoted(closes, k), window))
    ensures quoted == k * sum
  {
    RequotedAt(closes, k);
    sum, quoted := SumScales(Trailing(closes, window), Trailing(Requoted(closes, k), window), k);
  }

  lemma {:induction false} RequotingKeepsTheSignal(closes: seq<real>, k: real, fast: nat, slow: nat, size: real)
    requires k > 0.0
    ensures Signal(Requoted(closes, k), fast, slow, size) == Signal(closes, fast, slow, size)
  {
    if |closes| >= slow && fast > 0 && slow > 0 {
      var quick, quick' := TrailingScales(closes, k, fast);
      var steady, steady' := TrailingScales(closes, k, slow);
      AveragesScale(quick, steady, quick', steady', fast, slow, k);
    }
  }

  lemma AveragesScale(a: real, b: real, a': real, b': real, fast: nat, slow: nat, k: real)
    requires k > 0.0 && fast > 0 && slow > 0 && a' == k * a && b' == k * b
    ensures Above(a', fast, b', slow) <==> Above(a, fast, b, slow)
  {
    var x, y := a / fast as real, b / slow as real;
    assert a' / fast as real == k * x && b' / slow as real == k * y;
    Scaled(k, x, y);
    Scaled(k, y, x);
  }

  // --------------------------------------------------------------------- a run

  function Closes(bars: seq<Bar>): (closes: seq<real>)
    ensures |closes| == |bars|
  {
    seq(|bars|, i requires 0 <= i < |bars| => bars[i].close)
  }

  lemma ClosesStep(bars: seq<Bar>, k: nat)
    requires k < |bars|
    ensures Closes(bars[..k + 1]) == Closes(bars[..k]) + [bars[k].close]
  {
    SameElements(Closes(bars[..k + 1]), Closes(bars[..k]) + [bars[k].close]);
  }

  /** What a strategy begun at the first bar asks for at bar `k`. */
  function AskedAt(asset: string, fast: nat, slow: nat, size: real, bars: seq<Bar>, k: nat)
    : Result<seq<Intent>, Failure>
    requires k < |bars|
  {
    Asking(asset, Signal(Closes(bars[..k + 1]), fast, slow, size), bars[k].timestamp)
  }

  /** Every bar of a run, with what it asked for; a failure ends the run. */
  ghost predicate Run(asset: string, fast: nat, slow: nat, size: real, bars: seq<Bar>,
                      asked: seq<seq<Intent>>, failure: Option<Failure>) {
    && |asked| <= |bars| && (failure.None? ==> |asked| == |bars|)
    && (forall k | 0 <= k < |asked| :: AskedAt(asset, fast, slow, size, bars, k) == Ok(asked[k]))
    && (failure.Some? ==>
          |asked| < |bars| && AskedAt(asset, fast, slow, size, bars, |asked|) == Err(failure.value))
  }

  /** A fresh strategy shown every bar. */
  method Watch(asset: string, fast: nat, slow: nat, size: real, bars: seq<Bar>)
    returns (asked: seq<seq<Intent>>, failure: Option<Failure>)
    ensures Run(asset, fast, slow, size, bars, asked, failure)
  {
    var strategy := new MovingAverageCross(asset, fast, slow, size);
    asked := [];
    for k := 0 to |bars|
      invariant strategy.asset == asset && strategy.fast == fast && strategy.slow == slow && strategy.size == size
      invariant strategy.closes == Closes(bars[..k]) && |asked| == k
      invariant forall i | 0 <= i < k :: AskedAt(asset, fast, slow, size, bars, i) == Ok(asked[i])
    {
      var r := strategy.OnBar(bars[k]);
      ClosesStep(bars, k);
      if r.Err? {
        return asked, Some(r.error);
      }
      asked := asked + [r.value];
    }
    return asked, None;
  }

  lemma SilentAt(asset: string, fast: nat, slow: nat, size: real, bars: seq<Bar>, k: nat)
    requires k < |bars|
    ensures AskedAt(asset, fast, slow, size, bars, k) == Ok([]) <==> k < slow - 1
    ensures AskedAt(asset, fast, slow, size, bars, k).Err? <==> k >= slow - 1 && (fast == 0 || slow == 0)
  {
  }

  /** A run asks nothing at exactly its first `slow - 1` bars. It fails exactly if it gets past them with no window. */
  lemma SilentUntilFullExactly(asset: string, fast: nat, slow: nat, size: real, bars: seq<Bar>,
                               asked: seq<seq<Intent>>, failure: Option<Failure>)
    requires Run(asset, fast, slow, size, bars, asked, failure)
    ensures forall k | 0 <= k < |asked| :: asked[k] == [] <==> k < slow - 1
    ensures failure.Some? <==> |bars| > slow - 1 && bars != [] && (fast == 0 || slow == 0)
    ensures failure.Some? ==> |asked| == if slow == 0 then 0 else slow - 1
  {
    forall k | 0 <= k < |asked| ensures asked[k] == [] <==> k < slow - 1 {
      SilentAt(asset, fast, slow, size, bars, k);
    }
    if |asked| < |bars| {
      SilentAt(asset, fast, slow, size, bars, |asked|);
    }
    var full := if slow == 0 then 0 else slow - 1;
    if full < |asked| {
      SilentAt(asset, fast, slow, size, bars, full);
    }
  }

  /** Through strictly rising closes the full size is targeted at every later bar. */
  lemma RisingTargetsSize(asset: string, fast: nat, slow: nat, size: real, bars: seq<Bar>,
                          asked: seq<seq<Intent>>, failure: Option<Failure>)
    requires 1 <= fast < slow && Run(asset, fast, slow, size, bars, asked, failure)
    requires forall i, j | 0 <= i < j < |bars| :: bars[i].close < bars[j].close
    ensures |asked| == |bars|
    ensures forall k | slow - 1 <= k < |bars| ::
              asked[k] == [Intent("EX02-MA-CROSS", asset, size, 1.0, bars[k].timestamp, TargetQuantity)]
  {
    SilentUntilFullExactly(asset, fast, slow, size, bars, asked, failure);
    forall k | slow - 1 <= k < |bars| ensures asked[k] == [Hold(asset, size, bars[k].timestamp)] {
      RisingSignalsSize(Closes(bars[..k + 1]), fast, slow, size);
    }
  }

  /** Through closes that never rise, zero is. */
  lemma NeverRisingTargetsZero(asset: string, fast: nat, slow: nat, size: real, bars: seq<Bar>,
                               asked: seq<seq<Intent>>, failure: Option<Failure>)
    requires 1 <= fast < slow && Run(asset, fast, slow, size, bars, asked, failure)
    requires forall i, j | 0 <= i < j < |bars| :: bars[j].close <= bars[i].close
    ensures |asked| == |bars|
    ensures forall k | slow - 1 <= k < |bars| ::
              asked[k] == [Intent("EX02-MA-CROSS", asset, 0.0, 1.0, bars[k].timestamp, TargetQuantity)]
  {
    SilentUntilFullExactly(asset, fast, slow, size, bars, asked, failure);
    forall k | slow - 1 <= k < |bars| ensures asked[k] == [Hold(asset, 0.0, bars[k].timestamp)] {
      NeverRisingSignalsZero(Closes(bars[..k + 1]), fast, slow, size);
    }
  }

  /** The same bars quoted in another unit, `scale` to one of the old. */
  function RequotedBars(bars: seq<Bar>, scale: real): (quoted: seq<Bar>)
    ensures |quoted| == |bars|
  {
    seq(|bars|, i requires 0 <= i < |bars| => bars[i].(close := scale * bars[i].close))
  }

  lemma RequotingKeepsWhatIsAsked(asset: string, fast: nat, slow: nat, size: real, bars: seq<Bar>, scale: real, k: nat)
    requires scale > 0.0 && k < |bars|
    ensures AskedAt(asset, fast, slow, size, RequotedBars(bars, scale), k) == AskedAt(asset, fast, slow, size, bars, k)
  {
    var closes := Closes(bars[..k + 1]);
    var quoted := Closes(RequotedBars(bars, scale)[..k + 1]);
    RequotedAt(closes, scale);
    forall i | 0 <= i <= k ensures quoted[i] == Requoted(closes, scale)[i] {
      assert quoted[i] == scale * bars[i].close == scale * closes[i];
    }
    SameElements(quoted, Requoted(closes, scale));
    RequotingKeepsTheSignal(closes, scale, fast, slow, size);
  }

  /** A run over them asks, bar by bar, for exactly the same, and fails or not alike. */
  lemma RequotingChangesNothing(asset: string, fast: nat, slow: nat, size: real, bars: seq<Bar>, scale: real,
                                asked: seq<seq<Intent>>, failure: Option<Failure>)
    requires scale > 0.0
    ensures Run(asset, fast, slow, size, RequotedBars(bars, scale), asked, failure)
       <==> Run(asset, fast, slow, size, bars, asked, failure)
  {
    forall k: nat | k < |bars|
      ensures AskedAt(asset, fast, slow, size, RequotedBars(bars, scale), k)
           == AskedAt(asset, fast, slow, size, bars, k)
    {
      RequotingKeepsWhatIsAsked(asset, fast, slow, size, bars, scale, k);
    }
  }
}
