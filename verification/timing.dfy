/** The interleaved minimum timer, and the collector it pauses. */
module StableTiming {
  import opened Outcomes

  /** `math.inf`, or a measured time. */
  datatype Time = Infinite | Seconds(s: real)

  predicate NoLater(a: Time, b: Time) { b.Infinite? || (a.Seconds? && a.s <= b.s) }

  function Min(a: Time, b: Time): (m: Time)
    ensures NoLater(m, a) && NoLater(m, b) && (m == a || m == b)
  {
    if NoLater(a, b) then a else b
  }

  /** The cyclic collector's switch. */
  class Collector {
    var enabled: bool

    constructor (enabled: bool)
      ensures this.enabled == enabled
    {
      this.enabled := enabled;
    }
  }

  /**
   What calling a workload does: takes some time or raises, and leaves the collector as it
   found it or set one way or the other.
   */
  datatype Call = Call(time: Option<real>, collector: Option<bool>)

  /** Call number `k`, of the workload it falls to in round-robin order. */
  type Script = nat -> Call

  function Elapsed(script: Script, k: nat): Time {
    if script(k).time.Some? then Seconds(script(k).time.value) else Infinite
  }

  /** The collector's switch after the first `calls` calls of a run that paused it. */
  function SwitchAfter(script: Script, calls: nat): bool {
    if calls == 0 then false
    else if script(calls - 1).collector.Some? then script(calls - 1).collector.value
    else SwitchAfter(script, calls - 1)
  }

  /** The least time of workload `index`, one of `width`, over its first `rounds` samples. */
  function Fastest(script: Script, width: nat, index: nat, rounds: nat): Time {
    if rounds == 0 then Infinite
    else Min(Fastest(script, width, index, rounds - 1), Elapsed(script, (rounds - 1) * width + index))
  }

  /** It is a time the workload took, and none of its samples was quicker. */
  lemma {:induction false} FastestIsLeast(script: Script, width: nat, index: nat, rounds: nat)
    ensures forall r | 0 <= r < rounds ::
              NoLater(Fastest(script, width, index, rounds), Elapsed(script, r * width + index))
    ensures rounds > 0 ==> exists r ::
              0 <= r < rounds && Fastest(script, width, index, rounds) == Elapsed(script, r * width + index)
  {
    if rounds > 0 {
      FastestIsLeast(script, width, index, rounds - 1);
      if rounds == 1 {
        assert Fastest(script, width, index, 1) == Elapsed(script, 0 * width + index);
      }
    }
  }

  ghost predicate Completes(script: Script, calls: nat) {
    forall k | 0 <= k < calls :: script(k).time.Some?
  }

  /** The first call that raises, if any of the first `calls` does. */
  ghost predicate RaisesAt(script: Script, calls: nat, k: nat) {
    k < calls && script(k).time.None? && Completes(script, k)
  }

  /**
   Samples every workload `samples` times in round-robin order, keeping each one's least
   time in place. `order` is the workload each call went to. A workload that raises ends the
   measurement, and the collector is put back on the way out whichever way that is.
   */
  method MeasureFastest(gc: Collector, width: nat, samples: nat, script: Script)
    returns (best: array<Time>, raised: bool, order: seq<nat>)
    modifies gc
    ensures fresh(best) && best.Length == width
    ensures |order| <= samples * width && forall k | 0 <= k < |order| :: order[k] == k % width
    ensures raised <==> !Completes(script, samples * width)
    ensures raised ==> |order| > 0 && RaisesAt(script, samples * width, |order| - 1)
    ensures !raised ==> |order| == samples * width
                        && forall i | 0 <= i < width :: best[i] == Fastest(script, width, i, samples)
    ensures gc.enabled == (old(gc.enabled) || SwitchAfter(script, |order|))
  {
    best := new Time[width](_ => Infinite);
    var wasEnabled := gc.enabled;
    gc.enabled := false;
    order, raised := [], false;
    var round := 0;
    while round < samples && !raised
      invariant 0 <= round <= samples
      invariant Sampled(script, width, samples, raised, order)
      invariant gc.enabled == SwitchAfter(script, |order|)
      invariant !raised ==> |order| == round * width
      invariant !raised ==> forall i | 0 <= i < width :: best[i] == Fastest(script, width, i, round)
      decreases samples - round, !raised
    {
      raised, order := SampleRound(gc, best, width, samples, script, round, order);
      round := round + 1;
      assert (round - 1) * width + width == round * width;
    }
    if wasEnabled {
      gc.enabled := true;
    }
  }

  /** The calls made so far: in round-robin order, ending at the first that raised. */
  ghost predicate Sampled(script: Script, width: nat, samples: nat, raised: bool, order: seq<nat>) {
    && |order| <= samples * width
    && (width > 0 ==> forall k | 0 <= k < |order| :: order[k] == k % width)
    && (if raised then |order| > 0 && RaisesAt(script, samples * width, |order| - 1) else Completes(script, |order|))
  }

  /** The inner loop: each workload sampled once. */
  method SampleRound(gc: Collector, best: array<Time>, width: nat, samples: nat, script: Script, round: nat,
                     before: seq<nat>)
    returns (raised: bool, order: seq<nat>)
    requires best.Length == width && round < samples && |before| == round * width
    requires Sampled(script, width, samples, false, before)
    requires gc.enabled == SwitchAfter(script, |before|)
    requires forall i | 0 <= i < width :: best[i] == Fastest(script, width, i, round)
    modifies gc, best
    ensures Sampled(script, width, samples, raised, order)
    ensures gc.enabled == SwitchAfter(script, |order|)
    ensures !raised ==> |order| == round * width + width
                        && forall i | 0 <= i < width :: best[i] == Fastest(script, width, i, round + 1)
  {
    order := before;
    for index := 0 to width
      invariant |order| == round * width + index
      invariant Sampled(script, width, samples, false, order)
      invariant gc.enabled == SwitchAfter(script, |order|)
      invariant forall i | 0 <= i < width ::
                  best[i] == Fastest(script, width, i, if i < index then round + 1 else round)
    {
      RoundRobin(round, width, samples, index);
      var call := script(|order|);
      order := order + [index];
      if call.collector.Some? {
        gc.enabled := call.collector.value;
      }
      if call.time.None? {
        return true, order;
      }
      best[index] := Min(best[index], Seconds(call.time.value));
    }
    raised := false;
  }

  /** Where a round's calls fall: within the run, and on the workloads in turn. */
  lemma RoundRobin(round: nat, width: nat, samples: nat, index: nat)
    requires round < samples && index < width
    ensures round * width + index < samples * width
    ensures (round * width + index) % width == index
  {
    assert round * width + width <= samples * width by {
      Grows(round + 1, samples, width);
      assert (round + 1) * width == round * width + width;
    }
    Wraps(round, width, index);
  }

  lemma Grows(a: nat, b: nat, width: nat)
    requires a <= b
    ensures a * width <= b * width
  {
  }

  /** A number has one quotient and one remainder. */
  lemma Wraps(round: nat, width: nat, index: nat)
    requires index < width
    ensures (round * width + index) % width == index
  {
    var k := round * width + index;
    var q, r := k / width, k % width;
    assert k == q * width + r;
    assert (q + 1) * width == q * width + width;
    assert (round + 1) * width == round * width + width;
    if q < round {
      Grows(q + 1, round, width);
    } else if q > round {
      Grows(round + 1, q, width);
    }
  }

  /**
   The collector is left as it was found, whatever runs and wherever it stops, exactly when
   it was on at the start or the last workload to touch it left it off.
   */
  lemma {:induction false} RestoredExactly(script: Script, calls: nat, wasEnabled: bool)
    ensures (wasEnabled || SwitchAfter(script, calls)) == wasEnabled
       <==> wasEnabled || forall k | 0 <= k < calls && script(k).collector == Some(true) ::
              exists j :: k < j < calls && script(j).collector == Some(false)
  {
    SwitchIsLastTouch(script, calls);
  }

  lemma {:induction false} SwitchIsLastTouch(script: Script, calls: nat)
    ensures !SwitchAfter(script, calls) <==> forall k | 0 <= k < calls && script(k).collector == Some(true) ::
              exists j :: k < j < calls && script(j).collector == Some(false)
  {
    if calls > 0 {
      SwitchIsLastTouch(script, calls - 1);
    }
  }

  /** One workload, which turns the collector on. */
  function TurnsItOn(): Script { (k: nat) => Call(Some(1.0), Some(true)) }

  /** A collector that was off, timed with it, is left on. */
  lemma OffComesBackOn()
    ensures SwitchAfter(TurnsItOn(), 1) && Completes(TurnsItOn(), 1)
  {
  }
}
