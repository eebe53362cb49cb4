/** What strategies exchange with a run: bars in, intents out. */
module Strategies {

  datatype IntentKind = TargetQuantity | TargetWeight | Delta

  /** What a strategy asks for. `target` is what `kind` says, and `strength` scales it. */
  datatype Intent = Intent(strategyId: string, instrument: string, target: real, strength: real, timestamp: real,
                           kind: IntentKind)

  const FULL_STRENGTH: real := 1.0

  datatype Bar = Bar(assetId: string, close: real, timestamp: real)

  /** The last target stated for each instrument, once every intent has been obeyed. */
  function Targets(intents: seq<Intent>): map<string, real> {
    if intents == [] then map[]
    else
      var last := intents[|intents| - 1];
      Targets(intents[..|intents| - 1])[last.instrument := last.target]
  }
}
