/**
 Canonical datasets and the ordered market streams a run reads from them: one
 dataset alone, or several merged into one stream with one derived identity.
 */
module Datasets {
  import opened Outcomes
  import opened Ordering
  import opened Text

  datatype Kind = Bar | Quote | Tick

  /** A canonical market input. `values` are its prices and sizes, which nothing here reads. */
  datatype MarketInput = MarketInput(kind: Kind, assetId: string, timestamp: real, values: seq<real>)

  datatype WireRecord =
    | WireBar(symbol: string, timestamp: real, values: seq<real>)
    | WireQuote(symbol: string, timestamp: real, values: seq<real>)
    | WireTrade(symbol: string, timestamp: real, values: seq<real>)
    | WireOther(symbol: string, timestamp: real, values: seq<real>)

  datatype Refusal =
    | NoProvenance
    | TooFewParts
    | GivenTwice(version: string)
    | NotAMarketRecord
    | Malformed
    | Conflict(first: string, second: string)
    | NoDatasetId
    | EmptyDataset
    | OutOfOrder
    | DuplicateRecordId
    | WrongTimestamp

  /** How one source's wire records become canonical inputs; each lift may refuse a record. */
  datatype Policy = Policy(
    bar: WireRecord -> Result<MarketInput, Refusal>,
    quote: WireRecord -> Result<MarketInput, Refusal>,
    trade: WireRecord -> Result<MarketInput, Refusal>)

  datatype PriceBasis = Raw | SplitAdjusted | TotalReturn

  datatype Recorded = Provenance(version: string, contentHash: string, byteCount: nat, basis: PriceBasis)

  /** A provenance is refused at construction if its version is blank. */
  type Provenance = p: Recorded | !Blank(p.version) witness Labelled("v")

  function Labelled(version: string): (r: Recorded)
    requires version != "" && !IsSpace(version[0])
    ensures !Blank(r.version) && r.version == version
  {
    assert version[0] in version;
    Provenance(version, "", 0, Raw)
  }

  datatype Dataset = Dataset(records: seq<WireRecord>, provenance: Option<Provenance>)

  datatype Part = Part(dataset: Dataset, policy: Policy)

  // ------------------------------------------------------------ normalization

  function Lift(record: WireRecord, policy: Policy): Result<MarketInput, Refusal> {
    match record
    case WireBar(_, _, _) => policy.bar(record)
    case WireQuote(_, _, _) => policy.quote(record)
    case WireTrade(_, _, _) => policy.trade(record)
    case WireOther(_, _, _) => Err(NotAMarketRecord)
  }

  ghost predicate Normalizes(part: Part) {
    forall i | 0 <= i < |part.dataset.records| :: Lift(part.dataset.records[i], part.policy).Ok?
  }

  /** What a part's records become, in their own order. */
  ghost function Inputs(part: Part): (items: seq<MarketInput>)
    requires Normalizes(part)
    ensures |items| == |part.dataset.records|
  {
    seq(|part.dataset.records|, i requires 0 <= i < |part.dataset.records| =>
      Lift(part.dataset.records[i], part.policy).value)
  }

  /** The refusal of the part's first record that does not lift. */
  ghost predicate RefusesWith(part: Part, refusal: Refusal) {
    exists i ::
      && 0 <= i < |part.dataset.records|
      && (forall j | 0 <= j < i :: Lift(part.dataset.records[j], part.policy).Ok?)
      && Lift(part.dataset.records[i], part.policy) == Err(refusal)
  }

  /** What lifting a record comes to: a bar, a quote and a trade each by its own lift, anything else refused. */
  ghost predicate ComesTo(record: WireRecord, policy: Policy, item: Result<MarketInput, Refusal>) {
    && (record.WireBar? ==> item == policy.bar(record))
    && (record.WireQuote? ==> item == policy.quote(record))
    && (record.WireTrade? ==> item == policy.trade(record))
    && (record.WireOther? ==> item == Err(NotAMarketRecord))
  }

  /** Lifts every record, or refuses with the first refusal. */
  method NormalizeRecords(part: Part) returns (r: Result<seq<MarketInput>, Refusal>)
    ensures r.Ok? <==> Normalizes(part)
    ensures r.Ok? ==> r.value == Inputs(part)
    ensures r.Ok? ==> forall i | 0 <= i < |r.value| :: ComesTo(part.dataset.records[i], part.policy, Ok(r.value[i]))
    ensures r.Err? ==> RefusesWith(part, r.error)
    ensures r.Err? ==> exists i ::
              && 0 <= i < |part.dataset.records|
              && ComesTo(part.dataset.records[i], part.policy, Err(r.error))
  {
    var records := part.dataset.records;
    var lifted: seq<MarketInput> := [];
    for i := 0 to |records|
      invariant |lifted| == i
      invariant forall j | 0 <= j < i :: Lift(records[j], part.policy) == Ok(lifted[j])
    {
      var item := Lift(records[i], part.policy);
      if item.Err? {
        return Err(item.error);
      }
      lifted := lifted + [item.value];
    }
    return Ok(lifted);
  }

  // ------------------------------------------------------ the validated stream

  datatype MarketRecord = MarketRecord(eventId: string, timestamp: real, payload: MarketInput)

  datatype MarketDataset = MarketDataset(id: string, records: seq<MarketRecord>)

  /** What a run is promised of any dataset it is handed. */
  ghost predicate ValidStream(d: MarketDataset) { d.id != "" && d.records != [] && ValidRecords(d.records) }

  ghost predicate ValidRecords(records: seq<MarketRecord>) {
    && (forall i, j | 0 <= i < j < |records| :: records[i].timestamp <= records[j].timestamp)
    && (forall i, j | 0 <= i < j < |records| :: records[i].eventId != records[j].eventId)
    && (forall i | 0 <= i < |records| :: records[i].timestamp == records[i].payload.timestamp)
  }

  /** Record `k` follows valid ones, and is refused: out of order, else a repeated identity, else another timestamp. */
  ghost predicate RefusedAt(records: seq<MarketRecord>, k: nat, refusal: Refusal) {
    && k < |records| && ValidRecords(records[..k])
    && var record := records[k];
       if k > 0 && record.timestamp < records[k - 1].timestamp then refusal == OutOfOrder
       else if exists j :: 0 <= j < k && records[j].eventId == record.eventId then refusal == DuplicateRecordId
       else record.timestamp != record.payload.timestamp && refusal == WrongTimestamp
  }

  /** One pass with the ids seen and the previous timestamp decides exactly `ValidStream`. */
  method ValidateDataset(d: MarketDataset) returns (r: Option<Refusal>)
    ensures r == None <==> ValidStream(d)
    ensures r.Some? ==> if d.id == "" then r.value == NoDatasetId
                        else if d.records == [] then r.value == EmptyDataset
                        else exists k :: RefusedAt(d.records, k, r.value)
  {
    if d.id == "" {
      return Some(NoDatasetId);
    }
    if d.records == [] {
      return Some(EmptyDataset);
    }
    var seen: set<string> := {};
    var previous: Option<real> := None;
    for k := 0 to |d.records|
      invariant seen == set i | 0 <= i < k :: d.records[i].eventId
      invariant k == 0 <==> previous == None
      invariant k > 0 ==> previous.value == d.records[k - 1].timestamp
      invariant ValidRecords(d.records[..k])
    {
      var record := d.records[k];
      ValidStep(d.records, k);
      if previous.Some? && record.timestamp < previous.value {
        assert RefusedAt(d.records, k, OutOfOrder);
        return Some(OutOfOrder);
      }
      if record.eventId in seen {
        assert RefusedAt(d.records, k, DuplicateRecordId);
        return Some(DuplicateRecordId);
      }
      if record.timestamp != record.payload.timestamp {
        assert RefusedAt(d.records, k, WrongTimestamp);
        return Some(WrongTimestamp);
      }
      seen := seen + {record.eventId};
      previous := Some(record.timestamp);
    }
    TakeAll(d.records);
    return None;
  }

  lemma ValidStep(records: seq<MarketRecord>, k: nat)
    requires k < |records| && ValidRecords(records[..k])
    ensures ValidRecords(records[..k + 1]) <==>
              && (k > 0 ==> records[k - 1].timestamp <= records[k].timestamp)
              && (forall j | 0 <= j < k :: records[j].eventId != records[k].eventId)
              && records[k].timestamp == records[k].payload.timestamp
    ensures !ValidRecords(records[..k + 1]) ==> !ValidRecords(records)
  {
    var before, through := records[..k], records[..k + 1];
    assert forall j | 0 <= j < k :: before[j] == through[j];
    if ValidRecords(through) {
      assert forall j | 0 <= j < k :: through[j].eventId != through[k].eventId;
    }
  }

  /** Wide enough for the last position. */
  function WidthFor(count: nat): nat { |Numeral(if count == 0 then 0 else count - 1)| }

  /** `eventId` is the stream's name, a dash, and `position` in exactly `width` digits. */
  ghost predicate Identifies(eventId: string, id: string, position: nat, width: nat) {
    && |eventId| == |id| + 1 + width && eventId[..|id|] == id && eventId[|id|] == '-'
    && (forall c | c in eventId[|id| + 1..] :: IsDigit(c)) && Value(eventId[|id| + 1..]) == position
  }

  function EventId(id: string, position: nat, count: nat): string { id + "-" + Padded(position, WidthFor(count)) }

  lemma EventIdsIdentify(id: string, count: nat)
    ensures forall i | 0 <= i < count :: Identifies(EventId(id, i, count), id, i, WidthFor(count))
  {
    forall i | 0 <= i < count ensures Identifies(EventId(id, i, count), id, i, WidthFor(count)) {
      PaddedIsPosition(i, count);
      DigitsIdentify(id, Padded(i, WidthFor(count)), i, WidthFor(count));
    }
  }

  lemma PaddedIsPosition(i: nat, count: nat)
    requires i < count
    ensures var digits := Padded(i, WidthFor(count));
            (forall c | c in digits :: IsDigit(c)) && Value(digits) == i && |digits| == WidthFor(count)
  {
    PaddedReads(i, WidthFor(count));
    PaddedWidth(i, count - 1);
  }

  lemma DigitsIdentify(id: string, digits: string, position: nat, width: nat)
    requires (forall c | c in digits :: IsDigit(c)) && Value(digits) == position && |digits| == width
    ensures Identifies(id + "-" + digits, id, position, width)
  {
    AfterDash(id, digits);
  }

  lemma AfterDash(id: string, rest: string)
    ensures var whole := id + "-" + rest;
            |whole| == |id| + 1 + |rest| && whole[..|id|] == id && whole[|id|] == '-' && whole[|id| + 1..] == rest
  {
  }

  /** Each input with its fixed-width position as identity. */
  function RecordsFromInputs(id: string, inputs: seq<MarketInput>): (records: seq<MarketRecord>)
    ensures |records| == |inputs|
    ensures forall i | 0 <= i < |inputs| ::
              && records[i].payload == inputs[i] && records[i].timestamp == inputs[i].timestamp
              && Identifies(records[i].eventId, id, i, WidthFor(|inputs|))
  {
    EventIdsIdentify(id, |inputs|);
    seq(|inputs|, i requires 0 <= i < |inputs| =>
      MarketRecord(EventId(id, i, |inputs|), inputs[i].timestamp, inputs[i]))
  }

  predicate ByTime(a: MarketInput, b: MarketInput) { a.timestamp <= b.timestamp }

  /** `MarketDataset.of`: assigning identities and validating what results. */
  method MarketDatasetOf(id: string, inputs: seq<MarketInput>) returns (r: Result<MarketDataset, Refusal>)
    ensures r.Ok? <==> id != "" && inputs != [] && SortedBy(ByTime, inputs)
    ensures r.Ok? ==> r.value == MarketDataset(id, RecordsFromInputs(id, inputs)) && ValidStream(r.value)
    ensures r.Err? ==> r.error == if id == "" then NoDatasetId else if inputs == [] then EmptyDataset else OutOfOrder
  {
    var d := MarketDataset(id, RecordsFromInputs(id, inputs));
    ValidExactly(id, inputs);
    var refusal := ValidateDataset(d);
    if id != "" && inputs != [] && refusal.Some? {
      OnlyOrderRefuses(id, inputs, refusal.value);
    }
    r := if refusal.Some? then Err(refusal.value) else Ok(d);
  }

  /** Records given their identities can only be refused for their order. */
  lemma OnlyOrderRefuses(id: string, inputs: seq<MarketInput>, refusal: Refusal)
    requires exists k :: RefusedAt(RecordsFromInputs(id, inputs), k, refusal)
    ensures refusal == OutOfOrder
  {
    RecordIdsDistinct(id, inputs);
  }

  lemma ValidExactly(id: string, inputs: seq<MarketInput>)
    ensures ValidStream(MarketDataset(id, RecordsFromInputs(id, inputs)))
       <==> id != "" && inputs != [] && SortedBy(ByTime, inputs)
  {
    RecordIdsDistinct(id, inputs);
    TimesInOrder(RecordsFromInputs(id, inputs), inputs);
  }

  lemma TimesInOrder(records: seq<MarketRecord>, inputs: seq<MarketInput>)
    requires |records| == |inputs| && forall i | 0 <= i < |inputs| :: records[i].timestamp == inputs[i].timestamp
    ensures SortedBy(ByTime, inputs) <==>
            forall i, j | 0 <= i < j < |records| :: records[i].timestamp <= records[j].timestamp
  {
    if SortedBy(ByTime, inputs) {
      forall i, j | 0 <= i < j < |records| ensures records[i].timestamp <= records[j].timestamp {
        assert ByTime(inputs[i], inputs[j]);
      }
    }
  }

  /** The identities a stream assigns never collide, whatever its length. */
  lemma RecordIdsDistinct(id: string, inputs: seq<MarketInput>)
    ensures var records := RecordsFromInputs(id, inputs);
            forall i, j | 0 <= i < j < |records| :: records[i].eventId != records[j].eventId
  {
    var records := RecordsFromInputs(id, inputs);
    forall i, j | 0 <= i < j < |records| ensures records[i].eventId != records[j].eventId {
      assert Identifies(records[i].eventId, id, i, WidthFor(|inputs|));
      assert Identifies(records[j].eventId, id, j, WidthFor(|inputs|));
    }
  }

  lemma OrdersAreTotal()
    ensures TotalPreorder(ByTime) && TotalPreorder(EntryByTime) && TotalPreorder(ByPosition)
  {
  }

  /** One dataset's stream: its own version, its own records in timestamp order. */
  method ToMarketDataset(part: Part) returns (r: Result<MarketDataset, Refusal>)
    ensures r.Ok? <==> part.dataset.provenance.Some? && Normalizes(part) && part.dataset.records != []
    ensures r.Ok? ==> r.value.id == part.dataset.provenance.value.version
                      && ValidStream(r.value)
                      && Payloads(r.value) == Sort(ByTime, Inputs(part))
    ensures r.Err? ==> if part.dataset.provenance.None? then r.error == NoProvenance
                       else if Normalizes(part) then r.error == EmptyDataset else RefusesWith(part, r.error)
  {
    if part.dataset.provenance.None? {
      return Err(NoProvenance);
    }
    var items := NormalizeRecords(part);
    if items.Err? {
      return Err(items.error);
    }
    OrdersAreTotal();
    SortSorts(ByTime, items.value);
    SortPermutes(ByTime, items.value);
    r := MarketDatasetOf(part.dataset.provenance.value.version, Sort(ByTime, items.value));
  }

  ghost function Payloads(d: MarketDataset): seq<MarketInput> {
    seq(|d.records|, i requires 0 <= i < |d.records| => d.records[i].payload)
  }

  // ------------------------------------------------------- the combined stream

  /** One input with the instant, part and position it is ordered by. */
  datatype Entry = Entry(timestamp: real, part: nat, index: nat, item: MarketInput)

  predicate ByPosition(a: Entry, b: Entry) {
    a.timestamp < b.timestamp
    || (a.timestamp == b.timestamp && (a.part < b.part || (a.part == b.part && a.index <= b.index)))
  }

  predicate EntryByTime(a: Entry, b: Entry) { a.timestamp <= b.timestamp }

  function ItemOf(e: Entry): MarketInput { e.item }

  function InPart(p: nat): Entry -> bool { (e: Entry) => e.part == p }

  ghost predicate AllVersioned(parts: seq<Part>) {
    forall p | 0 <= p < |parts| :: parts[p].dataset.provenance.Some?
  }

  ghost predicate AllNormalize(parts: seq<Part>) {
    forall p | 0 <= p < |parts| :: Normalizes(parts[p])
  }

  ghost function AllInputs(parts: seq<Part>): (r: seq<seq<MarketInput>>)
    requires AllNormalize(parts)
    ensures |r| == |parts|
  {
    seq(|parts|, p requires 0 <= p < |parts| => Inputs(parts[p]))
  }

  function KeyedPart(items: seq<MarketInput>, part: nat): (r: seq<Entry>)
    ensures |r| == |items|
  {
    seq(|items|, i requires 0 <= i < |items| => Entry(items[i].timestamp, part, i, items[i]))
  }

  /** Every part's entries, one part after the other. */
  function Keyed(inputs: seq<seq<MarketInput>>): seq<Entry> {
    if inputs == [] then []
    else Keyed(inputs[..|inputs| - 1]) + KeyedPart(inputs[|inputs| - 1], |inputs| - 1)
  }

  /** The parts' inputs laid end to end, in the order the parts were given. */
  function Concatenation(inputs: seq<seq<MarketInput>>): seq<MarketInput> {
    if inputs == [] then []
    else Concatenation(inputs[..|inputs| - 1]) + inputs[|inputs| - 1]
  }

  /** The entries in the order the merged stream reads them. */
  function Merged(inputs: seq<seq<MarketInput>>): seq<Entry> { Sort(ByPosition, Keyed(inputs)) }

  ghost predicate InInsertionOrder(s: seq<Entry>) {
    forall i, j | 0 <= i < j < |s| ::
      s[i].part < s[j].part || (s[i].part == s[j].part && s[i].index < s[j].index)
  }

  /** An entry says where its item stands among the parts. */
  ghost predicate Placed(inputs: seq<seq<MarketInput>>, e: Entry) {
    e.part < |inputs| && e.index < |inputs[e.part]| && e.item == inputs[e.part][e.index]
    && e.timestamp == e.item.timestamp
  }

  lemma {:induction false} KeyedPlaced(inputs: seq<seq<MarketInput>>)
    ensures forall e | e in Keyed(inputs) :: Placed(inputs, e)
  {
    if inputs == [] {
    } else {
      var n := |inputs| - 1;
      KeyedPlaced(inputs[..n]);
      forall e | e in Keyed(inputs) ensures Placed(inputs, e) {
        if e in Keyed(inputs[..n]) {
          assert Placed(inputs[..n], e);
        } else {
          assert e in KeyedPart(inputs[n], n);
        }
      }
    }
  }

  lemma {:induction false} KeyedInOrder(inputs: seq<seq<MarketInput>>)
    ensures InInsertionOrder(Keyed(inputs))
  {
    if inputs == [] {
    } else {
      var n := |inputs| - 1;
      KeyedInOrder(inputs[..n]);
      KeyedPlaced(inputs[..n]);
      var front, last := Keyed(inputs[..n]), KeyedPart(inputs[n], n);
      assert forall i | 0 <= i < |front| :: front[i] in front && Placed(inputs[..n], front[i]);
    }
  }

  lemma {:induction false} KeyedItems(inputs: seq<seq<MarketInput>>)
    ensures Map(ItemOf, Keyed(inputs)) == Concatenation(inputs)
  {
    if inputs == [] {
    } else {
      var n := |inputs| - 1;
      KeyedItems(inputs[..n]);
      MapConcat(ItemOf, Keyed(inputs[..n]), KeyedPart(inputs[n], n));
      assert Map(ItemOf, KeyedPart(inputs[n], n)) == inputs[n];
    }
  }

  lemma {:induction false} KeyedHolds(inputs: seq<seq<MarketInput>>, p: nat, i: nat)
    requires p < |inputs| && i < |inputs[p]|
    ensures Entry(inputs[p][i].timestamp, p, i, inputs[p][i]) in Keyed(inputs)
  {
    var n := |inputs| - 1;
    if p == n {
      assert KeyedPart(inputs[n], n)[i] in KeyedPart(inputs[n], n);
    } else {
      KeyedHolds(inputs[..n], p, i);
    }
  }

  lemma {:induction false} KeyedOfPart(inputs: seq<seq<MarketInput>>, p: nat)
    requires p < |inputs|
    ensures Filter(InPart(p), Keyed(inputs)) == KeyedPart(inputs[p], p)
  {
    var n := |inputs| - 1;
    var front, last := Keyed(inputs[..n]), KeyedPart(inputs[n], n);
    FilterConcat(InPart(p), front, last);
    KeyedPlaced(inputs[..n]);
    if p == n {
      FilterNone(InPart(p), front);
      FilterAll(InPart(p), last);
    } else {
      KeyedOfPart(inputs[..n], p);
      FilterNone(InPart(p), last);
    }
  }

  /**
   The merged order is a permutation of every entry, and the only one sorted by
   (timestamp, part, position): nothing about the host can change it.
   */
  lemma MergedIsTheOnlyOrder(inputs: seq<seq<MarketInput>>, other: seq<Entry>)
    ensures multiset(Merged(inputs)) == multiset(Keyed(inputs)) && SortedBy(ByPosition, Merged(inputs))
    ensures multiset(other) == multiset(Keyed(inputs)) && SortedBy(ByPosition, other) ==> other == Merged(inputs)
  {
    OrdersAreTotal();
    KeyedPlaced(inputs);
    SortPermutes(ByPosition, Keyed(inputs));
    SortSorts(ByPosition, Keyed(inputs));
    if multiset(other) == multiset(Keyed(inputs)) && SortedBy(ByPosition, other) {
      SortedUnique(ByPosition, Merged(inputs), other);
    }
  }

  /** Merging by (timestamp, part, position) is stably sorting the concatenated parts by timestamp. */
  lemma MergedIsStableSort(inputs: seq<seq<MarketInput>>)
    ensures Map(ItemOf, Merged(inputs)) == Sort(ByTime, Concatenation(inputs))
  {
    var keyed := Keyed(inputs);
    KeyedInOrder(inputs);
    KeyedPlaced(inputs);
    KeyedItems(inputs);
    SortAgree(EntryByTime, ByPosition, keyed);
    MapSort(EntryByTime, ByTime, ItemOf, keyed);
  }

  /** Reading one part out of the merged stream gives that part's own stream, for every part. */
  lemma MergedProjectsToEachPart(inputs: seq<seq<MarketInput>>, p: nat)
    requires p < |inputs|
    ensures Map(ItemOf, Filter(InPart(p), Merged(inputs))) == Sort(ByTime, inputs[p])
  {
    var own := KeyedPart(inputs[p], p);
    OrdersAreTotal();
    FilterSort(ByPosition, InPart(p), Keyed(inputs));
    KeyedOfPart(inputs, p);
    SortAgree(EntryByTime, ByPosition, own);
    MapSort(EntryByTime, ByTime, ItemOf, own);
    assert Map(ItemOf, own) == inputs[p];
  }
}
