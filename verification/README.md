# AlphaLab: a verified model of its data joins, point-in-time readings, studies and allocation

AlphaLab joins datasets, releases and rows into things research and execution can read, and
promises that the joins lose nothing, see nothing early and come out the same on every host.
This project models that code in Dafny and proves those promises, for all inputs and all runs.

`dafny verify dfyconfig.toml` checks everything.

| file | what it models |
|---|---|
| `datasets.dfy`, `combination.dfy`, `lines.dfy` | wire records lifted into one ordered stream; several datasets merged into one stream with one derived identity, and the conflict that refuses it; the ways a joined text divides |
| `persistentmap.dfy`, `dictionaries.dfy` | the map whose every version stays readable: views over one shared append-only store, branches and rebases; Python's `dict` |
| `pointintime.dfy`, `readings.dfy`, `observationsets.dfy` | availability stamps, the bisected index, which vintage is read at an instant, the precomputed timeline, and the checks an observation set makes of itself |
| `releases.dfy`, `vintages.dfy` | a macro indicator's releases grouped, ordered, checked and numbered into such a set, and what that lifting preserves |
| `rowingestion.dfy` | rows read into a set, each becoming a record or a rejection |
| `selection.dfy`, `studies.dfy`, `studyruns.dfy` | narrowing a dataset, the cached panels, the flat metric keys, and a whole study |
| `contributions.dfy`, `allocation.dfy`, `splitting.dfy` | intents sized, netted and attributed to strategies; an amount divided back among them |
| `rotation.dfy`, `alternating.dfy`, `macross.dfy`, `holdthebook.dfy` | the example strategies as state machines, over whole runs |
| `covariance.dfy`, `timing.dfy` | the benchmarks' factor covariance and interleaved minimum timer |
| `ordering.dfy`, `text.dfy`, `outcomes.dfy`, `strategies.dfy` | stable sorting and filtering, string order and numerals, results, intents and bars |

Code that loops over lists and dictionaries is a method with that loop, proved against a
function of its inputs; objects that update their fields are classes; comprehensions and
expressions are functions. What the source promises is then proved about the functions.

## Where the code keeps less than it says

Six promises of the documentation, or natural readings of it, fail on some inputs. Each is
proved where it holds and shown to fail where it does not:

* `ObservationView.latest_timeline` documents itself as how `latest_in_series`' answer changes.
  The two part when a figure's later revision carries an earlier observation instant and no
  newer record hides it: the timeline keeps the old vintage. `Readings.TimelineAgreesExactly`
  gives the exact condition, `Readings.TimelineCanDisagree` a two-record set.
* `_check_vintages` says a revision cannot be published ahead of the figure it revises, and
  compares neighbouring revisions. A revision of unknown availability between two dated ones
  hides their order: `ObservationSets.UndatedRevisionHidesTheOrder`. The promise holds, whatever
  the instants, exactly where no such revision stands (`ObservationSets.ChecksRevisionsExactly`).
* A study's features must differ in version, not in id, and the flat metric mapping is keyed by
  id. Two versions of one feature id overwrite each other's metrics:
  `StudyRuns.NothingIsLostExactly`.
* Two selections in sequence are one selection, unless their symbol sets are both non-empty and
  disjoint, when the intersection reads as "every symbol" (and some instant is in the combined
  window): `Selection.SelectionsComposeExactly`.
* The timer says the collector is restored as it was. A collector that was off is not turned off
  again if a workload turned it on: `StableTiming.RestoredExactly`.
* The text hashed into a combined version joins the parts' versions by newlines. Whatever the
  versions hold, two combinations hash one text exactly when their versions come to the same
  lines in the same order (`Combination.HashInputsAgreeExactly`). Among versions of the derived
  shape `name@digest` the text always names the parts, newlines in the names included
  (`Combination.DerivedHashInputNamesTheParts`). No other combination of newline-free versions
  has a combination's text exactly when its own are newline-free, or when one of its lines is
  blank and so is no version at all (`Combination.OnlyPlainPartsExactly`). Among all accepted
  combinations one is the only one with its text exactly when all its lines are blank but two
  neighbours, or they are one blank line and one other, twice
  (`Combination.HashInputNamesTheParts`). `Combination.NewlinesCanHideABoundary` gives two
  accepted combinations with one version.

## Model

| member | source | states |
|---|---|---|
| Datasets.NormalizeRecords | alphalab/api.py:392-425 | Succeeds exactly when every record lifts, a bar, a quote and a trade each by its own lift; the lifts in record order, or the first record's refusal |
| Datasets.ValidateDataset | alphalab/backtesting/dataset.py:77-101 | One pass with a seen set and the previous timestamp accepts exactly the streams with an id, records, timestamps in order, no id twice, and records that agree with their payloads; a refusal is the first record's, each check in its turn |
| Datasets.RecordsFromInputs | alphalab/market/record.py:50-62 | Record `i` carries input `i`, its timestamp, and as identity the stream's name, a dash and `i` in as many digits as the last position takes |
| Datasets.RecordIdsDistinct | alphalab/market/record.py:53-62 | The fixed-width identities never collide, at any length |
| Datasets.MarketDatasetOf | alphalab/backtesting/dataset.py:65-101 | Accepts exactly a named, non-empty list already in timestamp order, and what it returns is valid; refused for the first of those three that fails |
| Datasets.ToMarketDataset | alphalab/api.py:511-528 | Refused exactly without provenance, with an unreadable record or with none, in that order; otherwise the stable sort by timestamp, under the dataset's own version, valid |
| Datasets.MergedIsTheOnlyOrder | alphalab/api.py:655-657 | The merged entries are a permutation of every part's, and the only one in (timestamp, part, position) order |
| Datasets.MergedIsStableSort | alphalab/api.py:682-684 | The merge equals the stable sort by timestamp of the parts laid end to end |
| Datasets.MergedProjectsToEachPart | alphalab/api.py:669-684 | One part's entries, read out of the merge, stand as that part's own stream would have them |
| Combination.CombineDatasets | alphalab/api.py:624-649 | Accepts exactly two or more versioned parts with no version twice; refused for being fewer, else as the first part without a version or with one given already |
| Combination.RequireProvenance | alphalab/api.py:595-615 | Refused exactly when some part has no provenance; otherwise every part's version and content hash in order, the prefixed digest of the versions' lines, the digest of the hashes' lines, and all the parts' bytes |
| Combination.DerivedVersionsReadBack | alphalab/api.py:602-609 | Versions of the derived shape are read back from the joined text, in order, even where a name holds a newline |
| Combination.DerivedHashInputNamesTheParts | alphalab/api.py:602-609 | For versions of the derived shape, two combinations hash the same text exactly when they are the same versions in the same order |
| Combination.HashInputsAgreeExactly | alphalab/api.py:602-609 | For any versions at all, two combinations hash the same text exactly when their versions come to the same lines in the same order |
| Combination.OnlyPlainPartsExactly | alphalab/api.py:602-609 | No other combination of newline-free versions has its hash input exactly when its own versions are newline-free or one of its lines is blank, which no version is |
| Combination.HashInputNamesTheParts | alphalab/api.py:602-609 | Among all accepted combinations, one is told apart from every other by its hash input exactly when all its lines are blank but two neighbours, or they are one blank line and one other, twice |
| Lines.OnlyDivisionExactly | alphalab/api.py:606-607 | Two or more different texts, none blank, are the only such texts with their joined text exactly when their lines are of those two kinds |
| Combination.IdentityNamesTheLines | alphalab/api.py:608-609 | Where the hash tells the two joined texts apart, two combinations carry one derived version exactly when their versions come to the same lines in the same order |
| Combination.NewlinesCanHideABoundary | alphalab/api.py:606-609 | Two accepted combinations of different versions, one holding a newline, with one derived version under any hash |
| Text.JoinsAgreeExactly | alphalab/api.py:606-607 | Two lists join to one text exactly when their parts fall into the same pieces |
| Text.SpacesExactly | alphalab/data/provenance.py:121-123 | What a version must hold more than is exactly Python's 29 characters of white space |
| Text.AtMostExactly | alphalab/core/contribution.py:71-74 | One text sorts no later than another exactly when it begins it, or has the lesser character where they first differ |
| Text.OnlyFreeListExactly | alphalab/api.py:606-607 | A list is the only separator-free one with its joined text exactly when it is separator-free |
| Text.SplitOfJoinExactly | alphalab/api.py:606-607 | A joined text splits back into its parts exactly when there is one and none holds the separator |
| Combination.KeyPart | alphalab/api.py:673-682 | One part's items keyed and claimed: the dictionary names the one owner of every key seen, and a refusal names two entries of different versions with one kind, asset and timestamp |
| Combination.KeyParts | alphalab/api.py:669-682 | Succeeds exactly when every record is readable and no two entries of different versions share a key; otherwise a conflict among the parts before the first unreadable record, if there is one, else that record's own refusal |
| Combination.CombinedMarketDataset | alphalab/api.py:652-684 | The refusals in their order, each with what it says: missing provenance, then the first of an unreadable record and two versions' records of one kind, asset and timestamp, then no records; otherwise every record, stably sorted by timestamp, under the prefixed digest of the versions, valid |
| Combination.AcceptedPartsClashExactly | alphalab/api.py:640-649 | For accepted parts, a conflict is exactly two different parts each with a record of one kind, one asset and one timestamp |
| Combination.CombinedStreamIsStableSort | alphalab/api.py:655-657 | The stream's records are the parts laid end to end, stably sorted by timestamp |
| Combination.CombinedStreamKeepsEachPart | alphalab/api.py:652-684 | Keeping the records of a kind, asset and timestamp a part has a record of gives exactly the stream that part has alone, for every part of an accepted combination |
| PointInTime.BuildIndex | alphalab/common/point_in_time.py:401-435 | Refused exactly when an identity appears twice, and names the first that does; otherwise every record once: those whose stamps say when they were known beside that instant, in (instant, observed, id) order, the rest by id |
| PointInTime.KnownAtIsFirst | alphalab/common/point_in_time.py:302-328 | A fact is visible exactly once published and, on this system's clock, also arrived; its knowledge instant is the first such instant, and missing exactly where a stamp it needs is |
| PointInTime.IndexIgnoresArrival | alphalab/common/point_in_time.py:428-435 | The index does not depend on the order the records came in |
| PointInTime.BisectRight | alphalab/common/point_in_time.py:440-444 | The bisection point splits the instants at or before from those after |
| PointInTime.BisectionIsRescan | alphalab/common/point_in_time.py:446-449 | The bisected prefix is exactly what a rescan with the visibility rule keeps, in knowledge order |
| PointInTime.VisibleExactly | alphalab/common/point_in_time.py:446-449 | What an index shows at an instant is exactly the records published by it and, on this system's clock, also arrived by it |
| PointInTime.IndexCannotSeeAhead | alphalab/common/point_in_time.py:446-449 | Sets holding alike what had been published, and on this system's clock had arrived, by an instant answer alike at it, whatever else they hold |
| PointInTime.IntervalsAddUp | alphalab/common/point_in_time.py:456-474 | What was visible, followed by the interval's records, is what is visible at its end |
| Readings.LatestVintages | alphalab/alt_data/observation_set.py:505-518 | The loop over `best` computes one record per figure, by observation instant, series and period |
| Readings.LatestOfChoosesCurrent | alphalab/alt_data/observation_set.py:505-511 | A record is chosen exactly when no other of its figure has a higher revision |
| Readings.AsKnownIsNewestExactly | alphalab/alt_data/observation_set.py:642-662 | The most recent figure as known is the newest visible record exactly when that record is its figure's highest visible revision |
| Readings.OriginalIsNewest | alphalab/alt_data/observation_set.py:642-662 | Under the original policy it always is the newest record of revision 0, and missing exactly where there is none |
| Readings.ReadInstant | alphalab/alt_data/observation_set.py:690-698 | The inner loop reads every record of one instant and leaves the newest of all read so far |
| Readings.LatestTimeline | alphalab/alt_data/observation_set.py:664-701 | At every instant the last entry at or before it is the newest visible record the policy reads; entries strictly increase in time and none repeats the one before |
| Readings.OriginalAgrees | alphalab/alt_data/observation_set.py:664-676 | Under the original policy the timeline answers as reading the series does, always |
| Readings.AsKnownAgreesWhereCurrent | alphalab/alt_data/observation_set.py:664-676 | As known, they agree at an instant exactly when nothing is visible or the newest visible record is unrevised there |
| Readings.TimelineAgreesExactly | alphalab/alt_data/observation_set.py:664-676 | They agree at every instant exactly when every vintage is outranked by some visible record once a revision of it is visible |
| Readings.ObservedForwardAgrees | alphalab/alt_data/observation_set.py:673-676 | They agree wherever no revision is observed before what it revises |
| Readings.ObservedEarlierDisagrees | alphalab/alt_data/observation_set.py:673-676 | Any figure whose revision is observed earlier, on its own, is read differently by the two |
| Readings.TimelineCanDisagree | alphalab/alt_data/observation_set.py:673-676 | Two concrete records on which they part |
| ObservationSets.AdmissibleSetsCanDisagree | alphalab/alt_data/observation_set.py:664-676 | Those two records are a set that builds, and under its own built index the timeline and the reading part |
| ObservationSets.GroupVintages | alphalab/alt_data/observation_set.py:221-230 | Refuses exactly two records of one figure at one revision; otherwise each figure with its own records |
| ObservationSets.AdjacentInOrder | alphalab/alt_data/observation_set.py:232-242 | Comparing sorted neighbours decides exactly whether the figure's consecutive revisions are published in order |
| ObservationSets.CheckVintages | alphalab/alt_data/observation_set.py:220-242 | Passes exactly the records with distinct revisions whose consecutive revisions are published in order |
| ObservationSets.PublishedInRevisionOrder | alphalab/alt_data/observation_set.py:237-242 | Where no undated revision stands between two dated ones, any later revision is available no earlier, not only the next |
| ObservationSets.ChecksRevisionsExactly | alphalab/alt_data/observation_set.py:232-242 | Whatever the instants, none before its record was observed, passing the check keeps every revision behind all earlier ones exactly when no revision of unknown availability stands between two dated ones |
| ObservationSets.VisibleRevisionsAreAPrefix | alphalab/alt_data/observation_set.py:237-242 | With every availability known, a visible revision never stands without the ones before it |
| ObservationSets.UndatedRevisionHidesTheOrder | alphalab/alt_data/observation_set.py:234-242 | Three records the check accepts, the second revision visible before the original |
| ObservationSets.CheckSet | alphalab/alt_data/observation_set.py:287-318 | Passes exactly the admissible records in (observed, id) order; a refusal is that of the first record repeated or out of order, else the vintages' |
| ObservationSets.BuildObservationSet | alphalab/alt_data/observation_set.py:351-396 | Succeeds on exactly the admissible records, in any order, and returns them in (observed, id) order; otherwise refused for having none, for an identity it holds twice, or as the vintages are |
| ObservationSets.AdmissibleIgnoresOrder | alphalab/alt_data/observation_set.py:388-389 | Whether a set is accepted does not depend on the order its records arrive in |
| ObservationSets.FigureReadAgrees | alphalab/alt_data/observation_set.py:703-722 | Reading one figure's own vintages answers as choosing from everything visible would, under both policies |
| ObservationSets.SeriesIndexIsTheIndexOfTheSeries | alphalab/alt_data/observation_set.py:582-603 | A series' own index shows at every instant what the whole index shows of that series |
| ObservationSets.AdmissibleIndexIsWellBuilt | alphalab/alt_data/observation_set.py:582-585 | The index of a set with distinct revisions meets everything the readings ask of it |
| Releases.GroupReleases | alphalab/api.py:1667-1673 | Refuses exactly a foreign release; otherwise each period with its own releases in arrival order |
| Releases.LiftPeriod | alphalab/api.py:1676-1701 | Passes exactly a period strictly increasing in date whose flags mark all but the first, each an observation with its own value, numbered by position; refused as its first faulty release is |
| Releases.PeriodInOrderExactly | alphalab/api.py:1678-1688 | The loop's neighbour checks on one period decide whether every release of it is alone on its date and rightly flagged |
| Releases.PositionIsRank | alphalab/api.py:1677-1699 | A position in the sorted period is the number of its earlier releases |
| Releases.LiftReleases | alphalab/api.py:1667-1703 | Succeeds exactly on non-empty lists of own releases, distinct in date within a period and rightly flagged; the records are the releases in (period, date) order, each with its value, its instants and the count of its period's earlier releases; refused for another indicator's release, for none, or as its first faulty period is |
| Vintages.LiftIgnoresArrival | alphalab/api.py:1667-1703 | The same releases in any order are lifted or refused alike, to the same records |
| Releases.LiftedMembers | alphalab/api.py:1689-1701 | No release is lost and none invented: a record is there exactly when some release has its value, period and release date, and as many earlier releases of its period as its revision |
| Vintages.RanksFollowDates | alphalab/api.py:1653-1655 | Within a period, numbers increase exactly with release dates |
| Vintages.VintagesCountUp | alphalab/api.py:1653-1655 | Every period counts 0, 1, 2, ... at strictly later instants, periods ascending |
| Vintages.LiftCannotSeeAhead | alphalab/api.py:1675-1701 | Lists agreeing on what was released by an instant lift to the same records known by it, numbers included |
| Vintages.LiftedIsAdmissible | alphalab/api.py:1704-1704 | A lifted list always builds: distinct identities and revisions, published in order |
| Vintages.LiftedReadsAsKnown | alphalab/common/point_in_time.py:87-105 | At every instant the lifted set's most recent figure, by index or by timeline, is the release the macro engine's rescan returns, with that release's value |
| Vintages.ObservationsFromIndicator | alphalab/api.py:1637-1704 | Succeeds exactly on the liftable lists, with every release once, its value and instants its own, in (observed, id) order; refused as the lifting is |
| RowIngestion.ReadRows | alphalab/api.py:1604-1627 | Accounts for every row once: accepted records are the first of each id among buildable rows, rejected lines strictly increase and are exactly the unreadable and repeating rows, each with its cells and why it was refused |
| RowIngestion.Ingest | alphalab/api.py:1598-1634 | Succeeds exactly when some row builds and the accepted vintages are consistent; the set in order and every rejection, or why there is no set |
| RowIngestion.FirstsAreDistinct | alphalab/api.py:1614-1627 | The accepted records have distinct identities |
| RowIngestion.IngestingMore | alphalab/api.py:1614-1627 | Ingesting `a` then `b` accepts `a`'s records, then `b`'s whose ids `a` did not build |
| RowIngestion.RepeatingAddsNothing | alphalab/api.py:1614-1619 | Repeating any of the rows adds no record |
| Selection.Select | alphalab/api.py:473-503 | Refused exactly over the price basis; otherwise exactly the wanted records, in their order, under the dataset's version |
| Selection.SelectionsComposeExactly | alphalab/api.py:494-502 | Selecting twice is selecting once by the combined request, on every dataset, exactly when the symbols overlap, one side names none, or no instant is in the window |
| Selection.DisjointSymbolsPart | alphalab/api.py:494-498 | One record that two disjoint selections in sequence drop and their combined request keeps |
| Selection.SelectionCannotSeeAhead | alphalab/api.py:449-451 | Nothing added, removed or changed after `as_of` changes the selection |
| Selection.CutOffsSelectPrefixes | alphalab/api.py:501-501 | On ordered records a cut-off selects a prefix, and a later one a longer prefix |
| Studies.StudyPanels | alphalab/api.py:956-980 | The cached loop returns or refuses what recomputing every frame would; no field is extracted twice, and only fields some feature reads |
| Studies.KeysReadBack | alphalab/api.py:1065-1065 | Every key decodes to its feature id, horizon and quantity, dots and `.h` in the id included |
| Studies.OnlyKeysReadBack | alphalab/api.py:1065-1098 | A text decodes to a triple exactly when it is that triple's key |
| Studies.KeysAreMeasurements | alphalab/api.py:1073-1098 | A key is present exactly when some row measured its quantity |
| Studies.MeasurementsAreKept | alphalab/api.py:1073-1098 | Where no two rows of one pair disagree, every measurement is found under its key with its own value |
| Studies.MetricOrFinding | alphalab/api.py:1073-1096 | Each pair has its rank correlation, and its spread, or the finding that it is missing, never both |
| StudyRuns.WriteRow | alphalab/api.py:1073-1098 | The branches of the loop body write exactly the quantities measured, under the pair's prefix and each quantity's name, and the findings missing |
| StudyRuns.MeasureFeature | alphalab/api.py:1064-1098 | One feature over every horizon: refused exactly when some measurement is, as the first one is, otherwise its rows' metrics and findings |
| StudyRuns.MeasureAll | alphalab/api.py:1056-1098 | The nested loops: refused exactly when some pair is, as the first pair in their order is, otherwise every row's metrics, findings and lineage |
| StudyRuns.RunStudy | alphalab/api.py:1029-1105 | Nothing is measured unless horizons and a lag are stated and the delistings and the dataset handed over are those the study names, each refused in that order; then panels, prices and measurements, each with its first refusal; refused at the end exactly when the metrics are empty |
| StudyRuns.RequireMatchingDataset | alphalab/api.py:930-953 | Passes exactly a dataset of the version the study names; a study that names none, a dataset without one and another dataset are refused in that order |
| StudyRuns.RecordsEveryPair | alphalab/api.py:982-1000 | With distinct feature ids an accepted study records, under every pair's key, what measuring that panel at that horizon and lag gave, and no key for what it did not; and every panel's lineage |
| StudyRuns.NothingMeasuredExactly | alphalab/api.py:1100-1105 | The metrics are empty exactly when no pair measured any quantity |
| StudyRuns.DistinctIdsKeepEverything | alphalab/api.py:998-1000 | With distinct feature ids every measurement of every pair is in the mapping under its own key |
| StudyRuns.NothingIsLostExactly | alphalab/api.py:998-1000 | For features of distinct versions, nothing is ever lost exactly when their ids are distinct too |
| StudyRuns.OneIdLosesAMetric | alphalab/api.py:998-1000 | Two versions of one feature id: the key holds the second's spread and the first's is gone |
| PersistentMaps.Of | alphalab/common/persistent_map.py:149-159 | The map built of pairs is the dictionary of putting each in turn: a repeated key keeps its place and takes the last value |
| PersistentMaps.ReadChain | alphalab/common/persistent_map.py:211-232 | The newest write, or the bisected one, is the last at or before the version; none where there is none |
| PersistentMaps.Get | alphalab/common/persistent_map.py:204-238 | A map reads at a key what its dictionary holds there, on any version of a shared store |
| PersistentMaps.ReadItems | alphalab/common/persistent_map.py:249-298 | The scan over insertions, stopped at the first too new and passing over superseded and deleted ones, yields the version's pairs in `dict` order |
| PersistentMaps.Items | alphalab/common/persistent_map.py:300-303 | A map's items are its dictionary's, each key once |
| PersistentMaps.ItemsRebuild | alphalab/common/persistent_map.py:371-374 | A dictionary rebuilt of a map's items is the same dictionary, order included |
| PersistentMaps.PastContents | alphalab/common/persistent_map.py:24-36 | A write leaves the contents of every older version, order included, as they were |
| PersistentMaps.NowContents | alphalab/common/persistent_map.py:38-41 | The newest version holds, in order, what a `dict` would after the same write: a rewritten key keeps its place, a key inserted again after its deletion goes last |
| PersistentMaps.Rebase | alphalab/common/persistent_map.py:186-200 | Reading the last of every chain and of every history keeps exactly the newest version's keys, in order, each with its value alone |
| PersistentMaps.Branch | alphalab/common/persistent_map.py:173-200 | A branch is the same dictionary in a store of its own, from the newest version or an older one |
| PersistentMaps.OldVersionsStay | alphalab/common/persistent_map.py:33-34 | After a write every view of the store, of any version, is the dictionary it was |
| PersistentMaps.Append | alphalab/common/persistent_map.py:319-343 | The writes in place add one entry to one chain, a place for a key that had none, and one version |
| PersistentMaps.Set | alphalab/common/persistent_map.py:312-344 | A map with the key put; every view of the old store is the dictionary it was; written in place exactly while it is the newest and the store holds at most 64 entries more than twice its keys, and never left with more than 65 |
| PersistentMaps.Delete | alphalab/common/persistent_map.py:346-362 | Refused exactly for a key that is not there; otherwise a map without it and its place, every view of the old store the dictionary it was; in place exactly as a write is, and never left with more than 67 entries over twice its keys |
| PersistentMaps.Replay | alphalab/common/persistent_map.py:11-41 | Over any run of writes to any of the maps made so far, newest or superseded, each map ever made is at the end exactly the dictionary of its own writes, whatever stores they share |
| Allocation.BatchIsSizedExactly | alphalab/allocation/allocator.py:34-61 | A batch is refused exactly when some intent alone would be, with the first refusal; otherwise every intent keeps its place, strategy and size |
| Allocation.EachIsSized | alphalab/allocation/allocator.py:54-61 | Every ask of a batch is its own intent's, sized by the model at its own instrument's price, or at zero for want of one |
| Allocation.SizingIgnoresArrival | alphalab/allocation/allocator.py:54-61 | Reordering a batch changes neither whether it is sized nor what is asked |
| Contributions.ContributionsFrom | alphalab/core/contribution.py:51-74 | Every strategy asking and no other, once, in ascending order, with the sum of all it asked |
| Contributions.ContributionsAddUp | alphalab/core/contribution.py:54-63 | The contributions add up to what was asked |
| Contributions.ContributionsIgnoreArrival | alphalab/core/contribution.py:59-62 | The same rows in another sequence give equal contributions |
| Allocation.NetQuantities | alphalab/allocation/netting.py:13-25 | Every asset asked for and no other nets to all asked of it, in the order of first appearance |
| Allocation.NettingOrder | alphalab/allocation/netting.py:44-62 | Keys appear once, each ahead of those first asked for after it |
| Allocation.ContributionsByOrder | alphalab/allocation/netting.py:27-42 | Every asset asked for and no other names the strategies it nets from |
| Allocation.AttributionIsConserved | alphalab/allocation/netting.py:33-36 | The assets attributed are the assets netted, and each one's contributions add up to its net |
| Allocation.NettingIgnoresArrival | alphalab/allocation/netting.py:13-25 | The same asks in another sequence net alike |
| Allocation.AttributionIgnoresArrival | alphalab/allocation/netting.py:27-42 | The same asks in another sequence are attributed alike |
| Allocation.IntentOrderIsImmaterial | alphalab/allocation/allocator.py:34-61 | From intents to orders, reordering a batch changes no net and no strategy's part in one |
| ContributionSplit.HalfEven | alphalab/core/contribution.py:127-131 | The nearest integer, ties to the even one |
| ContributionSplit.TenToExactly | alphalab/core/contribution.py:109-121 | One exponent more is ten times the quantum, from one at zero, in both directions |
| ContributionSplit.SplitByContribution | alphalab/core/contribution.py:77-124 | Every part but the last is its exact part rounded to the exponent of the quantum, a power of ten, the parts name the strategies in order, and they sum to the amount |
| ContributionSplit.FairPartsAddUp | alphalab/core/contribution.py:84-92 | The exact parts sum to the amount, flat net or not |
| ContributionSplit.SplitIsNear | alphalab/core/contribution.py:88-92 | No part but the last is off by more than half a quantum; the last by no more than half a quantum for each other part |
| ContributionSplit.NetSplitsBack | alphalab/core/contribution.py:117-124 | A net divided among its own contributions, each a whole number of quanta, gives them back |
| ContributionSplit.FillReturnsWhatWasAsked | alphalab/allocation/engine.py:518-547 | A netted order filled in full gives each strategy exactly the total it asked of it, however the strategies offset |
| RotationStrategy.FirstGreatestIsBest | examples/09_workbench.py:165-165 | Reading sorted ids in turn and displacing only a strictly smaller return leaves the greatest, and of equals the smallest id |
| RotationStrategy.Best | examples/09_workbench.py:165-165 | The scan over the sorted keys of the returns meets it: the greatest return, and of equals the smallest id |
| RotationStrategy.Rotation.OnBar | examples/09_workbench.py:147-150 | The close joins its asset's history; nothing else changes and nothing is asked |
| RotationStrategy.Rotation.OnSlice | examples/09_workbench.py:152-181 | The whole next state and the intents, in every branch |
| RotationStrategy.Drive | examples/09_workbench.py:138-181 | A fresh strategy driven over any events is left in the state, and has asked for the intents, of the run every statement below is about; or fails as it does |
| RotationStrategy.EveryRun | examples/09_workbench.py:138-191 | Over every run: never both held and pending, decisions are best and consecutive ones differ, intents number 2d-1 less a pending buy and alternate, at most one asset has a target and nothing is bought until all are flat |
| RotationStrategy.HistoriesAreBars | examples/09_workbench.py:147-150 | What is remembered of an asset is every close it was shown, in order, whatever was decided meanwhile |
| RotationStrategy.EveryDecision | examples/09_workbench.py:157-168 | Every decision is over a slice of at least three assets, and each recorded return is the last close against the one five closes before it |
| RotationStrategy.SliceExactly | examples/09_workbench.py:152-181 | After any run, in its bars: a pending asset is bought at the next slice whatever that holds; otherwise a slice of three assets or more, each with six closes or more, decides for its leader over five closes unless that is held, and any other changes nothing |
| RotationStrategy.DecidesExactly | examples/09_workbench.py:157-168 | A decision is recorded exactly when nothing is pending, the slice is ready, and its leader is not what is held |
| AlternatingRuns.AlternatingStrategy.OnQuote | examples/13_durable_run_state.py:152-164 | The counter moves by one and decides the intent |
| AlternatingRuns.AlternatingStrategy.RestoreState | examples/13_durable_run_state.py:173-176 | Any other version is refused and changes nothing; version 1 sets the counter |
| AlternatingRuns.AlternatingStrategy.Drive | examples/13_durable_run_state.py:295-298 | A batch moves the counter by its length and asks what the run from that counter asks |
| AlternatingRuns.DriveInSegments | examples/13_durable_run_state.py:306-353 | However a run is cut into captured and restored segments, the intents are the uninterrupted run's |
| AlternatingRuns.NetOfARun | examples/13_durable_run_state.py:152-164 | After n quotes the net asked is 10((n+3)/4) - 6((n+1)/4), and never negative |
| AlternatingRuns.ForgettingShowsExactly | examples/13_durable_run_state.py:141-144 | A forgotten counter goes unnoticed, on every continuation, exactly at a multiple of four |
| MovingAverages.MovingAverageCross.OnBar | examples/02_backtest.py:123-138 | The close is remembered, and the intent is what the history signals |
| MovingAverages.Watch | examples/02_backtest.py:123-138 | A fresh strategy shown every bar: what each asked for, up to the first failure |
| MovingAverages.SilentUntilFullExactly | examples/02_backtest.py:126-129 | A run asks nothing at exactly its first slow - 1 bars, and fails, at the next one, exactly when it gets there with an empty window |
| MovingAverages.FastAboveSlowExactly | examples/02_backtest.py:128-134 | The fast average is above the slow one exactly when it is above the average of the bars before its window |
| MovingAverages.RisingTargetsSize | examples/02_backtest.py:114-134 | A run of strictly rising closes targets the full size at every bar from then on |
| MovingAverages.NeverRisingTargetsZero | examples/02_backtest.py:114-134 | A run of closes that never rise targets zero at every bar from then on |
| MovingAverages.RequotingChangesNothing | examples/02_backtest.py:128-134 | Scaling every close by a positive constant changes nothing a run asks for, bar by bar, nor whether it fails |
| BookHolding.HoldTheBook.OnBar | examples/10_complete_pipeline.py:178-193 | The pop and re-insertion come to removing the position exactly when it is asked for |
| BookHolding.HoldTheBook.Hold | examples/10_complete_pipeline.py:178-193 | The book left and the intents emitted over a whole run |
| BookHolding.RemainsExactly | examples/10_complete_pipeline.py:178-184 | A position is left, untouched, exactly while its asset has no bar at or after the start |
| BookHolding.EmittedExactly | examples/10_complete_pipeline.py:181-193 | An intent is emitted exactly by the first bar of its asset at or after the start, targeting the booked quantity |
| BookHolding.BookIsConserved | examples/10_complete_pipeline.py:171-193 | No asset is asked for twice, and what was asked for and what is left are disjoint and together the book |
| FactorCovariance.CovarianceIsSymmetric | benchmarks/benchmark_portfolio_risk.py:124-142 | The built matrix is symmetric at every size |
| FactorCovariance.EntriesExactly | benchmarks/benchmark_portfolio_risk.py:132-139 | An entry is 1e-4 of the three factors' products of loadings, and on the diagonal the asset's own variance more |
| FactorCovariance.LoadingExactly | benchmarks/benchmark_portfolio_risk.py:128-131 | A loading is the remainder of 37 (i + 1) (f + 3) by a hundred, in hundredths, less 0.3 |
| FactorCovariance.SpecificExactly | benchmarks/benchmark_portfolio_risk.py:135-135 | An asset's own variance is 1e-4 and as many sevenths of it as its number leaves by seven |
| FactorCovariance.RowsRepeat | benchmarks/benchmark_portfolio_risk.py:128-139 | Off the diagonal every row of the matrix is the row a hundred assets before it |
| FactorCovariance.QuadraticExchange | benchmarks/benchmark_portfolio_risk.py:132-139 | The quadratic form is the exposures against themselves plus the specific variance: the sums over assets and over factors exchange |
| FactorCovariance.QuadraticAtLeast | benchmarks/benchmark_portfolio_risk.py:124-139 | Any three-factor model with specific variances of at least 1e-4 has a quadratic form of at least 1e-4 times the squared length |
| FactorCovariance.CovarianceIsPositiveDefinite | benchmarks/benchmark_portfolio_risk.py:124-142 | At every size the built matrix meets that bound, and its form is positive exactly off the zero vector |
| StableTiming.FastestIsLeast | benchmarks/_stable_timing.py:39-44 | A workload's figure is one of its own samples and none was quicker |
| StableTiming.SampleRound | benchmarks/_stable_timing.py:52-55 | One round runs each workload once, in order, lowering each figure in place, up to the first that raises |
| StableTiming.MeasureFastest | benchmarks/_stable_timing.py:39-59 | Round-robin over all samples or up to the first that raises; every figure the least; the collector's flag on exit, raised or not |
| StableTiming.RestoredExactly | benchmarks/_stable_timing.py:47-58 | The flag is left as found exactly when it was on, or every workload that turned it on was followed by one that turned it off |
| StableTiming.OffComesBackOn | benchmarks/_stable_timing.py:47-58 | A collector that was off and one workload that turns it on: it is left on |

## Left out

- CSV reading, paths, decoding and schema detection: I/O.
- `backtest`, `replay`, the runtime, order management, risk, portfolio and execution engines: the model stops where `api.py` hands over to them.
- The allocation engine beyond sizing, netting, attribution and the division of a fill: budgets, ceilings, target intents, lots and reservations are not modelled.
- Numbers are exact reals: float and Decimal rounding, NaN, infinities and the split's 28-digit context are not modelled. The split's quantum is a power of ten, since a decimal's exponent is all that rounding to it reads.
- SHA-256 is a parameter. Only where a lifted release list needs it (`Releases.Faithful`) are the digests and the printed periods of that list's own releases taken to be distinct.
- Callees that may refuse -- the wire normalizers, a row's `build`, frame extraction, panel computation, signal diagnostics, sizing models -- are arbitrary functions returning a result; they are taken to be deterministic.
- Error messages, and checks of labels against the observation vocabulary, which are one flag of an indicator's metadata. A series' and a figure's key tuples are one string each, compared in string order.
- A set's kind, source, name, version hash and transformations.
- Vintages.LiftIgnoresArrival: says that refusal does not depend on arrival order; which of several faults is reported can, and `Releases.LiftReleases` says which.
- Vintages.ObservationsFromIndicator: the consensus estimate, country and units do not travel into the model's record.
- Readings.LatestTimeline: compares records by equality where the code compares identity; within one index they are the same, identities being distinct.
- The persistent map's costs, its use from several threads, unhashable keys, `repr` and serialization. A store's fields are one record written field by field, and a flat chain is two lists, of versions and of values.
- A stamp may here be available before it was observed, which the code refuses to construct; only `ObservationSets.ChecksRevisionsExactly` depends on it, and leaves such stamps out.
- PersistentMaps.Get: says what is read of views some run can make; `Dictionary` is `None` of any other.
- RotationStrategy.EveryRun: speaks of runs whose closes never make a return undefined; a division by zero ends the run.
- FactorCovariance.CovarianceIsPositiveDefinite: is about the rows handed to `CovarianceMatrix.from_rows`, whose canonical ordering is not part of this model.
- StableTiming.MeasureFastest: a workload is a script of times, refusals and what it does to the collector; the clock and `gc.collect` are not modelled.
- BookHolding.HoldTheBook.Hold: stands for the session that feeds the strategy its bars.
- AlternatingRuns.AlternatingStrategy.Drive: stands for the session's records; of a captured run only the strategy's own state is modelled.
- Allocation.NetQuantities: netting by asset and by (asset, terms) are one generic method over the key.
- The Dafny `Sort` is a stable insertion sort standing for Python's `sorted`; `PointInTime.BisectRight` stands for the library's `bisect_right`.
