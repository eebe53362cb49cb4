/**
 Several canonical datasets read as one run's input: who may be combined, the
 identity the combination derives, and the conflict it refuses.
 */
module Combination {
  import opened Outcomes
  import opened Ordering
  import opened Text
  import opened Datasets
  import opened Lines

  // ------------------------------------------------------------- combinability

  function VersionOf(part: Part): string
    requires part.dataset.provenance.Some?
  {
    part.dataset.provenance.value.version
  }

  ghost predicate DistinctVersions(parts: seq<Part>)
    requires AllVersioned(parts)
  {
    forall p, q | 0 <= p < q < |parts| :: VersionOf(parts[p]) != VersionOf(parts[q])
  }

  ghost predicate Combinable(parts: seq<Part>) {
    |parts| >= 2 && AllVersioned(parts) && DistinctVersions(parts)
  }

  /** Part `k` follows parts of distinct versions, and has none itself or one of theirs. */
  ghost predicate RefusedAtPart(parts: seq<Part>, k: nat, refusal: Refusal) {
    && k < |parts| && AllVersioned(parts[..k]) && DistinctVersions(parts[..k])
    && if parts[k].dataset.provenance.None? then refusal == NoProvenance
       else refusal == GivenTwice(VersionOf(parts[k]))
            && exists p :: 0 <= p < k && VersionOf(parts[..k][p]) == VersionOf(parts[k])
  }

  /** `combine_datasets` accepts exactly two or more versioned parts, no version twice. */
  method CombineDatasets(parts: seq<Part>) returns (r: Result<seq<Part>, Refusal>)
    ensures r.Ok? <==> Combinable(parts)
    ensures r.Ok? ==> r.value == parts
    ensures r.Err? ==> if |parts| < 2 then r.error == TooFewParts else exists k :: RefusedAtPart(parts, k, r.error)
  {
    if |parts| < 2 {
      return Err(TooFewParts);
    }
    var seen: set<string> := {};
    for k := 0 to |parts|
      invariant AllVersioned(parts[..k])
      invariant seen == set p | 0 <= p < k :: VersionOf(parts[..k][p])
      invariant DistinctVersions(parts[..k])
    {
      if parts[k].dataset.provenance.None? {
        assert RefusedAtPart(parts, k, NoProvenance);
        return Err(NoProvenance);
      }
      var version := VersionOf(parts[k]);
      if version in seen {
        var p :| 0 <= p < k && VersionOf(parts[..k][p]) == version;
        assert parts[..k][p] == parts[p];
        assert RefusedAtPart(parts, k, GivenTwice(version));
        return Err(GivenTwice(version));
      }
      assert parts[..k + 1] == parts[..k] + [parts[k]];
      seen := seen + {version};
    }
    TakeAll(parts);
    return Ok(parts);
  }

  // ------------------------------------------------------------------ identity

  datatype CombinedProvenance =
    CombinedProvenance(version: string, contentHash: string, byteCount: nat, identities: seq<(string, string)>)

  function Versions(parts: seq<Part>): (r: seq<string>)
    requires AllVersioned(parts)
    ensures |r| == |parts|
  {
    seq(|parts|, p requires 0 <= p < |parts| => VersionOf(parts[p]))
  }

  function ContentHashes(parts: seq<Part>): (r: seq<string>)
    requires AllVersioned(parts)
    ensures |r| == |parts|
  {
    seq(|parts|, p requires 0 <= p < |parts| => parts[p].dataset.provenance.value.contentHash)
  }

  function ByteCounts(parts: seq<Part>): (r: seq<nat>)
    requires AllVersioned(parts)
    ensures CountsBytes(parts, r)
  {
    seq(|parts|, p requires 0 <= p < |parts| => parts[p].dataset.provenance.value.byteCount)
  }

  ghost predicate CountsBytes(parts: seq<Part>, counts: seq<nat>)
    requires AllVersioned(parts)
  {
    |counts| == |parts| && forall p | 0 <= p < |parts| :: counts[p] == parts[p].dataset.provenance.value.byteCount
  }

  function Total(counts: seq<nat>): nat { if counts == [] then 0 else counts[0] + Total(counts[1..]) }

  /** One part more counts its own bytes and all the others'. */
  lemma {:induction false} TotalOneMore(counts: seq<nat>, n: nat)
    ensures Total([]) == 0 && Total(counts + [n]) == Total(counts) + n
  {
    if counts == [] {
      assert counts + [n] == [n];
    } else {
      assert (counts + [n])[1..] == counts[1..] + [n];
      TotalOneMore(counts[1..], n);
    }
  }

  lemma BytesAreCounted(parts: seq<Part>, counts: seq<nat>)
    requires AllVersioned(parts) && CountsBytes(parts, counts)
    ensures counts == ByteCounts(parts)
  {
    SameElements(counts, ByteCounts(parts));
  }

  /** The text a combined version is the digest of. */
  function HashInput(parts: seq<Part>): string
    requires AllVersioned(parts)
  {
    Join(Versions(parts), NEWLINE)
  }

  /** The lines the parts' versions come to, in order. */
  function LinesOf(parts: seq<Part>): seq<string>
    requires AllVersioned(parts)
  {
    LinesIn(Versions(parts))
  }

  function CombinedIdentity(parts: seq<Part>, sha: string -> string): CombinedProvenance
    requires AllVersioned(parts)
  {
    CombinedProvenance(
      "combined-" + sha(HashInput(parts)),
      sha(Join(ContentHashes(parts), NEWLINE)),
      Total(ByteCounts(parts)),
      seq(|parts|, p requires 0 <= p < |parts| => (Versions(parts)[p], ContentHashes(parts)[p])))
  }

  const DIGEST_LENGTH: nat := 64

  /** What every derived version looks like: a name without `@`, then `@`, then a SHA-256 in hex. */
  ghost predicate DerivedVersion(v: string) {
    exists name: string, digest: string :: IsDerived(v, name, digest)
  }

  ghost predicate IsDerived(v: string, name: string, digest: string) {
    v == name + "@" + digest && '@' !in name && '@' !in digest && |digest| == 64
  }

  /** Reads joined derived versions back by their shape, whatever characters the names hold. */
  function ReadVersions(text: string): seq<string>
    decreases |text|
  {
    var at := Find(text, '@');
    if at + 1 + DIGEST_LENGTH >= |text| then [text]
    else [text[..at + 1 + DIGEST_LENGTH]] + ReadVersions(text[at + 2 + DIGEST_LENGTH..])
  }

  /** Derived versions survive the join even where a dataset's name holds a newline. */
  lemma {:induction false} DerivedVersionsReadBack(versions: seq<string>)
    requires versions != [] && forall v | v in versions :: DerivedVersion(v)
    ensures ReadVersions(Join(versions, NEWLINE)) == versions
  {
    var v := versions[0];
    assert v in versions;
    ReadsOne(v);
    if |versions| > 1 {
      DerivedVersionsReadBack(versions[1..]);
      ReadsFirst(v, Join(versions[1..], NEWLINE));
      assert versions == [v] + versions[1..];
    }
  }

  lemma ReadsOne(v: string)
    requires DerivedVersion(v)
    ensures ReadVersions(v) == [v]
  {
    var name: string, digest: string :| IsDerived(v, name, digest);
    FindFirst(name, '@', digest);
  }

  lemma ReadsFirst(v: string, rest: string)
    requires DerivedVersion(v)
    ensures ReadVersions(v + [NEWLINE] + rest) == [v] + ReadVersions(rest)
  {
    var name: string, digest: string :| IsDerived(v, name, digest);
    var text := v + [NEWLINE] + rest;
    FindFirst(name, '@', digest + [NEWLINE] + rest);
    assert text == name + ['@'] + (digest + [NEWLINE] + rest);
    assert text[..|v|] == v && text[|v| + 1..] == rest;
  }

  /** Derived versions name the parts: the same hash input is the same versions in the same order. */
  lemma DerivedHashInputNamesTheParts(a: seq<Part>, b: seq<Part>)
    requires AllVersioned(a) && AllVersioned(b) && a != [] && b != []
    requires forall v | v in Versions(a) + Versions(b) :: DerivedVersion(v)
    ensures HashInput(a) == HashInput(b) <==> Versions(a) == Versions(b)
  {
    assert forall v | v in Versions(a) :: v in Versions(a) + Versions(b);
    assert forall v | v in Versions(b) :: v in Versions(a) + Versions(b);
    DerivedVersionsReadBack(Versions(a));
    DerivedVersionsReadBack(Versions(b));
  }

  /**
   For any versions at all, two combinations hash one text exactly when their versions hold the same
   lines in the same order.
   */
  lemma HashInputsAgreeExactly(a: seq<Part>, b: seq<Part>)
    requires AllVersioned(a) && AllVersioned(b) && a != [] && b != []
    ensures HashInput(a) == HashInput(b) <==> LinesOf(a) == LinesOf(b)
  {
    JoinsAgreeExactly(Versions(a), Versions(b), NEWLINE);
  }

  /**
   Where the hash tells the two texts apart, the derived version is shared exactly by combinations
   of the same lines.
   */
  lemma IdentityNamesTheLines(a: seq<Part>, b: seq<Part>, sha: string -> string)
    requires AllVersioned(a) && AllVersioned(b) && a != [] && b != []
    requires sha(HashInput(a)) == sha(HashInput(b)) ==> HashInput(a) == HashInput(b)
    ensures CombinedIdentity(a, sha).version == CombinedIdentity(b, sha).version <==> LinesOf(a) == LinesOf(b)
  {
    HashInputsAgreeExactly(a, b);
    var x, y := sha(HashInput(a)), sha(HashInput(b));
    assert ("combined-" + x)[|"combined-"|..] == x && ("combined-" + y)[|"combined-"|..] == y;
  }

  /** A part of nothing but a version. */
  function Versioned(version: string): Part
    requires !Blank(version)
  {
    var refuse := (r: WireRecord) => Err(Malformed);
    Part(Dataset([], Some(Provenance(version, "", 0, Raw))), Policy(refuse, refuse, refuse))
  }

  function AllOf(versions: seq<string>): (parts: seq<Part>)
    requires forall v | v in versions :: !Blank(v)
    ensures AllVersioned(parts) && Versions(parts) == versions
  {
    var parts := seq(|versions|, i requires 0 <= i < |versions| =>
      assert versions[i] in versions; Versioned(versions[i]));
    SameElements(Versions(parts), versions);
    parts
  }

  lemma NoVersionIsBlank(parts: seq<Part>)
    requires AllVersioned(parts)
    ensures forall v | v in Versions(parts) :: !Blank(v)
  {
  }

  /** What `combine_datasets` accepts, said of the versions alone. */
  lemma CombinableIsFit(parts: seq<Part>)
    requires AllVersioned(parts)
    ensures Combinable(parts) <==> Fit(Versions(parts))
  {
    NoVersionIsBlank(parts);
    assert DistinctVersions(parts) <==> Distinct(Versions(parts)) by {
      assert forall p | 0 <= p < |parts| :: VersionOf(parts[p]) == Versions(parts)[p];
    }
  }

  /** `b` is a combination of newline-free versions that hashes what `a` does. */
  ghost predicate PlainTwin(a: seq<Part>, b: seq<Part>)
    requires AllVersioned(a)
  {
    AllVersioned(b) && b != [] && Free(Versions(b), NEWLINE) && HashInput(b) == HashInput(a)
  }

  /**
   No other combination of newline-free versions has its hash input exactly when its own
   versions are newline-free, or one of its lines is blank and so no version at all.
   */
  lemma OnlyPlainPartsExactly(a: seq<Part>)
    requires AllVersioned(a) && a != []
    ensures (forall b | PlainTwin(a, b) :: Versions(b) == Versions(a))
       <==> Free(Versions(a), NEWLINE) || exists line :: line in LinesOf(a) && Blank(line)
  {
    SplitOfAnyJoin(Versions(a), NEWLINE);
    forall b | PlainTwin(a, b)
      ensures Versions(b) == LinesOf(a) && !(exists line :: line in LinesOf(a) && Blank(line))
    {
      SplitOfJoin(Versions(b), NEWLINE);
      NoVersionIsBlank(b);
    }
    if Free(Versions(a), NEWLINE) {
      SplitOfJoin(Versions(a), NEWLINE);
    } else if !exists line :: line in LinesOf(a) && Blank(line) {
      PiecesAtLeast(Versions(a), NEWLINE);
      JoinOfSplit(HashInput(a), NEWLINE);
      assert PlainTwin(a, AllOf(LinesOf(a)));
    }
  }

  /**
   Among all the combinations that are accepted, whatever their versions hold, one is told
   apart from every other by its hash input exactly when its lines divide in one way: all
   of them blank but two that are neighbours, or one blank line and one other, twice.
   */
  lemma HashInputNamesTheParts(a: seq<Part>)
    requires Combinable(a)
    ensures (forall b | Combinable(b) && HashInput(b) == HashInput(a) :: Versions(b) == Versions(a))
       <==> OneWay(LinesOf(a))
  {
    CombinableIsFit(a);
    OnlyDivisionExactly(Versions(a));
    if OneWay(LinesOf(a)) {
      forall b | Combinable(b) && HashInput(b) == HashInput(a) ensures Versions(b) == Versions(a) {
        CombinableIsFit(b);
      }
    } else {
      var versions := AnotherDivision(Versions(a));
      CombinableIsFit(AllOf(versions));
      assert HashInput(AllOf(versions)) == HashInput(a);
    }
  }

  /** Two accepted combinations of hand-made versions, one of them holding a newline, share every derived version. */
  lemma NewlinesCanHideABoundary(sha: string -> string) returns (a: seq<Part>, b: seq<Part>)
    ensures Combinable(a) && Combinable(b)
    ensures Versions(a) == ["a\nb", "c"] && Versions(b) == ["a", "b\nc"]
    ensures CombinedIdentity(a, sha).version == CombinedIdentity(b, sha).version
  {
    var first, second := ["a\nb", "c"], ["a", "b\nc"];
    assert first[0][0] == 'a' && first[1][0] == 'c' && second[0][0] == 'a' && second[1][0] == 'b';
    assert forall i | 0 <= i < 2 :: first[i][0] in first[i] && second[i][0] in second[i];
    a, b := AllOf(first), AllOf(second);
    assert VersionOf(a[0]) == Versions(a)[0] && VersionOf(a[1]) == Versions(a)[1];
    assert VersionOf(b[0]) == Versions(b)[0] && VersionOf(b[1]) == Versions(b)[1];
    OneTextTwoWays();
  }

  lemma OneTextTwoWays()
    ensures Join(["a\nb", "c"], NEWLINE) == Join(["a", "b\nc"], NEWLINE)
  {
    JoinPair("a\nb", "c", NEWLINE);
    JoinPair("a", "b\nc", NEWLINE);
    SameElements("a\nb" + [NEWLINE] + "c", "a" + [NEWLINE] + "b\nc");
  }

  // ------------------------------------------------------------------ conflict

  /** What a run may hold one of: a kind of record, for an asset, at an instant. */
  datatype Key = Key(kind: Kind, assetId: string, timestamp: real)

  function KeyOf(item: MarketInput): Key { Key(item.kind, item.assetId, item.timestamp) }

  /** Two entries answer one question, and different versions gave the answers. */
  ghost predicate Clash(parts: seq<Part>, a: Entry, b: Entry)
    requires AllVersioned(parts)
  {
    && a.part < |parts| && b.part < |parts| && VersionOf(parts[a.part]) != VersionOf(parts[b.part])
    && a.item.kind == b.item.kind && a.item.assetId == b.item.assetId && a.item.timestamp == b.item.timestamp
  }

  ghost predicate Clashing(parts: seq<Part>)
    requires AllVersioned(parts) && AllNormalize(parts)
  {
    SomeClash(parts, Keyed(AllInputs(parts)))
  }

  /** The dictionary holds, for each key seen so far, the one version that carried it. */
  ghost predicate Owns(parts: seq<Part>, keyed: seq<Entry>, owner: map<Key, string>)
    requires AllVersioned(parts)
  {
    && (forall e | e in keyed :: e.part < |parts| && KeyOf(e.item) in owner
                                 && owner[KeyOf(e.item)] == VersionOf(parts[e.part]))
    && (forall k | k in owner :: exists e :: e in keyed && KeyOf(e.item) == k)
  }

  lemma OwnsNoClash(parts: seq<Part>, keyed: seq<Entry>, owner: map<Key, string>)
    requires AllVersioned(parts) && Owns(parts, keyed, owner)
    ensures forall a, b | a in keyed && b in keyed :: !Clash(parts, a, b)
  {
  }

  /** The stream a combination is read as. */
  ghost function CombinedStream(parts: seq<Part>, sha: string -> string): MarketDataset
    requires AllVersioned(parts) && AllNormalize(parts)
  {
    var id := CombinedIdentity(parts, sha).version;
    MarketDataset(id, RecordsFromInputs(id, Map(ItemOf, Merged(AllInputs(parts)))))
  }

  lemma OwnsStep(parts: seq<Part>, keyed: seq<Entry>, owner: map<Key, string>, entry: Entry)
    requires AllVersioned(parts) && Owns(parts, keyed, owner) && entry.part < |parts|
    requires KeyOf(entry.item) !in owner || owner[KeyOf(entry.item)] == VersionOf(parts[entry.part])
    ensures Owns(parts, keyed + [entry], owner[KeyOf(entry.item) := VersionOf(parts[entry.part])])
  {
    var owner' := owner[KeyOf(entry.item) := VersionOf(parts[entry.part])];
    forall k | k in owner' ensures exists e :: e in keyed + [entry] && KeyOf(e.item) == k {
      if k == KeyOf(entry.item) {
        assert entry in keyed + [entry];
      } else {
        var e :| e in keyed && KeyOf(e.item) == k;
        assert e in keyed + [entry];
      }
    }
  }

  lemma KeyedPartStep(before: seq<Entry>, items: seq<MarketInput>, part: nat, index: nat, entry: Entry)
    requires index < |items| && entry == Entry(items[index].timestamp, part, index, items[index])
    ensures before + KeyedPart(items[..index], part) + [entry] == before + KeyedPart(items[..index + 1], part)
    ensures before + KeyedPart(items[..index], part) + [entry] <= before + KeyedPart(items, part)
  {
    var soFar, after := KeyedPart(items[..index], part), KeyedPart(items[..index + 1], part);
    assert after == soFar + [entry];
    assert after <= KeyedPart(items, part);
  }

  /** The refusal names the versions of two entries that clash. */
  ghost predicate ConflictIn(parts: seq<Part>, keyed: seq<Entry>, refusal: Refusal)
    requires AllVersioned(parts)
  {
    refusal.Conflict? && exists a, b :: a in keyed && b in keyed && Clash(parts, a, b)
                           && VersionOf(parts[a.part]) == refusal.first && VersionOf(parts[b.part]) == refusal.second
  }

  /** Some two of the entries clash. */
  ghost predicate SomeClash(parts: seq<Part>, keyed: seq<Entry>)
    requires AllVersioned(parts)
  {
    exists a, b :: a in keyed && b in keyed && Clash(parts, a, b)
  }

  /** The inner loop: one part's items keyed and claimed, stopping at the first clash. */
  method KeyPart(parts: seq<Part>, part: nat, items: seq<MarketInput>, before: seq<Entry>, owned: map<Key, string>)
    returns (clash: Option<Refusal>, keyed: seq<Entry>, owner: map<Key, string>)
    requires AllVersioned(parts) && part < |parts| && Owns(parts, before, owned)
    ensures clash.None? ==> keyed == before + KeyedPart(items, part) && Owns(parts, keyed, owner)
    ensures clash.Some? ==> ConflictIn(parts, before + KeyedPart(items, part), clash.value)
  {
    keyed, owner := before, owned;
    assert before + KeyedPart(items[..0], part) == before;
    var name := VersionOf(parts[part]);
    for index := 0 to |items|
      invariant keyed == before + KeyedPart(items[..index], part)
      invariant Owns(parts, keyed, owner)
    {
      var item := items[index];
      var key := KeyOf(item);
      var entry := Entry(item.timestamp, part, index, item);
      KeyedPartStep(before, items, part, index, entry);
      if key in owner && owner[key] != name {
        ClashFound(parts, keyed, owner, entry);
        ConflictExtends(parts, keyed + [entry], before + KeyedPart(items, part), Conflict(owner[key], name));
        return Some(Conflict(owner[key], name)), keyed, owner;
      }
      OwnsStep(parts, keyed, owner, entry);
      owner := owner[key := name];
      keyed := keyed + [entry];
    }
    TakeAll(items);
    return None, keyed, owner;
  }

  lemma ClashFound(parts: seq<Part>, keyed: seq<Entry>, owner: map<Key, string>, entry: Entry)
    requires AllVersioned(parts) && Owns(parts, keyed, owner) && entry.part < |parts|
    requires KeyOf(entry.item) in owner && owner[KeyOf(entry.item)] != VersionOf(parts[entry.part])
    ensures ConflictIn(parts, keyed + [entry], Conflict(owner[KeyOf(entry.item)], VersionOf(parts[entry.part])))
  {
    var e :| e in keyed && KeyOf(e.item) == KeyOf(entry.item);
    assert e in keyed + [entry] && entry in keyed + [entry] && Clash(parts, e, entry);
  }

  lemma ConflictExtends(parts: seq<Part>, keyed: seq<Entry>, more: seq<Entry>, refusal: Refusal)
    requires AllVersioned(parts) && ConflictIn(parts, keyed, refusal) && keyed <= more
    ensures ConflictIn(parts, more, refusal)
  {
    assert forall e | e in keyed :: e in more;
  }

  /** Every part before `p` is readable, and `p` is not. */
  ghost predicate FirstUnreadable(parts: seq<Part>, p: nat) {
    p < |parts| && AllNormalize(parts[..p]) && !Normalizes(parts[p])
  }

  lemma {:induction false} SomeFirstUnreadable(parts: seq<Part>, k: nat)
    requires k <= |parts| && AllNormalize(parts[..k]) && !AllNormalize(parts)
    ensures exists p :: k <= p && FirstUnreadable(parts, p)
    decreases |parts| - k
  {
    if k == |parts| {
      TakeAll(parts);
    } else if Normalizes(parts[k]) {
      TakeOneMore(parts, k);
      SomeFirstUnreadable(parts, k + 1);
    } else {
      assert FirstUnreadable(parts, k);
    }
  }

  /**
   Reading stops at part `p`: with a conflict among the parts before it, if there is one, else with
   its first unreadable record.
   */
  ghost predicate RefusedBy(parts: seq<Part>, p: nat, refusal: Refusal)
    requires AllVersioned(parts) && FirstUnreadable(parts, p)
  {
    var before := Keyed(AllInputs(parts[..p]));
    if SomeClash(parts, before) then ConflictIn(parts, before, refusal) else RefusesWith(parts[p], refusal)
  }

  /** What refusing these parts says: the unreadable, or the conflict. */
  ghost predicate RightlyRefused(parts: seq<Part>, refusal: Refusal)
    requires AllVersioned(parts)
  {
    if AllNormalize(parts) then ConflictIn(parts, Keyed(AllInputs(parts)), refusal)
    else exists p :: FirstUnreadable(parts, p) && RefusedBy(parts, p, refusal)
  }

  /** The outer loop: every part keyed in turn, or the first refusal. */
  method KeyParts(parts: seq<Part>) returns (r: Result<seq<Entry>, Refusal>)
    requires AllVersioned(parts)
    ensures r.Ok? <==> AllNormalize(parts) && !Clashing(parts)
    ensures r.Ok? ==> r.value == Keyed(AllInputs(parts))
    ensures r.Err? ==> RightlyRefused(parts, r.error)
  {
    var keyed: seq<Entry> := [];
    var owner: map<Key, string> := map[];
    for part := 0 to |parts|
      invariant AllNormalize(parts[..part])
      invariant keyed == Keyed(AllInputs(parts[..part]))
      invariant Owns(parts, keyed, owner)
    {
      var items := NormalizeRecords(parts[part]);
      if items.Err? {
        StopsUnreadable(parts, part, owner, items.error);
        return Err(items.error);
      }
      AppendPart(parts, part);
      var clash;
      clash, keyed, owner := KeyPart(parts, part, items.value, keyed, owner);
      if clash.Some? {
        StopsAtConflict(parts, part + 1, clash.value);
        return Err(clash.value);
      }
    }
    TakeAll(parts);
    OwnsNoClash(parts, keyed, owner);
    return Ok(keyed);
  }

  lemma StopsUnreadable(parts: seq<Part>, k: nat, owner: map<Key, string>, refusal: Refusal)
    requires AllVersioned(parts) && FirstUnreadable(parts, k) && RefusesWith(parts[k], refusal)
    requires Owns(parts, Keyed(AllInputs(parts[..k])), owner)
    ensures !AllNormalize(parts) && RightlyRefused(parts, refusal)
  {
    OwnsNoClash(parts, Keyed(AllInputs(parts[..k])), owner);
    assert RefusedBy(parts, k, refusal);
  }

  /** A conflict among the first parts is the refusal, whatever the later ones hold. */
  lemma StopsAtConflict(parts: seq<Part>, k: nat, refusal: Refusal)
    requires AllVersioned(parts) && k <= |parts| && AllNormalize(parts[..k])
    requires ConflictIn(parts, Keyed(AllInputs(parts[..k])), refusal)
    ensures !AllNormalize(parts) || Clashing(parts)
    ensures RightlyRefused(parts, refusal)
  {
    if AllNormalize(parts) {
      TakeAll(parts);
      ConflictKept(parts, k, |parts|, refusal);
    } else {
      SomeFirstUnreadable(parts, k);
      var p :| k <= p && FirstUnreadable(parts, p);
      ConflictKept(parts, k, p, refusal);
      assert RefusedBy(parts, p, refusal);
    }
  }

  lemma ConflictKept(parts: seq<Part>, k: nat, p: nat, refusal: Refusal)
    requires AllVersioned(parts) && k <= p <= |parts| && AllNormalize(parts[..p]) && AllNormalize(parts[..k])
    requires ConflictIn(parts, Keyed(AllInputs(parts[..k])), refusal)
    ensures ConflictIn(parts, Keyed(AllInputs(parts[..p])), refusal)
    ensures SomeClash(parts, Keyed(AllInputs(parts[..p])))
  {
    var inputs := AllInputs(parts[..p]);
    SameElements(inputs[..k], AllInputs(parts[..k]));
    KeyedExtends(inputs, k);
    ConflictExtends(parts, Keyed(inputs[..k]), Keyed(inputs), refusal);
  }

  /** `CombinedDataset.require_provenance`: an identity, unless some part has none. */
  method RequireProvenance(parts: seq<Part>, sha: string -> string) returns (r: Result<CombinedProvenance, Refusal>)
    ensures r.Ok? <==> AllVersioned(parts)
    ensures r.Ok? ==> r.value == CombinedIdentity(parts, sha)
    ensures r.Ok? ==> && r.value.version == "combined-" + sha(Join(Versions(parts), '\n'))
                      && |r.value.identities| == |parts|
                      && (forall p | 0 <= p < |parts| ::
                            var provenance := parts[p].dataset.provenance.value;
                            r.value.identities[p] == (provenance.version, provenance.contentHash))
                      && r.value.contentHash == sha(Join(ContentHashes(parts), '\n'))
    ensures r.Ok? ==> forall counts: seq<nat> | CountsBytes(parts, counts) :: r.value.byteCount == Total(counts)
    ensures r.Err? ==> r.error == NoProvenance
  {
    for k := 0 to |parts|
      invariant AllVersioned(parts[..k])
    {
      if parts[k].dataset.provenance.None? {
        assert !AllVersioned(parts);
        return Err(NoProvenance);
      }
      assert parts[..k + 1] == parts[..k] + [parts[k]];
    }
    TakeAll(parts);
    forall counts: seq<nat> | CountsBytes(parts, counts) ensures counts == ByteCounts(parts) {
      BytesAreCounted(parts, counts);
    }
    return Ok(CombinedIdentity(parts, sha));
  }

  /**
   Every part's records as one stream. Missing provenance is refused first, then whichever
   comes first of an unreadable record and a clash between versions, then an empty stream.
   */
  method CombinedMarketDataset(parts: seq<Part>, sha: string -> string)
    returns (r: Result<MarketDataset, Refusal>)
    ensures !AllVersioned(parts) ==> r == Err(NoProvenance)
    ensures AllVersioned(parts) && (!AllNormalize(parts) || Clashing(parts)) ==>
              r.Err? && RightlyRefused(parts, r.error)
    ensures AllVersioned(parts) && AllNormalize(parts) && !Clashing(parts) ==>
              if Keyed(AllInputs(parts)) == [] then r == Err(EmptyDataset)
              else r == Ok(CombinedStream(parts, sha)) && ValidStream(r.value)
    ensures r.Ok? ==> r.value.id == "combined-" + sha(Join(Versions(parts), '\n'))
                      && Payloads(r.value) == Sort(ByTime, Concatenation(AllInputs(parts)))
  {
    var provenance := RequireProvenance(parts, sha);
    if provenance.Err? {
      return Err(provenance.error);
    }
    var keyed := KeyParts(parts);
    if keyed.Err? {
      return Err(keyed.error);
    }
    MergedSortsByTime(AllInputs(parts));
    CombinedStreamIsStableSort(parts, sha);
    r := MarketDatasetOf(provenance.value.version, Map(ItemOf, Sort(ByPosition, keyed.value)));
  }

  lemma AppendPart(parts: seq<Part>, part: nat)
    requires part < |parts| && AllNormalize(parts[..part]) && Normalizes(parts[part])
    ensures AllNormalize(parts[..part + 1])
    ensures Keyed(AllInputs(parts[..part + 1]))
         == Keyed(AllInputs(parts[..part])) + KeyedPart(Inputs(parts[part]), part)
  {
    assert parts[..part + 1] == parts[..part] + [parts[part]];
    var inputs := AllInputs(parts[..part + 1]);
    assert inputs[..part] == AllInputs(parts[..part]);
    assert inputs[part] == Inputs(parts[part]);
  }

  lemma {:induction false} KeyedExtends(inputs: seq<seq<MarketInput>>, k: nat)
    requires k <= |inputs|
    ensures Keyed(inputs[..k]) <= Keyed(inputs)
  {
    if k == |inputs| {
      assert inputs[..k] == inputs;
    } else {
      KeyedExtends(inputs[..|inputs| - 1], k);
      assert inputs[..|inputs| - 1][..k] == inputs[..k];
    }
  }

  lemma MergedSortsByTime(inputs: seq<seq<MarketInput>>)
    ensures SortedBy(ByTime, Map(ItemOf, Merged(inputs)))
    ensures Map(ItemOf, Merged(inputs)) == [] <==> Keyed(inputs) == []
  {
    OrdersAreTotal();
    MergedIsStableSort(inputs);
    SortSorts(ByTime, Concatenation(inputs));
    SortPermutes(ByPosition, Keyed(inputs));
  }

  /** Two different parts carry one kind of record, for one asset, at one instant. */
  ghost predicate PartsShareAKey(parts: seq<Part>)
    requires AllNormalize(parts)
  {
    exists p, q, i, j :: 0 <= p < q < |parts| && SameKey(parts, p, q, i, j)
  }

  ghost predicate SameKey(parts: seq<Part>, p: nat, q: nat, i: int, j: int)
    requires AllNormalize(parts) && p < |parts| && q < |parts|
  {
    && 0 <= i < |Inputs(parts[p])| && 0 <= j < |Inputs(parts[q])|
    && var x, y := Inputs(parts[p])[i], Inputs(parts[q])[j];
       x.kind == y.kind && x.assetId == y.assetId && x.timestamp == y.timestamp
  }

  /** For parts that were accepted together: refused exactly when two different parts share a key. */
  lemma AcceptedPartsClashExactly(parts: seq<Part>)
    requires AllVersioned(parts) && AllNormalize(parts) && DistinctVersions(parts)
    ensures Clashing(parts) <==> PartsShareAKey(parts)
  {
    var keyed := Keyed(AllInputs(parts));
    if a, b :| a in keyed && b in keyed && Clash(parts, a, b) {
      ClashSharesAKey(parts, a, b);
    }
    if p, q, i, j :| 0 <= p < q < |parts| && SameKey(parts, p, q, i, j) {
      SharedKeyClashes(parts, p, q, i, j);
    }
  }

  lemma ClashSharesAKey(parts: seq<Part>, a: Entry, b: Entry)
    requires AllVersioned(parts) && AllNormalize(parts)
    requires a in Keyed(AllInputs(parts)) && b in Keyed(AllInputs(parts)) && Clash(parts, a, b)
    ensures PartsShareAKey(parts)
  {
    KeyedPlaced(AllInputs(parts));
    assert Placed(AllInputs(parts), a) && Placed(AllInputs(parts), b);
    if a.part < b.part {
      assert SameKey(parts, a.part, b.part, a.index, b.index);
    } else {
      assert SameKey(parts, b.part, a.part, b.index, a.index);
    }
  }

  lemma SharedKeyClashes(parts: seq<Part>, p: nat, q: nat, i: nat, j: nat)
    requires AllVersioned(parts) && AllNormalize(parts) && DistinctVersions(parts)
    requires p < q < |parts| && SameKey(parts, p, q, i, j)
    ensures Clashing(parts)
  {
    var inputs := AllInputs(parts);
    KeyedHolds(inputs, p, i);
    KeyedHolds(inputs, q, j);
    assert Clash(parts, Entry(inputs[p][i].timestamp, p, i, inputs[p][i]),
                 Entry(inputs[q][j].timestamp, q, j, inputs[q][j]));
  }

  // ------------------------------------------------- what the stream reads as

  /** The combined stream is the parts laid end to end and stably sorted by timestamp. */
  lemma CombinedStreamIsStableSort(parts: seq<Part>, sha: string -> string)
    requires AllVersioned(parts) && AllNormalize(parts)
    ensures Payloads(CombinedStream(parts, sha)) == Sort(ByTime, Concatenation(AllInputs(parts)))
  {
    MergedIsStableSort(AllInputs(parts));
    SameElements(Payloads(CombinedStream(parts, sha)), Map(ItemOf, Merged(AllInputs(parts))));
  }

  /** The part has a record of this one's kind, asset and instant. */
  ghost predicate Carries(part: Part, item: MarketInput)
    requires Normalizes(part)
  {
    exists x :: x in Inputs(part) && x.kind == item.kind && x.assetId == item.assetId && x.timestamp == item.timestamp
  }

  ghost function CarriedBy(part: Part): MarketInput -> bool
    requires Normalizes(part)
  {
    (item: MarketInput) => Carries(part, item)
  }

  lemma KeysNameTheirPart(parts: seq<Part>, p: nat, e: Entry)
    requires AllVersioned(parts) && AllNormalize(parts) && DistinctVersions(parts) && !Clashing(parts)
    requires p < |parts| && e in Keyed(AllInputs(parts))
    ensures Carries(parts[p], e.item) <==> e.part == p
  {
    var inputs := AllInputs(parts);
    KeyedPlaced(inputs);
    assert Placed(inputs, e);
    if e.part == p {
      assert Inputs(parts[p])[e.index] == e.item;
    }
    if x :| x in Inputs(parts[p])
            && x.kind == e.item.kind && x.assetId == e.item.assetId && x.timestamp == e.item.timestamp {
      var i: nat :| i < |Inputs(parts[p])| && Inputs(parts[p])[i] == x;
      KeyedHolds(inputs, p, i);
      assert !Clash(parts, e, Entry(inputs[p][i].timestamp, p, i, inputs[p][i]));
      assert e.part < p || p < e.part || e.part == p;
    }
  }

  /**
   An accepted combination loses nothing of any part: keeping the records whose kind, asset
   and instant a part carries gives the stream `ToMarketDataset` gives that part alone.
   */
  lemma CombinedStreamKeepsEachPart(parts: seq<Part>, sha: string -> string, p: nat)
    requires AllVersioned(parts) && AllNormalize(parts) && DistinctVersions(parts) && !Clashing(parts)
    requires p < |parts|
    ensures Filter(CarriedBy(parts[p]), Payloads(CombinedStream(parts, sha))) == Sort(ByTime, Inputs(parts[p]))
  {
    var merged := Merged(AllInputs(parts));
    SameElements(Payloads(CombinedStream(parts, sha)), Map(ItemOf, merged));
    SortPermutes(ByPosition, Keyed(AllInputs(parts)));
    forall e | e in merged ensures InPart(p)(e) == CarriedBy(parts[p])(ItemOf(e)) {
      KeysNameTheirPart(parts, p, e);
    }
    FilterMap(ItemOf, CarriedBy(parts[p]), InPart(p), merged);
    MergedProjectsToEachPart(AllInputs(parts), p);
  }
}
