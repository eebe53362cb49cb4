/**
 Rows read into a point-in-time set: every row becomes a record or a rejection that names
 its line, and a record is taken once.
 */
module RowIngestion {
  import opened Outcomes
  import opened Ordering
  import opened PointInTime
  import opened ObservationSets

  type Row = seq<Option<string>>

  datatype FindingKind = InconsistentRecord | DuplicateTimestamp | NonNumeric

  datatype Finding = Finding(kind: FindingKind, column: Option<string>, detail: string)

  /** A row refused while it was read, or a record that was refused when it was made. */
  datatype Unbuilt = RowRefused(kind: FindingKind, column: Option<string>, detail: string) | Invalid(detail: string)

  /** What reading one row comes to: a record, or what stopped it. */
  type Build = Row -> Result<Record, Unbuilt>

  datatype Rejection = Rejection(line: nat, values: seq<string>, finding: Finding)

  function FindingOf(unbuilt: Unbuilt): Finding {
    match unbuilt
    case RowRefused(kind, column, detail) => Finding(kind, column, detail)
    case Invalid(detail) => Finding(InconsistentRecord, None, detail)
  }

  function Shown(row: Row): seq<string> {
    Map((cell: Option<string>) => if cell.None? then "" else cell.value, row)
  }

  /** The records the rows build, in order, before repeats are looked for. */
  function Built(rows: seq<Row>, build: Build): seq<Record> {
    if rows == [] then []
    else
      var last := build(rows[|rows| - 1]);
      Built(rows[..|rows| - 1], build) + (if last.Ok? then [last.value] else [])
  }

  ghost predicate HasId(s: seq<Record>, id: string) {
    exists r :: r in s && r.id == id
  }

  /** The first record under each identity, in order. */
  ghost function FirstOfEach(s: seq<Record>): seq<Record> {
    if s == [] then []
    else
      var front := FirstOfEach(s[..|s| - 1]);
      if HasId(s[..|s| - 1], s[|s| - 1].id) then front else front + [s[|s| - 1]]
  }

  /** A row that will not become a record: unreadable, or repeating one already built. */
  ghost predicate Rejects(rows: seq<Row>, build: Build, k: nat)
    requires k < |rows|
  {
    build(rows[k]).Err? ||
    exists j :: 0 <= j < k && build(rows[j]).Ok? && build(rows[j]).value.id == build(rows[k]).value.id
  }

  lemma {:induction false} BuiltFrom(rows: seq<Row>, build: Build, id: string)
    ensures HasId(Built(rows, build), id) <==>
              exists j :: 0 <= j < |rows| && build(rows[j]).Ok? && build(rows[j]).value.id == id
  {
    if rows != [] {
      var n := |rows| - 1;
      BuiltFrom(rows[..n], build, id);
      assert forall j | 0 <= j < n :: rows[..n][j] == rows[j];
      var last := build(rows[n]);
      if last.Ok? {
        assert last.value in Built(rows, build);
      }
    }
  }

  lemma {:induction false} FirstsKeepIds(s: seq<Record>, id: string)
    ensures HasId(FirstOfEach(s), id) <==> HasId(s, id)
  {
    if s != [] {
      var n := |s| - 1;
      FirstsKeepIds(s[..n], id);
      assert s == s[..n] + [s[n]];
      assert HasId(s, id) <==> HasId(s[..n], id) || s[n].id == id;
      var firsts := FirstOfEach(s[..n]);
      assert HasId(firsts + [s[n]], id) <==> HasId(firsts, id) || s[n].id == id by {
        assert s[n] in firsts + [s[n]];
      }
    }
  }

  lemma {:induction false} FirstsAreDistinct(s: seq<Record>)
    ensures DistinctIds(FirstOfEach(s))
  {
    if s != [] {
      var n := |s| - 1;
      FirstsAreDistinct(s[..n]);
      FirstsKeepIds(s[..n], s[n].id);
      var firsts := FirstOfEach(s[..n]);
      assert forall i | 0 <= i < |firsts| :: firsts[i] in firsts;
    }
  }

  /** A rejection shows the row, an absent cell as nothing. */
  ghost predicate Shows(values: seq<string>, row: Row) {
    |values| == |row| && forall c | 0 <= c < |row| :: values[c] == if row[c].None? then "" else row[c].value
  }

  /** It says why: what the row was refused for, that its record is inconsistent, or which record it repeats. */
  ghost predicate Says(finding: Finding, built: Result<Record, Unbuilt>) {
    match built
    case Err(RowRefused(kind, column, detail)) =>
      finding.kind == kind && finding.column == column && finding.detail == detail
    case Err(Invalid(detail)) =>
      finding.kind == InconsistentRecord && finding.column == None && finding.detail == detail
    case Ok(record) =>
      && finding.kind == DuplicateTimestamp && finding.column == None
      && finding.detail == "the row repeats record " + record.id + " exactly"
  }

  /** A rejection names a row that had to be rejected, shows it and says why. */
  ghost predicate RightlyRejected(rows: seq<Row>, build: Build, r: Rejection) {
    && 1 <= r.line <= |rows| && Rejects(rows, build, r.line - 1)
    && Shows(r.values, rows[r.line - 1]) && Says(r.finding, build(rows[r.line - 1]))
  }

  ghost predicate RejectedAt(rejected: seq<Rejection>, k: nat) {
    exists i :: 0 <= i < |rejected| && rejected[i].line == k + 1
  }

  /** Every rejected row of the first `n` is listed. */
  ghost predicate AllListed(rows: seq<Row>, build: Build, rejected: seq<Rejection>, n: nat)
    requires n <= |rows|
  {
    forall k {:trigger RejectedAt(rejected, k)} | 0 <= k < n && Rejects(rows, build, k) :: RejectedAt(rejected, k)
  }

  /** Every row is accounted for once: its record taken, or its line among the rejections. */
  ghost predicate Accounts(rows: seq<Row>, build: Build, records: seq<Record>, rejected: seq<Rejection>) {
    && records == FirstOfEach(Built(rows, build))
    && |records| + |rejected| == |rows|
    && (forall i, j | 0 <= i < j < |rejected| :: rejected[i].line < rejected[j].line)
    && (forall i | 0 <= i < |rejected| :: RightlyRejected(rows, build, rejected[i]))
    && AllListed(rows, build, rejected, |rows|)
  }

  /** What was accounted for before a row still is, with that row looked at. */
  lemma AccountedBefore(rows: seq<Row>, build: Build, k: nat, through: seq<Row>,
                        records: seq<Record>, rejected: seq<Rejection>)
    requires k < |rows| && through == rows[..k + 1] && Accounts(rows[..k], build, records, rejected)
    ensures forall i | 0 <= i < |rejected| :: rejected[i].line <= k && RightlyRejected(through, build, rejected[i])
    ensures AllListed(through, build, rejected, k)
  {
    RejectsStep(rows, build, k);
    forall i | 0 <= i < |rejected| ensures rejected[i].line <= k && RightlyRejected(through, build, rejected[i]) {
      var r := rejected[i];
      assert RightlyRejected(rows[..k], build, r);
      assert rows[..k][r.line - 1] == through[r.line - 1];
    }
    forall j | 0 <= j < k && Rejects(through, build, j) ensures RejectedAt(rejected, j) {
      assert Rejects(rows[..k], build, j);
    }
  }

  lemma AccountsAccept(rows: seq<Row>, build: Build, k: nat, records: seq<Record>, rejected: seq<Rejection>)
    requires k < |rows| && Accounts(rows[..k], build, records, rejected)
    requires build(rows[k]).Ok? && !HasId(records, build(rows[k]).value.id)
    ensures Accounts(rows[..k + 1], build, records + [build(rows[k]).value], rejected)
  {
    var through := rows[..k + 1];
    FirstsStep(rows, build, k);
    AccountedBefore(rows, build, k, through, records, rejected);
    NotRejected(rows, build, k, through);
  }

  lemma NotRejected(rows: seq<Row>, build: Build, k: nat, through: seq<Row>)
    requires k < |rows| && through == rows[..k + 1]
    requires build(rows[k]).Ok? && !HasId(FirstOfEach(Built(rows[..k], build)), build(rows[k]).value.id)
    ensures !Rejects(through, build, k)
  {
    RejectsStep(rows, build, k);
  }

  lemma AccountsReject(rows: seq<Row>, build: Build, k: nat, records: seq<Record>, rejected: seq<Rejection>,
                       r: Rejection)
    requires k < |rows| && Accounts(rows[..k], build, records, rejected)
    requires build(rows[k]).Err? || HasId(records, build(rows[k]).value.id)
    requires r.line == k + 1 && Shows(r.values, rows[k]) && Says(r.finding, build(rows[k]))
    ensures Accounts(rows[..k + 1], build, records, rejected + [r])
  {
    var through := rows[..k + 1];
    FirstsStep(rows, build, k);
    AccountedBefore(rows, build, k, through, records, rejected);
    RejectedNow(rows, build, k, through, r);
    EveryLineRejected(through, build, k, rejected, r);
  }

  lemma RejectedNow(rows: seq<Row>, build: Build, k: nat, through: seq<Row>, r: Rejection)
    requires k < |rows| && through == rows[..k + 1]
    requires build(rows[k]).Err? || HasId(FirstOfEach(Built(rows[..k], build)), build(rows[k]).value.id)
    requires r.line == k + 1 && Shows(r.values, rows[k]) && Says(r.finding, build(rows[k]))
    ensures RightlyRejected(through, build, r)
  {
    RejectsStep(rows, build, k);
    assert through[k] == rows[k];
  }

  lemma EveryLineRejected(through: seq<Row>, build: Build, k: nat, rejected: seq<Rejection>, r: Rejection)
    requires |through| == k + 1 && r.line == k + 1
    requires AllListed(through, build, rejected, k)
    ensures AllListed(through, build, rejected + [r], k + 1)
  {
    forall j | 0 <= j < k + 1 && Rejects(through, build, j) ensures RejectedAt(rejected + [r], j) {
      if j < k {
        RejectedStays(rejected, r, j);
      } else {
        assert (rejected + [r])[|rejected|].line == j + 1;
      }
    }
  }

  lemma RejectedStays(rejected: seq<Rejection>, r: Rejection, k: nat)
    requires RejectedAt(rejected, k)
    ensures RejectedAt(rejected + [r], k)
  {
    var i :| 0 <= i < |rejected| && rejected[i].line == k + 1;
    assert (rejected + [r])[i].line == k + 1;
  }

  lemma FirstsStep(rows: seq<Row>, build: Build, k: nat)
    requires k < |rows|
    ensures var firsts := FirstOfEach(Built(rows[..k], build));
            FirstOfEach(Built(rows[..k + 1], build)) ==
            if build(rows[k]).Err? || HasId(firsts, build(rows[k]).value.id) then firsts
            else firsts + [build(rows[k]).value]
  {
    BuiltStep(rows, build, k);
    if build(rows[k]).Ok? {
      FirstsKeepIds(Built(rows[..k], build), build(rows[k]).value.id);
      var whole := Built(rows[..k], build) + [build(rows[k]).value];
      assert whole[..|whole| - 1] == Built(rows[..k], build);
    } else {
      assert Built(rows[..k + 1], build) == Built(rows[..k], build);
    }
  }

  lemma BuiltStep(rows: seq<Row>, build: Build, k: nat)
    requires k < |rows|
    ensures Built(rows[..k + 1], build)
         == Built(rows[..k], build) + (if build(rows[k]).Ok? then [build(rows[k]).value] else [])
  {
    assert rows[..k + 1][..k] == rows[..k];
  }

  lemma RejectsStep(rows: seq<Row>, build: Build, k: nat)
    requires k < |rows|
    ensures forall j | 0 <= j < k :: Rejects(rows[..k + 1], build, j) <==> Rejects(rows[..k], build, j)
    ensures Rejects(rows[..k + 1], build, k) <==>
              build(rows[k]).Err? || HasId(FirstOfEach(Built(rows[..k], build)), build(rows[k]).value.id)
  {
    assert forall j | 0 <= j < k :: rows[..k + 1][j] == rows[j] == rows[..k][j];
    if build(rows[k]).Ok? {
      BuiltFrom(rows[..k], build, build(rows[k]).value.id);
      FirstsKeepIds(Built(rows[..k], build), build(rows[k]).value.id);
    }
  }

  /** The loop of `_ingest`. */
  method ReadRows(rows: seq<Row>, build: Build) returns (records: seq<Record>, rejected: seq<Rejection>)
    ensures Accounts(rows, build, records, rejected)
  {
    records, rejected := [], [];
    var seen: set<string> := {};
    for k := 0 to |rows|
      invariant Accounts(rows[..k], build, records, rejected)
      invariant forall id :: id in seen <==> HasId(records, id)
    {
      var row := rows[k];
      var built := build(row);
      var finding: Option<Finding> := None;
      if built.Err? {
        finding := Some(FindingOf(built.error));
      } else if built.value.id in seen {
        finding := Some(Finding(DuplicateTimestamp, None, "the row repeats record " + built.value.id + " exactly"));
      }
      if finding.Some? {
        var rejection := Rejection(k + 1, Shown(row), finding.value);
        AccountsReject(rows, build, k, records, rejected, rejection);
        rejected := rejected + [rejection];
        continue;
      }
      AccountsAccept(rows, build, k, records, rejected);
      SeenStep(records, seen, built.value);
      seen := seen + {built.value.id};
      records := records + [built.value];
    }
    TakeAll(rows);
  }

  lemma SeenStep(records: seq<Record>, seen: set<string>, r: Record)
    requires forall id :: id in seen <==> HasId(records, id)
    ensures forall id :: id in seen + {r.id} <==> HasId(records + [r], id)
  {
    assert r in records + [r];
    forall id ensures id in seen + {r.id} <==> HasId(records + [r], id) {
      if HasId(records, id) {
        var x :| x in records && x.id == id;
        assert x in records + [r];
      }
    }
  }

  datatype IngestRefusal = NoRowBecameARecord | SetRefused(reason: SetRefusal)

  datatype Ingested = Ingested(records: seq<Record>, rejected: seq<Rejection>)

  /**
   `_ingest`: refused exactly when no row became a record or the records' vintages
   contradict each other; a repeated record never reaches the set.
   */
  method Ingest(rows: seq<Row>, build: Build) returns (r: Result<Ingested, IngestRefusal>)
    ensures var accepted := FirstOfEach(Built(rows, build));
            && (r.Ok? <==> accepted != [] && DistinctRevisions(accepted) && RevisionsInOrder(accepted))
            && (r.Ok? ==> r.value.records == InOrder(accepted) && Accounts(rows, build, accepted, r.value.rejected))
            && (r.Ok? ==> KeptInOrder(r.value.records))
            && (r == Err(NoRowBecameARecord) <==> Built(rows, build) == [])
            && (r.Err? && accepted != [] ==>
                  r.error == SetRefused(if DistinctRevisions(accepted) then PublishedAhead else RepeatedRevision))
  {
    var records, rejected := ReadRows(rows, build);
    FirstsAreDistinct(Built(rows, build));
    FirstsEmpty(Built(rows, build));
    if records == [] {
      return Err(NoRowBecameARecord);
    }
    var built := BuildObservationSet(records);
    if built.Err? {
      return Err(SetRefused(built.error));
    }
    return Ok(Ingested(built.value, rejected));
  }

  lemma {:induction false} FirstsEmpty(s: seq<Record>)
    ensures FirstOfEach(s) == [] <==> s == []
  {
    if s != [] {
      FirstsKeepIds(s, s[0].id);
      assert s[0] in s;
      assert HasId(s, s[0].id);
    }
  }

  // -------------------------------------------------------------- more rows later

  lemma {:induction false} BuiltConcat(a: seq<Row>, b: seq<Row>, build: Build)
    ensures Built(a + b, build) == Built(a, build) + Built(b, build)
  {
    if b == [] {
      assert a + b == a;
    } else {
      var n := |b| - 1;
      assert (a + b)[..|a + b| - 1] == a + b[..n];
      BuiltConcat(a, b[..n], build);
    }
  }

  ghost function NotIn(s: seq<Record>): Record -> bool { (r: Record) => !HasId(s, r.id) }

  lemma {:induction false} FirstsConcat(a: seq<Record>, b: seq<Record>)
    ensures FirstOfEach(a + b) == FirstOfEach(a) + Filter(NotIn(a), FirstOfEach(b))
  {
    if b == [] {
      assert a + b == a;
    } else {
      var n := |b| - 1;
      var front, r := b[..n], b[n];
      assert (a + b)[..|a + b| - 1] == a + front;
      FirstsConcat(a, front);
      HasIdConcat(a, front, r.id);
      FilterAppend(NotIn(a), FirstOfEach(front), r);
    }
  }

  lemma HasIdConcat(a: seq<Record>, b: seq<Record>, id: string)
    ensures HasId(a + b, id) <==> HasId(a, id) || HasId(b, id)
  {
  }

  /** Ingesting more rows afterwards accepts what they add under identities not yet accepted, and nothing else. */
  lemma IngestingMore(a: seq<Row>, b: seq<Row>, build: Build)
    ensures FirstOfEach(Built(a + b, build))
         == FirstOfEach(Built(a, build)) + Filter(NotIn(Built(a, build)), FirstOfEach(Built(b, build)))
  {
    BuiltConcat(a, b, build);
    FirstsConcat(Built(a, build), Built(b, build));
  }

  /** Repeating any of the rows adds no record. */
  lemma RepeatingAddsNothing(rows: seq<Row>, again: seq<Row>, build: Build)
    requires forall row | row in again :: row in rows
    ensures FirstOfEach(Built(rows + again, build)) == FirstOfEach(Built(rows, build))
  {
    IngestingMore(rows, again, build);
    var firsts := FirstOfEach(Built(again, build));
    forall r | r in firsts ensures !NotIn(Built(rows, build))(r) {
      assert HasId(firsts, r.id);
      FirstsKeepIds(Built(again, build), r.id);
      BuiltFrom(again, build, r.id);
      var j :| 0 <= j < |again| && build(again[j]).Ok? && build(again[j]).value.id == r.id;
      assert again[j] in rows;
      BuiltFrom(rows, build, r.id);
    }
    FilterNone(NotIn(Built(rows, build)), firsts);
  }
}
