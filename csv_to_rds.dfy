/** The load side of the CSV-to-database Lambda
    (budget-csv-transform/src/lambda/csv_to_rds/handler.py): the row loop of
    `process_csv_file` against an abstract database sink, and the guard
    chain of the `main` handler. */
module CsvToRds {
  import opened Options
  import opened Coercion
  import opened Seqs

  /** What the database connection sees, in order. */
  datatype SinkEvent = Executed(record: Record, accepted: bool) | Committed | CursorClosed | ConnectionClosed

  /** One database connection with its cursor. Whether the database accepts
      an insert of a given record is the oracle `accepts`; accepted rows wait
      in `pending` until the commit moves them to `stored`. */
  class Sink {
    const accepts: Record -> bool
    var log: seq<SinkEvent>
    var pending: seq<Record>
    var stored: seq<Record>

    /** `psycopg2.connect(...)` followed by `conn.cursor()`. */
    constructor (accepts: Record -> bool)
      ensures this.accepts == accepts
      ensures log == [] && pending == [] && stored == []
    {
      this.accepts := accepts;
      log, pending, stored := [], [], [];
    }

    /** `cursor.execute(insert_sql, record)`; `ok` is false where it raises. */
    method Execute(record: Record) returns (ok: bool)
      modifies this
      ensures ok == accepts(record)
      ensures log == old(log) + [Executed(record, ok)]
      ensures pending == old(pending) + (if ok then [record] else [])
      ensures stored == old(stored)
    {
      ok := accepts(record);
      log := log + [Executed(record, ok)];
      if ok {
        pending := pending + [record];
      }
    }

    /** `conn.commit()`. */
    method Commit()
      modifies this
      ensures log == old(log) + [Committed]
      ensures stored == old(stored) + old(pending) && pending == []
    {
      log := log + [Committed];
      stored, pending := stored + pending, [];
    }

    /** `cursor.close()`. */
    method CloseCursor()
      modifies this
      ensures log == old(log) + [CursorClosed]
      ensures stored == old(stored) && pending == old(pending)
    {
      log := log + [CursorClosed];
    }

    /** `conn.close()`. */
    method CloseConnection()
      modifies this
      ensures log == old(log) + [ConnectionClosed]
      ensures stored == old(stored) && pending == old(pending)
    {
      log := log + [ConnectionClosed];
    }
  }

  // ---------------------------------------------------------------------
  // The specification of process_csv_file

  /** How `process_csv_file` ends: normally with its `row_count`, with the
      `StopIteration` of `next(csv_reader)` on an input without even a
      header row, or with the `IndexError` that `parse_row` raises at data
      row `index` (counted from 0 after the header). */
  datatype LoadOutcome = Finished(rowCount: nat) | NoHeader | ShortRow(index: nat)

  /** Index of the first data row with fewer than 13 fields, or the number of
      rows when there is none. */
  function FirstShort(data: seq<seq<string>>): (k: nat)
    ensures k <= |data|
    ensures forall j :: 0 <= j < k ==> |data[j]| >= 13
    ensures k < |data| ==> |data[k]| < 13
  {
    if data == [] then 0
    else if |data[0]| < 13 then 0
    else 1 + FirstShort(data[1..])
  }

  /** The records `parse_row` makes of well-formed rows, in order. */
  function Records(data: seq<seq<string>>): (recs: seq<Record>)
    requires forall j :: 0 <= j < |data| ==> |data[j]| >= 13
    ensures |recs| == |data|
  {
    if data == [] then []
    else Records(data[..|data| - 1]) + [ParseRow(data[|data| - 1]).record]
  }

  /** The `j`-th record is what `parse_row` makes of the `j`-th row. */
  lemma {:induction false} RecordsAt(data: seq<seq<string>>, j: nat)
    requires forall k :: 0 <= k < |data| ==> |data[k]| >= 13
    requires j < |data|
    ensures Records(data)[j] == ParseRow(data[j]).record
  {
    if j < |data| - 1 {
      var init := data[..|data| - 1];
      assert init[j] == data[j];
      RecordsAt(init, j);
    }
  }

  /** The records the sink accepts, in order. */
  function Accepted(recs: seq<Record>, accepts: Record -> bool): seq<Record> {
    if recs == [] then []
    else Accepted(recs[..|recs| - 1], accepts) + (if accepts(recs[|recs| - 1]) then [recs[|recs| - 1]] else [])
  }

  /** The execute events of an attempt to insert `recs` in order. */
  function Executions(recs: seq<Record>, accepts: Record -> bool): (log: seq<SinkEvent>)
    ensures |log| == |recs|
    ensures forall j :: 0 <= j < |recs| ==> log[j] == Executed(recs[j], accepts(recs[j]))
  {
    seq(|recs|, j requires 0 <= j < |recs| => Executed(recs[j], accepts(recs[j])))
  }

  /** How many inserts of `recs` the sink rejects. */
  function Rejections(recs: seq<Record>, accepts: Record -> bool): nat {
    if recs == [] then 0
    else Rejections(recs[..|recs| - 1], accepts) + (if accepts(recs[|recs| - 1]) then 0 else 1)
  }

  /** The records that reach the attempt loop: the data rows before the first short one. */
  function Attempted(rows: seq<seq<string>>): seq<Record>
    requires rows != []
  {
    var data := rows[1..];
    Records(data[..FirstShort(data)])
  }

  /** Everything `process_csv_file` does to the sink, and how it ends. */
  datatype LoadRun = LoadRun(outcome: LoadOutcome, log: seq<SinkEvent>, pending: seq<Record>, stored: seq<Record>)

  function ExpectedLoad(rows: seq<seq<string>>, accepts: Record -> bool): LoadRun {
    if rows == [] then LoadRun(NoHeader, [], [], [])
    else
      var data := rows[1..];
      var recs := Attempted(rows);
      var ok := Accepted(recs, accepts);
      if FirstShort(data) < |data| then
        LoadRun(ShortRow(FirstShort(data)), Executions(recs, accepts), ok, [])
      else
        LoadRun(Finished(|ok|), Executions(recs, accepts) + [Committed, CursorClosed, ConnectionClosed], [], ok)
  }

  /** `process_csv_file` (handler.py:53-85), after the connection is made:
      drop the header, attempt the rows in order, count the accepted
      inserts, commit once after the loop and close. A short row raises out
      of the loop before anything is committed or closed. */
  method ProcessCsvFile(rows: seq<seq<string>>, sink: Sink) returns (outcome: LoadOutcome)
    requires sink.log == [] && sink.pending == [] && sink.stored == []
    modifies sink
    ensures var run := ExpectedLoad(rows, sink.accepts);
      outcome == run.outcome && sink.log == run.log && sink.pending == run.pending && sink.stored == run.stored
  {
    if rows == [] {
      return NoHeader;
    }
    var data := rows[1..];
    var rowCount := 0;
    var i := 0;
    while i < |data|
      invariant i <= FirstShort(data)
      invariant sink.log == Executions(Records(data[..i]), sink.accepts)
      invariant sink.pending == Accepted(Records(data[..i]), sink.accepts)
      invariant sink.stored == []
      invariant rowCount == |sink.pending|
    {
      var parsed := ParseRow(data[i]);
      if parsed.IndexError? {
        ExpectedEnd(rows, sink.accepts, i);
        return ShortRow(i);
      }
      var ok := sink.Execute(parsed.record);
      if ok {
        rowCount := rowCount + 1;
      }
      RecordsExtend(data, i);
      ExtendOne(Records(data[..i]), parsed.record, sink.accepts);
      i := i + 1;
    }
    ghost var attempts := sink.log;
    sink.Commit();
    sink.CloseCursor();
    sink.CloseConnection();
    AppendThree(attempts, Committed, CursorClosed, ConnectionClosed);
    outcome := Finished(rowCount);
    ExpectedEnd(rows, sink.accepts, i);
  }

  /** The expected run, given the point where the row loop stops. */
  lemma ExpectedEnd(rows: seq<seq<string>>, accepts: Record -> bool, i: nat)
    requires rows != [] && i <= FirstShort(rows[1..])
    requires i == |rows[1..]| || |rows[1..][i]| < 13
    ensures i == FirstShort(rows[1..])
    ensures var data := rows[1..]; var recs := Records(data[..i]); var ok := Accepted(recs, accepts);
      ExpectedLoad(rows, accepts) ==
        if i < |data| then LoadRun(ShortRow(i), Executions(recs, accepts), ok, [])
        else LoadRun(Finished(|ok|), Executions(recs, accepts) + [Committed, CursorClosed, ConnectionClosed], [], ok)
  {
  }

  lemma RecordsExtend(data: seq<seq<string>>, i: nat)
    requires i < |data| && forall j :: 0 <= j <= i ==> |data[j]| >= 13
    ensures Records(data[..i + 1]) == Records(data[..i]) + [ParseRow(data[i]).record]
  {
    assert data[..i + 1][..i] == data[..i];
  }

  /** One more attempt adds one execute event and, if accepted, one record. */
  lemma ExtendOne(recs: seq<Record>, r: Record, accepts: Record -> bool)
    ensures Executions(recs + [r], accepts) == Executions(recs, accepts) + [Executed(r, accepts(r))]
    ensures Accepted(recs + [r], accepts) == Accepted(recs, accepts) + (if accepts(r) then [r] else [])
  {
    assert (recs + [r])[..|recs|] == recs;
  }

  // ---------------------------------------------------------------------
  // Properties of a load

  /** Accepted inserts and rejected inserts make up every attempt. */
  lemma {:induction false} AcceptedPlusRejected(recs: seq<Record>, accepts: Record -> bool)
    ensures |Accepted(recs, accepts)| + Rejections(recs, accepts) == |recs|
  {
    if recs != [] {
      AcceptedPlusRejected(recs[..|recs| - 1], accepts);
    }
  }

  /** Every accepted record was attempted and accepted. */
  lemma {:induction false} AcceptedAreAttempted(recs: seq<Record>, accepts: Record -> bool)
    ensures forall r :: r in Accepted(recs, accepts) ==> r in recs && accepts(r)
  {
    if recs != [] {
      AcceptedAreAttempted(recs[..|recs| - 1], accepts);
    }
  }

  /** The accepted records keep their input order: those accepted from an
      earlier stretch of the input come before those accepted from a later
      one. */
  lemma {:induction false} AcceptedAppend(a: seq<Record>, b: seq<Record>, accepts: Record -> bool)
    ensures Accepted(a + b, accepts) == Accepted(a, accepts) + Accepted(b, accepts)
    decreases |b|
  {
    if b == [] {
      assert a + b == a;
    } else {
      var init := b[..|b| - 1];
      var last := b[|b| - 1];
      assert (a + b)[..|a + b| - 1] == a + init;
      AcceptedAppend(a, init, accepts);
      Associative(Accepted(a, accepts), Accepted(init, accepts), if accepts(last) then [last] else []);
    }
  }

  /** Exactly one rejected insert means every other row is counted. */
  lemma {:induction false} OneRejection(recs: seq<Record>, accepts: Record -> bool, bad: nat)
    requires bad < |recs| && !accepts(recs[bad])
    requires forall j :: 0 <= j < |recs| && j != bad ==> accepts(recs[j])
    ensures Rejections(recs, accepts) == 1
    ensures |Accepted(recs, accepts)| == |recs| - 1
  {
    NoRejection(recs[..bad], accepts);
    var prefix := recs[..bad + 1];
    assert prefix[..bad] == recs[..bad];
    assert Rejections(prefix, accepts) == 1;
    RejectionsTail(recs, bad + 1, accepts);
    AcceptedPlusRejected(recs, accepts);
  }

  lemma {:induction false} NoRejection(recs: seq<Record>, accepts: Record -> bool)
    requires forall j :: 0 <= j < |recs| ==> accepts(recs[j])
    ensures Rejections(recs, accepts) == 0
  {
    if recs != [] {
      NoRejection(recs[..|recs| - 1], accepts);
    }
  }

  /** Rejections past position `k` add nothing when every later record is accepted. */
  lemma {:induction false} RejectionsTail(recs: seq<Record>, k: nat, accepts: Record -> bool)
    requires k <= |recs|
    requires forall j :: k <= j < |recs| ==> accepts(recs[j])
    ensures Rejections(recs, accepts) == Rejections(recs[..k], accepts)
    decreases |recs| - k
  {
    if k < |recs| {
      var longer := recs[..k + 1];
      assert longer[..k] == recs[..k];
      RejectionsTail(recs, k + 1, accepts);
      if k + 1 < |recs| {
        RejectionsPrefix(recs, k + 1, accepts);
      }
    } else {
      assert recs[..k] == recs;
    }
  }

  lemma {:induction false} RejectionsPrefix(recs: seq<Record>, k: nat, accepts: Record -> bool)
    requires k < |recs|
    requires forall j :: k <= j < |recs| ==> accepts(recs[j])
    ensures Rejections(recs[..k + 1], accepts) == Rejections(recs[..k], accepts)
  {
    var longer := recs[..k + 1];
    assert longer[..k] == recs[..k];
  }

  /** The execute events of the attempted records open the log of every load. */
  lemma LoadLogStart(rows: seq<seq<string>>, accepts: Record -> bool)
    requires rows != []
    ensures var log := ExpectedLoad(rows, accepts).log;
      |Attempted(rows)| <= |log| && log[..|Attempted(rows)|] == Executions(Attempted(rows), accepts)
  {
  }

  /** The header is never inserted and data rows are attempted in order:
      the `j`-th execute carries the record of row `j + 1`. */
  lemma AttemptsFollowRows(rows: seq<seq<string>>, accepts: Record -> bool, j: nat)
    requires rows != [] && j < FirstShort(rows[1..])
    ensures ParseRow(rows[j + 1]).Parsed?
    ensures ExpectedLoad(rows, accepts).log[j] == Executed(ParseRow(rows[j + 1]).record, accepts(ParseRow(rows[j + 1]).record))
  {
    var data := rows[1..];
    var pre := data[..FirstShort(data)];
    assert pre[j] == rows[j + 1];
    RecordsAt(pre, j);
    var recs := Attempted(rows);
    LoadLogStart(rows, accepts);
    var log := ExpectedLoad(rows, accepts).log;
    assert log[j] == log[..|recs|][j];
  }

  /** A load that stops at a short row logs only execute events. */
  lemma ShortRowNoCommit(rows: seq<seq<string>>, accepts: Record -> bool)
    requires rows != [] && FirstShort(rows[1..]) < |rows[1..]|
    ensures Committed !in ExpectedLoad(rows, accepts).log
    ensures !(forall j :: 1 <= j < |rows| ==> |rows[j]| >= 13)
  {
    var data := rows[1..];
    var k := FirstShort(data);
    assert rows[k + 1] == data[k];
    var log := ExpectedLoad(rows, accepts).log;
    assert log == Executions(Attempted(rows), accepts);
    forall e | e in log ensures e.Executed? {
      var n :| 0 <= n < |log| && log[n] == e;
    }
  }

  /** A load whose rows are all well-formed commits once, after the attempts. */
  lemma WholeLoopCommits(rows: seq<seq<string>>, accepts: Record -> bool)
    requires rows != [] && FirstShort(rows[1..]) == |rows[1..]|
    ensures Committed in ExpectedLoad(rows, accepts).log
    ensures forall j :: 1 <= j < |rows| ==> |rows[j]| >= 13
    ensures var run := ExpectedLoad(rows, accepts);
      run.outcome.Finished? && run.outcome.rowCount == |run.stored| <= |rows| - 1
  {
    var data := rows[1..];
    var recs := Attempted(rows);
    var log := ExpectedLoad(rows, accepts).log;
    assert log == Executions(recs, accepts) + [Committed, CursorClosed, ConnectionClosed];
    assert log[|recs|] == Committed;
    forall j | 1 <= j < |rows| ensures |rows[j]| >= 13 {
      assert rows[j] == data[j - 1];
    }
    AcceptedPlusRejected(recs, accepts);
  }

  /** The load commits exactly when every data row has all 13 fields, and
      then reports exactly the number of rows the sink accepted, which are
      the rows it stores. */
  lemma CommitOnlyAfterWholeLoop(rows: seq<seq<string>>, accepts: Record -> bool)
    ensures var run := ExpectedLoad(rows, accepts);
      (Committed in run.log <==> rows != [] && forall j :: 1 <= j < |rows| ==> |rows[j]| >= 13)
    ensures var run := ExpectedLoad(rows, accepts);
      run.outcome.Finished? ==> run.outcome.rowCount == |run.stored| <= |rows| - 1
  {
    if rows != [] {
      if FirstShort(rows[1..]) < |rows[1..]| {
        ShortRowNoCommit(rows, accepts);
      } else {
        WholeLoopCommits(rows, accepts);
      }
    }
  }

  /** With every data row well-formed, every data row is attempted. */
  lemma AllRowsAttempted(rows: seq<seq<string>>)
    requires rows != [] && forall j :: 1 <= j < |rows| ==> |rows[j]| >= 13
    ensures forall j :: 0 <= j < |rows[1..]| ==> |rows[1..][j]| >= 13
    ensures FirstShort(rows[1..]) == |rows[1..]|
    ensures Attempted(rows) == Records(rows[1..])
  {
    var data := rows[1..];
    forall j | 0 <= j < |data| ensures |data[j]| >= 13 {
      assert data[j] == rows[j + 1];
    }
    assert data[..|data|] == data;
  }

  /** The `j`-th record of the data rows is what `parse_row` makes of row `j + 1`. */
  lemma RecordOfRow(rows: seq<seq<string>>, j: nat)
    requires rows != [] && forall k :: 0 <= k < |rows[1..]| ==> |rows[1..][k]| >= 13
    requires j < |rows| - 1
    ensures Records(rows[1..])[j] == ParseRow(rows[j + 1]).record
  {
    RecordsAt(rows[1..], j);
    assert rows[1..][j] == rows[j + 1];
  }

  /** Whether the sink accepts the insert of a well-formed row's record. */
  predicate RowAccepted(accepts: Record -> bool, row: seq<string>)
    requires |row| >= 13
  {
    accepts(ParseRow(row).record)
  }

  /** With every row well-formed and exactly one insert rejected, the load
      finishes and counts all other rows. */
  lemma OneBadRowSkipped(rows: seq<seq<string>>, accepts: Record -> bool, bad: nat)
    requires rows != [] && forall j :: 1 <= j < |rows| ==> |rows[j]| >= 13
    requires 1 <= bad < |rows|
    requires forall j {:trigger RowAccepted(accepts, rows[j])} :: 1 <= j < |rows| ==> (RowAccepted(accepts, rows[j]) <==> j != bad)
    ensures ExpectedLoad(rows, accepts).outcome == Finished(|rows| - 2)
  {
    AllRowsAttempted(rows);
    var recs := Records(rows[1..]);
    forall j | 0 <= j < |recs| ensures accepts(recs[j]) <==> j != bad - 1 {
      RecordOfRow(rows, j);
      assert RowAccepted(accepts, rows[j + 1]) == accepts(recs[j]);
    }
    OneRejection(recs, accepts, bad - 1);
    WholeLoopCommits(rows, accepts);
  }

  // ---------------------------------------------------------------------
  // main: the guard chain

  /** The notification event, a JSON value. */
  datatype Json = JObject(fields: map<string, Json>) | JArray(items: seq<Json>) | JString(text: string) | JNumber(number: int) | JBool(flag: bool) | JNull

  function Field(j: Option<Json>, key: string): Option<Json> {
    if j.Some? && j.value.JObject? && key in j.value.fields then Some(j.value.fields[key]) else None
  }

  function First(j: Option<Json>): Option<Json> {
    if j.Some? && j.value.JArray? && |j.value.items| > 0 then Some(j.value.items[0]) else None
  }

  /** `event["Records"][0]["s3"]["object"]["key"]`, or `None` where any step raises. */
  function ObjectKey(event: Json): Option<Json> {
    Field(Field(Field(First(Field(Some(event), "Records")), "s3"), "object"), "key")
  }

  /** The five environment variables `main` reads (handler.py:91-95). */
  const BucketVar := "BUCKET_NAME"
  const SecretVar := "SECRET_ARN"
  const HostVar := "RDS_ENDPOINT"
  const PortVar := "RDS_PORT"
  const DbNameVar := "DB_NAME"

  predicate HasEnvironment(env: map<string, string>) {
    BucketVar in env && SecretVar in env && HostVar in env && PortVar in env && DbNameVar in env
  }

  /** The secret holds both keys `main` reads (handler.py:135-136). */
  predicate HasCredentials(secret: map<string, string>) {
    "username" in secret && "password" in secret
  }

  datatype DbConfig = DbConfig(host: string, port: string, dbname: string, user: string, password: string)

  /** Why `main` stops before loading: one of its early returns, or the
      `KeyError` of a secret without `username` or `password`, which
      escapes the handler. */
  datatype Stop = MissingEnvironment | MalformedEvent | ObjectReadFailed | SecretReadFailed | CredentialKeyMissing

  datatype Step = Halt(reason: Stop) | Load(bucket: string, key: Json, config: DbConfig, content: string)

  /** `main` up to the call of `process_csv_file` (handler.py:87-137). The
      S3 read and the secret lookup are the oracles `getObject` (bucket, key
      to the decoded text, `None` where it raises) and `getSecret` (secret
      id to the parsed secret, `None` where the lookup or `json.loads`
      raises). */
  function Dispatch(env: map<string, string>, event: Json,
                    getObject: (string, Json) -> Option<string>,
                    getSecret: string -> Option<map<string, string>>): (r: Step)
    ensures !HasEnvironment(env) ==> r == Halt(MissingEnvironment)
    ensures HasEnvironment(env) && ObjectKey(event).None? ==> r == Halt(MalformedEvent)
    ensures HasEnvironment(env) && ObjectKey(event).Some? ==>
      (getObject(env[BucketVar], ObjectKey(event).value).None? ==> r == Halt(ObjectReadFailed))
    ensures HasEnvironment(env) && ObjectKey(event).Some? && getObject(env[BucketVar], ObjectKey(event).value).Some? ==>
      (getSecret(env[SecretVar]).None? ==> r == Halt(SecretReadFailed))
    ensures HasEnvironment(env) && ObjectKey(event).Some? && getObject(env[BucketVar], ObjectKey(event).value).Some? ==>
      (getSecret(env[SecretVar]).Some? && !HasCredentials(getSecret(env[SecretVar]).value) ==> r == Halt(CredentialKeyMissing))
    ensures r.Load? <==>
      (HasEnvironment(env) && ObjectKey(event).Some? && getObject(env[BucketVar], ObjectKey(event).value).Some? &&
       getSecret(env[SecretVar]).Some? && HasCredentials(getSecret(env[SecretVar]).value))
    ensures r.Load? ==>
      && Some(r.key) == ObjectKey(event)
      && r.bucket == env[BucketVar]
      && getObject(r.bucket, r.key) == Some(r.content)
      && r.config == DbConfig(env[HostVar], env[PortVar], env[DbNameVar],
                              getSecret(env[SecretVar]).value["username"],
                              getSecret(env[SecretVar]).value["password"])
  {
    if !HasEnvironment(env) then Halt(MissingEnvironment)
    else match ObjectKey(event)
      case None => Halt(MalformedEvent)
      case Some(key) =>
        match getObject(env[BucketVar], key)
        case None => Halt(ObjectReadFailed)
        case Some(content) =>
          match getSecret(env[SecretVar])
          case None => Halt(SecretReadFailed)
          case Some(secret) =>
            if HasCredentials(secret) then
              Load(env[BucketVar], key,
                   DbConfig(env[HostVar], env[PortVar], env[DbNameVar], secret["username"], secret["password"]),
                   content)
            else Halt(CredentialKeyMissing)
  }

  /** Missing configuration or a malformed event stops `main` before any S3
      read or secret lookup: the outcome is the same whatever those would
      have returned. */
  lemma NoReadBeforeGuards(env: map<string, string>, event: Json,
                           get1: (string, Json) -> Option<string>, get2: (string, Json) -> Option<string>,
                           sec1: string -> Option<map<string, string>>, sec2: string -> Option<map<string, string>>)
    requires !HasEnvironment(env) || ObjectKey(event).None?
    ensures Dispatch(env, event, get1, sec1) == Dispatch(env, event, get2, sec2)
    ensures Dispatch(env, event, get1, sec1).Halt?
  {
  }

  /** Only the first record of the event is read: records after it never
      change what `main` does. */
  lemma OnlyFirstRecord(env: map<string, string>, fields: map<string, Json>, first: Json, rest: seq<Json>,
                        getObject: (string, Json) -> Option<string>,
                        getSecret: string -> Option<map<string, string>>)
    ensures Dispatch(env, JObject(fields["Records" := JArray([first] + rest)]), getObject, getSecret)
         == Dispatch(env, JObject(fields["Records" := JArray([first])]), getObject, getSecret)
  {
    var e1 := JObject(fields["Records" := JArray([first] + rest)]);
    var e2 := JObject(fields["Records" := JArray([first])]);
    assert First(Field(Some(e1), "Records")) == Some(first);
    assert First(Field(Some(e2), "Records")) == Some(first);
  }

  /** The bucket comes from the environment, never from the event: two
      events with the same object key read the same bucket. */
  lemma BucketFromEnvironment(env: map<string, string>, e1: Json, e2: Json,
                              getObject: (string, Json) -> Option<string>,
                              getSecret: string -> Option<map<string, string>>)
    requires ObjectKey(e1) == ObjectKey(e2)
    ensures Dispatch(env, e1, getObject, getSecret) == Dispatch(env, e2, getObject, getSecret)
  {
  }

  // ---------------------------------------------------------------------
  // The whole invocation

  /** What one invocation comes to. `ConnectFailed` is the failed
      `psycopg2.connect`, which the handler catches and reports; `Processed`
      carries how the load ended (a `NoHeader` or `ShortRow` ending is also
      an exception the handler catches) and what the database holds from it. */
  datatype Invocation = Halted(reason: Stop) | ConnectFailed | Processed(outcome: LoadOutcome, stored: seq<Record>)

  /** `main` (handler.py:87-142). `split` is `csv.reader` with `;` as the
      delimiter, `connects` says whether `psycopg2.connect` succeeds, and
      `accepts` whether the database accepts an insert. */
  method Invoke(env: map<string, string>, event: Json,
                getObject: (string, Json) -> Option<string>,
                getSecret: string -> Option<map<string, string>>,
                split: string -> seq<seq<string>>,
                connects: DbConfig -> bool,
                accepts: Record -> bool) returns (result: Invocation)
    ensures var step := Dispatch(env, event, getObject, getSecret);
      && (step.Halt? ==> result == Halted(step.reason))
      && (step.Load? && !connects(step.config) ==> result == ConnectFailed)
      && (step.Load? && connects(step.config) ==>
            var run := ExpectedLoad(split(step.content), accepts);
            result == Processed(run.outcome, run.stored))
  {
    var step := Dispatch(env, event, getObject, getSecret);
    if step.Halt? {
      return Halted(step.reason);
    }
    if !connects(step.config) {
      return ConnectFailed;
    }
    var sink := new Sink(accepts);
    var outcome := ProcessCsvFile(split(step.content), sink);
    result := Processed(outcome, sink.stored);
  }
}
