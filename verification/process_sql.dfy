/** `process-sql-metadata`: walks the recorder's export in order, drops
    transaction-control statements and statements without a plan, applies
    every EXPLAIN row except those on Toolbox's own tables to the statement's
    query record, saves it and counts it. */
module ProcessSql {
  import opened Base
  import opened Text
  import opened Sequences
  import opened MariaDBQuery

  /** One executed statement of the export: its text and the EXPLAIN rows
      captured for it (empty when the engine produced none). */
  datatype QueryInfo = QueryInfo(query: string, explainResult: seq<RawRow>)

  /** One recorded call with the statements it executed, in order. */
  datatype FuncCall = FuncCall(calls: seq<QueryInfo>)

  /** The `MariaDB Query` records, found by their query text. */
  type Store = map<string, QueryRecord>

  /** What the pass needs from outside: the names of Toolbox's own
      DocTypes, table resolution (`record_table`), integer coercion (`cint`)
      and the table registry the summaries are computed against. */
  datatype Env = Env(
    toolboxTables: seq<string>,
    recordTable: Value -> TableId,
    cint: Value -> int,
    registry: Registry)

  /** The pass's running state: the store, `sql_count` and the
      "Skipping query" notices printed so far. */
  datatype Progress = Progress(store: Store, count: nat, notices: seq<string>)

  /** Every record is stored under its own query text. */
  predicate StoreKeyed(store: Store) {
    forall q :: q in store ==> store[q].query == q
  }

  /** Lower-cased (not trimmed) text starts with `start`, `commit` or `rollback`. */
  predicate IsTransactionControl(query: string) {
    var q := Lower(query);
    StartsWith(q, "start") || StartsWith(q, "commit") || StartsWith(q, "rollback")
  }

  predicate IsInsert(query: string) {
    StartsWith(Lower(query), "insert")
  }

  /** A row whose `table` column names one of the Toolbox DocTypes. Only
      asked of a row that has the column. */
  predicate IsToolboxRow(row: RawRow, toolboxTables: seq<string>)
    requires "table" in row
  {
    row["table"].Text? && row["table"].s in toolboxTables
  }

  /** A statement the pass saves and counts. */
  predicate Counted(info: QueryInfo) {
    !IsTransactionControl(info.query) && |info.explainResult| > 0
  }

  /** A statement the pass reports as skipped. */
  predicate Noticed(info: QueryInfo) {
    !IsTransactionControl(info.query) && |info.explainResult| == 0 && !IsInsert(info.query)
  }

  /** The notice a statement adds: its text when it is noticed. */
  function NoticeOf(info: QueryInfo): seq<string> {
    if Noticed(info) then [info.query] else []
  }

  /** `record_query`: the stored record for the text, or a new one. */
  function RecordQuery(store: Store, query: string): (rec: QueryRecord)
    requires StoreKeyed(store)
    ensures rec.query == query
    ensures query in store ==> rec == store[query]
    ensures query !in store ==> rec.steps == [] && rec.occurence == 1
  {
    if query in store then store[query] else QueryRecord(query, [], [], 1)
  }

  /** The rows of a statement that are not on a Toolbox table. */
  function ForeignRows(rows: seq<RawRow>, toolboxTables: seq<string>): (r: seq<RawRow>)
    requires forall k :: 0 <= k < |rows| ==> "table" in rows[k]
    ensures forall row :: row in r ==> row in rows && !IsToolboxRow(row, toolboxTables)
    ensures forall row :: row in rows && !IsToolboxRow(row, toolboxTables) ==> row in r
    ensures |rows| == 1 ==> r == if IsToolboxRow(rows[0], toolboxTables) then [] else rows
  {
    if |rows| == 0 then []
    else if IsToolboxRow(rows[0], toolboxTables) then ForeignRows(rows[1..], toolboxTables)
    else [rows[0]] + ForeignRows(rows[1..], toolboxTables)
  }

  /** Filtering a concatenation filters each part and keeps them in order:
      with the one-row case of `ForeignRows`, the kept rows are the
      non-Toolbox rows in their original order and multiplicity. */
  lemma {:induction false} ForeignRowsAppend(a: seq<RawRow>, b: seq<RawRow>, toolboxTables: seq<string>)
    requires forall k :: 0 <= k < |a| ==> "table" in a[k]
    requires forall k :: 0 <= k < |b| ==> "table" in b[k]
    ensures forall k :: 0 <= k < |a + b| ==> "table" in (a + b)[k]
    ensures ForeignRows(a + b, toolboxTables) == ForeignRows(a, toolboxTables) + ForeignRows(b, toolboxTables)
  {
    if |a| > 0 {
      var tail := a[1..];
      assert (a + b)[1..] == tail + b;
      ForeignRowsAppend(tail, b, toolboxTables);
      ConcatAssoc([a[0]], ForeignRows(tail, toolboxTables), ForeignRows(b, toolboxTables));
    } else {
      assert a + b == b;
    }
  }

  /** A row the inner loop gets through without raising: it names its
      table, and unless that is a Toolbox table it has every column
      `apply_explain` reads. */
  predicate Complete(row: RawRow, toolboxTables: seq<string>) {
    "table" in row && (IsToolboxRow(row, toolboxTables) || (HasKeyColumns(row) && "rows" in row))
  }

  /** The inner loop over one statement's EXPLAIN rows: a row without a
      `table` column raises, a row on a Toolbox table is skipped, every other
      row goes through `apply_explain`. */
  function ApplyRows(steps: seq<PlanStep>, rows: seq<RawRow>, env: Env): (r: Result<seq<PlanStep>, Error>)
    decreases |rows|
    ensures r.Ok? ==> steps <= r.value
    ensures (exists k :: 0 <= k < |rows| && "table" !in rows[k]) ==> r.Err?
    ensures (forall k :: 0 <= k < |rows| ==> "table" in rows[k] && IsToolboxRow(rows[k], env.toolboxTables))
      ==> r == Ok(steps)
    ensures (forall k :: 0 <= k < |rows| ==> Complete(rows[k], env.toolboxTables)) ==> r.Ok?
  {
    if |rows| == 0 then Ok(steps)
    else
      var row := rows[0];
      if "table" !in row then Err(MissingKey("table"))
      else if IsToolboxRow(row, env.toolboxTables) then ApplyRows(steps, rows[1..], env)
      else
        var next :- ApplyExplain(steps, row, env.recordTable, env.cint);
        ApplyRows(next, rows[1..], env)
  }

  /** Rows on Toolbox tables are never applied: the loop does exactly what
      `apply_explain` on the remaining rows does. */
  lemma {:induction false} ApplyRowsSkipsToolboxRows(steps: seq<PlanStep>, rows: seq<RawRow>, env: Env)
    requires forall k :: 0 <= k < |rows| ==> "table" in rows[k]
    decreases |rows|
    ensures ApplyRows(steps, rows, env)
      == ApplyAll(steps, ForeignRows(rows, env.toolboxTables), env.recordTable, env.cint)
  {
    if |rows| > 0 {
      var row := rows[0];
      if IsToolboxRow(row, env.toolboxTables) {
        ApplyRowsSkipsToolboxRows(steps, rows[1..], env);
      } else {
        var foreign := ForeignRows(rows, env.toolboxTables);
        assert foreign[0] == row && foreign[1..] == ForeignRows(rows[1..], env.toolboxTables);
        var next := ApplyExplain(steps, row, env.recordTable, env.cint);
        if next.Ok? {
          ApplyRowsSkipsToolboxRows(next.value, rows[1..], env);
        }
      }
    }
  }

  /** When the inner loop succeeds, every row named its table, the loop did
      what `apply_explain` on the non-Toolbox rows in order does, and each
      non-Toolbox row's step is among the resulting steps. */
  lemma AppliedRows(steps: seq<PlanStep>, rows: seq<RawRow>, env: Env)
    ensures ApplyRows(steps, rows, env).Ok? <==>
      && (forall k :: 0 <= k < |rows| ==> "table" in rows[k])
      && ApplyAll(steps, ForeignRows(rows, env.toolboxTables), env.recordTable, env.cint).Ok?
    ensures ApplyRows(steps, rows, env).Ok? ==>
      && (forall k :: 0 <= k < |rows| ==> "table" in rows[k])
      && ApplyAll(steps, ForeignRows(rows, env.toolboxTables), env.recordTable, env.cint)
           == ApplyRows(steps, rows, env)
      && (forall k :: 0 <= k < |rows| && !IsToolboxRow(rows[k], env.toolboxTables) ==>
            && HasKeyColumns(rows[k])
            && HasStep(ApplyRows(steps, rows, env).value, Shape(rows[k], env.recordTable, env.cint)))
  {
    if forall k :: 0 <= k < |rows| ==> "table" in rows[k] {
      ApplyRowsSkipsToolboxRows(steps, rows, env);
    }
    if ApplyRows(steps, rows, env).Ok? {
      var foreign := ForeignRows(rows, env.toolboxTables);
      ApplyAllRecordsEveryRow(steps, foreign, env.recordTable, env.cint);
      forall k | 0 <= k < |rows| && !IsToolboxRow(rows[k], env.toolboxTables)
        ensures HasKeyColumns(rows[k])
        ensures HasStep(ApplyRows(steps, rows, env).value, Shape(rows[k], env.recordTable, env.cint))
      {
        assert rows[k] in foreign;
        var j :| 0 <= j < |foreign| && foreign[j] == rows[k];
      }
    }
  }

  /** The body of the `if explain_data` branch: find or create the text's
      record, apply the statement's EXPLAIN rows and save it. */
  function SaveStatement(store: Store, info: QueryInfo, env: Env): (r: Result<QueryRecord, Error>)
    requires StoreKeyed(store)
    ensures r.Ok? ==>
      var before := RecordQuery(store, info.query);
      && r.value.query == info.query
      && before.steps <= r.value.steps
      && r.value.occurence == before.occurence
      && SummaryConsistent(r.value, env.registry)
    ensures r.Ok? ==>
      var rows := info.explainResult;
      && (forall k :: 0 <= k < |rows| ==> "table" in rows[k])
      && ApplyAll(RecordQuery(store, info.query).steps, ForeignRows(rows, env.toolboxTables), env.recordTable, env.cint)
           == Ok(r.value.steps)
      && (forall k :: 0 <= k < |rows| && !IsToolboxRow(rows[k], env.toolboxTables) ==>
            HasKeyColumns(rows[k]) && HasStep(r.value.steps, Shape(rows[k], env.recordTable, env.cint)))
    ensures r.Ok? <==>
      && (forall k :: 0 <= k < |info.explainResult| ==> "table" in info.explainResult[k])
      && ApplyAll(RecordQuery(store, info.query).steps, ForeignRows(info.explainResult, env.toolboxTables),
                  env.recordTable, env.cint).Ok?
    ensures (exists k :: 0 <= k < |info.explainResult| && "table" !in info.explainResult[k]) ==> r.Err?
    ensures (forall k :: 0 <= k < |info.explainResult| ==>
        "table" in info.explainResult[k] && IsToolboxRow(info.explainResult[k], env.toolboxTables))
      ==> r.Ok? && r.value.steps == RecordQuery(store, info.query).steps
    ensures AllRowsComplete(info, env.toolboxTables) ==> r.Ok?
  {
    var rec := RecordQuery(store, info.query);
    AppliedRows(rec.steps, info.explainResult, env);
    var steps :- ApplyRows(rec.steps, info.explainResult, env);
    Ok(Validate(rec.(steps := steps), env.registry))
  }

  /** One iteration of the outer loop body. */
  function ProcessStatement(p: Progress, info: QueryInfo, env: Env): (r: Result<Progress, Error>)
    requires StoreKeyed(p.store)
    ensures r.Ok? ==> StoreKeyed(r.value.store)
    ensures !Counted(info) ==> r.Ok? && r.value.store == p.store && r.value.count == p.count
    ensures !Counted(info) ==>
      r.value.notices == p.notices + NoticeOf(info)
    ensures Counted(info) && r.Ok? ==>
      && r.value.count == p.count + 1
      && r.value.notices == p.notices
      && r.value.store.Keys == p.store.Keys + {info.query}
      && (forall q :: q in p.store && q != info.query ==> r.value.store[q] == p.store[q])
    ensures Counted(info) && r.Ok? ==>
      var before := RecordQuery(p.store, info.query);
      var saved := r.value.store[info.query];
      && before.steps <= saved.steps
      && saved.occurence == before.occurence
      && SummaryConsistent(saved, env.registry)
    ensures Counted(info) ==>
      (r.Ok? <==> SaveStatement(p.store, info, env).Ok?)
      && (r.Ok? ==> r.value.store[info.query] == SaveStatement(p.store, info, env).value)
    ensures HasRowWithoutTable(info) ==> r.Err?
    ensures Counted(info) && (forall k :: 0 <= k < |info.explainResult| ==>
        "table" in info.explainResult[k] && IsToolboxRow(info.explainResult[k], env.toolboxTables))
      ==> r.Ok? && info.query in r.value.store && r.value.count == p.count + 1
          && r.value.store[info.query].steps == RecordQuery(p.store, info.query).steps
    ensures AllRowsComplete(info, env.toolboxTables) ==> r.Ok?
  {
    if IsTransactionControl(info.query) then Ok(p)
    else if |info.explainResult| > 0 then
      var saved :- SaveStatement(p.store, info, env);
      Ok(Progress(p.store[info.query := saved], p.count + 1, p.notices))
    else if !IsInsert(info.query) then
      Ok(p.(notices := p.notices + [info.query]))
    else Ok(p)
  }

  /** The outer loops over calls and their statements, in order; the first
      statement that raises aborts the pass. */
  function ProcessStatements(p: Progress, infos: seq<QueryInfo>, env: Env): (r: Result<Progress, Error>)
    requires StoreKeyed(p.store)
    decreases |infos|
  {
    if |infos| == 0 then Ok(p)
    else
      var next :- ProcessStatement(p, infos[0], env);
      ProcessStatements(next, infos[1..], env)
  }

  /** The statements of the export, call by call and in order within a call. */
  function Statements(exported: seq<FuncCall>): seq<QueryInfo> {
    Flatten(seq(|exported|, i requires 0 <= i < |exported| => exported[i].calls))
  }

  /** `process_sql_metadata` from an empty count: the final store, the
      printed count and the skip notices, or the error that aborted it (in
      which case nothing is committed). */
  function ProcessSqlMetadata(exported: seq<FuncCall>, store: Store, env: Env): Result<Progress, Error>
    requires StoreKeyed(store)
  {
    ProcessStatements(Progress(store, 0, []), Statements(exported), env)
  }

  /** Reference count: the statements that are neither transaction control
      nor without a plan. */
  function CountOf(infos: seq<QueryInfo>): nat {
    if |infos| == 0 then 0 else (if Counted(infos[0]) then 1 else 0) + CountOf(infos[1..])
  }

  /** Reference notices: the statement texts reported as skipped, in order. */
  function NoticesOf(infos: seq<QueryInfo>): seq<string> {
    if |infos| == 0 then [] else NoticeOf(infos[0]) + NoticesOf(infos[1..])
  }

  /** The texts of the statements that are saved. */
  function CountedTexts(infos: seq<QueryInfo>): set<string> {
    set i | 0 <= i < |infos| && Counted(infos[i]) :: infos[i].query
  }

  lemma CountedTextsCons(infos: seq<QueryInfo>)
    requires |infos| > 0
    ensures CountedTexts(infos)
      == CountedTexts(infos[1..]) + (if Counted(infos[0]) then {infos[0].query} else {})
  {
    var tail := infos[1..];
    forall t | t in CountedTexts(infos)
      ensures t in CountedTexts(tail) + (if Counted(infos[0]) then {infos[0].query} else {})
    {
      var i :| 0 <= i < |infos| && Counted(infos[i]) && infos[i].query == t;
      if i > 0 { assert tail[i - 1] == infos[i]; }
    }
    forall t | t in CountedTexts(tail)
      ensures t in CountedTexts(infos)
    {
      var i :| 0 <= i < |tail| && Counted(tail[i]) && tail[i].query == t;
      assert infos[i + 1] == tail[i];
    }
  }

  /** The count of a successful pass, against the reference definition: it
      grows by the number of saved statements. */
  lemma {:induction false} ProcessStatementsCount(p: Progress, infos: seq<QueryInfo>, env: Env)
    requires StoreKeyed(p.store)
    requires ProcessStatements(p, infos, env).Ok?
    decreases |infos|
    ensures ProcessStatements(p, infos, env).value.count == p.count + CountOf(infos)
  {
    if |infos| > 0 {
      var first := ProcessStatement(p, infos[0], env);
      assert first.Ok?;
      var next := first.value;
      assert ProcessStatements(p, infos, env) == ProcessStatements(next, infos[1..], env);
      ProcessStatementsCount(next, infos[1..], env);
      assert next.count == p.count + (if Counted(infos[0]) then 1 else 0);
    }
  }

  /** One step of a successful pass: the first statement's progress, from
      which the rest of the pass continues, with its notice added exactly
      when the statement is noticed. */
  lemma ProcessFirstStatement(p: Progress, infos: seq<QueryInfo>, env: Env) returns (next: Progress)
    requires StoreKeyed(p.store) && |infos| > 0
    requires ProcessStatements(p, infos, env).Ok?
    ensures StoreKeyed(next.store)
    ensures ProcessStatements(next, infos[1..], env) == ProcessStatements(p, infos, env)
    ensures next.notices == p.notices + NoticeOf(infos[0])
  {
    var first := ProcessStatement(p, infos[0], env);
    assert first.Ok?;
    next := first.value;
    if Counted(infos[0]) {
      assert !Noticed(infos[0]);
      assert p.notices + [] == p.notices;
    }
  }

  lemma NoticesOfCons(before: seq<string>, infos: seq<QueryInfo>)
    requires |infos| > 0
    ensures before + NoticeOf(infos[0]) + NoticesOf(infos[1..]) == before + NoticesOf(infos)
  {
    var head := NoticeOf(infos[0]);
    var rest := NoticesOf(infos[1..]);
    assert NoticesOf(infos) == head + rest;
    ConcatAssoc(before, head, rest);
  }

  /** The notices of a successful pass, against the reference definition:
      exactly the skipped non-INSERT statements, in order. */
  lemma {:induction false} ProcessStatementsNotices(p: Progress, infos: seq<QueryInfo>, env: Env)
    requires StoreKeyed(p.store)
    requires ProcessStatements(p, infos, env).Ok?
    decreases |infos|
    ensures ProcessStatements(p, infos, env).value.notices == p.notices + NoticesOf(infos)
  {
    if |infos| > 0 {
      var next := ProcessFirstStatement(p, infos, env);
      var tail := infos[1..];
      ProcessStatementsNotices(next, tail, env);
      NoticesOfCons(p.notices, infos);
    } else {
      assert p.notices + NoticesOf(infos) == p.notices;
    }
  }

  /** Records exist after a successful pass for the earlier texts and the
      saved texts and for no others, each stored under its own text. */
  lemma {:induction false} ProcessStatementsKeys(p: Progress, infos: seq<QueryInfo>, env: Env)
    requires StoreKeyed(p.store)
    requires ProcessStatements(p, infos, env).Ok?
    decreases |infos|
    ensures StoreKeyed(ProcessStatements(p, infos, env).value.store)
    ensures ProcessStatements(p, infos, env).value.store.Keys == p.store.Keys + CountedTexts(infos)
  {
    if |infos| > 0 {
      var first := ProcessStatement(p, infos[0], env);
      assert first.Ok?;
      var next := first.value;
      assert ProcessStatements(p, infos, env) == ProcessStatements(next, infos[1..], env);
      assert next.store.Keys == p.store.Keys + (if Counted(infos[0]) then {infos[0].query} else {});
      ProcessStatementsKeys(next, infos[1..], env);
      CountedTextsCons(infos);
    }
  }

  /** A successful pass leaves the records of texts it does not save alone. */
  lemma {:induction false} ProcessStatementsUntouched(p: Progress, infos: seq<QueryInfo>, env: Env, q: string)
    requires StoreKeyed(p.store)
    requires ProcessStatements(p, infos, env).Ok?
    requires q in p.store && q !in CountedTexts(infos)
    decreases |infos|
    ensures q in ProcessStatements(p, infos, env).value.store
    ensures ProcessStatements(p, infos, env).value.store[q] == p.store[q]
  {
    if |infos| > 0 {
      var first := ProcessStatement(p, infos[0], env);
      assert first.Ok?;
      var next := first.value;
      assert ProcessStatements(p, infos, env) == ProcessStatements(next, infos[1..], env);
      CountedTextsCons(infos);
      assert q in next.store && next.store[q] == p.store[q];
      ProcessStatementsUntouched(next, infos[1..], env, q);
    }
  }

  /** Every record a successful pass saves carries a summary consistent with
      its steps; a record that existed before keeps its earlier steps as a
      prefix and its occurrence count. */
  lemma {:induction false} ProcessStatementsSaved(p: Progress, infos: seq<QueryInfo>, env: Env, q: string)
    requires StoreKeyed(p.store)
    requires ProcessStatements(p, infos, env).Ok?
    requires q in p.store || q in CountedTexts(infos)
    decreases |infos|
    ensures q in ProcessStatements(p, infos, env).value.store
    ensures q in CountedTexts(infos) ==>
      SummaryConsistent(ProcessStatements(p, infos, env).value.store[q], env.registry)
    ensures q in p.store ==>
      && p.store[q].steps <= ProcessStatements(p, infos, env).value.store[q].steps
      && ProcessStatements(p, infos, env).value.store[q].occurence == p.store[q].occurence
  {
    if |infos| > 0 {
      var first := ProcessStatement(p, infos[0], env);
      assert first.Ok?;
      var next := first.value;
      var tail := infos[1..];
      assert ProcessStatements(p, infos, env) == ProcessStatements(next, tail, env);
      var r := ProcessStatements(next, tail, env).value;
      CountedTextsCons(infos);
      assert next.store.Keys == p.store.Keys + (if Counted(infos[0]) then {infos[0].query} else {});
      assert q in next.store || q in CountedTexts(tail);
      ProcessStatementsSaved(next, tail, env, q);
      if q !in CountedTexts(tail) {
        ProcessStatementsUntouched(next, tail, env, q);
        if q in CountedTexts(infos) {
          assert q == infos[0].query && Counted(infos[0]);
        }
      }
      if q in p.store {
        assert p.store[q].steps <= next.store[q].steps && next.store[q].occurence == p.store[q].occurence;
      }
    }
  }

  /** A step recorded for a text stays recorded through the rest of a pass. */
  lemma StepSurvivesPass(p: Progress, infos: seq<QueryInfo>, env: Env, q: string, shape: StepKey)
    requires StoreKeyed(p.store)
    requires ProcessStatements(p, infos, env).Ok?
    requires q in p.store && HasStep(p.store[q].steps, shape)
    ensures var store := ProcessStatements(p, infos, env).value.store;
      q in store && HasStep(store[q].steps, shape)
  {
    ProcessStatementsSaved(p, infos, env, q);
    var before := p.store[q].steps;
    var after := ProcessStatements(p, infos, env).value.store[q].steps;
    var j :| 0 <= j < |before| && before[j].shape == shape;
    assert after[j] == before[j];
  }

  /** Every EXPLAIN row of a statement a successful pass saves, unless it is
      on a Toolbox table, has its step in the final record of its text: later
      statements only ever add steps. */
  lemma {:induction false} ProcessStatementsAppliesRows(p: Progress, infos: seq<QueryInfo>, env: Env, i: nat, k: nat)
    requires StoreKeyed(p.store)
    requires ProcessStatements(p, infos, env).Ok?
    requires i < |infos| && Counted(infos[i]) && k < |infos[i].explainResult|
    decreases |infos|
    ensures var row := infos[i].explainResult[k];
      var store := ProcessStatements(p, infos, env).value.store;
      && "table" in row
      && infos[i].query in store
      && (!IsToolboxRow(row, env.toolboxTables) ==>
            HasKeyColumns(row) && HasStep(store[infos[i].query].steps, Shape(row, env.recordTable, env.cint)))
  {
    var next := ProcessStatement(p, infos[0], env).value;
    var tail := infos[1..];
    assert ProcessStatements(p, infos, env) == ProcessStatements(next, tail, env);
    if i == 0 {
      var q := infos[0].query;
      var row := infos[0].explainResult[k];
      ProcessStatementsSaved(next, tail, env, q);
      if !IsToolboxRow(row, env.toolboxTables) {
        StepSurvivesPass(next, tail, env, q, Shape(row, env.recordTable, env.cint));
      }
    } else {
      assert tail[i - 1] == infos[i];
      ProcessStatementsAppliesRows(next, tail, env, i - 1, k);
    }
  }

  /** The count `process_sql_metadata` prints is the number of statements of
      the export, in order, that are neither transaction control nor without
      a plan; its notices are the skipped non-INSERT statements in order. */
  lemma ProcessSqlMetadataCount(exported: seq<FuncCall>, store: Store, env: Env)
    requires StoreKeyed(store)
    requires ProcessSqlMetadata(exported, store, env).Ok?
    ensures ProcessSqlMetadata(exported, store, env).value.count == CountOf(Statements(exported))
    ensures ProcessSqlMetadata(exported, store, env).value.notices == NoticesOf(Statements(exported))
    ensures ProcessSqlMetadata(exported, store, env).value.store.Keys
      == store.Keys + CountedTexts(Statements(exported))
  {
    ProcessStatementsCount(Progress(store, 0, []), Statements(exported), env);
    ProcessStatementsNotices(Progress(store, 0, []), Statements(exported), env);
    ProcessStatementsKeys(Progress(store, 0, []), Statements(exported), env);
  }

  /** A transaction-control text is never recorded: if it had no record it
      still has none, and if it had one, that record is untouched. */
  lemma TransactionControlNeverRecorded(p: Progress, infos: seq<QueryInfo>, env: Env, text: string)
    requires StoreKeyed(p.store)
    requires ProcessStatements(p, infos, env).Ok?
    requires IsTransactionControl(text)
    ensures text in ProcessStatements(p, infos, env).value.store <==> text in p.store
    ensures text in p.store ==> ProcessStatements(p, infos, env).value.store[text] == p.store[text]
  {
    ProcessStatementsKeys(p, infos, env);
    assert text !in CountedTexts(infos);
    if text in p.store {
      ProcessStatementsUntouched(p, infos, env, text);
    }
  }

  /** A saved statement with a row that lacks its `table` column. */
  predicate HasRowWithoutTable(info: QueryInfo) {
    Counted(info) && exists k :: 0 <= k < |info.explainResult| && "table" !in info.explainResult[k]
  }

  predicate AllRowsComplete(info: QueryInfo, toolboxTables: seq<string>) {
    forall k :: 0 <= k < |info.explainResult| ==> Complete(info.explainResult[k], toolboxTables)
  }

  /** The pass gets through every statement when every row is complete; a
      saved statement with a row lacking its `table` column aborts the whole
      pass. */
  lemma {:induction false} ProcessStatementsErrors(p: Progress, infos: seq<QueryInfo>, env: Env)
    requires StoreKeyed(p.store)
    decreases |infos|
    ensures (forall i :: 0 <= i < |infos| ==> AllRowsComplete(infos[i], env.toolboxTables))
      ==> ProcessStatements(p, infos, env).Ok?
    ensures (exists i :: 0 <= i < |infos| && HasRowWithoutTable(infos[i]))
      ==> ProcessStatements(p, infos, env).Err?
  {
    if |infos| > 0 {
      var first := ProcessStatement(p, infos[0], env);
      var tail := infos[1..];
      if first.Ok? {
        ProcessStatementsErrors(first.value, tail, env);
        if exists i :: 0 <= i < |infos| && HasRowWithoutTable(infos[i]) {
          var i :| 0 <= i < |infos| && HasRowWithoutTable(infos[i]);
          if i > 0 {
            assert tail[i - 1] == infos[i];
          }
        }
        if forall i :: 0 <= i < |infos| ==> AllRowsComplete(infos[i], env.toolboxTables) {
          forall i | 0 <= i < |tail|
            ensures AllRowsComplete(tail[i], env.toolboxTables)
          {
            assert tail[i] == infos[i + 1];
          }
        }
      }
    }
  }
}
