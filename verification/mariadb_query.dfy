/** The `MariaDB Query` record: its plan steps (the `query_explain` child
    table), the idempotent append of one EXPLAIN row, and the summary of the
    tables the plan touches that every save recomputes. */
module MariaDBQuery {
  import opened Base
  import opened Sequences

  /** The name of a `MariaDB Table` record, as `record_table` returns it. */
  type TableId = string

  /** One EXPLAIN row as the database returns it: column name to value. */
  type RawRow = map<string, Value>

  /** The `MariaDB Table` records: id to the `_table_name` they register. */
  type Registry = map<TableId, string>

  /** The nine plan fields that decide whether a step is already recorded.
      The row estimate and `filtered` are deliberately not part of it. */
  datatype StepKey = StepKey(
    id: Value,
    selectType: Value,
    table: TableId,
    accessType: Value,
    possibleKeys: Value,
    key: Value,
    keyLen: int,
    ref: Value,
    extra: Value)

  /** One stored row of the `query_explain` child table. */
  datatype PlanStep = PlanStep(shape: StepKey, rows: int, filtered: Value)

  /** A `MariaDB Query` record. `tables` is the stored summary of the names
      of the tables the plan touches; `occurence` is written only by the
      duplicate compaction. */
  datatype QueryRecord = QueryRecord(
    query: string,
    steps: seq<PlanStep>,
    tables: seq<string>,
    occurence: int)

  /** Reads column `k` of a row, raising on an absent column. */
  function Lookup(row: RawRow, k: string): Result<Value, Error> {
    if k in row then Ok(row[k]) else Err(MissingKey(k))
  }

  /** The columns `apply_explain` reads before its duplicate check. */
  predicate HasKeyColumns(row: RawRow) {
    && "table" in row && "id" in row && "select_type" in row && "type" in row
    && "possible_keys" in row && "key" in row && "key_len" in row
    && "ref" in row && "Extra" in row
  }

  /** The plan shape a complete row describes: every column copied, the
      table name resolved to its registry id and the key length coerced to
      an integer. */
  function Shape(row: RawRow, recordTable: Value -> TableId, cint: Value -> int): StepKey
    requires HasKeyColumns(row)
  {
    StepKey(row["id"], row["select_type"], recordTable(row["table"]), row["type"],
            row["possible_keys"], row["key"], cint(row["key_len"]), row["ref"], row["Extra"])
  }

  /** Reads the `filtered` column, which reads as null when absent. */
  function FilteredOf(row: RawRow): Value {
    if "filtered" in row then row["filtered"] else Null
  }

  predicate HasStep(steps: seq<PlanStep>, shape: StepKey) {
    exists i :: 0 <= i < |steps| && steps[i].shape == shape
  }

  /** Builds the duplicate-check key of a row, reading the columns in the
      order `apply_explain` reads them: the table first (it is resolved
      before anything else), then the remaining fields of the key. */
  function ExplainKey(row: RawRow, recordTable: Value -> TableId, cint: Value -> int): (r: Result<StepKey, Error>)
    ensures r.Ok? <==> HasKeyColumns(row)
    ensures r.Ok? ==> r.value == Shape(row, recordTable, cint)
    ensures r.Err? ==> r.error.key !in row
    ensures r.Err? && "table" !in row ==> r.error == MissingKey("table")
  {
    var table :- Lookup(row, "table");
    var tableId := recordTable(table);
    var id :- Lookup(row, "id");
    var selectType :- Lookup(row, "select_type");
    var accessType :- Lookup(row, "type");
    var possibleKeys :- Lookup(row, "possible_keys");
    var key :- Lookup(row, "key");
    var keyLen :- Lookup(row, "key_len");
    var ref :- Lookup(row, "ref");
    var extra :- Lookup(row, "Extra");
    Ok(StepKey(id, selectType, tableId, accessType, possibleKeys, key, cint(keyLen), ref, extra))
  }

  /** `MariaDBQuery.apply_explain`: appends the step a row describes unless
      a step with the same nine-field key is already present. The row
      estimate is read only when a step is appended. */
  function ApplyExplain(steps: seq<PlanStep>, row: RawRow, recordTable: Value -> TableId, cint: Value -> int)
    : (r: Result<seq<PlanStep>, Error>)
    ensures r.Ok? <==>
      HasKeyColumns(row) && (HasStep(steps, Shape(row, recordTable, cint)) || "rows" in row)
    ensures r.Ok? && HasStep(steps, Shape(row, recordTable, cint)) ==> r.value == steps
    ensures r.Ok? && !HasStep(steps, Shape(row, recordTable, cint)) ==>
      r.value == steps + [PlanStep(Shape(row, recordTable, cint), cint(row["rows"]), FilteredOf(row))]
    ensures r.Err? ==> r.error.key !in row
  {
    var shape :- ExplainKey(row, recordTable, cint);
    if HasStep(steps, shape) then Ok(steps)
    else
      var rows :- Lookup(row, "rows");
      Ok(steps + [PlanStep(shape, cint(rows), FilteredOf(row))])
  }

  /** The plan shapes of a step list, in order. */
  function Shapes(steps: seq<PlanStep>): seq<StepKey> {
    seq(|steps|, i requires 0 <= i < |steps| => steps[i].shape)
  }

  /** Applying a row whose key fields agree with an already applied row
      changes nothing, whatever its row estimate or `filtered` value, and
      even if it has no row estimate at all. */
  lemma ApplyExplainIdempotent(
    steps: seq<PlanStep>, first: RawRow, second: RawRow,
    recordTable: Value -> TableId, cint: Value -> int)
    requires ApplyExplain(steps, first, recordTable, cint).Ok?
    requires HasKeyColumns(second)
    requires Shape(second, recordTable, cint) == Shape(first, recordTable, cint)
    ensures
      var once := ApplyExplain(steps, first, recordTable, cint).value;
      ApplyExplain(once, second, recordTable, cint) == Ok(once)
  {
    var once := ApplyExplain(steps, first, recordTable, cint).value;
    var shape := Shape(first, recordTable, cint);
    if !HasStep(steps, shape) {
      assert once[|steps|].shape == shape;
    }
    assert HasStep(once, shape);
  }

  /** Applying a row never drops or reorders a step, and adds at most one:
      the shapes present afterwards are those present before plus the row's. */
  lemma ApplyExplainExtends(steps: seq<PlanStep>, row: RawRow, recordTable: Value -> TableId, cint: Value -> int)
    requires ApplyExplain(steps, row, recordTable, cint).Ok?
    ensures
      var r := ApplyExplain(steps, row, recordTable, cint).value;
      && steps <= r
      && |r| <= |steps| + 1
      && forall k :: k in Shapes(r) <==> k in Shapes(steps) || k == Shape(row, recordTable, cint)
  {
    var r := ApplyExplain(steps, row, recordTable, cint).value;
    var shape := Shape(row, recordTable, cint);
    forall k
      ensures k in Shapes(r) <==> k in Shapes(steps) || k == shape
    {
      if k in Shapes(r) {
        var i :| 0 <= i < |r| && Shapes(r)[i] == k;
        if i < |steps| { assert Shapes(steps)[i] == k; }
      }
      if k in Shapes(steps) {
        var i :| 0 <= i < |steps| && Shapes(steps)[i] == k;
        assert Shapes(r)[i] == k;
      }
      if k == shape {
        if HasStep(steps, shape) {
          var i :| 0 <= i < |steps| && steps[i].shape == shape;
          assert Shapes(r)[i] == k;
        } else {
          assert Shapes(r)[|steps|] == k;
        }
      }
    }
  }

  /** A step list without two steps of the same shape keeps that property
      under every successful `apply_explain`. */
  lemma ApplyExplainKeepsShapesDistinct(
    steps: seq<PlanStep>, row: RawRow, recordTable: Value -> TableId, cint: Value -> int)
    requires NoDup(Shapes(steps))
    requires ApplyExplain(steps, row, recordTable, cint).Ok?
    ensures NoDup(Shapes(ApplyExplain(steps, row, recordTable, cint).value))
  {
    var r := ApplyExplain(steps, row, recordTable, cint).value;
    var shape := Shape(row, recordTable, cint);
    if !HasStep(steps, shape) {
      forall i, j | 0 <= i < j < |r|
        ensures Shapes(r)[i] != Shapes(r)[j]
      {
        if j == |steps| {
          assert Shapes(r)[j] == shape;
          assert Shapes(r)[i] == steps[i].shape;
        } else {
          assert Shapes(r)[i] == Shapes(steps)[i] && Shapes(r)[j] == Shapes(steps)[j];
        }
      }
    }
  }

  /** A sequence of `apply_explain` calls on one record, stopping at the
      first row that raises. */
  function ApplyAll(steps: seq<PlanStep>, rows: seq<RawRow>, recordTable: Value -> TableId, cint: Value -> int)
    : (r: Result<seq<PlanStep>, Error>)
    decreases |rows|
  {
    if |rows| == 0 then Ok(steps)
    else
      var next :- ApplyExplain(steps, rows[0], recordTable, cint);
      ApplyAll(next, rows[1..], recordTable, cint)
  }

  /** After any sequence of `apply_explain` calls, the earlier steps are
      still there, no shape is recorded twice, and every applied row's shape
      is recorded. */
  lemma {:induction false} ApplyAllRecordsEveryRow(
    steps: seq<PlanStep>, rows: seq<RawRow>, recordTable: Value -> TableId, cint: Value -> int)
    requires ApplyAll(steps, rows, recordTable, cint).Ok?
    decreases |rows|
    ensures steps <= ApplyAll(steps, rows, recordTable, cint).value
    ensures NoDup(Shapes(steps)) ==> NoDup(Shapes(ApplyAll(steps, rows, recordTable, cint).value))
    ensures forall k :: 0 <= k < |rows| ==>
      HasKeyColumns(rows[k]) &&
      HasStep(ApplyAll(steps, rows, recordTable, cint).value, Shape(rows[k], recordTable, cint))
  {
    if |rows| > 0 {
      var next := ApplyExplain(steps, rows[0], recordTable, cint).value;
      var r := ApplyAll(next, rows[1..], recordTable, cint).value;
      ApplyExplainExtends(steps, rows[0], recordTable, cint);
      if NoDup(Shapes(steps)) {
        ApplyExplainKeepsShapesDistinct(steps, rows[0], recordTable, cint);
      }
      ApplyAllRecordsEveryRow(next, rows[1..], recordTable, cint);
      var shape := Shape(rows[0], recordTable, cint);
      assert shape in Shapes(next);
      var i :| 0 <= i < |next| && Shapes(next)[i] == shape;
      assert r[i] == next[i];
      forall k | 0 < k < |rows|
        ensures HasKeyColumns(rows[k]) && HasStep(r, Shape(rows[k], recordTable, cint))
      {
        assert rows[k] == rows[1..][k - 1];
      }
    }
  }

  /** Saving after any sequence of `apply_explain` calls lists, in the
      stored summary, the registered name of every table a row resolved to. */
  lemma ApplyAllThenSave(
    rec: QueryRecord, rows: seq<RawRow>, recordTable: Value -> TableId, cint: Value -> int, registry: Registry)
    requires ApplyAll(rec.steps, rows, recordTable, cint).Ok?
    ensures
      var saved := Validate(rec.(steps := ApplyAll(rec.steps, rows, recordTable, cint).value), registry);
      forall k :: 0 <= k < |rows| ==>
        HasKeyColumns(rows[k]) &&
        (recordTable(rows[k]["table"]) in registry ==> registry[recordTable(rows[k]["table"])] in saved.tables)
  {
    var steps := ApplyAll(rec.steps, rows, recordTable, cint).value;
    ApplyAllRecordsEveryRow(rec.steps, rows, recordTable, cint);
    forall k | 0 <= k < |rows| && recordTable(rows[k]["table"]) in registry
      ensures registry[recordTable(rows[k]["table"])] in TablesSummary(steps, registry)
    {
      var i :| 0 <= i < |steps| && steps[i].shape == Shape(rows[k], recordTable, cint);
      assert steps[i].shape.table == recordTable(rows[k]["table"]);
    }
  }

  /** The table id of every step, in step order. */
  function TableColumn(steps: seq<PlanStep>): (ts: seq<TableId>)
    ensures |ts| == |steps|
    ensures forall i :: 0 <= i < |steps| ==> ts[i] == steps[i].shape.table
  {
    seq(|steps|, i requires 0 <= i < |steps| => steps[i].shape.table)
  }

  /** `tables_id` in `set_tables_summary`: the table ids of the steps, each
      once, in order of first appearance. */
  function TableIds(steps: seq<PlanStep>): seq<TableId> {
    Distinct(TableColumn(steps))
  }

  /** The comprehension with a `seen` set that `set_tables_summary` runs,
      as a loop. */
  method CollectTableIds(steps: seq<PlanStep>) returns (ids: seq<TableId>)
    ensures ids == TableIds(steps)
    ensures NoDup(ids)
    ensures forall t :: t in ids <==> exists i :: 0 <= i < |steps| && steps[i].shape.table == t
  {
    var seen: set<TableId> := {};
    ids := [];
    for k := 0 to |steps|
      invariant ids == Distinct(TableColumn(steps)[..k])
      invariant forall t :: t in seen <==> t in ids
    {
      var t := steps[k].shape.table;
      assert TableColumn(steps)[..k + 1] == TableColumn(steps)[..k] + [t];
      if t !in seen {
        seen := seen + {t};
        ids := ids + [t];
      }
    }
    assert TableColumn(steps)[..|steps|] == TableColumn(steps);
    forall t | exists i :: 0 <= i < |steps| && steps[i].shape.table == t
      ensures t in ids
    {
      var i :| 0 <= i < |steps| && steps[i].shape.table == t;
      assert TableColumn(steps)[i] == t;
    }
  }

  /** The ids of `TableIds` that the registry knows, in the same order. */
  function RegisteredIds(steps: seq<PlanStep>, registry: Registry): seq<TableId> {
    Keep(TableIds(steps), registry.Keys)
  }

  /** The registered names of a sequence of registered ids. */
  function NamesOf(ids: seq<TableId>, registry: Registry): (names: seq<string>)
    requires forall t :: t in ids ==> t in registry
    ensures |names| == |ids|
    ensures forall i :: 0 <= i < |ids| ==> names[i] == registry[ids[i]]
  {
    seq(|ids|, i requires 0 <= i < |ids| => registry[ids[i]])
  }

  /** The table summary `set_tables_summary` stores: the registered name of
      every table a step touches, each id once, ids the registry does not
      know left out. */
  function TablesSummary(steps: seq<PlanStep>, registry: Registry): (names: seq<string>)
    ensures |names| <= |steps|
    ensures forall i :: 0 <= i < |steps| && steps[i].shape.table in registry ==>
      registry[steps[i].shape.table] in names
    ensures forall n :: n in names ==>
      exists i :: 0 <= i < |steps| && steps[i].shape.table in registry && registry[steps[i].shape.table] == n
  {
    var ids := RegisteredIds(steps, registry);
    var names := NamesOf(ids, registry);
    assert |ids| <= |steps| by {
      KeepLength(TableIds(steps), registry.Keys);
    }
    forall i | 0 <= i < |steps| && steps[i].shape.table in registry
      ensures registry[steps[i].shape.table] in names
    {
      var t := steps[i].shape.table;
      assert TableColumn(steps)[i] == t;
      var k :| 0 <= k < |ids| && ids[k] == t;
      assert names[k] == registry[t];
    }
    forall n | n in names
      ensures exists i :: 0 <= i < |steps| && steps[i].shape.table in registry && registry[steps[i].shape.table] == n
    {
      var k :| 0 <= k < |names| && names[k] == n;
      assert ids[k] in TableColumn(steps);
      var i :| 0 <= i < |steps| && TableColumn(steps)[i] == ids[k];
    }
    names
  }

  /** The summary keeps the order of first appearance: of two names, the one
      listed first belongs to a table whose first step comes first. */
  lemma RegisteredIdsFirstSeen(steps: seq<PlanStep>, registry: Registry)
    ensures NoDup(RegisteredIds(steps, registry))
    ensures forall t :: t in RegisteredIds(steps, registry) <==> t in registry && t in TableColumn(steps)
    ensures forall i, j :: 0 <= i < j < |RegisteredIds(steps, registry)| ==>
      IndexOf(TableColumn(steps), RegisteredIds(steps, registry)[i])
        < IndexOf(TableColumn(steps), RegisteredIds(steps, registry)[j])
  {
    var col := TableColumn(steps);
    var ids := TableIds(steps);
    var reg := RegisteredIds(steps, registry);
    KeepInOrder(ids, registry.Keys);
    DistinctFirstSeenOrder(col);
    forall i, j | 0 <= i < j < |reg|
      ensures IndexOf(col, reg[i]) < IndexOf(col, reg[j])
    {
      var a := IndexOf(ids, reg[i]);
      var b := IndexOf(ids, reg[j]);
      assert a < b;
      assert ids[a] == reg[i] && ids[b] == reg[j];
    }
  }

  /** The sort key of `set_tables_summary`: a table's position in
      `tables_id` (`tables_id.index`). */
  function PositionIn(ids: seq<TableId>): TableId -> int {
    (t: TableId) => if t in ids then IndexOf(ids, t) else -1
  }

  /** Distinct tables of `ids` have distinct positions. */
  lemma PositionInSeparates(ids: seq<TableId>)
    ensures forall x, y :: x in ids && y in ids && PositionIn(ids)(x) == PositionIn(ids)(y) ==> x == y
  {
    forall x, y | x in ids && y in ids && PositionIn(ids)(x) == PositionIn(ids)(y)
      ensures x == y
    {
      assert ids[IndexOf(ids, x)] == x && ids[IndexOf(ids, y)] == y;
    }
  }

  /** The registered ids come in strictly increasing position in `tables_id`. */
  lemma RegisteredIdsByPosition(steps: seq<PlanStep>, registry: Registry)
    ensures forall i, j :: 0 <= i < j < |RegisteredIds(steps, registry)| ==>
      PositionIn(TableIds(steps))(RegisteredIds(steps, registry)[i])
        < PositionIn(TableIds(steps))(RegisteredIds(steps, registry)[j])
  {
    KeepInOrder(TableIds(steps), registry.Keys);
  }

  /** Whatever order the store lists the matching `MariaDB Table` records
      in, sorting them by their position in `tables_id` yields the registered
      ids in first-seen order, so the stored summary is `TablesSummary`. */
  lemma SortedListingIsSummary(steps: seq<PlanStep>, registry: Registry, listing: seq<TableId>)
    requires NoDup(listing)
    requires forall t :: t in listing <==> t in TableIds(steps) && t in registry
    ensures forall t :: t in SortByKey(listing, PositionIn(TableIds(steps))) ==> t in registry
    ensures NamesOf(SortByKey(listing, PositionIn(TableIds(steps))), registry) == TablesSummary(steps, registry)
  {
    var ids := TableIds(steps);
    var key := PositionIn(ids);
    var sorted := SortByKey(listing, key);
    SortByKeySorted(listing, key);
    SortByKeyNoDup(listing, key);
    PositionInSeparates(ids);
    SortedInjectiveIsStrict(sorted, key);
    RegisteredIdsByPosition(steps, registry);
    StrictlySortedUnique(sorted, RegisteredIds(steps, registry), key);
  }

  /** `MariaDBQuery.validate`, run on every save: recomputes the table
      summary from the current steps and touches nothing else. */
  function Validate(rec: QueryRecord, registry: Registry): (r: QueryRecord)
    ensures r.query == rec.query && r.steps == rec.steps && r.occurence == rec.occurence
    ensures SummaryConsistent(r, registry)
  {
    rec.(tables := TablesSummary(rec.steps, registry))
  }

  /** The record invariant every save establishes. */
  predicate SummaryConsistent(rec: QueryRecord, registry: Registry) {
    rec.tables == TablesSummary(rec.steps, registry)
  }
}
