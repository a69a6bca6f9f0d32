# Toolbox query-plan records, modelled in Dafny

Toolbox is a Frappe app. It records the SQL statements a site runs, asks MariaDB for their
EXPLAIN plans, and keeps one `MariaDB Query` record per statement text. Each record holds
that statement's distinct plan steps and a summary of the tables they touch. This project
models the logic that turns the recorder's capture into those records, and proves
properties about it:

- `MariaDBQuery` (`mariadb_query.dfy`) models the `MariaDB Query` document.
  - `apply_explain` is an idempotent append keyed on nine plan fields.
  - `set_tables_summary` builds the distinct table ids in first-seen order, drops the ids
    the `MariaDB Table` registry does not know, and maps the rest to their table names.
  - `validate` recomputes that summary on every save.
- `ProcessSql` (`process_sql.dfy`) models the `process-sql-metadata` command. It walks
  the exported calls in order:
  - it drops transaction-control statements;
  - it drops statements without a plan, printing a notice unless the statement is an
    INSERT;
  - it applies every EXPLAIN row not on a Toolbox table, then saves and counts the record.
- `Cleanup` (`cleanup.dfy`) models the `cleanup-sql-metadata` command.
  - It counts the texts, as `Counter` does.
  - It takes the texts seen more than once among the 10,000 most common.
  - For each such text it keeps the first listed record, deletes the others, and stores
    how many records the text had.
- `ToolboxSettings` (`toolbox_settings.dfy`) models the settings document.
  - `set_missing_settings`: the index manager forces the recorder on, and the interval
    defaults to `Hourly`.
  - `update_scheduled_job`: the recorder flag decides `stopped`, and a `*` in the
    interval selects a cron schedule.
  - `process_sql_recorder`: the recorder flag is cleared during a processing pass and
    restored only if the configuration asks for it. The pass flattens the captured
    requests into one list of queries.
- `Base`, `Text` and `Sequences` hold the shared vocabulary:
  - `Result`, raw values and errors;
  - ASCII lower-casing and prefix tests;
  - duplicate-free sequences, first-seen de-duplication, order-preserving filters,
    stable sorting by key, and flattening.

The data model is made of immutable values:

- An EXPLAIN row is a map from column name to value.
- A plan step is the nine-field key plus the row estimate and `filtered`.
- A query record holds its text, steps, table summary and `occurence`.
- The query store is a map from text to record.
- The `MariaDB Query` table seen by the cleanup is a map from name to record, plus the
  order the store lists the names in.

Code outside the modelled files enters as parameters:

- `record_table` and `cint` are function parameters.
- The `MariaDB Table` registry is a map from id to table name.
- The list of Toolbox DocTypes is a sequence.
- The recorder's export is a sequence of calls.
- The `toolbox` section of the site configuration is a map.

Where the code could be read otherwise, the model follows the code as written:

- Statements are lower-cased but not trimmed before the prefix tests.
- An EXPLAIN row without a `table` column raises (the `Err` path), rather than being
  skipped.
- The record the cleanup keeps is the first name the store lists, not the lowest one.
- The Toolbox-table test compares the raw `table` column of an EXPLAIN row with DocType
  names. It is modelled as that comparison.

## Model

| member | source | states |
|---|---|---|
| MariaDBQuery.ExplainKey | toolbox/toolbox/doctype/mariadb_query/mariadb_query.py:27-39 | The key is built exactly when all nine key columns are present. The key resolves the table through `record_table` and coerces `key_len` with `cint`. A missing column is reported by name, and a missing `table` is the error raised. |
| MariaDBQuery.ApplyExplain | toolbox/toolbox/doctype/mariadb_query/mariadb_query.py:26-47 | Succeeds exactly when the key columns are present and either the step is already there or `rows` is present. An existing key leaves the steps unchanged. Otherwise exactly one step is appended at the end, holding `cint(rows)` and `filtered` (null when absent). Every error names a missing column. |
| MariaDBQuery.ApplyExplainIdempotent | toolbox/toolbox/doctype/mariadb_query/mariadb_query.py:41-47 | A second row whose nine key fields equal an applied row's leaves the steps as they were, even if its `rows` or `filtered` differ or are missing. |
| MariaDBQuery.ApplyExplainExtends | toolbox/toolbox/doctype/mariadb_query/mariadb_query.py:41-47 | Applying a row keeps the old steps as a prefix and adds at most one step. The set of keys afterwards is the old set plus the row's key. |
| MariaDBQuery.ApplyExplainKeepsShapesDistinct | toolbox/toolbox/doctype/mariadb_query/mariadb_query.py:41-47 | A step list without duplicate keys keeps that property after a row is applied. |
| MariaDBQuery.ApplyAllRecordsEveryRow | toolbox/toolbox/doctype/mariadb_query/mariadb_query.py:26-47 | After a successful sequence of applications, the old steps are a prefix, keys stay distinct, and every applied row's key is among the steps. `ApplyAll` models the loop over the rows that calls `apply_explain`, stopping at the first error. |
| MariaDBQuery.ApplyAllThenSave | toolbox/toolbox/doctype/mariadb_query/mariadb_query.py:12-24 | Saving after any sequence of applications lists the registered name of every applied row's resolved table in the summary. |
| MariaDBQuery.CollectTableIds | toolbox/toolbox/doctype/mariadb_query/mariadb_query.py:16-19 | The `seen`-set comprehension gives the first-seen de-duplication of the steps' table ids. The result has no duplicates and holds exactly the ids some step uses. |
| MariaDBQuery.TablesSummary | toolbox/toolbox/doctype/mariadb_query/mariadb_query.py:15-24 | The summary is no longer than the steps. It holds the registered name of every step table the registry knows, and only such names. |
| MariaDBQuery.RegisteredIdsFirstSeen | toolbox/toolbox/doctype/mariadb_query/mariadb_query.py:16-23 | The ids kept for the summary have no duplicates, are exactly the registered step tables, and appear in strictly increasing order of their first appearance in the steps. |
| MariaDBQuery.SortedListingIsSummary | toolbox/toolbox/doctype/mariadb_query/mariadb_query.py:20-24 | Whatever order the registry query returns the matching tables in, sorting by position in `tables_id` and taking the names gives the summary. |
| MariaDBQuery.Validate | toolbox/toolbox/doctype/mariadb_query/mariadb_query.py:12-13 | Saving keeps the text, steps and `occurence`, and makes the stored summary agree with the current steps. |
| ProcessSql.RecordQuery | toolbox/commands.py:52 | Returns the stored record for the text when there is one, and otherwise a new record for that text with no steps. |
| ProcessSql.ForeignRows | toolbox/commands.py:54-57 | Exactly the rows whose raw table name is not a Toolbox table are kept. A single row is kept exactly when it is not on a Toolbox table. The test is `IsToolboxRow` (commands.py:56), on the raw `table` value. |
| ProcessSql.ForeignRowsAppend | toolbox/commands.py:54-57 | Filtering a concatenation is filtering each part, in order. With the one-row case, the kept rows are the non-Toolbox rows in their original order and number. |
| ProcessSql.ApplyRows | toolbox/commands.py:54-59 | The old steps stay a prefix. A row without `table` makes the loop fail. If every row is on a Toolbox table, the steps are unchanged. If every row is complete, the loop succeeds. |
| ProcessSql.ApplyRowsSkipsToolboxRows | toolbox/commands.py:54-59 | The inner loop is exactly `apply_explain` over the non-Toolbox rows, in order. |
| ProcessSql.AppliedRows | toolbox/commands.py:54-59 | When the inner loop succeeds, every row has a `table` column, and the result is `apply_explain` applied to the non-Toolbox rows in order. Each non-Toolbox row has its key columns, and its step is among the resulting steps. |
| ProcessSql.SaveStatement | toolbox/commands.py:52-61 | The saved record is the found or new record for the text. Its steps are exactly those that `apply_explain` over the non-Toolbox rows, in order, yields from the found record's steps, and each such row's step is among them. It keeps `occurence` and has a consistent summary. It succeeds exactly when every row has `table` and `apply_explain` succeeds on the non-Toolbox rows. A row whose step already exists therefore needs no `rows` column. A row without `table` raises. An all-Toolbox plan saves the steps unchanged, and complete rows always succeed. |
| ProcessSql.ProcessStatement | toolbox/commands.py:46-67 | A statement that is transaction control or has no plan changes neither the store nor the count. A notice is added exactly for a non-INSERT without a plan. A statement with a plan succeeds exactly when `SaveStatement` does, and stores its record under the text. It adds one to the count and leaves other records alone. The saved record extends the old steps, keeps `occurence` and has a consistent summary. An all-Toolbox plan is saved and counted with unchanged steps. |
| ProcessSql.ProcessStatementsCount | toolbox/commands.py:44-62 | After a successful pass, the count has grown by the number of statements, in order, that are neither transaction control nor without a plan. `ProcessStatements` models the loop over the statements (commands.py:44-67). Transaction control is `IsTransactionControl` (line 48), which tests the lower-cased text for the prefixes `start`, `commit` and `rollback`. |
| ProcessSql.ProcessStatementsNotices | toolbox/commands.py:44-67 | After a successful pass, the notices are exactly the skipped non-INSERT statements without a plan, in order. The INSERT test is `IsInsert` (line 65), a lower-cased prefix test. |
| ProcessSql.ProcessStatementsKeys | toolbox/commands.py:44-62 | After a successful pass, the store holds records for exactly the earlier texts plus the saved ones, each under its own text. |
| ProcessSql.ProcessStatementsUntouched | toolbox/commands.py:44-62 | A record whose text the pass does not save comes out unchanged. |
| ProcessSql.ProcessStatementsSaved | toolbox/commands.py:52-61 | Every text the pass saves ends up with a consistent summary. A record that existed before the pass keeps its steps as a prefix and keeps its `occurence`. |
| ProcessSql.ProcessStatementsAppliesRows | toolbox/commands.py:44-62 | After a successful pass, every EXPLAIN row of a saved statement has a `table` column. Unless it is on a Toolbox table, it has its key columns and its step is in the final record of its text. |
| ProcessSql.ProcessSqlMetadataCount | toolbox/commands.py:38-71 | The printed count equals the number of statements in the flattened export that are neither transaction control nor without a plan. The notices and the final set of texts match the reference definitions. `ProcessSqlMetadata` models the command from a zero count, and `Statements` (commands.py:44-45) flattens the exported calls. |
| ProcessSql.TransactionControlNeverRecorded | toolbox/commands.py:48-49 | A transaction-control text is never added to the store, and its existing record is never changed. |
| ProcessSql.ProcessStatementsErrors | toolbox/commands.py:54-59 | A pass over complete rows succeeds. A pass containing a saved statement with a row that lacks `table` fails. |
| Cleanup.Texts | toolbox/commands.py:86 | Entry `i` of the plucked texts is the text of the `i`-th listed record. |
| Cleanup.CounterCounts | toolbox/commands.py:86-88 | The Counter's count of a text equals the number of records holding it. |
| Cleanup.RankingOrder | toolbox/commands.py:90 | The ranking holds every distinct text once, sorted by descending count, with equal counts in first-seen order. |
| Cleanup.MostCommon | toolbox/commands.py:90 | `most_common(n)` returns distinct counted texts. There are `n` of them, or every distinct text when fewer than `n` exist. Counts never increase along the result, and texts with equal counts come in first-seen order. Every text returned is counted more often than every text left out, or as often and seen earlier. |
| Cleanup.TopRankedOrder | toolbox/commands.py:90 | The first `n` texts of the ranking meet everything the `most_common(n)` row states. |
| Cleanup.Repeated | toolbox/commands.py:90 | The filter keeps exactly the texts of its input counted more than once, and keeps a duplicate-free input duplicate-free. |
| Cleanup.Candidates | toolbox/commands.py:86-90 | The candidates are distinct. A text is a candidate exactly when it is among the 10,000 most common and more than one record holds it. |
| Cleanup.MostCommonKeepsRepeated | toolbox/commands.py:90 | If at most `n` texts repeat, every repeated text is among the `n` most common. |
| Cleanup.DuplicatesWithinLimitAreCandidates | toolbox/commands.py:86-90 | If at most 10,000 texts are duplicated, a text is a candidate exactly when more than one record holds it. |
| Cleanup.SurvivorIsFirstListed | toolbox/commands.py:93-94 | The kept record holds the text, and no record listed before it holds that text. |
| Cleanup.CompactTextRecords | toolbox/commands.py:93-100 | Compacting one text keeps a record exactly when its text differs or it is the first listed record with that text. Every other kept record is unchanged. The kept one stores the text's prior record count and a recomputed summary, and the listing keeps its order. `CompactText` models the loop body for one text (commands.py:93-100). |
| Cleanup.CompactTextIsCompaction | toolbox/commands.py:93-100 | Compacting one text keeps only its first listed record. That record stores the prior count and a recomputed summary. Other records and the listing order are kept. |
| Cleanup.CompactedCompose | toolbox/commands.py:92-101 | Compacting one set of texts and then a disjoint set is compacting their union. |
| Cleanup.CompactAllIsCompaction | toolbox/commands.py:92-101 | The loop over distinct candidates compacts exactly the candidate set, whatever order the candidates come in. `CompactAll` models the loop (commands.py:92-101). |
| Cleanup.CleanupSqlMetadata | toolbox/commands.py:86-101 | The command's result is the compaction of the store on its candidates. |
| Cleanup.CompactedKeepsTexts | toolbox/commands.py:95-100 | Compaction never changes which text a record holds. |
| Cleanup.CompactedLeavesOne | toolbox/commands.py:93-97 | After compaction, every compacted text is held by exactly one record. |
| Cleanup.CleanupLeavesNoDuplicates | toolbox/commands.py:86-101 | If at most 10,000 texts are duplicated, no text is held by two records afterwards, and no text disappears. |
| Cleanup.CleanupLeavesSinglesAlone | toolbox/commands.py:90-97 | A record whose text is held once is neither deleted nor changed. |
| Cleanup.NoCandidates | toolbox/commands.py:90 | A store without duplicated texts yields no candidates. |
| Cleanup.CleanupIdempotent | toolbox/commands.py:86-101 | If at most 10,000 texts are duplicated, running the cleanup on its own result changes nothing. |
| ToolboxSettings.SetMissingSettings | toolbox/toolbox/doctype/toolbox_settings/toolbox_settings.py:27-31 | The result is normalised: the index manager implies the recorder, and the interval is never empty. The recorder is only ever switched on, and only by the index manager. A given interval is kept, and an empty one becomes `Hourly`. |
| ToolboxSettings.SetMissingSettingsFixesNormalised | toolbox/toolbox/doctype/toolbox_settings/toolbox_settings.py:27-31 | Normalised settings are left alone, so normalising is idempotent. |
| ToolboxSettings.UpdateScheduledJob | toolbox/toolbox/doctype/toolbox_settings/toolbox_settings.py:33-52 | The job named `toolbox_settings.process_sql_recorder` is created or updated, and no other job changes. `stopped` is exactly "recorder disabled". The method and `create_log` are set. An interval with `*` gives `Cron` with that cron format. Any other interval gives the interval plus ` Long` and keeps the old cron format. |
| ToolboxSettings.ScheduleRoundTrip | toolbox/toolbox/doctype/toolbox_settings/toolbox_settings.py:46-50 | Reading the interval back from the saved job gives the settings' interval. |
| ToolboxSettings.UpdateScheduledJobIdempotent | toolbox/toolbox/doctype/toolbox_settings/toolbox_settings.py:33-52 | Saving the settings twice leaves the jobs as saving once does. |
| ToolboxSettings.ValidateSettings | toolbox/toolbox/doctype/toolbox_settings/toolbox_settings.py:14-18 | Validation is `set_missing_settings`, followed by `update_scheduled_job` on the normalised settings. The settings are then normalised, and the job is stopped exactly when the recorder is off. |
| ToolboxSettings.IndexManagerKeepsJobRunning | toolbox/toolbox/doctype/toolbox_settings/toolbox_settings.py:27-40 | With the index manager enabled, the processing job is never stopped. |
| ToolboxSettings.DefaultSchedule | toolbox/toolbox/doctype/toolbox_settings/toolbox_settings.py:30-50 | Without an interval, the job runs at `Hourly Long`. |
| ToolboxSettings.ProcessSqlRecorder | toolbox/toolbox/doctype/toolbox_settings/toolbox_settings.py:55-84 | For a pass that completes, the flag is off while queries are processed. Afterwards it is on exactly when the configuration's `recorder` option is truthy, whatever it was before. The capture is deleted, and every captured query is processed. `KeepRecorderOn` (toolbox_settings.py:67) is the configuration test. |
| ToolboxSettings.RecorderPassKeepsEveryQuery | toolbox/toolbox/doctype/toolbox_settings/toolbox_settings.py:68 | Each request's queries appear whole and in order at that request's offset in the processed list. |
| ToolboxSettings.RecorderPassInventsNothing | toolbox/toolbox/doctype/toolbox_settings/toolbox_settings.py:68 | A query is processed exactly when some request captured it. |
| ToolboxSettings.RecorderPassKeepsRequestOrder | toolbox/toolbox/doctype/toolbox_settings/toolbox_settings.py:68 | Query `j` of request `i` and query `j'` of a later request `i'` both sit in the processed list, each at its request's offset plus its index, and the first comes before the second. |

## Left out

- Frappe, Redis and MariaDB I/O are not modelled: site initialisation, `frappe.connect`, `frappe.qb` query building, `frappe.db.commit`, the Click wiring, printing and the final `delete_recording`. The printed count and the notices are modelled as values.
- `check_dbms_compatibility`, `handle_redis_connection_error` and `record_database_state` are not part of this model. They guard or snapshot the database and do not change the records.
- `record_query` is not part of this model. It is modelled as find-or-create, with a new record starting with no steps and `occurence` 1.
- `record_table` is not part of this model. Its effect of registering tables is not modelled. It is a function parameter, and the registry is an input snapshot.
- `cint` is a function parameter. Python's conversion rules are not modelled.
- `filtered` and the other EXPLAIN columns are opaque values. No arithmetic is done on them.
- The summary is stored as a sequence of names. Its JSON encoding by `frappe.as_json` is not modelled.
- Cleanup.NamesWith: finding and deleting a text's records compares texts exactly. The program does these lookups in SQL, where `=` on the `query` column follows the database collation. Under MariaDB's `utf8mb4_unicode_ci`, the collation Frappe uses by default, `=` ignores case and trailing spaces, while `Counter` compares exact strings. With case variants in the store, the program behaves differently from the model. The program keeps the first listed of all the records that are equal under the collation, and deletes the rest, so the kept record may hold a case variant rather than the candidate's exact text. The count it stores includes the variants. When two such variants are both candidates, the second lookup finds only the record kept for the first, so that record's `occurence` ends up 1. `CounterCounts`, `CleanupLeavesSinglesAlone`, the untouched-records part of the compaction results and the stored counts hold for exact comparison only.
- Cleanup.CompactText: the program deletes the other `MariaDB Query` rows with a query-builder delete, which bypasses document deletion, so their `query_explain` child rows stay in the database. The model drops each deleted record together with its steps. Those orphaned child rows are not modelled.
- The order in which `get_all` lists records is an input sequence. The model assumes that it lists every record once, that deleting records does not reorder the rest, and that saving the kept record does not move it. In the program, saving updates `modified`, and without an explicit order `get_all` lists by `modified` descending, so the kept record moves to the front. This changes only the order of the output listing. Which records survive, what is deleted and the stored counts are the same, because the records of other texts keep their relative order.
- Lower-casing covers ASCII letters only. Python's `str.lower` also folds other scripts, which can matter only for statements whose first letters are not ASCII.
- An absent `explain_result` (`None`) is treated like an empty one. Both are falsy at the `if`.
- A statement aborted by an exception is modelled as the `Err` result of the whole pass. Nothing is committed in that case, so the earlier in-memory saves are not modelled separately.
- `on_change` (clearing the bootinfo cache) is I/O and is left out.
- In `process_sql_recorder`, the file lock, `frappe.enqueue` and `_process_sql_metadata_chunk` are left out. They concern concurrency and background jobs, and the chunk processing lives in `toolbox/utils`, which is not part of this model. The model covers the pass once the lock is held and processing has finished. `export_data` and `delete_data` become the captured requests and the empty capture.
- MariaDBQuery.ApplyExplain: existing steps are matched on the nine key fields by exact equality. The program looks them up with Frappe's child-table filter. That filter treats a string value beginning with `^` as a prefix test on the rest, and `True`/`False` as non-null/null tests. For such values the program may append a step the model would not, or skip one the model would append.
- ToolboxSettings.ProcessSqlRecorder: only a pass that completes is modelled. The flag is cleared first, so if processing or enqueuing raises, the capture is not deleted and the flag is not set again, even when the configuration asks to keep recording. Recording then stays off with the capture in place.
- ToolboxSettings.KeepRecorderOn: the `toolbox` configuration values are given as their truthiness (a `bool` per key), not as arbitrary JSON values.
- ToolboxSettings.UpdateScheduledJob: a new `Scheduled Job Type` starts from blank fields, and its empty `cron_format` is kept for non-cron intervals. Frappe's own defaults for a new document are not modelled.
- ToolboxSettings.SetMissingSettings: the checkbox fields are booleans and an unset interval is the empty string. Python's truthiness of `0`/`1` and `None` is folded into that.
