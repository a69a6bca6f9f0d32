/** `ToolBox Settings`: normalising the settings on save, deriving the
    scheduled job that processes the SQL recorder's capture, and one
    processing pass with its recorder-flag toggle. */
module ToolboxSettings {
  import opened Base
  import opened Sequences

  /** `PROCESS_SQL_JOB_METHOD`, which is also the scheduled job's name. */
  const JobName: string := "toolbox_settings.process_sql_recorder"
  /** The dotted path of `process_sql_recorder`, the job's method. */
  const JobMethod: string := "toolbox.toolbox.doctype.toolbox_settings.toolbox_settings.process_sql_recorder"
  const DefaultInterval: string := "Hourly"
  const CronFrequency: string := "Cron"
  const LongSuffix: string := " Long"

  /** The fields of the settings document the model reads. An unset
      interval is the empty string. */
  datatype Settings = Settings(
    indexManagerEnabled: bool,
    sqlRecorderEnabled: bool,
    processingInterval: string)

  /** A `Scheduled Job Type` document, reduced to the fields set here;
      `target` is its `method` field. Its name is its key in the store. */
  datatype ScheduledJob = ScheduledJob(
    stopped: bool,
    target: string,
    createLog: bool,
    frequency: string,
    cronFormat: string)

  /** The settings every save leaves behind: the index manager never runs
      without the recorder, and there is always an interval. */
  predicate Normalised(s: Settings) {
    (s.indexManagerEnabled ==> s.sqlRecorderEnabled) && s.processingInterval != ""
  }

  /** `set_missing_settings`. */
  function SetMissingSettings(s: Settings): (r: Settings)
    ensures Normalised(r)
    ensures r.indexManagerEnabled == s.indexManagerEnabled
    ensures s.sqlRecorderEnabled ==> r.sqlRecorderEnabled
    ensures !s.indexManagerEnabled ==> r.sqlRecorderEnabled == s.sqlRecorderEnabled
    ensures s.processingInterval != "" ==> r.processingInterval == s.processingInterval
    ensures s.processingInterval == "" ==> r.processingInterval == DefaultInterval
  {
    var recorder := if s.indexManagerEnabled then true else s.sqlRecorderEnabled;
    var interval := if s.processingInterval == "" then DefaultInterval else s.processingInterval;
    s.(sqlRecorderEnabled := recorder, processingInterval := interval)
  }

  /** Normalised settings are left exactly as they are, so normalising
      twice is normalising once. */
  lemma SetMissingSettingsFixesNormalised(s: Settings)
    ensures Normalised(s) ==> SetMissingSettings(s) == s
    ensures SetMissingSettings(SetMissingSettings(s)) == SetMissingSettings(s)
  {
  }

  /** The blank document `new_doc` starts from. */
  function NewJob(): ScheduledJob {
    ScheduledJob(false, "", false, "", "")
  }

  /** `update_scheduled_job`: fetch the job by name, or start a new one,
      set its fields from the settings and save it into `jobs`. */
  function UpdateScheduledJob(s: Settings, jobs: map<string, ScheduledJob>): (r: map<string, ScheduledJob>)
    ensures r.Keys == jobs.Keys + {JobName}
    ensures forall k :: k in jobs && k != JobName ==> r[k] == jobs[k]
    ensures r[JobName].stopped <==> !s.sqlRecorderEnabled
    ensures r[JobName].target == JobMethod && r[JobName].createLog
    ensures '*' in s.processingInterval ==>
      r[JobName].frequency == CronFrequency && r[JobName].cronFormat == s.processingInterval
    ensures '*' !in s.processingInterval ==>
      && r[JobName].frequency == s.processingInterval + LongSuffix
      && r[JobName].cronFormat == (if JobName in jobs then jobs[JobName] else NewJob()).cronFormat
  {
    var job := if JobName in jobs then jobs[JobName] else NewJob();
    var job := job.(stopped := !s.sqlRecorderEnabled, target := JobMethod, createLog := true);
    var job :=
      if '*' in s.processingInterval then job.(frequency := CronFrequency, cronFormat := s.processingInterval)
      else job.(frequency := s.processingInterval + LongSuffix);
    jobs[JobName := job]
  }

  /** Reads back the interval a job was scheduled with: a cron expression
      from `cronFormat`, a named interval from the frequency without its
      " Long" suffix. */
  function ScheduledInterval(job: ScheduledJob): string {
    if job.frequency == CronFrequency then job.cronFormat
    else if |LongSuffix| <= |job.frequency| then job.frequency[..|job.frequency| - |LongSuffix|]
    else job.frequency
  }

  /** The saved job schedules exactly the interval of the settings. */
  lemma ScheduleRoundTrip(s: Settings, jobs: map<string, ScheduledJob>)
    ensures ScheduledInterval(UpdateScheduledJob(s, jobs)[JobName]) == s.processingInterval
  {
    var job := UpdateScheduledJob(s, jobs)[JobName];
    if '*' !in s.processingInterval {
      assert |job.frequency| == |s.processingInterval| + 5;
      assert job.frequency != CronFrequency;
      assert job.frequency[..|s.processingInterval|] == s.processingInterval;
    }
  }

  /** Saving the settings twice schedules the job as saving once does. */
  lemma UpdateScheduledJobIdempotent(s: Settings, jobs: map<string, ScheduledJob>)
    ensures UpdateScheduledJob(s, UpdateScheduledJob(s, jobs)) == UpdateScheduledJob(s, jobs)
  {
    var once := UpdateScheduledJob(s, jobs);
    var twice := UpdateScheduledJob(s, once);
    assert twice[JobName] == once[JobName];
    assert twice.Keys == once.Keys;
  }

  /** `validate` after the compatibility check: normalise, then schedule. */
  function ValidateSettings(s: Settings, jobs: map<string, ScheduledJob>): (r: (Settings, map<string, ScheduledJob>))
    ensures r.0 == SetMissingSettings(s) && r.1 == UpdateScheduledJob(r.0, jobs)
    ensures Normalised(r.0) && JobName in r.1
    ensures r.1[JobName].stopped <==> !r.0.sqlRecorderEnabled
  {
    var settings := SetMissingSettings(s);
    (settings, UpdateScheduledJob(settings, jobs))
  }

  /** Enabling the index manager always leaves the processing job running. */
  lemma IndexManagerKeepsJobRunning(s: Settings, jobs: map<string, ScheduledJob>)
    requires s.indexManagerEnabled
    ensures !ValidateSettings(s, jobs).1[JobName].stopped
  {
  }

  /** Without an interval the job runs on the hourly long queue. */
  lemma DefaultSchedule(s: Settings, jobs: map<string, ScheduledJob>)
    requires s.processingInterval == ""
    ensures ValidateSettings(s, jobs).1[JobName].frequency == "Hourly Long"
  {
    assert '*' !in DefaultInterval;
  }

  /** The recorder's shared state: whether the flag that switches capture
      on is set, and the captured queries grouped by request. */
  datatype Recorder<Q> = Recorder(flag: bool, captured: seq<seq<Q>>)

  /** One processing pass: the queries handed to processing, whether the
      flag was set while they were processed, and the recorder afterwards. */
  datatype Pass<Q> = Pass(queries: seq<Q>, flagWhileProcessing: bool, after: Recorder<Q>)

  /** Whether the site configuration asks to keep recording: its `toolbox`
      section exists and its `recorder` option is truthy. The section is
      given as the truthiness of each of its values, so a missing section,
      a missing option and a false value all mean off. */
  predicate KeepRecorderOn(toolbox: Option<map<string, bool>>) {
    toolbox.Some? && "recorder" in toolbox.value && toolbox.value["recorder"]
  }

  /** `process_sql_recorder`, once the lock is held: clear the flag, take
      every captured query, process them, delete the capture, and set the
      flag again only when the configuration asks to keep recording. */
  function ProcessSqlRecorder<Q>(rec: Recorder<Q>, toolbox: Option<map<string, bool>>): (r: Pass<Q>)
    ensures !r.flagWhileProcessing
    ensures r.after.flag <==> KeepRecorderOn(toolbox)
    ensures r.after.captured == []
    ensures |r.queries| == TotalLength(rec.captured)
  {
    var cleared := rec.(flag := false);
    var queries := Flatten(cleared.captured);
    var deleted := cleared.(captured := []);
    Pass(queries, cleared.flag, deleted.(flag := KeepRecorderOn(toolbox)))
  }

  /** Every request's queries are processed, contiguously and in their
      order within the request, and nothing but captured queries is. */
  lemma RecorderPassKeepsEveryQuery<Q>(rec: Recorder<Q>, toolbox: Option<map<string, bool>>, i: nat)
    requires i < |rec.captured|
    ensures var queries := ProcessSqlRecorder(rec, toolbox).queries;
      && Offset(rec.captured, i) + |rec.captured[i]| <= |queries|
      && queries[Offset(rec.captured, i)..Offset(rec.captured, i) + |rec.captured[i]|] == rec.captured[i]
  {
    FlattenSlice(rec.captured, i);
  }

  lemma RecorderPassInventsNothing<Q>(rec: Recorder<Q>, toolbox: Option<map<string, bool>>)
    ensures forall x :: x in ProcessSqlRecorder(rec, toolbox).queries <==>
      exists i :: 0 <= i < |rec.captured| && x in rec.captured[i]
  {
    FlattenMembers(rec.captured);
  }

  /** Query `j` of request `i` is processed before query `j'` of a later
      request `i'`: each sits at its own position in the processed list, and
      the earlier request's position is the smaller. */
  lemma RecorderPassKeepsRequestOrder<Q>(rec: Recorder<Q>, toolbox: Option<map<string, bool>>, i: nat, j: nat, i': nat, j': nat)
    requires i < i' < |rec.captured| && j < |rec.captured[i]| && j' < |rec.captured[i']|
    ensures var queries := ProcessSqlRecorder(rec, toolbox).queries;
      var at := Offset(rec.captured, i) + j;
      var at' := Offset(rec.captured, i') + j';
      && at < at' < |queries|
      && queries[at] == rec.captured[i][j]
      && queries[at'] == rec.captured[i'][j']
  {
    OffsetGrows(rec.captured, i, i');
    FlattenIndex(rec.captured, i, j);
    FlattenIndex(rec.captured, i', j');
  }
}
