/**
 `_run_job` / `run_one` / `_run_task` / `cancel` of
 core/services/update_orchestrator.py as an interleaving transition system.

 The code between two `await`s is one atomic action. Any number of jobs may overlap:
 they share the task and job tables and the `_cancel_event` slot, and each holds its
 own semaphore, cancel event and counters. What a plugin reports, when it returns,
 whether it raises, and when cancels are requested and delivered are all free.
 */
module UpdateScheduler {
  import opened Prelude
  import opened JobsRepo

  /** Where the `run_one` coroutine of one task stands. */
  datatype Pc = Fresh | Parked | Inside | Finished

  /** The local variables of one `_run_job`. `ended` records the cancel flag it ended with. */
  datatype Run = Run(permits: nat, launched: bool, pcs: map<int, Pc>, cancelled: bool,
                     succeeded: nat, failed: nat, ended: Option<bool>)

  /**
   `drafts` are the jobs `start_job` is still writing, one commit after the other;
   `installed` names the job whose event `self._cancel_event` points at; `inFlight` holds
   the jobs whose event a `call_soon` is still going to set.
   */
  datatype Sys = Sys(jobs: Jobs, tasks: Tasks, drafts: set<int>, runs: map<int, Run>,
                     installed: Option<int>, inFlight: set<int>)

  datatype Action =
    | Create(job: int)                   // start_job: create_job
    | AddTask(job: int, task: int)       // start_job: one create_task
    | Submit(job: int, concurrency: int) // start_job: the job is set running and submitted
    | Launch(job: int)                   // first segment of _run_job
    | Skip(job: int, task: int)    // run_one sees its cancel event set
    | Park(job: int, task: int)    // run_one waits for the semaphore
    | Enter(job: int, task: int)   // run_one takes a permit and enters _run_task
    | Report(job: int, task: int, state: TaskState, progress: int)
    | Return(job: int, task: int, ok: bool)
    | RequestCancel                // cancel() from the UI thread
    | DeliverCancel(job: int)      // the call_soon callback runs
    | End(job: int)                // gather has finished

  const START := Sys(map[], map[], {}, map[], None, {})

  function At(pcs: map<int, Pc>, pc: Pc): set<int> {
    set t | t in pcs && pcs[t] == pc
  }

  /** `max(1, min(64, concurrency))`, then `Semaphore(max(1, ...))`. */
  function Permits(concurrency: int): nat {
    if concurrency < 1 then 1 else if concurrency > 64 then 64 else concurrency
  }

  predicate Free(r: Run) {
    |At(r.pcs, Inside)| < r.permits
  }

  /** The coroutine of `task` exists and stands at `pc`. */
  predicate Stands(s: Sys, job: int, task: int, pc: Pc) {
    job in s.runs && s.runs[job].launched && task in s.runs[job].pcs && s.runs[job].pcs[task] == pc
  }

  predicate HasEnded(s: Sys, job: int) {
    job in s.runs && s.runs[job].ended.Some?
  }

  predicate Enabled(s: Sys, a: Action) {
    match a
    case Create(job) => job !in s.jobs
    case AddTask(job, task) => job in s.drafts && task !in s.tasks
    case Submit(job, _) => job in s.drafts && job in s.jobs && job !in s.runs
    case Launch(job) => job in s.runs && !s.runs[job].launched
    case Skip(job, task) =>
      && (Stands(s, job, task, Fresh) || (Stands(s, job, task, Parked) && Free(s.runs[job])))
      && s.runs[job].cancelled
    case Park(job, task) => Stands(s, job, task, Fresh) && !s.runs[job].cancelled
    case Enter(job, task) =>
      && (Stands(s, job, task, Fresh) || Stands(s, job, task, Parked))
      && Free(s.runs[job]) && !s.runs[job].cancelled
    case Report(job, task, _, _) => Stands(s, job, task, Inside)
    case Return(job, task, _) => Stands(s, job, task, Inside)
    case RequestCancel => true
    case DeliverCancel(job) => job in s.inFlight && job in s.runs
    case End(job) =>
      && job in s.runs && s.runs[job].launched && s.runs[job].ended.None?
      && At(s.runs[job].pcs, Finished) == s.runs[job].pcs.Keys
  }

  function Next(s: Sys, a: Action): Sys
    requires Enabled(s, a)
  {
    match a
    case Create(job) => s.(jobs := s.jobs[job := JobRow(Pending, 0, 0, 0)], drafts := s.drafts + {job})
    case AddTask(job, task) => s.(tasks := s.tasks[task := TaskRow(job, Queued, 0, "")])
    case Submit(job, concurrency) =>
      var members := TasksOf(s.tasks, job);
      s.(jobs := s.jobs[job := s.jobs[job].(state := Running, total := |members|)],
         drafts := s.drafts - {job},
         runs := s.runs[job := Run(Permits(concurrency), false,
                                   map t | t in members :: Fresh, false, 0, 0, None)])
    case Launch(job) =>
      s.(runs := s.runs[job := s.runs[job].(launched := true)], installed := Some(job))
    case Skip(job, task) =>
      var r := s.runs[job];
      s.(tasks := Written(s.tasks, task, Failed, None),
         runs := s.runs[job := r.(pcs := r.pcs[task := Finished], failed := r.failed + 1)])
    case Park(job, task) =>
      var r := s.runs[job];
      s.(runs := s.runs[job := r.(pcs := r.pcs[task := Parked])])
    case Enter(job, task) =>
      var r := s.runs[job];
      s.(runs := s.runs[job := r.(pcs := r.pcs[task := Inside])])
    case Report(job, task, state, progress) =>
      s.(tasks := Written(s.tasks, task, state, Some(progress)))
    case Return(job, task, ok) =>
      var r := s.runs[job];
      s.(tasks := if ok then Written(s.tasks, task, Completed, Some(100))
                  else Written(s.tasks, task, Failed, Some(0)),
         runs := s.runs[job := r.(pcs := r.pcs[task := Finished],
                                  succeeded := r.succeeded + (if ok then 1 else 0),
                                  failed := r.failed + (if ok then 0 else 1))])
    case RequestCancel =>
      if s.installed.Some? then s.(inFlight := s.inFlight + {s.installed.value}) else s
    case DeliverCancel(job) =>
      s.(runs := s.runs[job := s.runs[job].(cancelled := true)], inFlight := s.inFlight - {job})
    case End(job) =>
      var r := s.runs[job];
      var state := ComputeFinalState(r.cancelled, r.succeeded, r.failed);
      s.(jobs := if job in s.jobs
                 then s.jobs[job := JobRow(state, s.jobs[job].total, r.succeeded, r.failed)]
                 else s.jobs,
         runs := s.runs[job := r.(ended := Some(r.cancelled))],
         installed := if s.installed == Some(job) then None else s.installed)
  }

  predicate Valid(s: Sys, actions: seq<Action>)
    decreases actions
  {
    actions == [] || (Enabled(s, actions[0]) && Valid(Next(s, actions[0]), actions[1..]))
  }

  /** The state after a run. */
  function After(s: Sys, actions: seq<Action>): Sys
    requires Valid(s, actions)
    decreases actions
  {
    if actions == [] then s else After(Next(s, actions[0]), actions[1..])
  }

  // ---- the invariant ------------------------------------------------------

  function RowsOf(tasks: Tasks, job: int): Tasks {
    map t | t in tasks && tasks[t].jobId == job :: tasks[t]
  }

  /** The finished tasks whose row is in state `st`. */
  function Outcome(rows: Tasks, pcs: map<int, Pc>, st: TaskState): set<int> {
    set t | t in At(pcs, Finished) && t in rows && rows[t].state == st
  }

  /** A row nobody will write again. */
  predicate FinalRow(row: TaskRow) {
    Terminal(row.state) && (row.state == Completed ==> row.progress == 100)
  }

  /** One job: its own row, its tasks' rows, and the locals of its coroutine. */
  ghost predicate RunOk(row: JobRow, rows: Tasks, r: Run) {
    && rows.Keys == r.pcs.Keys
    && 1 <= r.permits
    && |At(r.pcs, Inside)| <= r.permits
    && (!r.launched ==> At(r.pcs, Fresh) == r.pcs.Keys)
    && (forall t | t in At(r.pcs, Finished) :: FinalRow(rows[t]))
    && r.succeeded == |Outcome(rows, r.pcs, Completed)|
    && r.failed == |Outcome(rows, r.pcs, Failed)|
    && (r.ended.None? ==> row == JobRow(Running, |r.pcs.Keys|, 0, 0))
    && (r.ended.Some? ==>
      && r.launched && At(r.pcs, Finished) == r.pcs.Keys
      && row == JobRow(ComputeFinalState(r.ended.value, r.succeeded, r.failed),
                       |r.pcs.Keys|, r.succeeded, r.failed))
  }

  ghost predicate JobOk(s: Sys, job: int)
    requires job in s.runs
  {
    job in s.jobs && RunOk(s.jobs[job], RowsOf(s.tasks, job), s.runs[job])
  }

  /** A job still being written: pending, with queued tasks only. */
  ghost predicate DraftOk(s: Sys, job: int) {
    && job in s.jobs && s.jobs[job] == JobRow(Pending, 0, 0, 0)
    && forall t | t in TasksOf(s.tasks, job) :: s.tasks[t] == TaskRow(job, Queued, 0, "")
  }

  /** Every row has an owner, and every job is either being written or has a coroutine. */
  ghost predicate Owned(s: Sys) {
    && s.jobs.Keys == s.runs.Keys + s.drafts && s.runs.Keys !! s.drafts
    && forall t | t in s.tasks :: s.tasks[t].jobId in s.jobs
  }

  ghost predicate Inv(s: Sys) {
    && Owned(s)
    && (forall job | job in s.runs :: JobOk(s, job))
    && (forall job | job in s.drafts :: DraftOk(s, job))
  }

  /** A write to one row reaches the rows of the job that owns it and no other. */
  lemma WriteTouchesOneJob(tasks: Tasks, task: int, row: TaskRow)
    requires task in tasks && row.jobId == tasks[task].jobId
    ensures RowsOf(tasks[task := row], row.jobId) == RowsOf(tasks, row.jobId)[task := row]
    ensures forall job | job != row.jobId :: RowsOf(tasks[task := row], job) == RowsOf(tasks, job)
  {
  }

  /** Finishing a task adds exactly that task to exactly one outcome. */
  lemma FinishOk(row: JobRow, rows: Tasks, r: Run, task: int, written: TaskRow)
    requires RunOk(row, rows, r) && r.launched
    requires task in r.pcs && r.pcs[task] != Finished && FinalRow(written)
    ensures RunOk(row, rows[task := written],
                  r.(pcs := r.pcs[task := Finished],
                     succeeded := r.succeeded + (if written.state == Completed then 1 else 0),
                     failed := r.failed + (if written.state == Failed then 1 else 0)))
  {
    var rows', r' := rows[task := written], r.(pcs := r.pcs[task := Finished]);
    assert At(r'.pcs, Finished) == At(r.pcs, Finished) + {task};
    assert r'.pcs.Keys == r.pcs.Keys;
    SubsetSize(At(r'.pcs, Inside), At(r.pcs, Inside));
    OutcomeGrows(rows, r, task, written, Completed);
    OutcomeGrows(rows, r, task, written, Failed);
  }

  lemma OutcomeGrows(rows: Tasks, r: Run, task: int, written: TaskRow, st: TaskState)
    requires task in r.pcs && r.pcs[task] != Finished
    ensures |Outcome(rows[task := written], r.pcs[task := Finished], st)| ==
            |Outcome(rows, r.pcs, st)| + (if written.state == st then 1 else 0)
  {
    var before, after := Outcome(rows, r.pcs, st), Outcome(rows[task := written], r.pcs[task := Finished], st);
    if written.state == st {
      assert after == before + {task};
    } else {
      assert forall t :: t in after <==> t in before;
      assert after == before;
    }
  }

  /** Moving an unfinished task between unfinished places changes no count. */
  lemma MoveOk(row: JobRow, rows: Tasks, r: Run, task: int, pc: Pc)
    requires RunOk(row, rows, r) && r.launched
    requires task in r.pcs && r.pcs[task] != Finished && pc != Finished
    requires pc == Inside ==> Free(r)
    ensures RunOk(row, rows, r.(pcs := r.pcs[task := pc]))
  {
    var r' := r.(pcs := r.pcs[task := pc]);
    assert r'.pcs.Keys == r.pcs.Keys;
    assert At(r'.pcs, Finished) == At(r.pcs, Finished);
    assert Outcome(rows, r'.pcs, Completed) == Outcome(rows, r.pcs, Completed);
    assert Outcome(rows, r'.pcs, Failed) == Outcome(rows, r.pcs, Failed);
    if pc == Inside {
      SubsetSize(At(r'.pcs, Inside), At(r.pcs, Inside) + {task});
    } else {
      SubsetSize(At(r'.pcs, Inside), At(r.pcs, Inside));
    }
  }

  /** A progress report rewrites the row of a task that is still inside. */
  lemma ReportOk(row: JobRow, rows: Tasks, r: Run, task: int, written: TaskRow)
    requires RunOk(row, rows, r)
    requires task in r.pcs && r.pcs[task] != Finished
    ensures RunOk(row, rows[task := written], r)
  {
    assert Outcome(rows[task := written], r.pcs, Completed) == Outcome(rows, r.pcs, Completed);
    assert Outcome(rows[task := written], r.pcs, Failed) == Outcome(rows, r.pcs, Failed);
  }

  lemma NewRunOk(rows: Tasks, concurrency: int)
    ensures RunOk(JobRow(Running, |rows.Keys|, 0, 0), rows,
                  Run(Permits(concurrency), false, map t | t in rows.Keys :: Fresh, false, 0, 0, None))
  {
    var pcs: map<int, Pc> := map t | t in rows.Keys :: Fresh;
    assert pcs.Keys == rows.Keys;
    assert At(pcs, Fresh) == rows.Keys && At(pcs, Inside) == {} && At(pcs, Finished) == {};
    assert Outcome(rows, pcs, Completed) == {} && Outcome(rows, pcs, Failed) == {};
  }

  /** The job's own row, its tasks and its locals are the same in both states. */
  ghost predicate SameFor(s: Sys, s': Sys, job: int) {
    && (job in s'.jobs <==> job in s.jobs) && (job in s.jobs ==> s'.jobs[job] == s.jobs[job])
    && (job in s'.runs <==> job in s.runs) && (job in s.runs ==> s'.runs[job] == s.runs[job])
    && (job in s'.drafts <==> job in s.drafts)
    && RowsOf(s'.tasks, job) == RowsOf(s.tasks, job)
  }

  ghost predicate TouchesOnly(s: Sys, s': Sys, job: int) {
    forall j | j != job :: SameFor(s, s', j)
  }

  lemma OthersKept(s: Sys, s': Sys, job: int)
    requires Inv(s) && SameFor(s, s', job)
    ensures job in s'.runs ==> JobOk(s', job)
    ensures job in s'.drafts ==> DraftOk(s', job)
  {
    if job in s'.runs {
      assert JobOk(s, job);
    }
    if job in s'.drafts {
      assert DraftOk(s, job);
      forall t | t in TasksOf(s'.tasks, job)
        ensures t in TasksOf(s.tasks, job) && s'.tasks[t] == s.tasks[t]
      {
        assert RowsOf(s'.tasks, job)[t] == RowsOf(s.tasks, job)[t];
      }
    }
  }

  /** Such a step keeps the invariant if it keeps it for the one job. */
  lemma OneJobStep(s: Sys, s': Sys, job: int)
    requires Inv(s) && Owned(s') && TouchesOnly(s, s', job)
    requires job in s'.runs ==> JobOk(s', job)
    requires job in s'.drafts ==> DraftOk(s', job)
    ensures Inv(s')
  {
    forall j | j != job
      ensures j in s'.runs ==> JobOk(s', j)
      ensures j in s'.drafts ==> DraftOk(s', j)
    {
      assert SameFor(s, s', j);
      OthersKept(s, s', j);
    }
  }

  lemma CreateOk(s: Sys, job: int)
    requires Inv(s) && Enabled(s, Create(job))
    ensures Inv(Next(s, Create(job)))
  {
    var s' := Next(s, Create(job));
    assert forall t :: t !in TasksOf(s'.tasks, job);
    OneJobStep(s, s', job);
  }

  lemma AddTaskOk(s: Sys, job: int, task: int)
    requires Inv(s) && Enabled(s, AddTask(job, task))
    ensures Inv(Next(s, AddTask(job, task)))
  {
    var s' := Next(s, AddTask(job, task));
    assert DraftOk(s, job);
    forall t | t in TasksOf(s'.tasks, job)
      ensures s'.tasks[t] == TaskRow(job, Queued, 0, "")
    {
      assert t != task ==> t in TasksOf(s.tasks, job);
    }
    assert forall j | j != job :: RowsOf(s'.tasks, j) == RowsOf(s.tasks, j);
    OneJobStep(s, s', job);
  }

  lemma SubmittedJobOk(s: Sys, job: int, concurrency: int)
    requires Enabled(s, Submit(job, concurrency)) && DraftOk(s, job)
    ensures JobOk(Next(s, Submit(job, concurrency)), job)
  {
    var rows := RowsOf(s.tasks, job);
    assert forall t :: t in rows <==> t in TasksOf(s.tasks, job);
    assert rows.Keys == TasksOf(s.tasks, job);
    NewRunOk(rows, concurrency);
  }

  lemma SubmitTouches(s: Sys, job: int, concurrency: int)
    requires Owned(s) && Enabled(s, Submit(job, concurrency))
    ensures Owned(Next(s, Submit(job, concurrency)))
    ensures TouchesOnly(s, Next(s, Submit(job, concurrency)), job)
  {
  }

  lemma SubmitOk(s: Sys, job: int, concurrency: int)
    requires Inv(s) && Enabled(s, Submit(job, concurrency))
    ensures Inv(Next(s, Submit(job, concurrency)))
  {
    SubmittedJobOk(s, job, concurrency);
    SubmitTouches(s, job, concurrency);
    OneJobStep(s, Next(s, Submit(job, concurrency)), job);
  }

  /** The job of an action that writes one task's row. */
  lemma WrittenJobOk(s: Sys, a: Action)
    requires Inv(s) && Enabled(s, a) && (a.Skip? || a.Report? || a.Return?)
    ensures a.job in s.jobs && JobOk(Next(s, a), a.job)
    ensures forall j | j != a.job :: RowsOf(Next(s, a).tasks, j) == RowsOf(s.tasks, j)
  {
    var s', job, task := Next(s, a), a.job, a.task;
    assert JobOk(s, job);
    var row, rows, r := s.jobs[job], RowsOf(s.tasks, job), s.runs[job];
    assert task in rows && rows[task] == s.tasks[task];
    var written := s'.tasks[task];
    WriteTouchesOneJob(s.tasks, task, written);
    assert s'.tasks == s.tasks[task := written];
    if a.Report? {
      ReportOk(row, rows, r, task, written);
    } else {
      FinishOk(row, rows, r, task, written);
    }
  }

  lemma WriteStep(s: Sys, a: Action)
    requires Inv(s) && Enabled(s, a) && (a.Skip? || a.Report? || a.Return?)
    ensures Inv(Next(s, a))
  {
    WrittenJobOk(s, a);
    WriteTouches(s, a);
    OneJobStep(s, Next(s, a), a.job);
  }

  lemma WriteTouches(s: Sys, a: Action)
    requires Owned(s) && Enabled(s, a) && (a.Skip? || a.Report? || a.Return?)
    requires forall j | j != a.job :: RowsOf(Next(s, a).tasks, j) == RowsOf(s.tasks, j)
    ensures Owned(Next(s, a)) && TouchesOnly(s, Next(s, a), a.job)
  {
  }

  /** Actions that touch no task row. */
  lemma LocalStep(s: Sys, a: Action)
    requires Inv(s) && Enabled(s, a)
    requires a.Launch? || a.Park? || a.Enter? || a.DeliverCancel? || a.End?
    ensures Inv(Next(s, a))
  {
    var s', job := Next(s, a), a.job;
    assert JobOk(s, job);
    if a.Park? || a.Enter? {
      MoveOk(s.jobs[job], RowsOf(s.tasks, job), s.runs[job], a.task, if a.Park? then Parked else Inside);
    }
    assert JobOk(s', job);
    LocalTouches(s, a);
    OneJobStep(s, s', job);
  }

  lemma LocalTouches(s: Sys, a: Action)
    requires Owned(s) && Enabled(s, a)
    requires a.Launch? || a.Park? || a.Enter? || a.DeliverCancel? || a.End?
    ensures Owned(Next(s, a)) && TouchesOnly(s, Next(s, a), a.job)
  {
  }

  lemma RequestStep(s: Sys)
    requires Inv(s)
    ensures Inv(Next(s, RequestCancel))
  {
    var s' := Next(s, RequestCancel);
    forall j
      ensures j in s.runs ==> JobOk(s', j)
      ensures j in s.drafts ==> DraftOk(s', j)
    {
      assert j in s.runs ==> JobOk(s, j);
      assert j in s.drafts ==> DraftOk(s, j);
    }
  }

  lemma InvStep(s: Sys, a: Action)
    requires Inv(s) && Enabled(s, a)
    ensures Inv(Next(s, a))
  {
    if a.Create? {
      CreateOk(s, a.job);
    } else if a.AddTask? {
      AddTaskOk(s, a.job, a.task);
    } else if a.Submit? {
      SubmitOk(s, a.job, a.concurrency);
    } else if a.Skip? || a.Report? || a.Return? {
      WriteStep(s, a);
    } else if a.RequestCancel? {
      RequestStep(s);
    } else {
      LocalStep(s, a);
    }
  }

  lemma {:induction false} InvRun(s: Sys, actions: seq<Action>)
    requires Inv(s) && Valid(s, actions)
    ensures Inv(After(s, actions))
    decreases actions
  {
    if actions != [] {
      InvStep(s, actions[0]);
      InvRun(Next(s, actions[0]), actions[1..]);
    }
  }

  // ---- main results -------------------------------------------------------

  /**
   When a job's `gather` has ended, every one of its rows is terminal, the live counters
   are the row counts and add up, and a recount of the rows would leave the stored job
   untouched exactly when the job did not end cancelled (or has no task at all).
   */
  lemma CountersAgreeWithRows(actions: seq<Action>, job: int)
    requires Valid(START, actions)
    requires job in After(START, actions).runs && After(START, actions).runs[job].ended.Some?
    ensures var s := After(START, actions);
            var r, ids := s.runs[job], TasksOf(s.tasks, job);
            && ids == r.pcs.Keys
            && (forall t | t in ids :: FinalRow(s.tasks[t]))
            && r.succeeded == |InState(s.tasks, ids, Completed)|
            && r.failed == |InState(s.tasks, ids, Failed)|
            && r.succeeded + r.failed == |ids|
            && job in s.jobs
            && s.jobs[job].total == |ids|
            && s.jobs[job].succeeded == r.succeeded && s.jobs[job].failed == r.failed
            && (s.jobs[job].state == Cancelled <==> r.ended == Some(true))
            && (Finalized(s.jobs, s.tasks, job) == s.jobs <==> r.ended == Some(false) || ids == {})
  {
    InvRun(START, actions);
    var s := After(START, actions);
    assert JobOk(s, job);
    EndedRows(s, job);
    EndedRecount(s, job);
  }

  lemma EndedRows(s: Sys, job: int)
    requires job in s.runs && JobOk(s, job) && s.runs[job].ended.Some?
    ensures var r, ids := s.runs[job], TasksOf(s.tasks, job);
            && ids == r.pcs.Keys
            && (forall t | t in ids :: FinalRow(s.tasks[t]))
            && r.succeeded == |InState(s.tasks, ids, Completed)|
            && r.failed == |InState(s.tasks, ids, Failed)|
  {
    var r, ids, rows := s.runs[job], TasksOf(s.tasks, job), RowsOf(s.tasks, job);
    assert forall t :: t in ids <==> t in rows;
    forall t | t in ids
      ensures FinalRow(s.tasks[t])
    {
      assert t in At(r.pcs, Finished) && rows[t] == s.tasks[t];
    }
    assert Outcome(rows, r.pcs, Completed) == InState(s.tasks, ids, Completed);
    assert Outcome(rows, r.pcs, Failed) == InState(s.tasks, ids, Failed);
  }

  lemma EndedRecount(s: Sys, job: int)
    requires job in s.runs && JobOk(s, job) && s.runs[job].ended.Some?
    requires forall t | t in TasksOf(s.tasks, job) :: Terminal(s.tasks[t].state)
    requires TasksOf(s.tasks, job) == s.runs[job].pcs.Keys
    requires s.runs[job].succeeded == |InState(s.tasks, TasksOf(s.tasks, job), Completed)|
    requires s.runs[job].failed == |InState(s.tasks, TasksOf(s.tasks, job), Failed)|
    ensures s.runs[job].succeeded + s.runs[job].failed == |TasksOf(s.tasks, job)|
    ensures Finalized(s.jobs, s.tasks, job) == s.jobs
            <==> s.runs[job].ended == Some(false) || TasksOf(s.tasks, job) == {}
  {
    var counted, ids := Recount(s.tasks, job), TasksOf(s.tasks, job);
    RecountMeaning(s.tasks, job);
    assert AllTerminal(s.tasks, ids);
    assert counted.state != Running && counted.state != Cancelled;
    if ids != {} {
      assert Finalized(s.jobs, s.tasks, job)[job] == counted;
      assert s.runs[job].ended == Some(false) ==> s.jobs[job] == counted;
    }
  }

  /** The submission among `actions` that gave the job its permits: the concurrency, kept within 1..64. */
  predicate Grants(actions: seq<Action>, i: int, job: int, permits: nat) {
    && 0 <= i < |actions|
    && actions[i].Submit? && actions[i].job == job
    && 1 <= permits <= 64
    && (1 <= actions[i].concurrency <= 64 ==> permits == actions[i].concurrency)
    && (actions[i].concurrency < 1 ==> permits == 1)
    && (actions[i].concurrency > 64 ==> permits == 64)
  }

  lemma {:induction false} PermitsAreGranted(s: Sys, actions: seq<Action>, job: int)
    requires Valid(s, actions) && job in After(s, actions).runs
    ensures var permits := After(s, actions).runs[job].permits;
            || (job in s.runs && s.runs[job].permits == permits)
            || exists i :: Grants(actions, i, job, permits)
    decreases actions
  {
    if actions != [] {
      var s', permits := Next(s, actions[0]), After(s, actions).runs[job].permits;
      PermitsAreGranted(s', actions[1..], job);
      if i :| Grants(actions[1..], i, job, permits) {
        assert Grants(actions, i + 1, job, permits);
      } else if job !in s.runs {
        assert Grants(actions, 0, job, permits);
      }
    }
  }

  /**
   At most `max(1, min(64, concurrency))` tasks of a job are ever inside `_run_task`; while
   there are fewer, any waiting task of a job that is not cancelled can enter.
   */
  lemma ConcurrencyBounded(actions: seq<Action>, job: int)
    requires Valid(START, actions) && job in After(START, actions).runs
    ensures var s := After(START, actions);
            var r := s.runs[job];
            && |At(r.pcs, Inside)| <= r.permits
            && (exists i :: Grants(actions, i, job, r.permits))
            && (forall t | t in r.pcs && (r.pcs[t] == Fresh || r.pcs[t] == Parked) ::
                  r.launched && !r.cancelled && |At(r.pcs, Inside)| < r.permits ==> Enabled(s, Enter(job, t)))
  {
    InvRun(START, actions);
    PermitsAreGranted(START, actions, job);
    assert JobOk(After(START, actions), job);
    WaitingCanEnter(After(START, actions), job);
  }

  lemma WaitingCanEnter(s: Sys, job: int)
    requires job in s.runs
    ensures var r := s.runs[job];
            forall t | t in r.pcs && (r.pcs[t] == Fresh || r.pcs[t] == Parked) ::
              r.launched && !r.cancelled && |At(r.pcs, Inside)| < r.permits ==> Enabled(s, Enter(job, t))
  {
  }

  /** Once a job's own cancel event is set, no further task of it enters `_run_task`, or waits to. */
  lemma {:induction false} CancelStopsEntry(s: Sys, actions: seq<Action>, job: int)
    requires Valid(s, actions) && job in s.runs && s.runs[job].cancelled
    ensures job in After(s, actions).runs && After(s, actions).runs[job].cancelled
    ensures At(After(s, actions).runs[job].pcs, Inside) <= At(s.runs[job].pcs, Inside)
    ensures At(After(s, actions).runs[job].pcs, Parked) <= At(s.runs[job].pcs, Parked)
    decreases actions
  {
    if actions != [] {
      CancelStopsEntry(Next(s, actions[0]), actions[1..], job);
    }
  }

  /** A cancel was requested while `self._cancel_event` was the event `job` had installed. */
  predicate CancelHit(s: Sys, actions: seq<Action>, job: int)
    requires Valid(s, actions)
    decreases actions
  {
    actions != [] && ((actions[0].RequestCancel? && s.installed == Some(job))
                      || CancelHit(Next(s, actions[0]), actions[1..], job))
  }

  predicate Marked(s: Sys, job: int) {
    job in s.inFlight || (job in s.runs && s.runs[job].cancelled)
  }

  lemma {:induction false} MarksComeFromHits(s: Sys, actions: seq<Action>, job: int)
    requires Valid(s, actions)
    requires Marked(After(s, actions), job) && !Marked(s, job)
    ensures CancelHit(s, actions, job)
    decreases actions
  {
    var s' := Next(s, actions[0]);
    if !Marked(s', job) {
      MarksComeFromHits(s', actions[1..], job);
    }
  }

  /** The flag a job ended with was set by then, and stays set. */
  lemma {:induction false} EndedCancelledIsMarked(s: Sys, actions: seq<Action>, job: int)
    requires Valid(s, actions)
    requires job in s.runs && s.runs[job].ended == Some(true) ==> s.runs[job].cancelled
    ensures var s' := After(s, actions);
            job in s'.runs && s'.runs[job].ended == Some(true) ==> s'.runs[job].cancelled
    decreases actions
  {
    if actions != [] {
      EndedCancelledIsMarked(Next(s, actions[0]), actions[1..], job);
    }
  }

  /** With overlapping jobs, a job ends cancelled only if a cancel hit its own event. */
  lemma CancelledOnlyByOwnEvent(actions: seq<Action>, job: int)
    requires Valid(START, actions) && job in After(START, actions).runs
    requires job in After(START, actions).jobs
    requires After(START, actions).runs[job].ended.Some?
    requires After(START, actions).jobs[job].state == Cancelled
    ensures CancelHit(START, actions, job)
  {
    CountersAgreeWithRows(actions, job);
    EndedCancelledIsMarked(START, actions, job);
    MarksComeFromHits(START, actions, job);
  }

  /**
   A cancel requested while the job's event is installed takes effect: the callback can
   run, and once it has, the job can only end cancelled.
   */
  lemma CancelTakesEffect(s: Sys, actions: seq<Action>, job: int)
    requires Inv(s) && s.installed == Some(job) && job in s.runs && s.runs[job].ended.None?
    ensures Valid(s, [RequestCancel, DeliverCancel(job)])
    ensures var s' := After(s, [RequestCancel, DeliverCancel(job)]);
            Valid(s', actions) ==>
              var e := After(s', actions);
              && job in e.runs && job in e.jobs
              && (e.runs[job].ended.Some? ==> e.jobs[job].state == Cancelled)
  {
    var s1 := Next(s, RequestCancel);
    assert Valid(s1, [DeliverCancel(job)]) by {
      assert Valid(Next(s1, DeliverCancel(job)), []);
    }
    assert [RequestCancel, DeliverCancel(job)][1..] == [DeliverCancel(job)];
    var s' := Next(s1, DeliverCancel(job));
    assert After(s, [RequestCancel, DeliverCancel(job)]) == s' by {
      assert After(s1, [DeliverCancel(job)]) == After(s', []);
    }
    if Valid(s', actions) {
      InvStep(s, RequestCancel);
      InvStep(s1, DeliverCancel(job));
      InvRun(s', actions);
      CancelStopsEntry(s', actions, job);
      StaysCancelled(s', actions, job);
      assert JobOk(After(s', actions), job);
    }
  }

  lemma {:induction false} StaysCancelled(s: Sys, actions: seq<Action>, job: int)
    requires Valid(s, actions) && job in s.runs && s.runs[job].cancelled
    requires s.runs[job].ended != Some(false)
    ensures job in After(s, actions).runs && After(s, actions).runs[job].ended != Some(false)
    decreases actions
  {
    if actions != [] {
      StaysCancelled(Next(s, actions[0]), actions[1..], job);
    }
  }

  /** How far a run still has to go. */
  function Remaining(r: Run): nat {
    3 * |At(r.pcs, Fresh)| + 2 * |At(r.pcs, Parked)| + |At(r.pcs, Inside)|
      + (if r.ended.None? then 1 else 0)
  }

  predicate Advances(a: Action, job: int) {
    (a.Skip? || a.Park? || a.Enter? || a.Return? || a.End?) && a.job == job
  }

  /**
   Every action by which a coroutine of the job goes on shortens what is left of it, and no
   other action lengthens it, so a job can only take finitely many such actions.
   */
  lemma ActionsShorten(s: Sys, a: Action, job: int)
    requires job in s.runs && Enabled(s, a)
    ensures job in Next(s, a).runs
    ensures Remaining(Next(s, a).runs[job]) <= Remaining(s.runs[job])
    ensures Advances(a, job) ==> Remaining(Next(s, a).runs[job]) < Remaining(s.runs[job])
  {
    if Advances(a, job) && !a.End? {
      MoveShortens(s.runs[job].pcs, a.task, if a.Park? then Parked else if a.Enter? then Inside else Finished);
    }
  }

  /** No job is ever stuck: a launched job that has not ended can always go on. */
  lemma NeverStuck(s: Sys, job: int) returns (a: Action)
    requires Inv(s) && job in s.runs && s.runs[job].launched && s.runs[job].ended.None?
    ensures Enabled(s, a) && Advances(a, job)
  {
    var r := s.runs[job];
    assert JobOk(s, job);
    if At(r.pcs, Inside) != {} {
      var t := Inhabited(At(r.pcs, Inside));
      a := Return(job, t, true);
    } else if At(r.pcs, Fresh) + At(r.pcs, Parked) != {} {
      var t := Inhabited(At(r.pcs, Fresh) + At(r.pcs, Parked));
      a := if r.cancelled then Skip(job, t) else Enter(job, t);
    } else {
      forall t | t in r.pcs
        ensures t in At(r.pcs, Finished)
      {
        assert t !in At(r.pcs, Inside) && t !in At(r.pcs, Fresh) + At(r.pcs, Parked);
      }
      assert At(r.pcs, Finished) == r.pcs.Keys;
      a := End(job);
    }
  }

  lemma MoveShortens(pcs: map<int, Pc>, t: int, pc: Pc)
    requires t in pcs && pcs[t] != Finished
    requires pc == Finished || (pc == Inside && pcs[t] != Inside) || (pc == Parked && pcs[t] == Fresh)
    ensures var pcs' := pcs[t := pc];
            3 * |At(pcs', Fresh)| + 2 * |At(pcs', Parked)| + |At(pcs', Inside)| <
            3 * |At(pcs, Fresh)| + 2 * |At(pcs, Parked)| + |At(pcs, Inside)|
  {
    AtAfterMove(pcs, t, pc, Fresh);
    AtAfterMove(pcs, t, pc, Parked);
    AtAfterMove(pcs, t, pc, Inside);
  }

  lemma AtAfterMove(pcs: map<int, Pc>, t: int, pc: Pc, o: Pc)
    requires t in pcs && pc != pcs[t]
    ensures |At(pcs[t := pc], o)| == |At(pcs, o)| + (if o == pc then 1 else 0) - (if o == pcs[t] then 1 else 0)
  {
    var before, after := At(pcs, o), At(pcs[t := pc], o);
    if o == pc {
      assert after == before + {t};
    } else if o == pcs[t] {
      assert after == before - {t};
    } else {
      assert forall u :: u in after <==> u in before;
      assert after == before;
    }
  }
}
