/**
 The job and task tables of data/repositories/jobs_repo.py, and the two rules that
 turn task outcomes into a job state: the recount over the stored rows and the
 rule applied to the live counters (core/services/update_orchestrator.py).

 The repository's tables become two maps held by the class `JobsRepo`. Pure
 functions on those maps say what each statement does to them; the scheduler and
 recovery models are built from the same functions.
 */
module JobsRepo {
  import opened Prelude

  datatype TaskState =
    Queued | Precheck | Uploading | Flashing | Rebooting | Verifying | Completed | Failed

  datatype JobState =
    Pending | Running | JobCompleted | CompletedWithErrors | JobFailed | Cancelled

  /** `uri` is the saved Task URI; the empty string stands for NULL as well. */
  datatype TaskRow = TaskRow(jobId: int, state: TaskState, progress: int, uri: string)

  datatype JobRow = JobRow(state: JobState, total: int, succeeded: int, failed: int)

  type Tasks = map<int, TaskRow>
  type Jobs = map<int, JobRow>

  predicate Terminal(s: TaskState) {
    s == Completed || s == Failed
  }

  predicate Open(s: JobState) {
    s == Pending || s == Running
  }

  function TasksOf(tasks: Tasks, job: int): set<int> {
    set t | t in tasks && tasks[t].jobId == job
  }

  /** The members of `ids` whose row is in state `s`. */
  function InState(tasks: Tasks, ids: set<int>, s: TaskState): set<int> {
    set t | t in ids && t in tasks && tasks[t].state == s
  }

  predicate AllTerminal(tasks: Tasks, ids: set<int>) {
    forall t | t in ids && t in tasks :: Terminal(tasks[t].state)
  }

  /** The settling rule of `finalize_job_from_tasks`. */
  function Settled(succeeded: int, failed: int): JobState {
    if failed == 0 then JobCompleted
    else if succeeded == 0 then JobFailed
    else CompletedWithErrors
  }

  /** The rule of `_compute_final_state`, applied to the live counters. */
  function ComputeFinalState(cancelled: bool, succeeded: int, failed: int): JobState {
    if cancelled then Cancelled
    else if failed > 0 && succeeded == 0 then JobFailed
    else if failed > 0 then CompletedWithErrors
    else JobCompleted
  }

  /** What the rows of `job` say its own row should be. */
  function Recount(tasks: Tasks, job: int): JobRow {
    var ids := TasksOf(tasks, job);
    var succeeded, failed := |InState(tasks, ids, Completed)|, |InState(tasks, ids, Failed)|;
    JobRow(if AllTerminal(tasks, ids) then Settled(succeeded, failed) else Running,
           |ids|, succeeded, failed)
  }

  /** The job table after `finalize_job_from_tasks(job)`. */
  function Finalized(jobs: Jobs, tasks: Tasks, job: int): Jobs {
    if TasksOf(tasks, job) == {} || job !in jobs then jobs else jobs[job := Recount(tasks, job)]
  }

  /** The job table after `fail_non_terminal_jobs_except`. */
  function FailedExcept(jobs: Jobs, keep: set<int>): Jobs {
    map j | j in jobs :: if Open(jobs[j].state) && j !in keep then jobs[j].(state := JobFailed) else jobs[j]
  }

  /** One row after `update_task`: completing without a progress value means 100. */
  function Patched(row: TaskRow, state: Option<TaskState>, progress: Option<int>,
                   uri: Option<string>): TaskRow
  {
    var withState := if state.Some? then row.(state := state.value) else row;
    var withPct := if progress.Some? then withState.(progress := progress.value)
                   else if state == Some(Completed) then withState.(progress := 100)
                   else withState;
    if uri.Some? then withPct.(uri := uri.value) else withPct
  }

  /** The task table after an UPDATE of one id; an unknown id changes nothing. */
  function Written(tasks: Tasks, id: int, state: TaskState, progress: Option<int>): Tasks {
    if id in tasks then tasks[id := Patched(tasks[id], Some(state), progress, None)] else tasks
  }

  /** A recount never disagrees with itself, and it says Running exactly while a task is open. */
  lemma RecountMeaning(tasks: Tasks, job: int)
    ensures var r := Recount(tasks, job);
            && (r.state == Running <==> exists t :: t in TasksOf(tasks, job) && !Terminal(tasks[t].state))
            && (r.state != Running ==> r.succeeded + r.failed == r.total)
            && (r.state != Running ==> r.state == ComputeFinalState(false, r.succeeded, r.failed))
            && r.succeeded + r.failed <= r.total
            && (r.state == JobCompleted <==> forall t | t in TasksOf(tasks, job) :: tasks[t].state == Completed)
            && (r.state == JobFailed <==>
                  TasksOf(tasks, job) != {} && forall t | t in TasksOf(tasks, job) :: tasks[t].state == Failed)
            && r.state != Pending && r.state != Cancelled
  {
    var ids := TasksOf(tasks, job);
    var c, f := InState(tasks, ids, Completed), InState(tasks, ids, Failed);
    assert c !! f;
    assert |c + f| == |c| + |f|;
    SubsetSize(c + f, ids);
    if AllTerminal(tasks, ids) {
      assert forall t | t in ids :: t in c + f;
      assert c + f == ids;
    }
    AllInState(tasks, ids, Completed);
    AllInState(tasks, ids, Failed);
  }

  lemma AllInState(tasks: Tasks, ids: set<int>, s: TaskState)
    requires ids <= tasks.Keys
    ensures InState(tasks, ids, s) == ids <==> forall t | t in ids :: tasks[t].state == s
  {
    var those := InState(tasks, ids, s);
    if those == ids {
      assert forall t | t in ids :: t in those;
    }
    if forall t | t in ids :: tasks[t].state == s {
      assert forall t :: t in ids <==> t in those;
    }
  }

  /**
   The jobs still open are the kept ones that were open; a verdict already given stays, the
   counters stay, and failing in two goes is failing all that either go does not keep.
   */
  lemma OnlyKeptStayOpen(jobs: Jobs, keep: set<int>, more: set<int>)
    ensures var jobs' := FailedExcept(jobs, keep);
            && jobs'.Keys == jobs.Keys
            && (forall j | j in jobs :: Open(jobs'[j].state) <==> Open(jobs[j].state) && j in keep)
            && (forall j | j in jobs && !Open(jobs[j].state) :: jobs'[j] == jobs[j])
            && (forall j | j in jobs :: jobs'[j] == jobs[j].(state := jobs'[j].state))
            && FailedExcept(jobs', more) == FailedExcept(jobs, keep * more)
  {
    var jobs' := FailedExcept(jobs, keep);
    assert forall j :: j in FailedExcept(jobs', more) <==> j in FailedExcept(jobs, keep * more);
  }

  class JobsRepo {
    var jobs: Jobs
    var tasks: Tasks

    /** `update_job_state`: None leaves a counter column alone. */
    method UpdateJobState(job: int, state: JobState, total: Option<int>,
                          succeeded: Option<int>, failed: Option<int>)
      modifies this`jobs
      ensures job !in old(jobs) ==> jobs == old(jobs)
      ensures job in old(jobs) ==>
                jobs == old(jobs)[job := JobRow(
                  state,
                  if total.Some? then total.value else old(jobs)[job].total,
                  if succeeded.Some? then succeeded.value else old(jobs)[job].succeeded,
                  if failed.Some? then failed.value else old(jobs)[job].failed)]
    {
      if job in jobs {
        var row := jobs[job].(state := state);
        if total.Some? {
          row := row.(total := total.value);
        }
        if succeeded.Some? {
          row := row.(succeeded := succeeded.value);
        }
        if failed.Some? {
          row := row.(failed := failed.value);
        }
        jobs := jobs[job := row];
      }
    }

    method UpdateTask(id: int, state: Option<TaskState>, progress: Option<int>, uri: Option<string>)
      modifies this`tasks
      ensures tasks == if id in old(tasks)
                       then old(tasks)[id := Patched(old(tasks)[id], state, progress, uri)]
                       else old(tasks)
    {
      if id !in tasks {
        return;
      }
      var row := tasks[id];
      if state.Some? {
        row := row.(state := state.value);
        if state.value == Completed && progress.None? {
          row := row.(progress := 100);
        }
      }
      if progress.Some? {
        row := row.(progress := progress.value);
      }
      if uri.Some? {
        row := row.(uri := uri.value);
      }
      tasks := tasks[id := row];
    }

    /** Every task id still open, in id order. */
    method ListNonTerminalTasks() returns (ids: seq<int>)
      ensures forall t :: t in ids <==> t in tasks && !Terminal(tasks[t].state)
      ensures forall i, j :: 0 <= i < j < |ids| ==> ids[i] < ids[j]
    {
      ids := [];
      var rest := set t | t in tasks && !Terminal(tasks[t].state);
      while rest != {}
        invariant forall t :: t in ids || t in rest <==> t in tasks && !Terminal(tasks[t].state)
        invariant forall i, j :: 0 <= i < j < |ids| ==> ids[i] < ids[j]
        invariant forall i, t :: 0 <= i < |ids| && t in rest ==> ids[i] < t
        decreases rest
      {
        var least := Least(rest);
        ids := ids + [least];
        rest := rest - {least};
      }
    }

    /** `fail_non_terminal_jobs_except`: an empty keep list keeps nothing. */
    method FailNonTerminalJobsExcept(keep: set<int>)
      modifies this`jobs
      ensures jobs == FailedExcept(old(jobs), keep)
      ensures forall j | j in jobs && Open(jobs[j].state) :: j in keep && jobs[j] == old(jobs)[j]
    {
      jobs := map j | j in jobs ::
        if Open(jobs[j].state) && j !in keep then jobs[j].(state := JobFailed) else jobs[j];
    }

    method FinalizeJobFromTasks(job: int) returns (summary: Option<JobRow>)
      modifies this`jobs
      ensures jobs == Finalized(old(jobs), tasks, job)
      ensures summary == if TasksOf(tasks, job) == {} then None else Some(Recount(tasks, job))
    {
      var rows := TasksOf(tasks, job);
      if rows == {} {
        return None;
      }
      var succeeded, failed, open := Tally(tasks, rows);
      var state := if open then Running else Settled(succeeded, failed);
      UpdateJobState(job, state, Some(|rows|), Some(succeeded), Some(failed));
      return Some(JobRow(state, |rows|, succeeded, failed));
    }
  }

  /** The counting pass over the rows of one job. */
  method Tally(tasks: Tasks, rows: set<int>) returns (succeeded: nat, failed: nat, open: bool)
    requires rows <= tasks.Keys
    ensures succeeded == |InState(tasks, rows, Completed)|
    ensures failed == |InState(tasks, rows, Failed)|
    ensures open <==> !AllTerminal(tasks, rows)
  {
    succeeded, failed, open := 0, 0, false;
    var rest := rows;
    while rest != {}
      invariant rest <= rows
      invariant succeeded == |InState(tasks, rows - rest, Completed)|
      invariant failed == |InState(tasks, rows - rest, Failed)|
      invariant open <==> !AllTerminal(tasks, rows - rest)
      decreases rest
    {
      ghost var w := Inhabited(rest);
      var t :| t in rest;
      ghost var seen := rows - rest;
      assert rows - (rest - {t}) == seen + {t};
      InStateGrows(tasks, seen, t);
      if tasks[t].state == Completed {
        succeeded := succeeded + 1;
      } else if tasks[t].state == Failed {
        failed := failed + 1;
      } else {
        open := true;
      }
      rest := rest - {t};
    }
    assert rows - rest == rows;
  }

  lemma InStateGrows(tasks: Tasks, ids: set<int>, t: int)
    requires t in tasks && t !in ids
    ensures forall s :: |InState(tasks, ids + {t}, s)| ==
                        |InState(tasks, ids, s)| + (if tasks[t].state == s then 1 else 0)
  {
    forall s
      ensures |InState(tasks, ids + {t}, s)| ==
              |InState(tasks, ids, s)| + (if tasks[t].state == s then 1 else 0)
    {
      var before := InState(tasks, ids, s);
      assert InState(tasks, ids + {t}, s) == if tasks[t].state == s then before + {t} else before;
    }
  }

  method Least(s: set<int>) returns (least: int)
    requires s != {}
    ensures least in s && forall t | t in s :: least <= t
  {
    ghost var w := Inhabited(s);
    least :| least in s;
    var rest := s - {least};
    while rest != {}
      invariant rest <= s && least in s
      invariant forall t | t in s :: t in rest || least <= t
      decreases rest
    {
      ghost var u := Inhabited(rest);
      var t :| t in rest;
      if t < least {
        least := t;
      }
      rest := rest - {t};
    }
  }
}
