/**
 The update scheduler and the startup sweep together: the process may die after any action
 of any run, `start_job` in the middle of its commits included, and the next start sweeps
 what it left behind.
 */
module CrashRecovery {
  import opened Prelude
  import opened JobsRepo
  import Scheduler = UpdateScheduler
  import Sweep = RestartRecovery

  /** Nothing the scheduler writes puts a Task URI on a row. */
  lemma {:induction false} NoRunStoresUris(s: Scheduler.Sys, actions: seq<Scheduler.Action>)
    requires Scheduler.Valid(s, actions)
    requires forall t | t in s.tasks :: s.tasks[t].uri == ""
    ensures forall t | t in Scheduler.After(s, actions).tasks :: Scheduler.After(s, actions).tasks[t].uri == ""
    decreases actions
  {
    if actions != [] {
      NoRunStoresUris(Scheduler.Next(s, actions[0]), actions[1..]);
    }
  }

  predicate HasOpenTask(tasks: Tasks, job: int) {
    !AllTerminal(tasks, TasksOf(tasks, job))
  }

  /** The job's row and the rows of its tasks say the same. */
  predicate Agrees(jobs: Jobs, tasks: Tasks, job: int) {
    Finalized(jobs, tasks, job) == jobs
  }

  lemma AgreesIff(jobs: Jobs, tasks: Tasks, job: int)
    requires job in jobs
    ensures Agrees(jobs, tasks, job) <==> TasksOf(tasks, job) == {} || jobs[job] == Recount(tasks, job)
  {
    if TasksOf(tasks, job) != {} {
      assert Finalized(jobs, tasks, job)[job] == Recount(tasks, job);
    }
  }

  /** A job that has not ended is still open, and one that has has no open task. */
  lemma OpenUntilEnded(s: Scheduler.Sys, job: int)
    requires Scheduler.Inv(s) && job in s.jobs
    ensures if Scheduler.HasEnded(s, job) then !Open(s.jobs[job].state) && !HasOpenTask(s.tasks, job)
            else Open(s.jobs[job].state)
    ensures Scheduler.HasEnded(s, job) ==> (s.runs[job].ended == Some(true) <==> s.jobs[job].state == Cancelled)
  {
    assert job in s.runs ==> Scheduler.JobOk(s, job);
    assert job in s.drafts ==> Scheduler.DraftOk(s, job);
    if Scheduler.HasEnded(s, job) {
      Scheduler.EndedRows(s, job);
    }
  }

  lemma StrandedIffOpen(tasks: Tasks, job: int)
    requires forall t | t in tasks :: tasks[t].uri == ""
    ensures Sweep.OwnsStranded(tasks, job) <==> HasOpenTask(tasks, job)
    ensures !Sweep.OwnsResumable(tasks, job)
  {
    if HasOpenTask(tasks, job) {
      var t :| t in TasksOf(tasks, job) && !Terminal(tasks[t].state);
      assert Sweep.Stranded(tasks[t]);
    }
  }

  /** What the sweep makes of a job of a reachable state. */
  lemma SweptJobOf(s: Scheduler.Sys, job: int)
    requires Scheduler.Inv(s) && job in s.jobs
    requires forall t | t in s.tasks :: s.tasks[t].uri == ""
    ensures Scheduler.HasEnded(s, job) ==> !HasOpenTask(s.tasks, job)
    ensures Sweep.SweptJobs(s.jobs, s.tasks)[job] ==
            if Scheduler.HasEnded(s, job) then s.jobs[job]
            else if HasOpenTask(s.tasks, job) then Recount(Sweep.SweptTasks(s.tasks), job)
            else s.jobs[job].(state := JobFailed)
  {
    OpenUntilEnded(s, job);
    StrandedIffOpen(s.tasks, job);
  }

  /** A job without open tasks counts the same before and after the sweep. */
  lemma CountKept(tasks: Tasks, job: int)
    requires !HasOpenTask(tasks, job)
    ensures Recount(Sweep.SweptTasks(tasks), job) == Recount(tasks, job)
  {
    var swept := Sweep.SweptTasks(tasks);
    assert forall t :: t in TasksOf(tasks, job) <==> t in TasksOf(swept, job);
    Sweep.RecountFrame(tasks, swept, job);
  }

  /** When the swept job agrees with its rows. */
  lemma SweptJobAgreesIff(s: Scheduler.Sys, job: int)
    requires Scheduler.Inv(s) && job in s.jobs
    requires forall t | t in s.tasks :: s.tasks[t].uri == ""
    ensures Agrees(Sweep.SweptJobs(s.jobs, s.tasks), Sweep.SweptTasks(s.tasks), job) <==>
            || TasksOf(s.tasks, job) == {}
            || HasOpenTask(s.tasks, job)
            || (Scheduler.HasEnded(s, job) && s.runs[job].ended == Some(false))
  {
    var tasks', jobs' := Sweep.SweptTasks(s.tasks), Sweep.SweptJobs(s.jobs, s.tasks);
    SweptJobOf(s, job);
    AgreesIff(jobs', tasks', job);
    assert forall t :: t in TasksOf(tasks', job) <==> t in TasksOf(s.tasks, job);
    if !HasOpenTask(s.tasks, job) && TasksOf(s.tasks, job) != {} {
      CountKept(s.tasks, job);
      RecountMeaning(s.tasks, job);
      if Scheduler.HasEnded(s, job) {
        assert Scheduler.JobOk(s, job);
        Scheduler.EndedRows(s, job);
        Scheduler.EndedRecount(s, job);
        AgreesIff(s.jobs, s.tasks, job);
      } else {
        UnwrittenCounters(s, job);
      }
    }
  }

  /** Until a job ends its own row counts none of its tasks. */
  lemma UnwrittenCounters(s: Scheduler.Sys, job: int)
    requires Scheduler.Inv(s) && job in s.jobs && !Scheduler.HasEnded(s, job)
    ensures s.jobs[job].succeeded == 0 && s.jobs[job].failed == 0
    ensures TasksOf(s.tasks, job) != {} ==>
              s.jobs[job].succeeded + s.jobs[job].failed != |TasksOf(s.tasks, job)|
  {
    assert job in s.runs ==> Scheduler.JobOk(s, job);
    assert job in s.drafts ==> Scheduler.DraftOk(s, job);
  }

  /**
   Whenever the process dies, the next start settles everything: no task is resumed, every
   task is terminal and every job closed. A job stored as closed keeps its row; an open one
   with an open task gets the recount of its rows; an open one without is called failed. The
   row then agrees with its tasks' rows exactly when the stored job had none, had an open one,
   or was closed without a cancel.
   */
  lemma CrashAnywhereIsSettled(actions: seq<Scheduler.Action>)
    requires Scheduler.Valid(Scheduler.START, actions)
    ensures var s := Scheduler.After(Scheduler.START, actions);
            var tasks, jobs := Sweep.SweptTasks(s.tasks), Sweep.SweptJobs(s.jobs, s.tasks);
            && Sweep.ResumableTasks(s.tasks) == {}
            && (forall t | t in tasks :: Terminal(tasks[t].state))
            && (forall j | j in jobs :: !Open(jobs[j].state))
            && (forall t | t in s.tasks && Terminal(s.tasks[t].state) :: tasks[t] == s.tasks[t])
            && (forall j | j in s.jobs :: jobs[j] ==
                  if !Open(s.jobs[j].state) then s.jobs[j]
                  else if HasOpenTask(s.tasks, j) then Recount(tasks, j)
                  else s.jobs[j].(state := JobFailed))
            && (forall j | j in s.jobs :: Agrees(jobs, tasks, j) <==>
                  || TasksOf(s.tasks, j) == {}
                  || HasOpenTask(s.tasks, j)
                  || (!Open(s.jobs[j].state) && s.jobs[j].state != Cancelled))
  {
    var s := Scheduler.After(Scheduler.START, actions);
    Scheduler.InvRun(Scheduler.START, actions);
    NoRunStoresUris(Scheduler.START, actions);
    Sweep.SweepSettles(s.jobs, s.tasks);
    assert forall t :: t !in Sweep.ResumableTasks(s.tasks);
    forall j | j in s.jobs
      ensures Sweep.SweptJobs(s.jobs, s.tasks)[j] ==
              if !Open(s.jobs[j].state) then s.jobs[j]
              else if HasOpenTask(s.tasks, j) then Recount(Sweep.SweptTasks(s.tasks), j)
              else s.jobs[j].(state := JobFailed)
      ensures Agrees(Sweep.SweptJobs(s.jobs, s.tasks), Sweep.SweptTasks(s.tasks), j) <==>
              || TasksOf(s.tasks, j) == {}
              || HasOpenTask(s.tasks, j)
              || (!Open(s.jobs[j].state) && s.jobs[j].state != Cancelled)
    {
      OpenUntilEnded(s, j);
      SweptJobOf(s, j);
      SweptJobAgreesIff(s, j);
    }
  }

  // ---- a job that succeeded and is called failed ---------------------------

  lemma Cons(s: Scheduler.Sys, a: Scheduler.Action, rest: seq<Scheduler.Action>)
    requires Scheduler.Enabled(s, a) && Scheduler.Valid(Scheduler.Next(s, a), rest)
    ensures Scheduler.Valid(s, [a] + rest)
    ensures Scheduler.After(s, [a] + rest) == Scheduler.After(Scheduler.Next(s, a), rest)
  {
    assert ([a] + rest)[1..] == rest;
  }

  function JobSeven(pc: Scheduler.Pc, launched: bool, done: bool): Scheduler.Sys {
    Scheduler.Sys(map[1 := JobRow(Running, 1, 0, 0)],
                  map[7 := if done then TaskRow(1, Completed, 100, "") else TaskRow(1, Queued, 0, "")], {},
                  map[1 := Scheduler.Run(1, launched, map[7 := pc], false, if done then 1 else 0, 0, None)],
                  if launched then Some(1) else None, {})
  }

  lemma ReachesSubmitted() returns (s: Scheduler.Sys)
    ensures Scheduler.Enabled(Scheduler.START, Scheduler.Create(1))
    ensures var s1 := Scheduler.Next(Scheduler.START, Scheduler.Create(1));
            && Scheduler.Enabled(s1, Scheduler.AddTask(1, 7))
            && s == Scheduler.Next(s1, Scheduler.AddTask(1, 7))
            && Scheduler.Enabled(s, Scheduler.Submit(1, 1))
            && Scheduler.Next(s, Scheduler.Submit(1, 1)) == JobSeven(Scheduler.Fresh, false, false)
  {
    var s1 := Scheduler.Next(Scheduler.START, Scheduler.Create(1));
    s := Scheduler.Next(s1, Scheduler.AddTask(1, 7));
    assert TasksOf(s.tasks, 1) == {7};
    var pcs: map<int, Scheduler.Pc> := map t | t in TasksOf(s.tasks, 1) :: Scheduler.Fresh;
    assert pcs == map[7 := Scheduler.Fresh];
    assert s1.drafts == {1} && s.drafts - {1} == {};
  }

  lemma ReachesDone()
    ensures var s3, s4 := JobSeven(Scheduler.Fresh, false, false), JobSeven(Scheduler.Fresh, true, false);
            var s5, s6 := JobSeven(Scheduler.Inside, true, false), JobSeven(Scheduler.Finished, true, true);
            && Scheduler.Enabled(s3, Scheduler.Launch(1)) && Scheduler.Next(s3, Scheduler.Launch(1)) == s4
            && Scheduler.Enabled(s4, Scheduler.Enter(1, 7)) && Scheduler.Next(s4, Scheduler.Enter(1, 7)) == s5
            && Scheduler.Enabled(s5, Scheduler.Return(1, 7, true))
            && Scheduler.Next(s5, Scheduler.Return(1, 7, true)) == s6
  {
    var s3, s4 := JobSeven(Scheduler.Fresh, false, false), JobSeven(Scheduler.Fresh, true, false);
    var s5 := JobSeven(Scheduler.Inside, true, false);
    assert Scheduler.Next(s3, Scheduler.Launch(1)).runs == s4.runs;
    assert Scheduler.At(s4.runs[1].pcs, Scheduler.Inside) == {};
    assert s4.runs[1].pcs[7 := Scheduler.Inside] == s5.runs[1].pcs;
    assert s5.runs[1].pcs[7 := Scheduler.Finished] == map[7 := Scheduler.Finished];
    assert Scheduler.Next(s4, Scheduler.Enter(1, 7)).runs == s5.runs;
  }

  /**
   One task, which completes; the process dies before the job's own row is written; the
   sweep calls the job failed, with no task counted, although its one row is completed.
   */
  lemma CompletedJobSweptAsFailed() returns (actions: seq<Scheduler.Action>)
    ensures Scheduler.Valid(Scheduler.START, actions)
    ensures var s := Scheduler.After(Scheduler.START, actions);
            && s.tasks == map[7 := TaskRow(1, Completed, 100, "")]
            && 1 in s.jobs
            && Sweep.SweptJobs(s.jobs, s.tasks)[1] == JobRow(JobFailed, 1, 0, 0)
            && Recount(Sweep.SweptTasks(s.tasks), 1) == JobRow(JobCompleted, 1, 1, 0)
  {
    var s2 := ReachesSubmitted();
    ReachesDone();
    var s6 := JobSeven(Scheduler.Finished, true, true);
    Cons(JobSeven(Scheduler.Inside, true, false), Scheduler.Return(1, 7, true), []);
    Cons(JobSeven(Scheduler.Fresh, true, false), Scheduler.Enter(1, 7), [Scheduler.Return(1, 7, true)] + []);
    actions := [Scheduler.Enter(1, 7)] + ([Scheduler.Return(1, 7, true)] + []);
    Cons(JobSeven(Scheduler.Fresh, false, false), Scheduler.Launch(1), actions);
    actions := [Scheduler.Launch(1)] + actions;
    Cons(s2, Scheduler.Submit(1, 1), actions);
    actions := [Scheduler.Submit(1, 1)] + actions;
    Cons(Scheduler.Next(Scheduler.START, Scheduler.Create(1)), Scheduler.AddTask(1, 7), actions);
    actions := [Scheduler.AddTask(1, 7)] + actions;
    Cons(Scheduler.START, Scheduler.Create(1), actions);
    actions := [Scheduler.Create(1)] + actions;
    assert Scheduler.After(Scheduler.START, actions) == Scheduler.After(s6, []) == s6;
    OneDoneTask(s6.tasks);
    CountKept(s6.tasks, 1);
  }

  lemma OneDoneTask(tasks: Tasks)
    requires tasks == map[7 := TaskRow(1, Completed, 100, "")]
    ensures Recount(tasks, 1) == JobRow(JobCompleted, 1, 1, 0)
    ensures !HasOpenTask(tasks, 1) && !Sweep.OwnsResumable(tasks, 1) && !Sweep.OwnsStranded(tasks, 1)
  {
    var ids := TasksOf(tasks, 1);
    assert ids == {7};
    assert InState(tasks, ids, Completed) == {7} && InState(tasks, ids, Failed) == {};
  }
}
