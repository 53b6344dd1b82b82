/**
 The startup sweep `resume_interrupted` and the resume coroutines it submits
 (`_resume_one_task`, core/services/update_orchestrator.py).

 The sweep is a method on the shared job store, proved against a row-by-row
 description of the store it leaves. The resumes are an interleaving transition
 system over that store: one coroutine per saved Task URI, each awaiting one GET and
 one `close`, with foreign writers to other jobs in between.
 */
module RestartRecovery {
  import opened Prelude
  import opened JobsRepo

  // ---- the sweep ----------------------------------------------------------

  predicate Stranded(row: TaskRow) {
    !Terminal(row.state) && row.uri == ""
  }

  predicate Resumable(row: TaskRow) {
    !Terminal(row.state) && row.uri != ""
  }

  function ResumableTasks(tasks: Tasks): set<int> {
    set t | t in tasks && Resumable(tasks[t])
  }

  predicate OwnsResumable(tasks: Tasks, job: int) {
    exists t | t in tasks :: tasks[t].jobId == job && Resumable(tasks[t])
  }

  predicate OwnsStranded(tasks: Tasks, job: int) {
    exists t | t in tasks :: tasks[t].jobId == job && Stranded(tasks[t])
  }

  /** The task table after the sweep, row by row. */
  function SweptTasks(tasks: Tasks): Tasks {
    map t | t in tasks ::
      if Stranded(tasks[t]) then tasks[t].(state := Failed, progress := 0) else tasks[t]
  }

  /** The task table while the marking loop runs: the stranded tasks of `marked` are done. */
  function MarkedTasks(tasks: Tasks, marked: set<int>): Tasks {
    map t | t in tasks ::
      if t in marked && Stranded(tasks[t]) then tasks[t].(state := Failed, progress := 0) else tasks[t]
  }

  /** One job row after the sweep. */
  function SweptJob(row: JobRow, tasks: Tasks, job: int): JobRow {
    if OwnsResumable(tasks, job) then row
    else if OwnsStranded(tasks, job) then Recount(SweptTasks(tasks), job)
    else if Open(row.state) then row.(state := JobFailed)
    else row
  }

  function SweptJobs(jobs: Jobs, tasks: Tasks): Jobs {
    map j | j in jobs :: SweptJob(jobs[j], tasks, j)
  }

  function RecountedJobs(jobs: Jobs, tasks: Tasks, which: set<int>): Jobs {
    map j | j in jobs :: if j in which then Recount(tasks, j) else jobs[j]
  }

  method ResumeInterrupted(repo: JobsRepo) returns (resumed: set<int>, touched: nat)
    modifies repo
    ensures repo.tasks == SweptTasks(old(repo.tasks))
    ensures repo.jobs == SweptJobs(old(repo.jobs), old(repo.tasks))
    ensures resumed == ResumableTasks(old(repo.tasks))
    ensures touched == |set t | t in old(repo.tasks) && !Terminal(old(repo.tasks)[t].state)|
  {
    ghost var tasks0, jobs0 := repo.tasks, repo.jobs;
    var open := repo.ListNonTerminalTasks();
    var stale := (set t | t in open);
    var noUri := set t | t in stale && repo.tasks[t].uri == "";
    resumed := stale - noUri;
    touched := |stale|;
    assert stale == set t | t in tasks0 && !Terminal(tasks0[t].state);
    assert resumed == ResumableTasks(tasks0);
    assert noUri == set t | t in tasks0 && Stranded(tasks0[t]);
    var keep := set t | t in resumed :: repo.tasks[t].jobId;
    var settle := (set t | t in noUri :: repo.tasks[t].jobId) - keep;
    assert forall j :: j in keep <==> OwnsResumable(tasks0, j);
    assert forall j :: j in settle <==> !OwnsResumable(tasks0, j) && OwnsStranded(tasks0, j);
    FailStranded(repo, noUri);
    forall j | j in settle
      ensures TasksOf(repo.tasks, j) != {} && !Open(Recount(repo.tasks, j).state)
    {
      SettledJobIsClosed(tasks0, j);
    }
    SettleJobs(repo, settle);
    repo.FailNonTerminalJobsExcept(keep);
    assert forall j :: j in repo.jobs <==> j in jobs0;
    assert forall j | j in jobs0 :: repo.jobs[j] == SweptJob(jobs0[j], tasks0, j);
  }

  /** The marking loop: every stranded task gets the failed row. */
  method FailStranded(repo: JobsRepo, noUri: set<int>)
    requires noUri == set t | t in repo.tasks && Stranded(repo.tasks[t])
    modifies repo`tasks
    ensures repo.tasks == SweptTasks(old(repo.tasks))
  {
    var rest := noUri;
    while rest != {}
      invariant rest <= noUri
      invariant repo.tasks == MarkedTasks(old(repo.tasks), noUri - rest)
      decreases rest
    {
      ghost var w := Inhabited(rest);
      var t :| t in rest;
      assert repo.tasks[t] == old(repo.tasks)[t];
      assert forall u :: u in noUri - (rest - {t}) <==> u in noUri - rest || u == t;
      repo.UpdateTask(t, Some(Failed), Some(0), None);
      rest := rest - {t};
      assert forall u :: u in repo.tasks <==> u in MarkedTasks(old(repo.tasks), noUri - rest);
    }
    assert noUri - rest == noUri;
    assert forall t :: t in repo.tasks <==> t in SweptTasks(old(repo.tasks));
    assert forall t | t in repo.tasks :: repo.tasks[t] == SweptTasks(old(repo.tasks))[t];
  }

  /** The settling loop, in any order. */
  method SettleJobs(repo: JobsRepo, settle: set<int>)
    requires forall j | j in settle :: TasksOf(repo.tasks, j) != {}
    modifies repo`jobs
    ensures repo.jobs == RecountedJobs(old(repo.jobs), repo.tasks, settle)
  {
    var rest := settle;
    while rest != {}
      invariant rest <= settle
      invariant repo.jobs == RecountedJobs(old(repo.jobs), repo.tasks, settle - rest)
      decreases rest
    {
      ghost var w := Inhabited(rest);
      var j :| j in rest;
      assert forall i :: i in settle - (rest - {j}) <==> i in settle - rest || i == j;
      var _ := repo.FinalizeJobFromTasks(j);
      rest := rest - {j};
      assert forall i :: i in repo.jobs <==> i in RecountedJobs(old(repo.jobs), repo.tasks, settle - rest);
    }
    assert settle - rest == settle;
    assert forall j :: j in repo.jobs <==> j in RecountedJobs(old(repo.jobs), repo.tasks, settle);
    assert forall j | j in repo.jobs ::
        repo.jobs[j] == RecountedJobs(old(repo.jobs), repo.tasks, settle)[j];
  }

  lemma SettledJobIsClosed(tasks: Tasks, job: int)
    requires !OwnsResumable(tasks, job) && OwnsStranded(tasks, job)
    ensures TasksOf(SweptTasks(tasks), job) != {}
    ensures !Open(Recount(SweptTasks(tasks), job).state)
  {
    var t :| t in tasks && tasks[t].jobId == job && Stranded(tasks[t]);
    assert t in TasksOf(SweptTasks(tasks), job);
    assert AllTerminal(SweptTasks(tasks), TasksOf(SweptTasks(tasks), job));
  }

  /**
   The sweep leaves no task open without a URI, no job open without a task to resume,
   and every job it closed for stranded tasks agrees with its own rows.
   */
  lemma SweepSettles(jobs: Jobs, tasks: Tasks)
    ensures var tasks', jobs' := SweptTasks(tasks), SweptJobs(jobs, tasks);
            && (forall t | t in tasks' :: Terminal(tasks'[t].state) || tasks'[t].uri != "")
            && (forall j | j in jobs' && Open(jobs'[j].state) :: OwnsResumable(tasks', j))
            && (forall j | j in jobs' && !OwnsResumable(tasks, j) && OwnsStranded(tasks, j) ::
                  Finalized(jobs', tasks', j) == jobs')
            && tasks'.Keys == tasks.Keys && jobs'.Keys == jobs.Keys
            && (forall t | t in tasks :: tasks'[t] ==
                  if !Terminal(tasks[t].state) && tasks[t].uri == ""
                  then TaskRow(tasks[t].jobId, Failed, 0, "") else tasks[t])
            && ResumableTasks(tasks') == ResumableTasks(tasks)
  {
    var tasks', jobs' := SweptTasks(tasks), SweptJobs(jobs, tasks);
    forall j | j in jobs'
      ensures Open(jobs'[j].state) ==> OwnsResumable(tasks', j)
      ensures !OwnsResumable(tasks, j) && OwnsStranded(tasks, j) ==> Finalized(jobs', tasks', j) == jobs'
    {
      if OwnsResumable(tasks, j) {
        var t :| t in tasks && tasks[t].jobId == j && Resumable(tasks[t]);
        assert tasks'[t] == tasks[t];
      } else if OwnsStranded(tasks, j) {
        SettledJobIsClosed(tasks, j);
        assert jobs'[j] == Recount(tasks', j);
        assert Finalized(jobs', tasks', j) == jobs'[j := jobs'[j]] == jobs';
      }
    }
    assert forall t :: t in ResumableTasks(tasks') <==> t in ResumableTasks(tasks);
  }

  /** Running the sweep a second time leaves the store unchanged. */
  lemma SweepIdempotent(jobs: Jobs, tasks: Tasks)
    ensures SweptTasks(SweptTasks(tasks)) == SweptTasks(tasks)
    ensures SweptJobs(SweptJobs(jobs, tasks), SweptTasks(tasks)) == SweptJobs(jobs, tasks)
  {
    var tasks', jobs' := SweptTasks(tasks), SweptJobs(jobs, tasks);
    SweepSettles(jobs, tasks);
    assert forall t | t in tasks' :: !Stranded(tasks'[t]);
    assert SweptTasks(tasks') == tasks' by {
      assert forall t :: t in SweptTasks(tasks') <==> t in tasks';
    }
    var jobs'' := SweptJobs(jobs', tasks');
    assert forall j :: j in jobs'' <==> j in jobs';
    forall j | j in jobs'
      ensures jobs''[j] == jobs'[j]
    {
      assert !OwnsStranded(tasks', j);
    }
  }

  /**
   Where the sweep can be when the process dies inside it: tasks marked so far, and jobs
   settled so far, of which there is none before all tasks are marked.
   */
  predicate MidSweep(tasks: Tasks, marked: set<int>, settled: set<int>) {
    && (forall t | t in marked :: t in tasks && Stranded(tasks[t]))
    && (forall j | j in settled :: !OwnsResumable(tasks, j) && OwnsStranded(tasks, j))
    && (settled != {} ==> forall t | t in tasks && Stranded(tasks[t]) :: t in marked)
  }

  /** The last open task of the job is marked, and the job itself not yet settled. */
  predicate CaughtBetween(tasks: Tasks, marked: set<int>, settled: set<int>, job: int) {
    && OwnsStranded(tasks, job) && !OwnsResumable(tasks, job) && job !in settled
    && forall t | t in tasks && tasks[t].jobId == job && Stranded(tasks[t]) :: t in marked
  }

  lemma MarkingKeepsOwners(tasks: Tasks, marked: set<int>, job: int)
    ensures OwnsResumable(MarkedTasks(tasks, marked), job) <==> OwnsResumable(tasks, job)
    ensures OwnsStranded(MarkedTasks(tasks, marked), job) <==>
              exists t | t in tasks :: tasks[t].jobId == job && Stranded(tasks[t]) && t !in marked
    ensures SweptTasks(MarkedTasks(tasks, marked)) == SweptTasks(tasks)
  {
    var part := MarkedTasks(tasks, marked);
    if t :| t in tasks && tasks[t].jobId == job && Resumable(tasks[t]) {
      assert part[t] == tasks[t];
    }
    if t :| t in tasks && tasks[t].jobId == job && Stranded(tasks[t]) && t !in marked {
      assert part[t] == tasks[t];
    }
    assert forall t :: t in SweptTasks(part) <==> t in SweptTasks(tasks);
  }

  /**
   A sweep that dies inside and is run again ends as an undisturbed one, except for the jobs
   caught between their last marked task and their own settling: these are called failed.
   */
  lemma SweepAfterDyingInside(jobs: Jobs, tasks: Tasks, marked: set<int>, settled: set<int>)
    requires MidSweep(tasks, marked, settled)
    ensures var tasks1 := MarkedTasks(tasks, marked);
            var jobs1 := RecountedJobs(jobs, tasks1, settled);
            && SweptTasks(tasks1) == SweptTasks(tasks)
            && SweptJobs(jobs1, tasks1).Keys == SweptJobs(jobs, tasks).Keys
            && forall j | j in jobs :: SweptJobs(jobs1, tasks1)[j] ==
                 if CaughtBetween(tasks, marked, settled, j)
                 then (if Open(jobs[j].state) then jobs[j].(state := JobFailed) else jobs[j])
                 else SweptJobs(jobs, tasks)[j]
  {
    var tasks1 := MarkedTasks(tasks, marked);
    var jobs1 := RecountedJobs(jobs, tasks1, settled);
    MarkingKeepsOwners(tasks, marked, 0);
    forall j | j in jobs
      ensures SweptJobs(jobs1, tasks1)[j] ==
                if CaughtBetween(tasks, marked, settled, j)
                then (if Open(jobs[j].state) then jobs[j].(state := JobFailed) else jobs[j])
                else SweptJobs(jobs, tasks)[j]
    {
      MarkingKeepsOwners(tasks, marked, j);
      if j in settled {
        assert forall t :: t in tasks1 <==> t in SweptTasks(tasks);
        assert forall t | t in tasks1 :: tasks1[t] == SweptTasks(tasks)[t];
        assert tasks1 == SweptTasks(tasks);
        SettledJobIsClosed(tasks, j);
      }
    }
  }

  /** The table the run of the interrupted and the second sweep leaves. */
  function ResweptJobs(jobs: Jobs, tasks: Tasks, marked: set<int>, settled: set<int>): Jobs {
    var part := MarkedTasks(tasks, marked);
    SweptJobs(RecountedJobs(jobs, part, settled), part)
  }

  /** A stranded task counts as failed once it is swept. */
  lemma StrandedCounts(tasks: Tasks, job: int)
    requires OwnsStranded(tasks, job)
    ensures Recount(SweptTasks(tasks), job).failed > 0
  {
    var swept := SweptTasks(tasks);
    var t :| t in tasks && tasks[t].jobId == job && Stranded(tasks[t]);
    assert t in InState(swept, TasksOf(swept, job), Failed);
  }

  /**
   For a job whose own row counts no failure yet, the interrupted and repeated sweep ends as
   an undisturbed one if and only if the job was not caught.
   */
  lemma ResweepDiffersIffCaught(jobs: Jobs, tasks: Tasks, marked: set<int>, settled: set<int>, job: int)
    requires MidSweep(tasks, marked, settled) && job in jobs && jobs[job].failed == 0
    ensures job in ResweptJobs(jobs, tasks, marked, settled)
    ensures ResweptJobs(jobs, tasks, marked, settled)[job] == SweptJobs(jobs, tasks)[job]
            <==> !CaughtBetween(tasks, marked, settled, job)
  {
    SweepAfterDyingInside(jobs, tasks, marked, settled);
    if CaughtBetween(tasks, marked, settled, job) {
      StrandedCounts(tasks, job);
    }
  }

  /** Two tasks of one job, the first completed, the second stranded. */
  const HALF_DONE: Tasks := map[7 := TaskRow(1, Completed, 100, ""), 8 := TaskRow(1, Flashing, 40, "")]

  lemma HalfDoneSwept()
    ensures MidSweep(HALF_DONE, {8}, {}) && CaughtBetween(HALF_DONE, {8}, {}, 1)
    ensures Recount(SweptTasks(HALF_DONE), 1) == JobRow(CompletedWithErrors, 2, 1, 1)
  {
    assert Stranded(HALF_DONE[8]);
    var swept := SweptTasks(HALF_DONE);
    assert TasksOf(swept, 1) == {7, 8};
    assert InState(swept, {7, 8}, Completed) == {7} && InState(swept, {7, 8}, Failed) == {8};
  }

  /**
   A job with a completed and a stranded task: an undisturbed sweep finds it completed with
   errors, one that dies after marking the task and is run again calls it failed, uncounted.
   */
  lemma CaughtJobLosesItsCounts()
    ensures var jobs: Jobs := map[1 := JobRow(Running, 2, 0, 0)];
            && MidSweep(HALF_DONE, {8}, {}) && CaughtBetween(HALF_DONE, {8}, {}, 1)
            && 1 in ResweptJobs(jobs, HALF_DONE, {8}, {})
            && SweptJobs(jobs, HALF_DONE)[1] == JobRow(CompletedWithErrors, 2, 1, 1)
            && ResweptJobs(jobs, HALF_DONE, {8}, {})[1] == JobRow(JobFailed, 2, 0, 0)
  {
    HalfDoneSwept();
    SweepAfterDyingInside(map[1 := JobRow(Running, 2, 0, 0)], HALF_DONE, {8}, {});
  }

  // ---- the resume coroutines ---------------------------------------------

  /** What the one GET of the Task URI gave; the state text is already lower case. */
  datatype Reply = Lost | Got(state: string, percent: int) | Aborted

  /** `Finished(None)` never reached the BMC; `Aborted` left the row as it was. */
  datatype Pc = Ready | Polling | Closing(reply: Reply) | Finished(outcome: Option<Reply>)

  /** `captured` holds the rows the sweep read and handed to the coroutines. */
  datatype Sys = Sys(jobs: Jobs, tasks: Tasks, captured: Tasks, pcs: map<int, Pc>)

  datatype Action =
    | GiveUp(task: int, clientFailed: bool)  // no server row, no credential, or no client
    | Issue(task: int)
    | Answer(task: int, reply: Reply)
    | Close(task: int, raised: bool)
    | ForeignTask(task: int, row: TaskRow)
    | ForeignJob(job: int, jobRow: JobRow)

  /** The row a BMC answer leads to. */
  function Resumed(row: TaskRow, state: string, percent: int): TaskRow {
    if state == "completed" then row.(state := Completed, progress := 100)
    else if state in ["exception", "killed", "cancelled"] then row.(state := Failed, progress := percent)
    else row.(state := Flashing, progress := percent)
  }

  predicate Ours(s: Sys, job: int) {
    exists t | t in s.captured :: s.captured[t].jobId == job
  }

  predicate Enabled(s: Sys, a: Action) {
    match a
    case GiveUp(t, _) => t in s.pcs && s.pcs[t] == Ready && t in s.tasks && t in s.captured
    case Issue(t) => t in s.pcs && s.pcs[t] == Ready
    case Answer(t, _) => t in s.pcs && s.pcs[t] == Polling && t in s.tasks && t in s.captured
    case Close(t, _) => t in s.pcs && s.pcs[t].Closing? && t in s.tasks && t in s.captured
    case ForeignTask(t, row) => !Ours(s, row.jobId) && (t in s.tasks ==> !Ours(s, s.tasks[t].jobId))
    case ForeignJob(j, _) => !Ours(s, j)
  }

  /** Write the row, then finalize the parent job in the same segment. */
  function Settle(s: Sys, t: int, row: TaskRow, reply: Option<Reply>): Sys
    requires t in s.captured
  {
    var tasks' := s.tasks[t := row];
    s.(tasks := tasks',
       jobs := Finalized(s.jobs, tasks', s.captured[t].jobId),
       pcs := s.pcs[t := Finished(reply)])
  }

  function Next(s: Sys, a: Action): Sys
    requires Enabled(s, a)
  {
    match a
    case GiveUp(t, clientFailed) =>
      var progress := if clientFailed then s.captured[t].progress else 0;
      Settle(s, t, Patched(s.tasks[t], Some(Failed), Some(progress), None), None)
    case Issue(t) => s.(pcs := s.pcs[t := Polling])
    case Answer(t, reply) =>
      s.(pcs := s.pcs[t := Closing(reply)],
         tasks := if reply.Lost?
                  then Written(s.tasks, t, Failed, Some(s.captured[t].progress))
                  else s.tasks)
    case Close(t, raised) =>
      var reply := s.pcs[t].reply;
      if reply.Got? && !raised
      then Settle(s, t, Resumed(s.tasks[t], reply.state, reply.percent), Some(reply))
      else Settle(s, t, s.tasks[t], Some(if reply.Lost? then Lost else Aborted))
    case ForeignTask(t, row) => s.(tasks := s.tasks[t := row])
    case ForeignJob(j, row) => s.(jobs := s.jobs[j := row])
  }

  predicate Valid(s: Sys, actions: seq<Action>)
    decreases actions
  {
    actions == [] || (Enabled(s, actions[0]) && Valid(Next(s, actions[0]), actions[1..]))
  }

  function After(s: Sys, actions: seq<Action>): Sys
    requires Valid(s, actions)
    decreases actions
  {
    if actions == [] then s else After(Next(s, actions[0]), actions[1..])
  }

  /** The store right after the sweep, with one fresh coroutine per resumable task. */
  function Launched(jobs: Jobs, tasks: Tasks): Sys {
    var tasks' := SweptTasks(tasks);
    Sys(SweptJobs(jobs, tasks), tasks',
        map t | t in tasks' && Resumable(tasks'[t]) :: tasks'[t],
        map t | t in tasks' && Resumable(tasks'[t]) :: Ready)
  }

  /** Where the row of a resumed task stands, given its coroutine. */
  predicate RowMatches(row: TaskRow, captured: TaskRow, pc: Pc) {
    match pc
    case Closing(Lost) => row == captured.(state := Failed)
    case Finished(None) =>
      row == captured.(state := Failed) || row == captured.(state := Failed, progress := 0)
    case Finished(Some(Lost)) => row == captured.(state := Failed)
    case Finished(Some(Got(state, percent))) => Shows(row, captured, state, percent)
    case _ => row == captured
  }

  /** The row says what the BMC's Task answered: it completed, it failed, or it still runs. */
  predicate Shows(row: TaskRow, captured: TaskRow, state: string, percent: int) {
    && row.jobId == captured.jobId && row.uri == captured.uri
    && (row.state == Completed <==> state == "completed")
    && (row.state == Failed <==> state == "exception" || state == "killed" || state == "cancelled")
    && (row.state != Completed && row.state != Failed ==> row.state == Flashing)
    && row.progress == if state == "completed" then 100 else percent
  }

  predicate Busy(s: Sys, job: int) {
    exists t | t in s.pcs && t in s.captured :: s.captured[t].jobId == job && !s.pcs[t].Finished?
  }

  ghost predicate Inv(s: Sys) {
    && s.captured.Keys == s.pcs.Keys
    && (forall t | t in s.captured ::
          t in s.tasks && Resumable(s.captured[t]) && RowMatches(s.tasks[t], s.captured[t], s.pcs[t]))
    && (forall j | j in s.jobs && Ours(s, j) && !Busy(s, j) :: s.jobs[j] == Recount(s.tasks, j))
  }

  lemma RecountFrame(tasks: Tasks, tasks': Tasks, job: int)
    requires TasksOf(tasks, job) == TasksOf(tasks', job)
    requires forall t | t in TasksOf(tasks, job) :: tasks[t] == tasks'[t]
    ensures Recount(tasks, job) == Recount(tasks', job)
  {
    var ids := TasksOf(tasks, job);
    forall st
      ensures InState(tasks, ids, st) == InState(tasks', ids, st)
    {
      assert forall t :: t in InState(tasks, ids, st) <==> t in InState(tasks', ids, st);
    }
  }

  lemma SettleKeepsInv(s: Sys, t: int, row: TaskRow, reply: Option<Reply>)
    requires Inv(s) && t in s.captured && !s.pcs[t].Finished?
    requires row.jobId == s.captured[t].jobId
    requires RowMatches(row, s.captured[t], Finished(reply))
    ensures Inv(Settle(s, t, row, reply))
  {
    var s', job := Settle(s, t, row, reply), s.captured[t].jobId;
    assert t in TasksOf(s'.tasks, job);
    forall j | j in s'.jobs && Ours(s', j) && !Busy(s', j)
      ensures s'.jobs[j] == Recount(s'.tasks, j)
    {
      if j != job {
        assert TasksOf(s.tasks, j) == TasksOf(s'.tasks, j) by {
          assert forall u :: u in TasksOf(s.tasks, j) <==> u in TasksOf(s'.tasks, j);
        }
        RecountFrame(s.tasks, s'.tasks, j);
      }
    }
  }

  lemma QuietStepKeepsInv(s: Sys, a: Action)
    requires Inv(s) && Enabled(s, a) && (a.Issue? || a.Answer?)
    ensures Inv(Next(s, a))
  {
    var s', t := Next(s, a), a.task;
    forall j | j in s'.jobs && Ours(s', j) && !Busy(s', j)
      ensures s'.jobs[j] == Recount(s'.tasks, j)
    {
      assert s'.captured[t].jobId != j;
      assert forall u :: u in TasksOf(s.tasks, j) <==> u in TasksOf(s'.tasks, j);
      RecountFrame(s.tasks, s'.tasks, j);
    }
  }

  lemma ForeignStepKeepsInv(s: Sys, a: Action)
    requires Inv(s) && Enabled(s, a) && (a.ForeignTask? || a.ForeignJob?)
    ensures Inv(Next(s, a))
  {
    var s' := Next(s, a);
    forall j | j in s'.jobs && Ours(s', j) && !Busy(s', j)
      ensures s'.jobs[j] == Recount(s'.tasks, j)
    {
      assert Ours(s, j) && !Busy(s, j);
      assert forall u :: u in TasksOf(s.tasks, j) <==> u in TasksOf(s'.tasks, j);
      RecountFrame(s.tasks, s'.tasks, j);
    }
  }

  lemma InvStep(s: Sys, a: Action)
    requires Inv(s) && Enabled(s, a)
    ensures Inv(Next(s, a))
  {
    match a {
      case GiveUp(t, clientFailed) =>
        var progress := if clientFailed then s.captured[t].progress else 0;
        SettleKeepsInv(s, t, Patched(s.tasks[t], Some(Failed), Some(progress), None), None);
      case Close(t, raised) =>
        var reply := s.pcs[t].reply;
        if reply.Got? && !raised {
          SettleKeepsInv(s, t, Resumed(s.tasks[t], reply.state, reply.percent), Some(reply));
        } else {
          SettleKeepsInv(s, t, s.tasks[t], Some(if reply.Lost? then Lost else Aborted));
        }
      case Issue(_) => QuietStepKeepsInv(s, a);
      case Answer(_, _) => QuietStepKeepsInv(s, a);
      case ForeignTask(_, _) => ForeignStepKeepsInv(s, a);
      case ForeignJob(_, _) => ForeignStepKeepsInv(s, a);
    }
  }

  lemma {:induction false} InvRun(s: Sys, actions: seq<Action>)
    requires Inv(s) && Valid(s, actions)
    ensures Inv(After(s, actions)) && After(s, actions).captured == s.captured
    decreases actions
  {
    if actions != [] {
      InvStep(s, actions[0]);
      InvRun(Next(s, actions[0]), actions[1..]);
    }
  }

  lemma LaunchedIsInv(jobs: Jobs, tasks: Tasks)
    ensures Inv(Launched(jobs, tasks))
    ensures Launched(jobs, tasks).captured.Keys == ResumableTasks(tasks)
  {
    var s := Launched(jobs, tasks);
    SweepSettles(jobs, tasks);
    assert s.captured.Keys == ResumableTasks(tasks);
    forall j | Ours(s, j)
      ensures Busy(s, j)
    {
      var t :| t in s.captured && s.captured[t].jobId == j;
      assert !s.pcs[t].Finished?;
    }
  }

  // ---- what a resumed row was told ----------------------------------------

  /** The steps of the task's own coroutine. */
  predicate Mine(a: Action, t: int) {
    (a.GiveUp? || a.Issue? || a.Answer? || a.Close?) && a.task == t
  }

  /** Among the actions on the task are exactly those of `only`. */
  ghost predicate Just(actions: seq<Action>, t: int, only: seq<Action>) {
    (forall a | a in actions && Mine(a, t) :: a in only) && forall a | a in only :: a in actions
  }

  /** The rows a coroutine can leave behind, from the one it was handed. */
  function Broken(was: TaskRow, progress: int): TaskRow {
    TaskRow(was.jobId, Failed, progress, was.uri)
  }

  /** What happened to a task so far, against its row. */
  ghost predicate Told(actions: seq<Action>, t: int, pc: Pc, row: TaskRow, was: TaskRow) {
    match pc
    case Closing(reply) =>
      Just(actions, t, [Issue(t), Answer(t, reply)]) && row == if reply.Lost? then Broken(was, was.progress) else was
    case Finished(_) => ToldAtEnd(actions, t, row, was)
    case Polling => Just(actions, t, [Issue(t)]) && row == was
    case Ready => Just(actions, t, []) && row == was
  }

  ghost predicate ToldAtEnd(actions: seq<Action>, t: int, row: TaskRow, was: TaskRow) {
    || (Just(actions, t, [GiveUp(t, false)]) && row == Broken(was, 0))
    || (Just(actions, t, [GiveUp(t, true)]) && row == Broken(was, was.progress))
    || exists reply, raised ::
         Just(actions, t, [Issue(t), Answer(t, reply), Close(t, raised)]) && Settles(row, was, reply, raised)
  }

  /** The row after the GET gave `reply` and the client was closed. */
  predicate Settles(row: TaskRow, was: TaskRow, reply: Reply, raised: bool) {
    match reply
    case Lost => row == Broken(was, was.progress)
    case Aborted => row == was
    case Got(state, percent) => if raised then row == was else Shows(row, was, state, percent)
  }

  ghost predicate Story(s: Sys, actions: seq<Action>, t: int)
    requires t in s.captured
  {
    t in s.pcs && t in s.tasks && Told(actions, t, s.pcs[t], s.tasks[t], s.captured[t])
  }

  lemma JustSnoc(actions: seq<Action>, a: Action, t: int)
    ensures forall only | Just(actions, t, only) ::
              Just(actions + [a], t, if Mine(a, t) then only + [a] else only)
  {
    assert forall b :: b in actions + [a] <==> b in actions || b == a;
  }

  lemma OtherStory(s: Sys, actions: seq<Action>, a: Action, t: int)
    requires Inv(s) && Enabled(s, a) && t in s.captured && !Mine(a, t) && Story(s, actions, t)
    ensures Story(Next(s, a), actions + [a], t)
  {
    JustSnoc(actions, a, t);
    assert Ours(s, s.captured[t].jobId);
    assert Next(s, a).tasks[t] == s.tasks[t];
    if s.pcs[t].Finished? && !Just(actions, t, [GiveUp(t, false)]) && !Just(actions, t, [GiveUp(t, true)]) {
      var reply, raised :| Just(actions, t, [Issue(t), Answer(t, reply), Close(t, raised)])
                           && Settles(s.tasks[t], s.captured[t], reply, raised);
      assert Just(actions + [a], t, [Issue(t), Answer(t, reply), Close(t, raised)]);
    }
  }

  lemma OwnStory(s: Sys, actions: seq<Action>, a: Action, t: int)
    requires Inv(s) && Enabled(s, a) && t in s.captured && Mine(a, t) && Story(s, actions, t)
    ensures Story(Next(s, a), actions + [a], t)
  {
    JustSnoc(actions, a, t);
    var was := s.captured[t];
    match a {
      case GiveUp(_, _) => assert Just(actions + [a], t, [] + [a]) && [] + [a] == [a];
      case Issue(_) => assert Just(actions + [a], t, [] + [a]) && [] + [a] == [a];
      case Answer(_, reply) =>
        assert Just(actions + [a], t, [Issue(t)] + [a]) && [Issue(t)] + [a] == [Issue(t), a];
      case Close(_, raised) =>
        var reply := s.pcs[t].reply;
        assert Just(actions + [a], t, [Issue(t), Answer(t, reply)] + [a]);
        assert [Issue(t), Answer(t, reply)] + [a] == [Issue(t), Answer(t, reply), a];
        assert Settles(Next(s, a).tasks[t], was, reply, raised);
    }
  }

  ghost predicate Preserved(good: (Sys, seq<Action>) -> bool) {
    forall s, told, a | Enabled(s, a) && good(s, told) :: good(Next(s, a), told + [a])
  }

  /** What every step preserves holds after a run. */
  lemma {:induction false} RunPreserves(good: (Sys, seq<Action>) -> bool, s: Sys, told: seq<Action>,
                                        actions: seq<Action>)
    requires Preserved(good) && good(s, told) && Valid(s, actions)
    ensures good(After(s, actions), told + actions)
    decreases actions
  {
    if actions == [] {
      assert told + actions == told;
    } else {
      RunPreserves(good, Next(s, actions[0]), told + [actions[0]], actions[1..]);
      assert told + [actions[0]] + actions[1..] == told + actions;
    }
  }

  ghost predicate InStory(s: Sys, told: seq<Action>, t: int) {
    Inv(s) && t in s.captured && Story(s, told, t)
  }

  lemma StoryIsPreserved(t: int)
    ensures Preserved((s: Sys, told: seq<Action>) => InStory(s, told, t))
  {
    forall s, told, a | Enabled(s, a) && InStory(s, told, t)
      ensures InStory(Next(s, a), told + [a], t)
    {
      InvStep(s, a);
      if Mine(a, t) {
        OwnStory(s, told, a, t);
      } else {
        OtherStory(s, told, a, t);
      }
    }
  }

  lemma JustTells(actions: seq<Action>, t: int, only: seq<Action>, a: Action)
    requires Just(actions, t, only) && Mine(a, t)
    ensures a in actions <==> a in only
  {
  }

  /**
   Each resumed row says what happened to its task, and one thing did: the resume gave up
   before the GET; or the GET failed, was aborted, or was answered.
   */
  lemma ResumedAsAnswered(jobs: Jobs, tasks: Tasks, actions: seq<Action>, t: int)
    requires Valid(Launched(jobs, tasks), actions) && t in ResumableTasks(tasks)
    requires t in After(Launched(jobs, tasks), actions).pcs ==>
               After(Launched(jobs, tasks), actions).pcs[t].Finished?
    ensures var s, was := After(Launched(jobs, tasks), actions), tasks[t];
            && t in s.pcs && t in s.tasks
            && ToldAtEnd(actions, t, s.tasks[t], was)
            && (forall state, percent | Answer(t, Got(state, percent)) in actions && Close(t, false) in actions ::
                  && (s.tasks[t] == TaskRow(was.jobId, Completed, 100, was.uri) <==> state == "completed")
                  && (s.tasks[t] == TaskRow(was.jobId, Failed, percent, was.uri) <==>
                        state == "exception" || state == "killed" || state == "cancelled")
                  && (s.tasks[t] == TaskRow(was.jobId, Flashing, percent, was.uri) <==>
                        state !in ["completed", "exception", "killed", "cancelled"]))
  {
    var s0 := Launched(jobs, tasks);
    LaunchedIsInv(jobs, tasks);
    assert t in s0.captured && s0.captured[t] == tasks[t];
    StoryIsPreserved(t);
    RunPreserves((s: Sys, told: seq<Action>) => InStory(s, told, t), s0, [], actions);
    InvRun(s0, actions);
    assert [] + actions == actions;
    var s := After(s0, actions);
    forall state, percent | Answer(t, Got(state, percent)) in actions && Close(t, false) in actions
      ensures Shows(s.tasks[t], tasks[t], state, percent)
    {
      AnsweredRow(actions, t, s.tasks[t], tasks[t], state, percent);
    }
  }

  /** No coroutine is ever stuck. */
  lemma CoroutineGoesOn(jobs: Jobs, tasks: Tasks, actions: seq<Action>, t: int) returns (a: Action)
    requires Valid(Launched(jobs, tasks), actions) && t in ResumableTasks(tasks)
    requires t in After(Launched(jobs, tasks), actions).pcs ==>
               !After(Launched(jobs, tasks), actions).pcs[t].Finished?
    ensures Mine(a, t) && Enabled(After(Launched(jobs, tasks), actions), a)
  {
    LaunchedIsInv(jobs, tasks);
    InvRun(Launched(jobs, tasks), actions);
    var s := After(Launched(jobs, tasks), actions);
    a := match s.pcs[t]
      case Ready => Issue(t)
      case Polling => Answer(t, Lost)
      case _ => Close(t, false);
  }

  lemma AnsweredRow(actions: seq<Action>, t: int, row: TaskRow, was: TaskRow, state: string, percent: int)
    requires ToldAtEnd(actions, t, row, was)
    requires Answer(t, Got(state, percent)) in actions && Close(t, false) in actions
    ensures Shows(row, was, state, percent)
  {
    var answer := Answer(t, Got(state, percent));
    assert answer !in [GiveUp(t, false)] && answer !in [GiveUp(t, true)];
    var reply, raised :| Just(actions, t, [Issue(t), Answer(t, reply), Close(t, raised)])
                         && Settles(row, was, reply, raised);
    JustTells(actions, t, [Issue(t), Answer(t, reply), Close(t, raised)], answer);
    JustTells(actions, t, [Issue(t), Answer(t, reply), Close(t, raised)], Close(t, false));
  }

  /**
   Whatever the order of the resume steps, once every coroutine has finished each resumed
   job's row is the recount of its own task rows, so it says Running exactly while one of
   its tasks is still open, and each resumed row says what the BMC answered.
   */
  lemma ResumesSettleTheirJobs(jobs: Jobs, tasks: Tasks, actions: seq<Action>)
    requires Valid(Launched(jobs, tasks), actions)
    requires forall t | t in After(Launched(jobs, tasks), actions).pcs ::
               After(Launched(jobs, tasks), actions).pcs[t].Finished?
    ensures var s := After(Launched(jobs, tasks), actions);
            && (forall j | j in s.jobs && OwnsResumable(tasks, j) ::
                  && s.jobs[j] == Recount(s.tasks, j)
                  && (s.jobs[j].state == Running <==>
                        exists t :: t in TasksOf(s.tasks, j) && !Terminal(s.tasks[t].state)))
            && (forall t | t in ResumableTasks(tasks) ::
                  && t in s.tasks && t in s.pcs && s.pcs[t].Finished?
                  && RowMatches(s.tasks[t], tasks[t], s.pcs[t])
                  && (s.tasks[t].state == Completed ==>
                        exists percent :: s.pcs[t] == Finished(Some(Got("completed", percent)))))
  {
    var s0, s := Launched(jobs, tasks), After(Launched(jobs, tasks), actions);
    LaunchedIsInv(jobs, tasks);
    InvRun(s0, actions);
    forall j | j in s.jobs && OwnsResumable(tasks, j)
      ensures s.jobs[j] == Recount(s.tasks, j)
      ensures s.jobs[j].state == Running <==>
                exists t :: t in TasksOf(s.tasks, j) && !Terminal(s.tasks[t].state)
    {
      var t :| t in tasks && tasks[t].jobId == j && Resumable(tasks[t]);
      assert t in ResumableTasks(tasks) && s.captured[t].jobId == j;
      RecountMeaning(s.tasks, j);
    }
    forall t | t in ResumableTasks(tasks)
      ensures t in s.tasks && t in s.pcs && s.pcs[t].Finished?
      ensures RowMatches(s.tasks[t], tasks[t], s.pcs[t])
      ensures s.tasks[t].state == Completed ==>
                exists percent :: s.pcs[t] == Finished(Some(Got("completed", percent)))
    {
      assert t in s0.captured && s0.captured[t] == tasks[t];
      if s.tasks[t].state == Completed {
        var r := s.pcs[t].outcome.value;
        assert s.pcs[t] == Finished(Some(Got("completed", r.percent)));
      }
    }
  }
}
