/**
 What a run of the update scheduler was told decides what it stores: the rows, the counters,
 the verdict and the installed cancel event are read off the list of actions, for every
 interleaving of any jobs.
 */
module UpdateHistory {
  import opened Prelude
  import opened JobsRepo
  import opened UpdateScheduler

  /** A run without its last action, and that action. */
  lemma {:induction false} Snoc(s: Sys, actions: seq<Action>)
    requires Valid(s, actions) && actions != []
    ensures var front, last := actions[..|actions| - 1], actions[|actions| - 1];
            && Valid(s, front) && Enabled(After(s, front), last)
            && After(s, actions) == Next(After(s, front), last)
    decreases actions
  {
    if |actions| > 1 {
      var rest := actions[1..];
      Snoc(Next(s, actions[0]), rest);
      assert actions[..|actions| - 1][1..] == rest[..|rest| - 1];
    }
  }

  // ---- the task rows ------------------------------------------------------

  /** The action that ends the coroutine of the task. */
  predicate Ends(a: Action, job: int, task: int) {
    a == Skip(job, task) || (a.Return? && a.job == job && a.task == task)
  }

  predicate Has(s: Sys, job: int, task: int) {
    job in s.runs && task in s.runs[job].pcs
  }

  lemma RowIsOwn(s: Sys, job: int, task: int)
    requires Inv(s) && Has(s, job, task)
    ensures task in s.tasks && s.tasks[task].jobId == job
  {
    assert JobOk(s, job);
    assert task in RowsOf(s.tasks, job);
  }

  predicate Reports(a: Action, job: int, task: int) {
    a.Report? && a.job == job && a.task == task
  }

  /** The last report on the task; -1 when there is none. */
  function LastReport(actions: seq<Action>, job: int, task: int): (i: int)
    ensures -1 <= i < |actions| && (i >= 0 ==> Reports(actions[i], job, task))
    ensures forall k | i < k < |actions| :: !Reports(actions[k], job, task)
  {
    if actions == [] then -1
    else if Reports(actions[|actions| - 1], job, task) then |actions| - 1
    else LastReport(actions[..|actions| - 1], job, task)
  }

  /** The actions on one task that its row or its coroutine's outcome can tell. */
  predicate Concerns(a: Action, job: int, task: int) {
    a == Enter(job, task) || Ends(a, job, task) || Reports(a, job, task)
  }

  predicate Untouched(actions: seq<Action>, job: int, task: int) {
    forall a | a in actions :: !Concerns(a, job, task)
  }

  /** It was entered and has not ended: its row is the last report, or as it was created. */
  predicate Underway(actions: seq<Action>, job: int, task: int, row: TaskRow) {
    && Enter(job, task) in actions && (forall a | a in actions :: !Ends(a, job, task))
    && var i := LastReport(actions, job, task);
       row == if i < 0 then TaskRow(job, Queued, 0, "")
              else TaskRow(job, actions[i].state, actions[i].progress, "")
  }

  /** One action ended the task: the return of its coroutine, or a skip when it was never entered. */
  predicate Outcome(actions: seq<Action>, job: int, task: int, row: TaskRow) {
    exists k | 0 <= k < |actions| ::
      && Ends(actions[k], job, task)
      && (forall m | 0 <= m < |actions| && Ends(actions[m], job, task) :: m == k)
      && (actions[k].Skip? <==> Enter(job, task) !in actions)
      && row == (if actions[k] == Return(job, task, true) then TaskRow(job, Completed, 100, "")
                 else TaskRow(job, Failed, 0, ""))
  }

  /** What the actions say of a task whose coroutine stands at `pc`, against the row stored for it. */
  predicate Told(actions: seq<Action>, job: int, task: int, pc: Pc, row: TaskRow) {
    match pc
    case Inside => Underway(actions, job, task, row)
    case Finished => Outcome(actions, job, task, row)
    case _ => Untouched(actions, job, task) && row == TaskRow(job, Queued, 0, "")
  }

  ghost predicate Story(s: Sys, actions: seq<Action>, job: int, task: int) {
    if Has(s, job, task) then task in s.tasks && Told(actions, job, task, s.runs[job].pcs[task], s.tasks[task])
    else Untouched(actions, job, task)
  }

  lemma InSnoc(actions: seq<Action>, a: Action)
    ensures forall b :: b in actions + [a] <==> b in actions || b == a
    ensures (actions + [a])[..|actions|] == actions
  {
  }

  /** Actions on other tasks change neither side. */
  lemma ToldOfOthers(actions: seq<Action>, a: Action, job: int, task: int, pc: Pc, row: TaskRow)
    requires Told(actions, job, task, pc, row) && !Concerns(a, job, task)
    ensures Told(actions + [a], job, task, pc, row)
  {
    InSnoc(actions, a);
    if pc == Finished {
      var k :| 0 <= k < |actions| && Ends(actions[k], job, task)
               && (forall m | 0 <= m < |actions| && Ends(actions[m], job, task) :: m == k)
               && (actions[k].Skip? <==> Enter(job, task) !in actions)
               && row == (if actions[k] == Return(job, task, true) then TaskRow(job, Completed, 100, "")
                          else TaskRow(job, Failed, 0, ""));
      assert (actions + [a])[k] == actions[k];
    }
  }

  lemma OtherStep(s: Sys, a: Action, job: int, task: int)
    requires Inv(s) && Enabled(s, a) && !Concerns(a, job, task) && Has(s, job, task)
    ensures Has(Next(s, a), job, task)
    ensures task in s.tasks && task in Next(s, a).tasks && Next(s, a).tasks[task] == s.tasks[task]
    ensures var pc, pc' := s.runs[job].pcs[task], Next(s, a).runs[job].pcs[task];
            pc' == pc || (pc == Fresh && pc' == Parked)
  {
    RowIsOwn(s, job, task);
    if a.Skip? || a.Report? || a.Return? {
      RowIsOwn(s, a.job, a.task);
    }
  }

  lemma NewStep(s: Sys, a: Action, job: int, task: int)
    requires Inv(s) && Enabled(s, a) && !Has(s, job, task) && Has(Next(s, a), job, task)
    ensures a.Submit? && Next(s, a).runs[job].pcs[task] == Fresh
    ensures task in Next(s, a).tasks && Next(s, a).tasks[task] == TaskRow(job, Queued, 0, "")
  {
    assert a.Submit? && DraftOk(s, job);
  }

  lemma EndingStep(s: Sys, actions: seq<Action>, a: Action, job: int, task: int)
    requires Inv(s) && Enabled(s, a) && Ends(a, job, task) && Story(s, actions, job, task)
    ensures Story(Next(s, a), actions + [a], job, task)
  {
    InSnoc(actions, a);
    RowIsOwn(s, job, task);
    var all := actions + [a];
    assert all[|actions|] == a && forall m | 0 <= m < |actions| :: all[m] == actions[m] && all[m] in actions;
    assert forall m | 0 <= m < |all| && Ends(all[m], job, task) :: m == |actions|;
  }

  lemma InsideStep(s: Sys, actions: seq<Action>, a: Action, job: int, task: int)
    requires Inv(s) && Enabled(s, a) && Story(s, actions, job, task)
    requires a == Enter(job, task) || Reports(a, job, task)
    ensures Story(Next(s, a), actions + [a], job, task)
  {
    InSnoc(actions, a);
    RowIsOwn(s, job, task);
    var all := actions + [a];
    assert all[|actions|] == a && forall m | 0 <= m < |actions| :: all[m] == actions[m] && all[m] in actions;
    if Reports(a, job, task) {
      assert LastReport(all, job, task) == |actions|;
    } else {
      assert LastReport(actions, job, task) == -1;
      assert LastReport(all, job, task) == -1;
    }
  }

  lemma StoryStep(s: Sys, actions: seq<Action>, a: Action, job: int, task: int)
    requires Inv(s) && Enabled(s, a) && Story(s, actions, job, task)
    ensures Story(Next(s, a), actions + [a], job, task)
  {
    if Ends(a, job, task) {
      EndingStep(s, actions, a, job, task);
    } else if Concerns(a, job, task) {
      InsideStep(s, actions, a, job, task);
    } else if Has(s, job, task) {
      OtherStep(s, a, job, task);
      ToldOfOthers(actions, a, job, task, s.runs[job].pcs[task], s.tasks[task]);
    } else if Has(Next(s, a), job, task) {
      NewStep(s, a, job, task);
    }
  }

  lemma {:induction false} StoryRun(actions: seq<Action>, job: int, task: int)
    requires Valid(START, actions)
    ensures Story(After(START, actions), actions, job, task)
  {
    if actions != [] {
      var front := actions[..|actions| - 1];
      Snoc(START, actions);
      InvRun(START, front);
      StoryRun(front, job, task);
      StoryStep(After(START, front), front, actions[|actions| - 1], job, task);
      assert actions == front + [actions[|actions| - 1]];
    }
  }

  lemma OutcomeMeans(actions: seq<Action>, job: int, task: int, row: TaskRow)
    requires Outcome(actions, job, task, row)
    ensures EndedOnce(actions, job, task)
    ensures row == TaskRow(job, Completed, 100, "") <==> Return(job, task, true) in actions
    ensures Return(job, task, false) in actions ==> row == TaskRow(job, Failed, 0, "")
    ensures Skip(job, task) in actions ==> row == TaskRow(job, Failed, 0, "") && Enter(job, task) !in actions
  {
    var k :| 0 <= k < |actions| && Ends(actions[k], job, task)
             && (forall m | 0 <= m < |actions| && Ends(actions[m], job, task) :: m == k)
             && (actions[k].Skip? <==> Enter(job, task) !in actions)
             && row == (if actions[k] == Return(job, task, true) then TaskRow(job, Completed, 100, "")
                        else TaskRow(job, Failed, 0, ""));
    forall a | a in actions && Ends(a, job, task)
      ensures a == actions[k]
    {
      var m :| 0 <= m < |actions| && actions[m] == a;
    }
  }

  predicate EndedOnce(actions: seq<Action>, job: int, task: int) {
    exists k | 0 <= k < |actions| ::
      Ends(actions[k], job, task) && forall m | 0 <= m < |actions| && Ends(actions[m], job, task) :: m == k
  }

  // ---- the cancel events --------------------------------------------------

  /** `job` was the last to install its event, and has not ended since. */
  predicate Installed(actions: seq<Action>, job: int) {
    exists i | 0 <= i < |actions| ::
      actions[i] == Launch(job)
      && forall k | i < k < |actions| :: !actions[k].Launch? && actions[k] != End(job)
  }

  /** A cancel request found `job`'s event installed, and its callback has not run since. */
  predicate Pending(actions: seq<Action>, job: int) {
    exists i | 0 <= i < |actions| ::
      actions[i] == RequestCancel && Installed(actions[..i], job)
      && forall k | i < k < |actions| :: actions[k] != DeliverCancel(job)
  }

  lemma InstalledSnoc(actions: seq<Action>, a: Action, job: int)
    ensures Installed(actions + [a], job) <==>
              a == Launch(job) || (Installed(actions, job) && !a.Launch? && a != End(job))
  {
    var all := actions + [a];
    assert all[|actions|] == a && forall k | 0 <= k < |actions| :: all[k] == actions[k];
    if Installed(actions, job) && !a.Launch? && a != End(job) {
      var i :| 0 <= i < |actions| && actions[i] == Launch(job)
               && forall k | i < k < |actions| :: !actions[k].Launch? && actions[k] != End(job);
      assert all[i] == Launch(job);
    }
    if i :| 0 <= i < |all| && all[i] == Launch(job)
            && forall k | i < k < |all| :: !all[k].Launch? && all[k] != End(job) {
      if i < |actions| {
        assert actions[i] == Launch(job);
        assert forall k | i < k < |actions| :: actions[k] == all[k];
      }
    }
  }

  lemma PendingSnoc(actions: seq<Action>, a: Action, job: int)
    ensures Pending(actions + [a], job) <==>
              || (a == RequestCancel && Installed(actions, job))
              || (Pending(actions, job) && a != DeliverCancel(job))
  {
    var all := actions + [a];
    assert all[|actions|] == a && all[..|actions|] == actions;
    assert forall k | 0 <= k < |actions| :: all[k] == actions[k] && all[..k] == actions[..k];
    if Pending(actions, job) && a != DeliverCancel(job) {
      var i :| 0 <= i < |actions| && actions[i] == RequestCancel && Installed(actions[..i], job)
               && forall k | i < k < |actions| :: actions[k] != DeliverCancel(job);
      assert all[i] == RequestCancel && Installed(all[..i], job);
    }
    if i :| 0 <= i < |all| && all[i] == RequestCancel && Installed(all[..i], job)
            && forall k | i < k < |all| :: all[k] != DeliverCancel(job) {
      if i < |actions| {
        assert actions[i] == RequestCancel && Installed(actions[..i], job);
        assert forall k | i < k < |actions| :: actions[k] == all[k];
      }
    }
  }

  lemma EventStep(s: Sys, a: Action, job: int)
    requires Enabled(s, a)
    ensures Next(s, a).installed == Some(job) <==>
              a == Launch(job) || (s.installed == Some(job) && !a.Launch? && a != End(job))
    ensures job in Next(s, a).inFlight <==>
              (a == RequestCancel && s.installed == Some(job)) || (job in s.inFlight && a != DeliverCancel(job))
  {
  }

  lemma FlagStep(s: Sys, a: Action, job: int)
    requires Enabled(s, a)
    ensures IsSet(Next(s, a), job) <==> IsSet(s, job) || a == DeliverCancel(job)
  {
  }

  predicate IsSet(s: Sys, job: int) {
    job in s.runs && s.runs[job].cancelled
  }

  /** Which event is installed, which are about to be set and which are set: the actions tell. */
  lemma {:induction false} CancelEventsAreTold(actions: seq<Action>, job: int)
    requires Valid(START, actions)
    ensures After(START, actions).installed == Some(job) <==> Installed(actions, job)
    ensures job in After(START, actions).inFlight <==> Pending(actions, job)
    ensures IsSet(After(START, actions), job) <==> DeliverCancel(job) in actions
  {
    if actions != [] {
      var front, a := actions[..|actions| - 1], actions[|actions| - 1];
      Snoc(START, actions);
      assert actions == front + [a];
      CancelEventsAreTold(front, job);
      EventStep(After(START, front), a, job);
      FlagStep(After(START, front), a, job);
      InstalledSnoc(front, a, job);
      PendingSnoc(front, a, job);
      InSnoc(front, a);
    }
  }

  /** The job's event was set when `gather` ended. */
  predicate SetBeforeEnd(actions: seq<Action>, job: int) {
    exists k | 0 <= k < |actions| :: actions[k] == End(job) && DeliverCancel(job) in actions[..k]
  }

  lemma SetBeforeEndSnoc(actions: seq<Action>, a: Action, job: int)
    ensures SetBeforeEnd(actions + [a], job) <==>
              SetBeforeEnd(actions, job) || (a == End(job) && DeliverCancel(job) in actions)
  {
    var all := actions + [a];
    assert all[|actions|] == a && all[..|actions|] == actions;
    assert forall k | 0 <= k < |actions| :: all[k] == actions[k] && all[..k] == actions[..k];
    if k :| 0 <= k < |actions| && actions[k] == End(job) && DeliverCancel(job) in actions[..k] {
      assert all[k] == End(job) && DeliverCancel(job) in all[..k];
    }
  }

  lemma EndStep(s: Sys, a: Action, job: int)
    requires Enabled(s, a)
    ensures HasEnded(Next(s, a), job) <==> HasEnded(s, job) || a == End(job)
    ensures EndedCancelled(Next(s, a), job) <==>
              EndedCancelled(s, job) || (a == End(job) && job in s.runs && s.runs[job].cancelled)
  {
  }

  predicate EndedCancelled(s: Sys, job: int) {
    job in s.runs && s.runs[job].ended == Some(true)
  }

  lemma {:induction false} EndIsTold(actions: seq<Action>, job: int)
    requires Valid(START, actions)
    ensures HasEnded(After(START, actions), job) <==> End(job) in actions
    ensures EndedCancelled(After(START, actions), job) <==> SetBeforeEnd(actions, job)
  {
    if actions != [] {
      var front, a := actions[..|actions| - 1], actions[|actions| - 1];
      Snoc(START, actions);
      assert actions == front + [a];
      CancelEventsAreTold(front, job);
      EndIsTold(front, job);
      EndStep(After(START, front), a, job);
      SetBeforeEndSnoc(front, a, job);
      InSnoc(front, a);
    }
  }

  // ---- what can happen ----------------------------------------------------

  predicate Submitted(actions: seq<Action>, job: int) {
    exists a | a in actions :: a.Submit? && a.job == job
  }

  lemma JobStep(s: Sys, a: Action, job: int)
    requires Enabled(s, a)
    ensures job in Next(s, a).jobs <==> job in s.jobs || a == Create(job)
    ensures job in Next(s, a).drafts <==> a == Create(job) || (job in s.drafts && !(a.Submit? && a.job == job))
    ensures job in Next(s, a).runs <==> job in s.runs || (a.Submit? && a.job == job)
    ensures IsLaunched(Next(s, a), job) <==> IsLaunched(s, job) || a == Launch(job)
  {
  }

  predicate IsLaunched(s: Sys, job: int) {
    job in s.runs && s.runs[job].launched
  }

  lemma {:induction false} JobsAreTold(actions: seq<Action>, job: int)
    requires Valid(START, actions)
    ensures var s := After(START, actions);
            && (job in s.jobs <==> Create(job) in actions)
            && (job in s.drafts <==> Create(job) in actions && !Submitted(actions, job))
            && (job in s.runs <==> Submitted(actions, job))
            && (IsLaunched(s, job) <==> Launch(job) in actions)
  {
    if actions != [] {
      var front, a := actions[..|actions| - 1], actions[|actions| - 1];
      Snoc(START, actions);
      assert actions == front + [a];
      InvRun(START, front);
      JobsAreTold(front, job);
      JobStep(After(START, front), a, job);
      InSnoc(front, a);
      assert Submitted(actions, job) <==> Submitted(front, job) || (a.Submit? && a.job == job);
    }
  }

  /**
   Nothing but the order of the code limits what may happen next: a new job can always be
   created, one being written extended and submitted, a submitted one launched, a cancel
   requested and a requested one delivered.
   */
  lemma AnythingMayHappen(actions: seq<Action>, job: int, task: int, concurrency: int)
    requires Valid(START, actions)
    ensures var s := After(START, actions);
            && Enabled(s, RequestCancel)
            && (Create(job) !in actions ==> Enabled(s, Create(job)))
            && (Create(job) in actions && !Submitted(actions, job) ==> Enabled(s, Submit(job, concurrency)))
            && (Create(job) in actions && !Submitted(actions, job) && task !in s.tasks ==>
                  Enabled(s, AddTask(job, task)))
            && (Submitted(actions, job) && Launch(job) !in actions ==> Enabled(s, Launch(job)))
            && (Pending(actions, job) ==> Enabled(s, DeliverCancel(job)))
  {
    JobsAreTold(actions, job);
    if Pending(actions, job) {
      PendingIsLaunched(actions, job);
      CancelEventsAreTold(actions, job);
    }
  }

  /** A task inside can report and return anything. */
  lemma AnythingMayReturn(actions: seq<Action>, job: int, task: int, state: TaskState, progress: int, ok: bool)
    requires Valid(START, actions)
    requires Enter(job, task) in actions && forall a | a in actions :: !Ends(a, job, task)
    ensures Enabled(After(START, actions), Report(job, task, state, progress))
    ensures Enabled(After(START, actions), Return(job, task, ok))
  {
    InvRun(START, actions);
    StoryRun(actions, job, task);
    InsideIsLaunched(After(START, actions), job, task);
  }

  lemma InsideIsLaunched(s: Sys, job: int, task: int)
    requires Inv(s) && Has(s, job, task) && s.runs[job].pcs[task] == Inside
    ensures s.runs[job].launched
  {
    assert JobOk(s, job);
    assert task !in At(s.runs[job].pcs, Fresh);
  }

  lemma PendingIsLaunched(actions: seq<Action>, job: int)
    requires Valid(START, actions) && Pending(actions, job)
    ensures job in After(START, actions).runs
  {
    var i :| 0 <= i < |actions| && actions[i] == RequestCancel && Installed(actions[..i], job)
             && forall k | i < k < |actions| :: actions[k] != DeliverCancel(job);
    var j :| 0 <= j < i && actions[..i][j] == Launch(job)
             && forall k | j < k < i :: !actions[..i][k].Launch? && actions[..i][k] != End(job);
    assert actions[j] in actions;
    JobsAreTold(actions, job);
  }

  // ---- the counters -------------------------------------------------------

  /** The tasks of the job whose coroutine came back ok. */
  ghost function ReturnedOk(actions: seq<Action>, ids: set<int>, job: int): set<int> {
    set t | t in ids && Return(job, t, true) in actions
  }

  lemma RowsAreReturns(actions: seq<Action>, job: int)
    requires Valid(START, actions) && HasEnded(After(START, actions), job)
    ensures var s := After(START, actions);
            var ids := TasksOf(s.tasks, job);
            && InState(s.tasks, ids, Completed) == ReturnedOk(actions, ids, job)
            && InState(s.tasks, ids, Failed) == ids - ReturnedOk(actions, ids, job)
  {
    var s := After(START, actions);
    var ids := TasksOf(s.tasks, job);
    InvRun(START, actions);
    assert JobOk(s, job);
    EndedRows(s, job);
    forall t | t in ids
      ensures s.tasks[t].state == if Return(job, t, true) in actions then Completed else Failed
    {
      assert t in At(s.runs[job].pcs, Finished);
      OutcomeIsReturned(actions, job, t);
    }
  }

  // ---- main results -------------------------------------------------------

  /** A task's row says what its coroutine returned, for every task of every job and every run. */
  lemma OutcomeIsReturned(actions: seq<Action>, job: int, task: int)
    requires Valid(START, actions) && Has(After(START, actions), job, task)
    ensures var s := After(START, actions);
            var pc := s.runs[job].pcs[task];
            && task in s.tasks
            && (if pc == Finished then EndedOnce(actions, job, task)
                else forall a | a in actions :: !Ends(a, job, task))
            && (pc == Finished && s.tasks[task] == TaskRow(job, Completed, 100, "")
                <==> Return(job, task, true) in actions)
            && (Return(job, task, false) in actions ==> s.tasks[task] == TaskRow(job, Failed, 0, ""))
            && (Skip(job, task) in actions ==>
                  s.tasks[task] == TaskRow(job, Failed, 0, "") && Enter(job, task) !in actions)
            && (pc == Inside <==> Enter(job, task) in actions && forall a | a in actions :: !Ends(a, job, task))
            && (pc == Inside ==> Underway(actions, job, task, s.tasks[task]))
            && (pc == Fresh || pc == Parked ==> s.tasks[task] == TaskRow(job, Queued, 0, ""))
  {
    StoryRun(actions, job, task);
    var s := After(START, actions);
    if s.runs[job].pcs[task] == Finished {
      OutcomeMeans(actions, job, task, s.tasks[task]);
    }
  }

  /**
   The job row stored at the end counts the tasks whose coroutine came back ok, and the others
   as failed. Its verdict is cancelled exactly when the job's own event was set before the end;
   else completed when all came back ok, failed when there are tasks and none did, and
   completed with errors otherwise.
   */
  lemma VerdictIsReturned(actions: seq<Action>, job: int)
    requires Valid(START, actions) && HasEnded(After(START, actions), job)
    ensures var s := After(START, actions);
            var ids := TasksOf(s.tasks, job);
            var ok := ReturnedOk(actions, ids, job);
            && job in s.jobs
            && s.jobs[job].total == |ids|
            && s.jobs[job].succeeded == |ok| && s.jobs[job].failed == |ids - ok|
            && s.jobs[job].state == (if SetBeforeEnd(actions, job) then JobState.Cancelled
                                     else if ok == ids then JobCompleted
                                     else if ok == {} then JobFailed
                                     else CompletedWithErrors)
  {
    var s := After(START, actions);
    var ids := TasksOf(s.tasks, job);
    var ok := ReturnedOk(actions, ids, job);
    InvRun(START, actions);
    assert JobOk(s, job);
    CountersAgreeWithRows(actions, job);
    RowsAreReturns(actions, job);
    EndIsTold(actions, job);
    assert ids - ok == {} <==> ok == ids;
  }
}
