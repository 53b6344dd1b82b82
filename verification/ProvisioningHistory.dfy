/**
 What a provisioning run was told decides what it stores and serves: each task's place, calls
 and outcome are read off the actions on it, the job's verdict off those, and a rendered
 config is served from its publication to the end of its task or of its lifetime.
 */
module ProvisioningHistory {
  import opened Prelude
  import opened Text
  import opened Drives
  import opened DiskResolver
  import opened Autoinstall
  import opened Provisioning
  import JobsRepo

  // ---- one task -----------------------------------------------------------

  predicate On(a: Action, t: int) {
    OfTask(a) && a.t == t
  }

  /** The last action on the task; -1 when there is none. */
  function LastOn(actions: seq<Action>, t: int): (k: int)
    ensures -1 <= k < |actions| && (k >= 0 ==> On(actions[k], t))
  {
    if actions == [] then -1
    else if On(actions[|actions| - 1], t) then |actions| - 1
    else LastOn(actions[..|actions| - 1], t)
  }

  /** How many of the task's plugin calls came back ok. */
  function Oks(actions: seq<Action>, t: int): nat {
    if actions == [] then 0
    else Oks(actions[..|actions| - 1], t) + (if actions[|actions| - 1] == Reply(t, true) then 1 else 0)
  }

  /** The host is known and ready, its disk was settled at kickoff, and its config can be rendered. */
  predicate Ready(family: string, p: Plan) {
    && p.host.ready
    && (p.frozen.status == Matched || p.frozen.status == Override || p.frozen.status == AmbiguousMatch)
    && Rendered(family, p).Ok?
  }

  /** Where the task stands after its last action, `cancelled` telling whether the job was by then. */
  predicate Placed(p: Proc, last: Action, oks: nat, ready: bool, cancelled: bool) {
    match last
    case Skip(_) => p.pc == Finished && p.row == Cancelled
    case Park(_) => p.pc == Parked && p.row == Queued
    case Enter(_, _, published) =>
      if ready && published then p.pc == Mounting && p.row == Working else p.pc == Finished && p.row == Failed
    case Reply(_, ok) =>
      if !ok then p.pc == Finished && p.row == Failed
      else if oks == 1 then p.pc == SettingBoot && p.row == Working
      else if oks == 2 then p.pc == PowerCycling && p.row == Working
      else if cancelled then p.pc == Finished && p.row == Cancelled
      else p.pc == Probing && p.row == Working
    case Probed(_, up) => p.pc == (if up then Verifying else Sleeping) && p.row == Working
    case WakeUp(_, late) =>
      if late then p.pc == Finished && p.row == Failed
      else if cancelled then p.pc == Finished && p.row == Cancelled
      else p.pc == Probing && p.row == Working
    case Verified(_, up) => if up then p.pc == Ejecting && p.row == Working else p.pc == Finished && p.row == Failed
    case Ejected(_, raised) => p.pc == Finished && p.row == (if raised then Failed else Completed)
    case Abort(_) => p.pc == Finished && p.row == Cancelled
    case _ => false
  }

  predicate Began(actions: seq<Action>, t: int) {
    exists a | a in actions :: a.Enter? && a.t == t && a.published
  }

  /** How many plugin calls were made: the first on entry, the next two after an ok, the last on verification. */
  function CallsMade(actions: seq<Action>, t: int, ready: bool): nat {
    if !(ready && Began(actions, t)) then 0
    else 1 + (if Oks(actions, t) < 2 then Oks(actions, t) else 2) + (if Verified(t, true) in actions then 1 else 0)
  }

  ghost predicate PlaceTold(s: Sys, actions: seq<Action>, t: int)
    requires 0 <= t < |s.procs| == |s.plans|
  {
    var p, k := s.procs[t], LastOn(actions, t);
    && (if k < 0 then p == Proc(Fresh, Queued, None, [], 0)
        else Placed(p, actions[k], Oks(actions, t), Ready(s.family, s.plans[t]), SetCancel in actions[..k]))
    && p.acks == Oks(actions, t)
    && (s.cancelled <==> SetCancel in actions)
  }

  ghost predicate CallsTold(s: Sys, actions: seq<Action>, t: int)
    requires 0 <= t < |s.procs| == |s.plans|
  {
    var p := s.procs[t];
    && p.acks == Oks(actions, t)
    && |p.calls| == CallsMade(actions, t, Ready(s.family, s.plans[t]))
    && (p.pc == Fresh || p.pc == Parked ==> !Began(actions, t))
    && (|p.calls| < 4 ==> Verified(t, true) !in actions)
  }

  lemma {:induction false} Snoc(s: Sys, actions: seq<Action>)
    requires Valid(s, actions) && actions != []
    ensures var front, last := actions[..|actions| - 1], actions[|actions| - 1];
            && Valid(s, front) && Enabled(After(s, front), last)
            && After(s, actions) == Next(After(s, front), last)
    decreases actions
  {
    if |actions| > 1 {
      var rest := actions[1..];
      Snoc(Next(s, actions[0]), rest);
      assert actions[..|actions| - 1][1..] == rest[..|rest| - 1];
    }
  }

  lemma Appended(actions: seq<Action>, a: Action, t: int)
    ensures var all := actions + [a];
            && (On(a, t) ==> LastOn(all, t) == |actions| && all[..|actions|] == actions && all[|actions|] == a)
            && (!On(a, t) ==> LastOn(all, t) == LastOn(actions, t))
            && (!On(a, t) && LastOn(actions, t) >= 0 ==>
                  all[..LastOn(actions, t)] == actions[..LastOn(actions, t)]
                  && all[LastOn(actions, t)] == actions[LastOn(actions, t)])
            && Oks(all, t) == Oks(actions, t) + (if a == Reply(t, true) then 1 else 0)
            && (forall b :: b in all <==> b in actions || b == a)
            && (Began(all, t) <==> Began(actions, t) || (a.Enter? && a.t == t && a.published))
  {
    var all := actions + [a];
    assert all[..|actions|] == actions && all[|actions|] == a;
    assert a in all && forall b | b in actions :: b in all;
  }

  lemma PlaceByOwn(s: Sys, actions: seq<Action>, a: Action, t: int)
    requires Inv(s) && Enabled(s, a) && 0 <= t < |s.procs| && On(a, t) && PlaceTold(s, actions, t)
    ensures PlaceTold(Next(s, a), actions + [a], t)
  {
    Appended(actions, a, t);
    assert ProcOk(s, t);
  }

  lemma CallsByOwn(s: Sys, actions: seq<Action>, a: Action, t: int)
    requires Inv(s) && Enabled(s, a) && 0 <= t < |s.procs| && On(a, t) && CallsTold(s, actions, t)
    ensures CallsTold(Next(s, a), actions + [a], t)
  {
    Appended(actions, a, t);
    assert ProcOk(s, t);
  }

  lemma ToldByOthers(s: Sys, actions: seq<Action>, a: Action, t: int)
    requires Enabled(s, a) && 0 <= t < |s.procs| && !On(a, t)
    requires PlaceTold(s, actions, t) && CallsTold(s, actions, t)
    ensures PlaceTold(Next(s, a), actions + [a], t) && CallsTold(Next(s, a), actions + [a], t)
  {
    Appended(actions, a, t);
    assert Next(s, a).procs[t] == s.procs[t];
  }

  ghost predicate Preserved(good: (Sys, seq<Action>) -> bool) {
    forall s, told, a | Enabled(s, a) && good(s, told) :: good(Next(s, a), told + [a])
  }

  /** What every step preserves holds after a run. */
  lemma {:induction false} RunPreserves(good: (Sys, seq<Action>) -> bool, s: Sys, told: seq<Action>,
                                        actions: seq<Action>)
    requires Preserved(good) && good(s, told) && Valid(s, actions)
    ensures good(After(s, actions), told + actions)
    decreases actions
  {
    if actions == [] {
      assert told + actions == told;
    } else {
      RunPreserves(good, Next(s, actions[0]), told + [actions[0]], actions[1..]);
      assert told + [actions[0]] + actions[1..] == told + actions;
    }
  }

  ghost predicate Told(s: Sys, actions: seq<Action>, t: int) {
    Inv(s) && 0 <= t < |s.procs| && PlaceTold(s, actions, t) && CallsTold(s, actions, t)
  }

  lemma ToldIsPreserved(t: int)
    ensures Preserved((s: Sys, told: seq<Action>) => Told(s, told, t))
  {
    forall s, told, a | Enabled(s, a) && Told(s, told, t)
      ensures Told(Next(s, a), told + [a], t)
    {
      InvStep(s, a);
      if On(a, t) {
        PlaceByOwn(s, told, a, t);
        CallsByOwn(s, told, a, t);
      } else {
        ToldByOthers(s, told, a, t);
      }
    }
  }

  lemma ToldRun(family: string, plans: seq<Plan>, concurrency: int, actions: seq<Action>, t: int)
    requires Valid(Start(family, plans, concurrency), actions) && 0 <= t < |plans|
    ensures var s := After(Start(family, plans, concurrency), actions);
            s.plans == plans && s.family == family && Told(s, actions, t)
  {
    var s0 := Start(family, plans, concurrency);
    StartOk(family, plans, concurrency);
    InvRun(s0, actions);
    ToldIsPreserved(t);
    RunPreserves((s: Sys, told: seq<Action>) => Told(s, told, t), s0, [], actions);
    assert [] + actions == actions;
  }

  // ---- main results -------------------------------------------------------

  /**
   In every interleaving a task stands where its last action put it, with the row that action
   calls for: completed exactly when its media were ejected without an exception, cancelled by
   a skip, an abort, or a waiting loop that found the job cancelled, and failed otherwise. Its
   plugin calls are mount, set-boot, power-cycle, eject, one after each ok, and nothing is
   called for a host that is not ready or whose disk was not settled.
   */
  lemma TaskIsTold(family: string, plans: seq<Plan>, concurrency: int, actions: seq<Action>, t: int)
    requires Valid(Start(family, plans, concurrency), actions) && 0 <= t < |plans|
    ensures var s := After(Start(family, plans, concurrency), actions);
            var k, ready := LastOn(actions, t), Ready(family, plans[t]);
            && t < |s.procs|
            && (if k < 0 then s.procs[t].pc == Fresh && s.procs[t].row == Queued
                else Placed(s.procs[t], actions[k], Oks(actions, t), ready, SetCancel in actions[..k]))
            && s.procs[t].calls <= [Mount, SetBoot, PowerCycle, Eject]
            && |s.procs[t].calls| == CallsMade(actions, t, ready)
  {
    ToldRun(family, plans, concurrency, actions, t);
    assert ProcOk(After(Start(family, plans, concurrency), actions), t);
  }

  /** The tasks whose last action is an ejection that did not raise. */
  ghost function Installed(actions: seq<Action>, n: nat): set<int> {
    set t | 0 <= t < n && LastOn(actions, t) >= 0 && actions[LastOn(actions, t)] == Ejected(t, false)
  }

  /** The job was cancelled before `gather` ended. */
  predicate CancelledBeforeEnd(actions: seq<Action>) {
    exists k | 0 <= k < |actions| :: actions[k].Close? && SetCancel in actions[..k]
  }

  lemma CancelledSnoc(actions: seq<Action>, a: Action)
    ensures CancelledBeforeEnd(actions + [a]) <==> CancelledBeforeEnd(actions) || (a.Close? && SetCancel in actions)
  {
    var all := actions + [a];
    assert all[|actions|] == a && all[..|actions|] == actions;
    assert forall k | 0 <= k < |actions| :: all[k] == actions[k] && all[..k] == actions[..k];
    if k :| 0 <= k < |actions| && actions[k].Close? && SetCancel in actions[..k] {
      assert all[k].Close? && SetCancel in all[..k];
    }
  }

  lemma EndStep(s: Sys, a: Action)
    requires Enabled(s, a)
    ensures Next(s, a).cancelled <==> s.cancelled || a == SetCancel
    ensures Next(s, a).score.ended == Some(true) <==>
              s.score.ended == Some(true) || (a.Close? && s.cancelled)
  {
  }

  lemma {:induction false} EndIsTold(s: Sys, actions: seq<Action>)
    requires Valid(s, actions) && s.score.ended.None? && !s.cancelled
    ensures After(s, actions).cancelled <==> SetCancel in actions
    ensures After(s, actions).score.ended == Some(true) <==> CancelledBeforeEnd(actions)
    decreases actions
  {
    if actions != [] {
      var front, a := actions[..|actions| - 1], actions[|actions| - 1];
      Snoc(s, actions);
      EndIsTold(s, front);
      EndStep(After(s, front), a);
      CancelledSnoc(front, a);
      assert actions == front + [a];
      assert SetCancel in actions <==> SetCancel in front || a == SetCancel;
    }
  }

  /**
   The job's stored row counts the installed tasks, and the others as failed. Its verdict is
   cancelled exactly when it was cancelled before the end; else completed when all are
   installed, failed when there are tasks and none is, and completed with errors otherwise.
   */
  lemma VerdictIsTold(family: string, plans: seq<Plan>, concurrency: int, actions: seq<Action>)
    requires Valid(Start(family, plans, concurrency), actions)
    requires After(Start(family, plans, concurrency), actions).score.ended.Some?
    ensures var row := After(Start(family, plans, concurrency), actions).score.row;
            var good := Installed(actions, |plans|);
            && row.total == |plans| && row.succeeded == |good| && row.failed == |plans| - |good|
            && row.state == (if CancelledBeforeEnd(actions) then JobsRepo.JobState.Cancelled
                             else if |good| == |plans| then JobsRepo.JobState.JobCompleted
                             else if |good| == 0 then JobsRepo.JobState.JobFailed
                             else JobsRepo.JobState.CompletedWithErrors)
  {
    var s0 := Start(family, plans, concurrency);
    var s := After(s0, actions);
    CountersAgreeWithRows(family, plans, concurrency, actions);
    EndIsTold(s0, actions);
    var rows := WithRow(s.procs, {Completed});
    forall t | 0 <= t < |plans|
      ensures t in Installed(actions, |plans|) <==> t in rows
    {
      CompletedIffInstalled(family, plans, concurrency, actions, t);
    }
    assert Installed(actions, |plans|) == rows;
    assert s.score.ended == if s.score.ended.value then Some(true) else Some(false);
  }

  lemma CompletedIffInstalled(family: string, plans: seq<Plan>, concurrency: int, actions: seq<Action>, t: int)
    requires Valid(Start(family, plans, concurrency), actions) && 0 <= t < |plans|
    ensures t < |After(Start(family, plans, concurrency), actions).procs|
    ensures After(Start(family, plans, concurrency), actions).procs[t].row == Completed
            <==> t in Installed(actions, |plans|)
  {
    TaskIsTold(family, plans, concurrency, actions, t);
    var k := LastOn(actions, t);
    if k >= 0 {
      assert actions[k].Ejected? ==> actions[k] == Ejected(t, actions[k].raised);
    }
  }

  // ---- what the installer is served ---------------------------------------

  /** The config of task `t`, stored under `k` until `until`, is there unless the task or its time is over. */
  ghost predicate Kept(s: Sys, t: int, k: Token, body: Body, until: int) {
    && 0 <= t < |s.procs| && k in s.used
    && (s.procs[t].pc == Finished || s.now >= until
        || (s.procs[t].token == Some(k) && k in s.configs && s.configs[k] == Entry(body, until)))
  }

  /** A step of another task, or of none, leaves the config alone unless its time is over. */
  lemma KeptByOthers(s: Sys, a: Action, t: int, k: Token, body: Body, until: int)
    requires Inv(s) && Enabled(s, a) && Kept(s, t, k, body, until) && !On(a, t)
    ensures Kept(Next(s, a), t, k, body, until)
  {
    if OfTask(a) {
      assert ProcOk(s, t) && ProcOk(s, a.t);
      MovedTokenIsOwn(s, a, t);
    }
  }

  lemma KeptByOwn(s: Sys, a: Action, t: int, k: Token, body: Body, until: int)
    requires Inv(s) && Enabled(s, a) && Kept(s, t, k, body, until) && On(a, t) && !a.Enter?
    ensures Kept(Next(s, a), t, k, body, until)
  {
    assert Moved(s, a).token == s.procs[t].token;
  }

  lemma KeptStep(s: Sys, a: Action, t: int, k: Token, body: Body, until: int)
    requires Inv(s) && Enabled(s, a) && Kept(s, t, k, body, until)
    requires s.procs[t].pc != Fresh && s.procs[t].pc != Parked
    ensures Kept(Next(s, a), t, k, body, until)
    ensures Next(s, a).procs[t].pc != Fresh && Next(s, a).procs[t].pc != Parked
  {
    if On(a, t) {
      KeptByOwn(s, a, t, k, body, until);
    } else {
      KeptByOthers(s, a, t, k, body, until);
    }
  }

  lemma {:induction false} KeptRun(s: Sys, actions: seq<Action>, t: int, k: Token, body: Body, until: int)
    requires Inv(s) && Valid(s, actions) && Kept(s, t, k, body, until)
    requires s.procs[t].pc != Fresh && s.procs[t].pc != Parked
    ensures Kept(After(s, actions), t, k, body, until)
    decreases actions
  {
    if actions != [] {
      InvStep(s, actions[0]);
      KeptStep(s, actions[0], t, k, body, until);
      KeptRun(Next(s, actions[0]), actions[1..], t, k, body, until);
    }
  }

  /**
   The config of a task that is ready and published is served under its token, with the host's
   name (or address) and the installer snippets aimed at its frozen disk, for 1800 seconds or
   until the task ends, whatever else happens.
   */
  lemma ServedUntilOver(family: string, plans: seq<Plan>, concurrency: int, before: seq<Action>, t: int, k: Token,
                        after: seq<Action>)
    requires Valid(Start(family, plans, concurrency), before) && 0 <= t < |plans| && Ready(family, plans[t])
    requires Enabled(After(Start(family, plans, concurrency), before), Enter(t, k, true))
    requires Valid(Next(After(Start(family, plans, concurrency), before), Enter(t, k, true)), after)
    ensures var s := After(Start(family, plans, concurrency), before);
            var s', host, disk := After(Next(s, Enter(t, k, true)), after), plans[t].host, plans[t].frozen;
            && t < |s'.procs|
            && (s'.procs[t].pc != Finished && s'.now < s.now + 1800 ==>
                  && Served(s', k).Some?
                  && Served(s', k).value.hostname == (if host.hostname != "" then host.hostname else host.ip)
                  && Served(s', k).value.ip == host.ip
                  && Ok(Served(s', k).value.snippets) == Render(family,
                       if disk.name.Some? then disk.name.value else "",
                       if disk.serial.Some? then disk.serial.value else ""))
  {
    var s0 := Start(family, plans, concurrency);
    StartOk(family, plans, concurrency);
    InvRun(s0, before);
    var s := After(s0, before);
    InvStep(s, Enter(t, k, true));
    var s1 := Next(s, Enter(t, k, true));
    var body := Rendered(family, plans[t]).value;
    assert ProcOk(s, t);
    assert Kept(s1, t, k, body, s.now + 1800);
    KeptRun(s1, after, t, k, body, s.now + 1800);
  }

  // ---- the permits --------------------------------------------------------

  /**
   At most as many tasks are live as the concurrency says, kept within 1..32; while there are
   fewer, any waiting task of a job that is not cancelled can be entered.
   */
  lemma PermitsAreUsed(family: string, plans: seq<Plan>, concurrency: int, actions: seq<Action>)
    requires Valid(Start(family, plans, concurrency), actions)
    ensures var s := After(Start(family, plans, concurrency), actions);
            && (1 <= concurrency <= 32 ==> s.permits == concurrency)
            && (concurrency < 1 ==> s.permits == 1) && (concurrency > 32 ==> s.permits == 32)
            && |LiveTasks(s)| <= s.permits
            && (forall t, k, published | 0 <= t < |plans| && k !in s.used && |LiveTasks(s)| < s.permits
                                         && t < |s.procs| && (s.procs[t].pc == Fresh || s.procs[t].pc == Parked) ::
                  !s.cancelled ==> Enabled(s, Enter(t, k, published)))
  {
    StartOk(family, plans, concurrency);
    InvRun(Start(family, plans, concurrency), actions);
  }

  /** The job is never stuck: until it has ended, some task or its end can go on. */
  lemma NeverStuck(family: string, plans: seq<Plan>, concurrency: int, actions: seq<Action>, k: Token)
    returns (a: Action)
    requires Valid(Start(family, plans, concurrency), actions)
    requires After(Start(family, plans, concurrency), actions).score.ended.None?
    requires k !in After(Start(family, plans, concurrency), actions).used
    ensures Enabled(After(Start(family, plans, concurrency), actions), a) && (OfTask(a) || a.Close?)
  {
    var s := After(Start(family, plans, concurrency), actions);
    StartOk(family, plans, concurrency);
    InvRun(Start(family, plans, concurrency), actions);
    if t :| 0 <= t < |s.procs| && Live(s.procs[t]) {
      a := match s.procs[t].pc
        case Probing => Probed(t, true)
        case Sleeping => WakeUp(t, true)
        case Verifying => Verified(t, true)
        case Ejecting => Ejected(t, false)
        case _ => Reply(t, true);
    } else if t :| 0 <= t < |s.procs| && s.procs[t].pc != Finished {
      assert LiveTasks(s) == {};
      a := if s.cancelled then Skip(t) else Enter(t, k, true);
    } else {
      a := Close;
    }
  }
}
