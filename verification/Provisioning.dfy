/**
 core/services/provisioning_orchestrator.py: the disk frozen on each task row at kickoff,
 and the task coroutines of one provisioning job with the autoinstall configs they hold.
 */
module Provisioning {
  import opened Prelude
  import opened Text
  import opened Drives
  import opened DiskResolver
  import opened Autoinstall
  import opened Sorting
  import JobsRepo

  // ---- preview and kickoff ------------------------------------------------

  /** The resolution stored on a task row; `drive` fields are None when nothing was chosen. */
  datatype Frozen = Frozen(name: Option<string>, model: Option<string>, serial: Option<string>, status: Status)

  /** Overrides as received: by server id, or by its decimal text (from JSON). */
  datatype Overrides = Overrides(byId: map<int, string>, byText: map<int, string>)

  function OverrideFor(o: Overrides, server: int): string {
    if server in o.byId && o.byId[server] != "" then o.byId[server]
    else if server in o.byText then o.byText[server]
    else ""
  }

  function Freeze(d: Drive, status: Status): Frozen {
    Frozen(Some(d.name), Some(d.model), Some(d.serial), status)
  }

  function FindName(drives: seq<Drive>, name: string): Option<Drive> {
    if drives == [] then None else if drives[0].name == name then Some(drives[0])
    else FindName(drives[1..], name)
  }

  /** `_resolve_for`. */
  function ResolveFor(lib: Lib, server: int, drives: seq<Drive>, strategy: string, o: Overrides): Frozen {
    var wanted := OverrideFor(o, server);
    if wanted != "" then
      match FindName(drives, wanted)
      case Some(d) => Freeze(d, Override)
      case None => Frozen(Some(wanted), None, None, Unmatched)
    else if strategy == "" then Frozen(None, None, None, Unmatched)
    else
      var r := Resolve(lib, strategy, drives);
      if r.drive.Some? then Freeze(r.drive.value, r.status) else Frozen(None, None, None, r.status)
  }

  /** An explicit strategy wins over the saved disk profile's. */
  function EffectiveStrategy(explicit: string, profile: Option<string>): string {
    if explicit != "" then explicit else if profile.Some? then profile.value else ""
  }

  /** What the job needs of a host: its lookups succeed, and what names it in the config. */
  datatype Host = Host(ready: bool, hostname: string, ip: string)

  datatype Plan = Plan(server: int, host: Host, frozen: Frozen)

  /** What is known of the servers when the job starts. */
  datatype Fleet = Fleet(inventories: map<int, seq<Drive>>, hosts: map<int, Host>)

  /** `preview` and the task creation of `start_job`: unknown servers are skipped. */
  function Plans(lib: Lib, fleet: Fleet, servers: seq<int>, strategy: string, o: Overrides): (ps: seq<Plan>)
    ensures forall p | p in ps ::
              p.server in fleet.inventories && p.server in fleet.hosts
              && p.host == fleet.hosts[p.server]
              && p.frozen == ResolveFor(lib, p.server, fleet.inventories[p.server], strategy, o)
  {
    if servers == [] then []
    else
      var id, rest := servers[0], Plans(lib, fleet, servers[1..], strategy, o);
      if id in fleet.inventories && id in fleet.hosts
      then [Plan(id, fleet.hosts[id], ResolveFor(lib, id, fleet.inventories[id], strategy, o))] + rest
      else rest
  }

  /** The operator named a drive for the server: under its id, or else under the id's text. */
  predicate Picked(o: Overrides, server: int, name: string) {
    && name != ""
    && (if server in o.byId && o.byId[server] != "" then o.byId[server] == name
        else server in o.byText && o.byText[server] == name)
  }

  predicate NothingPicked(o: Overrides, server: int) {
    (server in o.byId ==> o.byId[server] == "") && (server in o.byText ==> o.byText[server] == "")
  }

  lemma PickedIff(o: Overrides, server: int)
    ensures forall name :: Picked(o, server, name) <==> name != "" && OverrideFor(o, server) == name
    ensures NothingPicked(o, server) <==> OverrideFor(o, server) == ""
  {
  }

  /** Drive `i` is the right disk of a host: the one picked, or the strategy's choice. */
  predicate RightDisk(lib: Lib, server: int, drives: seq<Drive>, strategy: string, o: Overrides, i: int) {
    && 0 <= i < |drives|
    && (if NothingPicked(o, server) then Meant(lib, strategy, drives, i)
        else
          && Picked(o, server, drives[i].name)
          && forall j | 0 <= j < i :: drives[j].name != drives[i].name)
  }

  /** What the task row keeps of a drive. */
  predicate FrozenAs(f: Frozen, d: Drive) {
    f.name == Some(d.name) && f.model == Some(d.model) && f.serial == Some(d.serial)
  }

  function ServersOf(ps: seq<Plan>): (ids: seq<int>)
    ensures |ids| == |ps| && forall i | 0 <= i < |ps| :: ids[i] == ps[i].server
  {
    seq(|ps|, i requires 0 <= i < |ps| => ps[i].server)
  }

  function IsKnown(fleet: Fleet): int -> bool {
    id => id in fleet.inventories && id in fleet.hosts
  }

  /** Every listed server that is known gets a task, one per listing, in the order of the list. */
  lemma {:induction false} EveryKnownServerIsPlanned(lib: Lib, fleet: Fleet, servers: seq<int>, strategy: string,
                                                     o: Overrides)
    ensures ServersOf(Plans(lib, fleet, servers, strategy, o)) == FilterSeq(IsKnown(fleet), servers)
  {
    if servers != [] {
      EveryKnownServerIsPlanned(lib, fleet, servers[1..], strategy, o);
      var rest := Plans(lib, fleet, servers[1..], strategy, o);
      if IsKnown(fleet)(servers[0]) {
        ServersCons(Plans(lib, fleet, servers, strategy, o)[0], rest);
      }
    }
  }

  lemma ServersCons(p: Plan, ps: seq<Plan>)
    ensures ServersOf([p] + ps) == [p.server] + ServersOf(ps)
  {
  }

  predicate Runnable(status: Status) {
    status == Matched || status == Override || status == AmbiguousMatch
  }

  lemma {:induction false} FindNameMeaning(drives: seq<Drive>, name: string)
    ensures FindName(drives, name) == None <==> forall d | d in drives :: d.name != name
    ensures FindName(drives, name).Some? ==>
              exists i :: 0 <= i < |drives| && drives[i] == FindName(drives, name).value
                       && drives[i].name == name && forall j | 0 <= j < i :: drives[j].name != name
  {
    if drives != [] {
      FindNameMeaning(drives[1..], name);
      assert drives == [drives[0]] + drives[1..];
      if drives[0].name != name && FindName(drives[1..], name).Some? {
        var i :| 0 <= i < |drives[1..]| && drives[1..][i] == FindName(drives[1..], name).value
                 && drives[1..][i].name == name && forall j | 0 <= j < i :: drives[1..][j].name != name;
        assert drives[i + 1] == drives[1..][i];
        assert forall j | 0 < j < i + 1 :: drives[j] == drives[1..][j - 1];
      }
    }
  }

  lemma {:induction false} FindIsHead(drives: seq<Drive>, name: string)
    ensures var called := FilterSeq(Called(name), drives);
            FindName(drives, name) == if called == [] then None else Some(called[0])
  {
    if drives != [] {
      FindIsHead(drives[1..], name);
    }
  }

  /** Where drives share a name, an override takes the one the BMC listed first. */
  lemma OverrideTakesFirstListed(raw: seq<Drive>, size: int -> string, name: string)
    ensures FindName(Inventory(raw, size), name) == FindName(Labelled(raw, size, |raw|).result, name)
  {
    InventoryIsSortedSurvivors(raw, size);
    FindIsHead(Inventory(raw, size), name);
    FindIsHead(Labelled(raw, size, |raw|).result, name);
  }

  /**
   The frozen resolution is runnable exactly when the host has a right disk, and then it
   is that disk's; the choice is unique, and with distinct names an override names one drive.
   */
  lemma FrozenIsRightDisk(lib: Lib, server: int, drives: seq<Drive>, strategy: string, o: Overrides)
    ensures var f := ResolveFor(lib, server, drives, strategy, o);
            && (Runnable(f.status) <==> exists i :: RightDisk(lib, server, drives, strategy, o, i))
            && (Runnable(f.status) ==> exists i ::
                  RightDisk(lib, server, drives, strategy, o, i) && FrozenAs(f, drives[i]))
            && (Runnable(f.status) ==> (f.status == Override <==> !NothingPicked(o, server)))
            && (forall i, j | RightDisk(lib, server, drives, strategy, o, i)
                              && RightDisk(lib, server, drives, strategy, o, j) :: i == j)
            && (f.status == Override && DistinctNames(drives) ==>
                  forall i, j | 0 <= i < |drives| && 0 <= j < |drives|
                                && drives[i].name == drives[j].name && Picked(o, server, drives[i].name) :: i == j)
  {
    PickedIff(o, server);
    if NothingPicked(o, server) {
      FrozenByStrategy(lib, server, drives, strategy, o);
    } else {
      FrozenByOverride(lib, server, drives, strategy, o);
    }
  }

  lemma FrozenByOverride(lib: Lib, server: int, drives: seq<Drive>, strategy: string, o: Overrides)
    requires OverrideFor(o, server) != ""
    ensures var f := ResolveFor(lib, server, drives, strategy, o);
            && (Runnable(f.status) <==> exists i :: RightDisk(lib, server, drives, strategy, o, i))
            && (Runnable(f.status) ==> f.status == Override && exists i ::
                  RightDisk(lib, server, drives, strategy, o, i) && FrozenAs(f, drives[i]))
  {
    var wanted := OverrideFor(o, server);
    PickedIff(o, server);
    FindNameMeaning(drives, wanted);
    if FindName(drives, wanted).Some? {
      var i :| 0 <= i < |drives| && drives[i] == FindName(drives, wanted).value
               && drives[i].name == wanted && forall j | 0 <= j < i :: drives[j].name != wanted;
      assert RightDisk(lib, server, drives, strategy, o, i);
    } else {
      assert forall i | 0 <= i < |drives| :: drives[i] in drives;
    }
  }

  lemma FrozenByStrategy(lib: Lib, server: int, drives: seq<Drive>, strategy: string, o: Overrides)
    requires OverrideFor(o, server) == ""
    ensures var f := ResolveFor(lib, server, drives, strategy, o);
            && (Runnable(f.status) <==> exists i :: RightDisk(lib, server, drives, strategy, o, i))
            && (Runnable(f.status) ==> f.status != Override && exists i ::
                  RightDisk(lib, server, drives, strategy, o, i) && FrozenAs(f, drives[i]))
  {
    var f := ResolveFor(lib, server, drives, strategy, o);
    PickedIff(o, server);
    ResolveIsChoice(lib, strategy, drives);
    if Runnable(f.status) {
      var i :| Meant(lib, strategy, drives, i) && Resolve(lib, strategy, drives).drive == Some(drives[i]);
      assert RightDisk(lib, server, drives, strategy, o, i);
    } else {
      BlankStrategyFitsNothing(lib, drives);
      forall i
        ensures !RightDisk(lib, server, drives, strategy, o, i)
      {
        assert 0 <= i < |drives| ==> drives[i] in drives;
      }
    }
  }

  lemma BlankStrategyFitsNothing(lib: Lib, drives: seq<Drive>)
    ensures forall d :: !Asks(lib, Lower(Strip("")), drives, d)
  {
    assert Lower(Strip("")) == "";
  }

  // ---- the job as an interleaving transition system ------------------------

  datatype Call = Mount | SetBoot | PowerCycle | Eject

  const PROTOCOL := [Mount, SetBoot, PowerCycle, Eject]

  /** The config handed to the installer of one host. */
  datatype Body = Body(hostname: string, ip: string, snippets: Snippets)

  type Token = int

  /** Where the coroutine of a task stands; from `Mounting` on it holds a token. */
  datatype Pc = Fresh | Parked | Mounting | SettingBoot | PowerCycling
              | Probing | Sleeping | Verifying | Ejecting | Finished

  datatype Row = Queued | Working | Completed | Failed | Cancelled

  /** `calls` are the plugin calls issued, `acks` how many of them came back ok. */
  datatype Proc = Proc(pc: Pc, row: Row, token: Option<Token>, calls: seq<Call>, acks: nat)

  datatype Entry = Entry(body: Body, expires: int)

  /**
   The job's two counters, its stored row, and once `gather` has ended the cancel flag it
   ended with.
   */
  datatype Score = Score(succeeded: nat, failed: nat, row: JobsRepo.JobRow, ended: Option<bool>)

  datatype Sys = Sys(family: string, plans: seq<Plan>, permits: nat, procs: seq<Proc>, cancelled: bool,
                     configs: map<Token, Entry>, used: set<Token>, now: int, score: Score)

  datatype Action =
    | Skip(t: int)
    | Park(t: int)
    | Enter(t: int, token: Token, published: bool)
    | Reply(t: int, ok: bool)      // mount, set-boot or power-cycle returns (or raises)
    | Probed(t: int, up: bool)     // the SSH probe in the waiting loop
    | WakeUp(t: int, late: bool)   // after the sleep: is the deadline past?
    | Verified(t: int, up: bool)
    | Ejected(t: int, raised: bool)
    | Abort(t: int)                // CancelledError at an await
    | Close                        // gather has ended
    | SetCancel
    | Fetch(token: Token)          // autoinstall_provider
    | Tick(seconds: nat)

  const TTL := 1800

  /** `max(1, min(32, concurrency))` */
  function Permits(concurrency: int): nat {
    if concurrency < 1 then 1 else if concurrency > 32 then 32 else concurrency
  }

  function Start(family: string, plans: seq<Plan>, concurrency: int): Sys {
    Sys(family, plans, Permits(concurrency),
        seq(|plans|, _ => Proc(Fresh, Queued, None, [], 0)), false, map[], {}, 0,
        Score(0, 0, JobsRepo.JobRow(JobsRepo.Running, |plans|, 0, 0), None))
  }

  predicate Live(p: Proc) {
    p.pc != Fresh && p.pc != Parked && p.pc != Finished
  }

  function LiveTasks(s: Sys): set<int> {
    set t | 0 <= t < |s.procs| && Live(s.procs[t])
  }

  /** `render_autoinstall` for one task. */
  function Rendered(family: string, p: Plan): Result<Body> {
    var name := if p.frozen.name.Some? then p.frozen.name.value else "";
    var serial := if p.frozen.serial.Some? then p.frozen.serial.value else "";
    match Render(family, name, serial)
    case Err(e) => Err(e)
    case Ok(snippets) =>
      Ok(Body(if p.host.hostname != "" then p.host.hostname else p.host.ip, p.host.ip, snippets))
  }

  /** Everything `_real_task` checks before it stores a config. */
  predicate Admitted(family: string, p: Plan) {
    p.host.ready && Runnable(p.frozen.status) && Rendered(family, p).Ok?
  }

  predicate Stands(s: Sys, t: int, pc: Pc) {
    0 <= t < |s.procs| && s.procs[t].pc == pc
  }

  predicate Enabled(s: Sys, a: Action) {
    && |s.procs| == |s.plans|
    && match a
       case Skip(t) =>
         s.cancelled && (Stands(s, t, Fresh) || (Stands(s, t, Parked) && |LiveTasks(s)| < s.permits))
       case Park(t) => Stands(s, t, Fresh) && !s.cancelled
       case Enter(t, token, _) =>
         && (Stands(s, t, Fresh) || Stands(s, t, Parked))
         && !s.cancelled && |LiveTasks(s)| < s.permits && token !in s.used
       case Reply(t, _) => Stands(s, t, Mounting) || Stands(s, t, SettingBoot) || Stands(s, t, PowerCycling)
       case Probed(t, _) => Stands(s, t, Probing)
       case WakeUp(t, _) => Stands(s, t, Sleeping)
       case Verified(t, _) => Stands(s, t, Verifying)
       case Ejected(t, _) => Stands(s, t, Ejecting)
       case Abort(t) => 0 <= t < |s.procs| && Live(s.procs[t])
       case Close => s.score.ended.None? && forall t | 0 <= t < |s.procs| :: s.procs[t].pc == Finished
       case _ => true
  }

  function End(p: Proc, row: Row): Proc {
    p.(pc := Finished, row := row)
  }

  /** Issue the next plugin call. */
  function Calling(p: Proc, pc: Pc, call: Call): Proc {
    p.(pc := pc, row := Working, calls := p.calls + [call])
  }

  /** The head of the waiting loop: a cancel ends the task, otherwise it probes. */
  function Waiting(p: Proc, cancelled: bool): Proc {
    if cancelled then End(p, Cancelled) else p.(pc := Probing)
  }

  /** A plugin call returned; not ok (or raised) fails the task. */
  function Replied(p: Proc, ok: bool, cancelled: bool): Proc {
    if !ok then End(p, Failed)
    else
      var acked := p.(acks := p.acks + 1);
      if p.pc == Mounting then Calling(acked, SettingBoot, SetBoot)
      else if p.pc == SettingBoot then Calling(acked, PowerCycling, PowerCycle)
      else Waiting(acked, cancelled)
  }

  /** The first segment of `_real_task`: checks, rendering, publishing, the mount call. */
  function Entered(p: Proc, admitted: bool, token: Token, published: bool): Proc {
    if !admitted then End(p, Failed)
    else if published then Calling(p.(token := Some(token)), Mounting, Mount)
    else End(p.(token := Some(token)), Failed)
  }

  predicate OfTask(a: Action) {
    !a.Close? && !a.SetCancel? && !a.Fetch? && !a.Tick?
  }

  /** The coroutine of `a.t` after its segment. */
  function Moved(s: Sys, a: Action): Proc
    requires Enabled(s, a) && OfTask(a)
  {
    var p := s.procs[a.t];
    match a
    case Skip(_) => End(p, Cancelled)
    case Park(_) => p.(pc := Parked)
    case Enter(t, token, published) => Entered(p, Admitted(s.family, s.plans[t]), token, published)
    case Reply(_, ok) => Replied(p, ok, s.cancelled)
    case Probed(_, up) => p.(pc := if up then Verifying else Sleeping)
    case WakeUp(_, late) => if late then End(p, Failed) else Waiting(p, s.cancelled)
    case Verified(_, up) => if up then Calling(p, Ejecting, Eject) else End(p, Failed)
    case Ejected(_, raised) => End(p, if raised then Failed else Completed)
    case Abort(_) => End(p, Cancelled)
  }

  /** The configs after that segment: stored on entry, removed by the `finally` at the end. */
  function ConfigsAfter(s: Sys, a: Action): map<Token, Entry>
    requires Enabled(s, a) && OfTask(a)
  {
    var p := Moved(s, a);
    if p.pc == Finished then (if p.token.Some? then s.configs - {p.token.value} else s.configs)
    else if a.Enter? && Admitted(s.family, s.plans[a.t])
    then s.configs[a.token := Entry(Rendered(s.family, s.plans[a.t]).value, s.now + TTL)]
    else s.configs
  }

  /** `run_one` counts a task in the segment that ends it. */
  function Counted(score: Score, p: Proc): Score {
    if p.pc != Finished then score
    else if p.row == Completed then score.(succeeded := score.succeeded + 1)
    else score.(failed := score.failed + 1)
  }

  /** The job's final state and counters, written when `gather` has ended. */
  function Closed(score: Score, cancelled: bool): Score {
    var state := JobsRepo.ComputeFinalState(cancelled, score.succeeded, score.failed);
    score.(row := JobsRepo.JobRow(state, score.row.total, score.succeeded, score.failed), ended := Some(cancelled))
  }

  function Purged(configs: map<Token, Entry>, now: int): map<Token, Entry> {
    map k | k in configs && configs[k].expires > now :: configs[k]
  }

  function Next(s: Sys, a: Action): Sys
    requires Enabled(s, a)
  {
    if OfTask(a) then
      s.(procs := s.procs[a.t := Moved(s, a)], configs := ConfigsAfter(s, a),
         used := if a.Enter? then s.used + {a.token} else s.used,
         score := Counted(s.score, Moved(s, a)))
    else if a.Close? then
      s.(score := Closed(s.score, s.cancelled))
    else if a.SetCancel? then s.(cancelled := true)
    else if a.Fetch? then s.(configs := Purged(s.configs, s.now))
    else s.(now := s.now + a.seconds)
  }

  /** What `autoinstall_provider` answers: after the purge, the body under the token. */
  function Served(s: Sys, token: Token): Option<Body> {
    var purged := Purged(s.configs, s.now);
    if token in purged then Some(purged[token].body) else None
  }

  predicate Valid(s: Sys, actions: seq<Action>)
    decreases actions
  {
    actions == [] || (Enabled(s, actions[0]) && Valid(Next(s, actions[0]), actions[1..]))
  }

  function After(s: Sys, actions: seq<Action>): Sys
    requires Valid(s, actions)
    decreases actions
  {
    if actions == [] then s else After(Next(s, actions[0]), actions[1..])
  }

  // ---- the invariant ------------------------------------------------------

  /** How many calls have gone out and come back ok when the coroutine stands at `pc`. */
  predicate CallsFit(p: Proc) {
    && p.calls <= PROTOCOL
    && p.acks <= |p.calls| <= p.acks + 1
    && match p.pc
       case Fresh => p.calls == [] && p.token.None? && p.row == Queued
       case Parked => p.calls == [] && p.token.None? && p.row == Queued
       case Mounting => |p.calls| == 1 && p.acks == 0
       case SettingBoot => |p.calls| == 2 && p.acks == 1
       case PowerCycling => |p.calls| == 3 && p.acks == 2
       case Ejecting => |p.calls| == 4 && p.acks == 3
       case Finished => p.row == Completed ==> |p.calls| == 4 && p.acks == 3
       case _ => |p.calls| == 3 && p.acks == 3
  }

  ghost predicate ProcOk(s: Sys, t: int)
    requires 0 <= t < |s.procs| == |s.plans|
  {
    var p := s.procs[t];
    && CallsFit(p)
    && (Live(p) ==> p.token.Some? && p.row == Working)
    && (p.token.Some? ==> p.token.value in s.used)
    && (p.calls != [] ==> Admitted(s.family, s.plans[t]))
    && (p.pc == Finished ==> p.row in {Completed, Failed, Cancelled})
  }

  /** The config under `k` is the own body of a live task that holds `k`. */
  ghost predicate HeldBy(s: Sys, k: Token, t: int) {
    && 0 <= t < |s.procs| == |s.plans| && k in s.configs
    && Live(s.procs[t]) && s.procs[t].token == Some(k)
    && Rendered(s.family, s.plans[t]) == Ok(s.configs[k].body)
    && s.configs[k].expires <= s.now + TTL
  }

  ghost predicate DistinctTokens(s: Sys) {
    forall t, u | 0 <= t < u < |s.procs| && s.procs[t].token.Some? ::
      s.procs[t].token != s.procs[u].token
  }

  ghost predicate AllHeld(s: Sys) {
    forall k | k in s.configs :: exists t :: HeldBy(s, k, t)
  }

  ghost predicate Inv(s: Sys) {
    && |s.procs| == |s.plans|
    && (forall t | 0 <= t < |s.procs| :: ProcOk(s, t))
    && DistinctTokens(s) && AllHeld(s)
    && |LiveTasks(s)| <= s.permits
  }

  lemma StartOk(family: string, plans: seq<Plan>, concurrency: int)
    ensures Inv(Start(family, plans, concurrency))
  {
    var s := Start(family, plans, concurrency);
    assert forall t :: t !in LiveTasks(s);
    SubsetSize(LiveTasks(s), {});
  }

  /** The calls grow by the next one of the protocol, and only after an ok. */
  lemma MovedCalls(s: Sys, a: Action)
    requires Inv(s) && Enabled(s, a) && OfTask(a)
    ensures CallsFit(Moved(s, a))
    ensures Moved(s, a).calls != [] ==> Admitted(s.family, s.plans[a.t])
  {
    var p, p' := s.procs[a.t], Moved(s, a);
    assert ProcOk(s, a.t);
    if p'.calls != p.calls {
      NextCall(p.calls, p'.calls[|p.calls|]);
    }
  }

  lemma NextCall(calls: seq<Call>, call: Call)
    requires calls <= PROTOCOL && |calls| < |PROTOCOL| && call == PROTOCOL[|calls|]
    ensures calls + [call] <= PROTOCOL
  {
    assert calls + [call] == PROTOCOL[..|calls| + 1];
  }

  lemma MovedOk(s: Sys, a: Action)
    requires Inv(s) && Enabled(s, a) && OfTask(a)
    ensures Live(Moved(s, a)) ==> Moved(s, a).token.Some? && Moved(s, a).row == Working
    ensures Moved(s, a).token.Some? ==>
              Moved(s, a).token == s.procs[a.t].token || (a.Enter? && Moved(s, a).token == Some(a.token))
    ensures Moved(s, a).pc == Finished ==> Moved(s, a).row in {Completed, Failed, Cancelled}
  {
    assert ProcOk(s, a.t);
  }

  /** The coroutine of the action itself. */
  lemma MovedProcOk(s: Sys, a: Action)
    requires Inv(s) && Enabled(s, a) && OfTask(a)
    ensures ProcOk(Next(s, a), a.t)
  {
    assert ProcOk(s, a.t);
    MovedOk(s, a);
    MovedCalls(s, a);
  }

  lemma OtherProcOk(s: Sys, a: Action, t: int)
    requires Inv(s) && Enabled(s, a) && 0 <= t < |s.procs| && (OfTask(a) ==> t != a.t)
    ensures ProcOk(Next(s, a), t)
  {
    assert ProcOk(s, t);
  }

  lemma ProcsStep(s: Sys, a: Action)
    requires Inv(s) && Enabled(s, a)
    ensures forall t | 0 <= t < |Next(s, a).procs| :: ProcOk(Next(s, a), t)
  {
    forall t | 0 <= t < |Next(s, a).procs|
      ensures ProcOk(Next(s, a), t)
    {
      if OfTask(a) && t == a.t {
        MovedProcOk(s, a);
      } else {
        OtherProcOk(s, a, t);
      }
    }
  }

  /** The token a coroutine holds after its segment is nobody else's. */
  lemma MovedTokenIsOwn(s: Sys, a: Action, u: int)
    requires Inv(s) && Enabled(s, a) && OfTask(a) && 0 <= u < |s.procs| && u != a.t
    ensures Moved(s, a).token.Some? ==> Moved(s, a).token != s.procs[u].token
  {
    MovedOk(s, a);
    assert ProcOk(s, u);
  }

  lemma DistinctStep(s: Sys, a: Action)
    requires Inv(s) && Enabled(s, a)
    ensures DistinctTokens(Next(s, a))
  {
    if OfTask(a) {
      var procs := s.procs[a.t := Moved(s, a)];
      assert Next(s, a).procs == procs;
      forall t, u | 0 <= t < u < |procs| && procs[t].token.Some?
        ensures procs[t].token != procs[u].token
      {
        if t == a.t {
          MovedTokenIsOwn(s, a, u);
        } else if u == a.t {
          MovedTokenIsOwn(s, a, t);
        }
      }
    }
  }

  lemma HeldStep(s: Sys, a: Action)
    requires Inv(s) && Enabled(s, a)
    ensures AllHeld(Next(s, a))
  {
    var s' := Next(s, a);
    forall k | k in s'.configs
      ensures exists t :: HeldBy(s', k, t)
    {
      if k in s.configs {
        var t :| HeldBy(s, k, t);
        StillHeld(s, a, k, t);
      } else {
        MovedOk(s, a);
        assert HeldBy(s', k, a.t);
      }
    }
  }

  /** A config that survives a step is still held by the same task. */
  lemma StillHeld(s: Sys, a: Action, k: Token, t: int)
    requires Inv(s) && Enabled(s, a) && HeldBy(s, k, t) && k in Next(s, a).configs
    ensures HeldBy(Next(s, a), k, t)
  {
    assert ProcOk(s, t) && k in s.used;
    if OfTask(a) {
      assert a.Enter? ==> a.token != k;
      assert Next(s, a).configs[k] == s.configs[k];
      if a.t == t {
        assert Moved(s, a).token == Some(k);
        assert Live(Moved(s, a));
      }
    }
  }

  lemma PermitsStep(s: Sys, a: Action)
    requires Inv(s) && Enabled(s, a)
    ensures |LiveTasks(Next(s, a))| <= s.permits
  {
    var s' := Next(s, a);
    if OfTask(a) {
      assert ProcOk(s, a.t);
      if a.Enter? {
        SubsetSize(LiveTasks(s'), LiveTasks(s) + {a.t});
      } else {
        assert Live(Moved(s, a)) ==> Live(s.procs[a.t]);
        SubsetSize(LiveTasks(s'), LiveTasks(s));
      }
    } else {
      SubsetSize(LiveTasks(s'), LiveTasks(s));
    }
  }

  lemma InvStep(s: Sys, a: Action)
    requires Inv(s) && Enabled(s, a)
    ensures Inv(Next(s, a))
  {
    ProcsStep(s, a);
    DistinctStep(s, a);
    HeldStep(s, a);
    PermitsStep(s, a);
  }

  lemma {:induction false} InvRun(s: Sys, actions: seq<Action>)
    requires Inv(s) && Valid(s, actions)
    ensures Inv(After(s, actions))
    ensures After(s, actions).plans == s.plans && After(s, actions).family == s.family
    ensures After(s, actions).permits == s.permits
    decreases actions
  {
    if actions != [] {
      InvStep(s, actions[0]);
      InvRun(Next(s, actions[0]), actions[1..]);
    }
  }

  lemma ConfigsOfState(s: Sys)
    requires Inv(s)
    ensures forall t | 0 <= t < |s.procs| && s.procs[t].pc == Finished && s.procs[t].token.Some? ::
              s.procs[t].token.value !in s.configs
    ensures (forall t | 0 <= t < |s.procs| :: s.procs[t].pc == Finished) ==> s.configs == map[]
  {
    assert forall k | k in s.configs :: exists u :: HeldBy(s, k, u);
  }

  // ---- the counters -------------------------------------------------------

  function Ended(procs: seq<Proc>, good: bool): set<int> {
    set t | 0 <= t < |procs| && procs[t].pc == Finished && (procs[t].row == Completed) == good
  }

  /** The tasks whose row is one of these. */
  function WithRow(procs: seq<Proc>, rows: set<Row>): set<int> {
    set t | 0 <= t < |procs| && procs[t].row in rows
  }

  ghost predicate ScoreOk(s: Sys) {
    && s.score.succeeded == |Ended(s.procs, true)|
    && s.score.failed == |Ended(s.procs, false)|
    && (if s.score.ended.None? then s.score.row == JobsRepo.JobRow(JobsRepo.Running, |s.procs|, 0, 0)
        else
          && (forall t | 0 <= t < |s.procs| :: s.procs[t].pc == Finished)
          && (s.score.ended.value ==> s.cancelled)
          && s.score.row == Closed(s.score, s.score.ended.value).row && s.score.row.total == |s.procs|)
  }

  lemma EndedGrows(procs: seq<Proc>, t: int, p: Proc, good: bool)
    requires 0 <= t < |procs| && procs[t].pc != Finished
    ensures |Ended(procs[t := p], good)| ==
            |Ended(procs, good)| + (if p.pc == Finished && (p.row == Completed) == good then 1 else 0)
  {
    var before, after := Ended(procs, good), Ended(procs[t := p], good);
    if p.pc == Finished && (p.row == Completed) == good {
      assert after == before + {t};
    } else {
      assert forall u :: u in after <==> u in before;
      assert after == before;
    }
  }

  lemma ScoreStep(s: Sys, a: Action)
    requires ScoreOk(s) && Enabled(s, a)
    ensures ScoreOk(Next(s, a))
  {
    if OfTask(a) {
      EndedGrows(s.procs, a.t, Moved(s, a), true);
      EndedGrows(s.procs, a.t, Moved(s, a), false);
    }
  }

  lemma {:induction false} ScoreRun(s: Sys, actions: seq<Action>)
    requires ScoreOk(s) && Valid(s, actions)
    ensures ScoreOk(After(s, actions))
    decreases actions
  {
    if actions != [] {
      ScoreStep(s, actions[0]);
      ScoreRun(Next(s, actions[0]), actions[1..]);
    }
  }

  // ---- main results -------------------------------------------------------

  /**
   In every interleaving the config store holds only tokens of tasks between rendering and
   the end of their flow, each with that task's own body; a finished task's token is gone,
   and when all tasks are finished the store is empty.
   */
  lemma ConfigsAreHeld(family: string, plans: seq<Plan>, concurrency: int, actions: seq<Action>)
    requires Valid(Start(family, plans, concurrency), actions)
    ensures var s := After(Start(family, plans, concurrency), actions);
            && (forall k | k in s.configs :: exists t :: HeldBy(s, k, t))
            && (forall t | 0 <= t < |s.procs| && s.procs[t].pc == Finished && s.procs[t].token.Some? ::
                  s.procs[t].token.value !in s.configs)
            && ((forall t | 0 <= t < |s.procs| :: s.procs[t].pc == Finished) ==> s.configs == map[])
            && |LiveTasks(s)| <= s.permits
  {
    StartOk(family, plans, concurrency);
    InvRun(Start(family, plans, concurrency), actions);
    var s := After(Start(family, plans, concurrency), actions);
    ConfigsOfState(s);
  }

  /**
   When `gather` has ended, every row is terminal, the counters are the numbers of completed
   rows and of failed or cancelled ones, they add up to the task count, and the job's stored
   row carries them with the state they call for; it says cancelled exactly when the job was
   cancelled by then.
   */
  lemma CountersAgreeWithRows(family: string, plans: seq<Plan>, concurrency: int, actions: seq<Action>)
    requires Valid(Start(family, plans, concurrency), actions)
    requires After(Start(family, plans, concurrency), actions).score.ended.Some?
    ensures var s := After(Start(family, plans, concurrency), actions);
            && |s.procs| == |plans|
            && (forall t | 0 <= t < |s.procs| :: s.procs[t].row in {Completed, Failed, Cancelled})
            && s.score.succeeded == |WithRow(s.procs, {Completed})|
            && s.score.failed == |WithRow(s.procs, {Failed, Cancelled})|
            && s.score.succeeded + s.score.failed == |plans|
            && s.score.row.total == |plans|
            && s.score.row.succeeded == s.score.succeeded && s.score.row.failed == s.score.failed
            && (s.score.row.state == JobsRepo.JobState.Cancelled <==> s.score.ended == Some(true))
            && (s.score.ended == Some(false) ==>
                  s.score.row.state == JobsRepo.Settled(s.score.succeeded, s.score.failed))
  {
    StartOk(family, plans, concurrency);
    var s0 := Start(family, plans, concurrency);
    assert Ended(s0.procs, true) == {} && Ended(s0.procs, false) == {};
    ScoreRun(s0, actions);
    InvRun(s0, actions);
    RowsOfClosed(After(s0, actions));
  }

  /** A job cancelled before `gather` ended can only end cancelled, and one not cancelled by then never does. */
  lemma {:induction false} CancelDecidesEnd(s: Sys, actions: seq<Action>)
    requires Valid(s, actions) && s.score.ended.None?
    ensures s.cancelled ==> After(s, actions).score.ended != Some(false)
    ensures !After(s, actions).cancelled ==> After(s, actions).score.ended != Some(true)
    decreases actions
  {
    if actions != [] {
      var s' := Next(s, actions[0]);
      if s'.score.ended.None? {
        CancelDecidesEnd(s', actions[1..]);
      } else {
        EndStays(s', actions[1..]);
      }
    }
  }

  lemma {:induction false} EndStays(s: Sys, actions: seq<Action>)
    requires Valid(s, actions) && s.score.ended.Some? && (s.score.ended.value ==> s.cancelled)
    requires forall t | 0 <= t < |s.procs| :: s.procs[t].pc == Finished
    ensures After(s, actions).score.ended == s.score.ended
    ensures After(s, actions).score.ended.value ==> After(s, actions).cancelled
    decreases actions
  {
    if actions != [] {
      EndStays(Next(s, actions[0]), actions[1..]);
    }
  }

  lemma RowsOfClosed(s: Sys)
    requires Inv(s) && ScoreOk(s) && s.score.ended.Some?
    ensures forall t | 0 <= t < |s.procs| :: s.procs[t].row in {Completed, Failed, Cancelled}
    ensures Ended(s.procs, true) == WithRow(s.procs, {Completed})
    ensures Ended(s.procs, false) == WithRow(s.procs, {Failed, Cancelled})
    ensures |Ended(s.procs, true)| + |Ended(s.procs, false)| == |s.procs|
  {
    forall t | 0 <= t < |s.procs|
      ensures s.procs[t].row in {Completed, Failed, Cancelled}
    {
      assert ProcOk(s, t);
    }
    var good, bad := Ended(s.procs, true), Ended(s.procs, false);
    assert forall t :: t in good + bad <==> 0 <= t < |s.procs|;
    assert good !! bad;
    UpTo(|s.procs|, good + bad);
  }

  lemma {:induction false} UpTo(n: nat, ts: set<int>)
    requires forall t :: t in ts <==> 0 <= t < n
    ensures |ts| == n
  {
    if n > 0 {
      UpTo(n - 1, ts - {n - 1});
    } else {
      assert forall t: int :: t !in ts;
      SubsetSize(ts, {});
    }
  }

  /** A used token is never stored again, so what is under it later is what was there before. */
  lemma {:induction false} EntryPersists(s: Sys, actions: seq<Action>, k: Token)
    requires Inv(s) && Valid(s, actions) && k in s.used && k in After(s, actions).configs
    ensures k in s.configs && After(s, actions).configs[k] == s.configs[k]
    decreases actions
  {
    if actions != [] {
      InvStep(s, actions[0]);
      UsedNotStoredAgain(s, actions[0], k);
      EntryPersists(Next(s, actions[0]), actions[1..], k);
    }
  }

  lemma UsedNotStoredAgain(s: Sys, a: Action, k: Token)
    requires Enabled(s, a) && k in s.used
    ensures k in Next(s, a).used
    ensures k in Next(s, a).configs ==> k in s.configs && Next(s, a).configs[k] == s.configs[k]
  {
  }

  /**
   The provider serves a token only while its task is live, with that task's own body, and
   never 1800 seconds after a state in which the token was already stored.
   */
  lemma ServedWhileLive(family: string, plans: seq<Plan>, concurrency: int,
                        before: seq<Action>, after: seq<Action>, k: Token)
    requires Valid(Start(family, plans, concurrency), before)
    requires Valid(After(Start(family, plans, concurrency), before), after)
    ensures var s := After(Start(family, plans, concurrency), before);
            var s' := After(s, after);
            && (Served(s, k).Some? ==>
                  exists t :: HeldBy(s, k, t) && Rendered(s.family, s.plans[t]) == Ok(Served(s, k).value))
            && s.plans == plans && s.family == family
            && (k in s.configs && s'.now >= s.now + 1800 ==> Served(s', k) == None)
  {
    StartOk(family, plans, concurrency);
    InvRun(Start(family, plans, concurrency), before);
    var s := After(Start(family, plans, concurrency), before);
    if k in s.configs {
      var t :| HeldBy(s, k, t);
      assert ProcOk(s, t);
      if k in After(s, after).configs {
        EntryPersists(s, after, k);
      }
    }
  }

  /**
   Each task's plugin calls are a prefix of mount, set-boot, power-cycle, eject, each after
   an ok from the one before; a completed task made them all.
   */
  lemma CallsFollowProtocol(family: string, plans: seq<Plan>, concurrency: int, actions: seq<Action>, t: int)
    requires Valid(Start(family, plans, concurrency), actions) && 0 <= t < |plans|
    ensures var s := After(Start(family, plans, concurrency), actions);
            && t < |s.procs|
            && s.procs[t].calls <= PROTOCOL
            && s.procs[t].acks <= |s.procs[t].calls| <= s.procs[t].acks + 1
            && (s.procs[t].row == Completed ==> s.procs[t].calls == PROTOCOL && s.procs[t].acks == 3)
  {
    StartOk(family, plans, concurrency);
    InvRun(Start(family, plans, concurrency), actions);
    assert ProcOk(After(Start(family, plans, concurrency), actions), t);
  }

  /** The config for drive `d` aims at its serial, or at its name when that names a device. */
  predicate AimsAtDrive(family: string, body: Body, d: Drive) {
    && Aims(family, body.snippets, TargetOf(d.name, d.serial))
    && (Strip(d.serial) != "" || IsDeviceName(Strip(d.name)) || StartsWith(Strip(d.name), "/dev/"))
  }

  /**
   The right disk, end to end: for every fleet, strategy, profile and overrides, if a task of the job
   ever power-cycles its host, the disk frozen at kickoff is a drive of that host's
   inventory, the one the override names or the strategy's choice, and the config the
   installer can fetch for this task aims at exactly that drive.
   */
  lemma OnlyTheRightDisk(lib: Lib, fleet: Fleet, servers: seq<int>, explicit: string, profile: Option<string>,
                         o: Overrides, family: string, concurrency: int, actions: seq<Action>, t: int)
    requires var plans := Plans(lib, fleet, servers, EffectiveStrategy(explicit, profile), o);
             Valid(Start(family, plans, concurrency), actions) && 0 <= t < |plans|
    ensures var strategy := if explicit != "" then explicit else if profile.Some? then profile.value else "";
            var plans := Plans(lib, fleet, servers, strategy, o);
            var s := After(Start(family, plans, concurrency), actions);
            && t < |s.procs|
            && (PowerCycle in s.procs[t].calls ==>
                  && plans[t].server in fleet.inventories
                  && Rendered(family, plans[t]).Ok?
                  && exists i ::
                       var drives := fleet.inventories[plans[t].server];
                       && RightDisk(lib, plans[t].server, drives, strategy, o, i)
                       && FrozenAs(plans[t].frozen, drives[i])
                       && AimsAtDrive(family, Rendered(family, plans[t]).value, drives[i])
                       && (forall k | k in s.configs && s.procs[t].token == Some(k) ::
                             AimsAtDrive(family, s.configs[k].body, drives[i])))
  {
    var strategy := EffectiveStrategy(explicit, profile);
    var plans := Plans(lib, fleet, servers, strategy, o);
    StartOk(family, plans, concurrency);
    InvRun(Start(family, plans, concurrency), actions);
    var s := After(Start(family, plans, concurrency), actions);
    assert ProcOk(s, t);
    if PowerCycle in s.procs[t].calls {
      var p := plans[t];
      assert p in plans;
      var drives := fleet.inventories[p.server];
      FrozenIsRightDisk(lib, p.server, drives, strategy, o);
      var i :| RightDisk(lib, p.server, drives, strategy, o, i) && FrozenAs(p.frozen, drives[i]);
      RenderAimsOrRefuses(family, drives[i].name, drives[i].serial);
      assert AimsAtDrive(family, Rendered(family, p).value, drives[i]);
      forall k | k in s.configs && s.procs[t].token == Some(k)
        ensures AimsAtDrive(family, s.configs[k].body, drives[i])
      {
        var u :| HeldBy(s, k, u);
        assert u == t;
      }
    }
  }

  /** Exactly one drive of the list has the name, and it is drive `i`. */
  predicate OnlyNamed(drives: seq<Drive>, name: string, i: int) {
    && 0 <= i < |drives| && drives[i].name == name
    && forall j | 0 <= j < |drives| && drives[j].name == name :: j == i
  }

  /**
   From the raw listing to the wiped disk: when no raw name holds a parenthesis, a pick that
   names a drive of the labelled inventory names exactly one, and if its task ever
   power-cycles the host, that one is frozen and the config aims at it.
   */
  lemma OverrideWipesTheNamedDrive(lib: Lib, fleet: Fleet, servers: seq<int>, explicit: string, profile: Option<string>,
                                   o: Overrides, family: string, concurrency: int, actions: seq<Action>, t: int,
                                   raw: seq<Drive>, size: int -> string, name: string)
    requires var plans := Plans(lib, fleet, servers, EffectiveStrategy(explicit, profile), o);
             && Valid(Start(family, plans, concurrency), actions) && 0 <= t < |plans|
             && fleet.inventories[plans[t].server] == Inventory(raw, size)
             && Picked(o, plans[t].server, name)
    requires forall i | 0 <= i < |raw| :: '(' !in raw[i].name
    ensures var plans := Plans(lib, fleet, servers, EffectiveStrategy(explicit, profile), o);
            var s, p, drives := After(Start(family, plans, concurrency), actions), plans[t], Inventory(raw, size);
            && (p.frozen.status == Override <==> exists i :: OnlyNamed(drives, name, i))
            && t < |s.procs|
            && (PowerCycle in s.procs[t].calls ==>
                  && Rendered(family, p).Ok?
                  && exists i ::
                       && OnlyNamed(drives, name, i)
                       && FrozenAs(p.frozen, drives[i]) && p.frozen.status == Override
                       && AimsAtDrive(family, Rendered(family, p).value, drives[i]))
  {
    var strategy := EffectiveStrategy(explicit, profile);
    var plans := Plans(lib, fleet, servers, strategy, o);
    var s, p, drives := After(Start(family, plans, concurrency), actions), plans[t], Inventory(raw, size);
    NoParenthesisIsPlain(raw, size);
    assert p in plans;
    PickIsOnlyNamed(lib, p.server, drives, strategy, o, name);
    OnlyTheRightDisk(lib, fleet, servers, explicit, profile, o, family, concurrency, actions, t);
    if PowerCycle in s.procs[t].calls {
      var i :| RightDisk(lib, p.server, drives, strategy, o, i) && FrozenAs(p.frozen, drives[i])
               && AimsAtDrive(family, Rendered(family, p).value, drives[i]);
      assert OnlyNamed(drives, name, i);
    }
  }

  lemma PickIsOnlyNamed(lib: Lib, server: int, drives: seq<Drive>, strategy: string, o: Overrides, name: string)
    requires DistinctNames(drives) && Picked(o, server, name)
    ensures var f := ResolveFor(lib, server, drives, strategy, o);
            && (f.status == Override <==> exists i :: OnlyNamed(drives, name, i))
            && (forall i | RightDisk(lib, server, drives, strategy, o, i) ::
                  OnlyNamed(drives, name, i) && f.status == Override)
  {
    PickedIff(o, server);
    FindNameMeaning(drives, name);
    if FindName(drives, name).Some? {
      var i :| 0 <= i < |drives| && drives[i] == FindName(drives, name).value
               && drives[i].name == name && forall j | 0 <= j < i :: drives[j].name != name;
      assert OnlyNamed(drives, name, i);
    }
    forall i | 0 <= i < |drives| && drives[i].name == name
      ensures OnlyNamed(drives, name, i) && FindName(drives, name).Some?
    {
      assert drives[i] in drives;
    }
  }
}
