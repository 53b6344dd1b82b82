/**
 The session protocol of core/plugins_api/redfish_client.py: lazy login, the login
 lock, the "no SessionService" latch and the single retry on 401, shared by any number
 of concurrent requests on one client.

 Each action is the code between two `await`s. BMC replies, their order, and calls to
 `logout` are free. `asyncio.Lock` is first-come-first-served: a coroutine may be made
 to queue only while the lock is held or somebody is already queued.
 */
module RedfishSession {
  import opened Prelude

  /** Why `login()` was called: before a request, after its 401, or by the caller. */
  datatype Phase = Lazy | Retry | Direct

  datatype Pc = LoginWait(phase: Phase) | Posting(phase: Phase)
              | Sent1 | ReloginWait | Sent2 | Closed

  /** One coroutine, with the number of times it sent its body and POSTed for a session. */
  datatype Proc = Proc(pc: Pc, sends: nat, posts: nat)

  datatype SessionReply = NotFound | NoToken | Minted(location: bool) | Refused | Broken

  /** The fields of the client. */
  datatype Client = Client(hasUser: bool, token: bool, uri: bool, latch: bool, lock: Option<int>)

  /**
   What has happened so far: sessions minted, tokens dropped by a forced re-login and by a
   logout, logout calls, 401 replies, 401 replies that led to a retry, forced re-logins,
   and session POSTs.
   */
  datatype Counts = Counts(minted: nat, forcedDrops: nat, logoutDrops: nat, logouts: nat,
                           unauthorized: nat, rejected: nat, relogins: nat, posts: nat)

  datatype Sys = Sys(client: Client, counts: Counts, procs: map<int, Proc>)

  datatype Action =
    | Arrive(p: int, direct: bool, queued: bool)
    | Wake(p: int)                                     // a queued login() gets the lock
    | Answer(p: int, reply: SessionReply)              // the session POST returns
    | Reply(p: int, isUnauthorized: bool, queued: bool)  // the request returns
    | WakeRelogin(p: int, queued: bool)                // a queued _force_relogin gets the lock
    | Logout

  function Start(hasUser: bool): Sys {
    Sys(Client(hasUser, false, false, false, None), Counts(0, 0, 0, 0, 0, 0, 0, 0), map[])
  }

  predicate Waits(s: Sys, p: int) {
    p in s.procs && (s.procs[p].pc.LoginWait? || s.procs[p].pc == ReloginWait)
  }

  /** Somebody other than `p` holds the lock or waits for it. */
  predicate Contended(s: Sys, p: int) {
    s.client.lock.Some? || exists q | q in s.procs :: q != p && Waits(s, q)
  }

  predicate MayTake(s: Sys, p: int, queued: bool) {
    if queued then Contended(s, p) else s.client.lock.None?
  }

  /** `_can_retry_after_relogin`. */
  predicate CanRetry(c: Client) {
    c.hasUser && !(c.latch && !c.token)
  }

  predicate Enabled(s: Sys, a: Action) {
    match a
    case Arrive(p, _, queued) => p !in s.procs && MayTake(s, p, queued)
    case Wake(p) => p in s.procs && s.procs[p].pc.LoginWait? && s.client.lock.None?
    case Answer(p, _) => p in s.procs && s.procs[p].pc.Posting?
    case Reply(p, _, queued) =>
      p in s.procs && (s.procs[p].pc == Sent1 || s.procs[p].pc == Sent2) && MayTake(s, p, queued)
    case WakeRelogin(p, queued) =>
      && p in s.procs && s.procs[p].pc == ReloginWait && s.client.lock.None?
      && (queued ==> Contended(s, p))
    case Logout => true
  }

  /** One segment's effect on the client, the counts and the coroutine that ran it. */
  datatype Moved = Moved(client: Client, counts: Counts, proc: Proc)

  /** What follows `login()`: the request goes out, or a direct caller is done. */
  function AfterLogin(m: Moved, phase: Phase): Moved {
    match phase
    case Lazy => m.(proc := Proc(Sent1, m.proc.sends + 1, m.proc.posts))
    case Retry => m.(proc := Proc(Sent2, m.proc.sends + 1, m.proc.posts))
    case Direct => m.(proc := m.proc.(pc := Closed))
  }

  /** The body of `login()` under the lock, up to its POST. */
  function UnderLock(m: Moved, p: int, phase: Phase): Moved {
    if m.client.token || m.client.latch || !m.client.hasUser then AfterLogin(m, phase)
    else Moved(m.client.(lock := Some(p)), m.counts.(posts := m.counts.posts + 1),
               Proc(Posting(phase), m.proc.sends, m.proc.posts + 1))
  }

  /** `login()` from its entry: the lock-free check, then the lock. */
  function Login(m: Moved, p: int, phase: Phase, queued: bool): Moved {
    if m.client.token then AfterLogin(m, phase)
    else if queued then m.(proc := m.proc.(pc := LoginWait(phase)))
    else UnderLock(m, p, phase)
  }

  /** `_force_relogin` once it holds the lock: drop everything, then log in again. */
  function Relogin(m: Moved, p: int, queued: bool): Moved {
    var dropped := if m.client.token then 1 else 0;
    Login(m.(client := m.client.(token := false, uri := false, latch := false),
             counts := m.counts.(relogins := m.counts.relogins + 1,
                                 forcedDrops := m.counts.forcedDrops + dropped)),
          p, Retry, queued)
  }

  function OnArrive(m: Moved, p: int, direct: bool, queued: bool): Moved {
    if direct then Login(m, p, Direct, queued)
    else if m.client.token || m.client.latch || !m.client.hasUser then AfterLogin(m, Lazy)
    else Login(m, p, Lazy, queued)
  }

  /** The session POST returns and the lock is released. */
  function OnAnswer(m: Moved, phase: Phase, reply: SessionReply): Moved {
    var c := m.client.(lock := None);
    match reply
    case NotFound => AfterLogin(m.(client := c.(latch := true)), phase)
    case NoToken => AfterLogin(m.(client := c.(latch := true)), phase)
    case Minted(location) =>
      AfterLogin(m.(client := c.(token := true, uri := location),
                    counts := m.counts.(minted := m.counts.minted + 1)), phase)
    case Refused => AfterLogin(m.(client := c), phase)
    case Broken => m.(client := c, proc := m.proc.(pc := Closed))
  }

  /** The request itself returns: a 401 on the first try may lead to one retry. */
  function OnReply(m: Moved, p: int, isUnauthorized: bool, queued: bool): Moved {
    var m1 := m.(counts := m.counts.(
                   unauthorized := m.counts.unauthorized + (if isUnauthorized then 1 else 0)));
    if isUnauthorized && m.proc.pc == Sent1 && CanRetry(m.client) then
      var m2 := m1.(counts := m1.counts.(rejected := m1.counts.rejected + 1));
      if queued then m2.(proc := m2.proc.(pc := ReloginWait)) else Relogin(m2, p, false)
    else m1.(proc := m1.proc.(pc := Closed))
  }

  function Move(s: Sys, a: Action): Moved
    requires Enabled(s, a) && !a.Logout?
  {
    var proc := if a.p in s.procs then s.procs[a.p] else Proc(Closed, 0, 0);
    var m := Moved(s.client, s.counts, proc);
    match a
    case Arrive(p, direct, queued) => OnArrive(m, p, direct, queued)
    case Wake(p) => UnderLock(m, p, proc.pc.phase)
    case Answer(p, reply) => OnAnswer(m, proc.pc.phase, reply)
    case Reply(p, isUnauthorized, queued) => OnReply(m, p, isUnauthorized, queued)
    case WakeRelogin(p, queued) => Relogin(m, p, queued)
  }

  function Next(s: Sys, a: Action): Sys
    requires Enabled(s, a)
  {
    if a.Logout? then
      s.(client := s.client.(token := false, uri := false),
         counts := s.counts.(logouts := s.counts.logouts + 1,
                             logoutDrops := s.counts.logoutDrops + (if s.client.token then 1 else 0)))
    else
      var m := Move(s, a);
      Sys(m.client, m.counts, s.procs[a.p := m.proc])
  }

  predicate Valid(s: Sys, actions: seq<Action>)
    decreases actions
  {
    actions == [] || (Enabled(s, actions[0]) && Valid(Next(s, actions[0]), actions[1..]))
  }

  function After(s: Sys, actions: seq<Action>): Sys
    requires Valid(s, actions)
    decreases actions
  {
    if actions == [] then s else After(Next(s, actions[0]), actions[1..])
  }

  // ---- the invariant ------------------------------------------------------

  function Relogging(procs: map<int, Proc>): set<int> {
    set p | p in procs && procs[p].pc == ReloginWait
  }

  /** What a coroutine can have sent by the time it stands at `pc`. */
  predicate Within(proc: Proc) {
    var pc := proc.pc;
    if pc == Closed then proc.sends <= 2 && proc.posts <= 2
    else if pc == Sent2 then proc.sends == 2 && proc.posts <= 2
    else if pc == Sent1 || pc == ReloginWait then proc.sends == 1 && proc.posts <= 1
    else if pc.phase == Retry then proc.sends == 1 && proc.posts <= (if pc.Posting? then 2 else 1)
    else proc.sends == 0 && proc.posts == (if pc.Posting? then 1 else 0)
  }

  ghost predicate AllWithin(s: Sys) {
    forall p | p in s.procs :: Within(s.procs[p])
  }

  /** The lock is held exactly by the one coroutine that is POSTing for a session. */
  ghost predicate LockOk(s: Sys) {
    var c := s.client;
    && (forall p | p in s.procs :: s.procs[p].pc.Posting? ==> c.lock == Some(p))
    && (c.lock.Some? ==> c.lock.value in s.procs && s.procs[c.lock.value].pc.Posting?)
    && (c.lock.Some? ==> c.hasUser && !c.token && !c.latch)
    && (c.latch ==> !c.token)
  }

  ghost predicate CountsOk(s: Sys) {
    Balanced(s.client, s.counts, |Relogging(s.procs)|)
  }

  predicate Balanced(c: Client, n: Counts, relogging: nat) {
    && n.minted == n.forcedDrops + n.logoutDrops + (if c.token then 1 else 0)
    && n.logoutDrops <= n.logouts
    && n.forcedDrops <= n.relogins
    && n.relogins + relogging == n.rejected
    && n.rejected <= n.unauthorized
    && (!c.hasUser ==> n.rejected == 0 && n.posts == 0)
  }

  ghost predicate Inv(s: Sys) {
    AllWithin(s) && LockOk(s) && CountsOk(s)
  }

  lemma ReloggingAfter(procs: map<int, Proc>, p: int, proc: Proc)
    ensures Relogging(procs[p := proc])
      == (Relogging(procs) - {p}) + (if proc.pc == ReloginWait then {p} else {})
  {
    var after := Relogging(procs[p := proc]);
    var stated := (Relogging(procs) - {p}) + (if proc.pc == ReloginWait then {p} else {});
    assert forall q :: q in after <==> q in stated;
  }

  lemma ReloggingChanges(procs: map<int, Proc>, p: int, proc: Proc)
    ensures |Relogging(procs[p := proc])| ==
            |Relogging(procs)| + (if proc.pc == ReloginWait then 1 else 0)
                               - (if p in Relogging(procs) then 1 else 0)
  {
    var rest := Relogging(procs) - {p};
    ReloggingAfter(procs, p, proc);
    assert p in Relogging(procs) ==> Relogging(procs) == rest + {p};
  }

  lemma WithinStep(s: Sys, a: Action)
    requires AllWithin(s) && Enabled(s, a)
    ensures AllWithin(Next(s, a))
  {
    if !a.Logout? {
      assert Within(Move(s, a).proc);
    }
  }

  lemma LockStep(s: Sys, a: Action)
    requires LockOk(s) && Enabled(s, a)
    ensures LockOk(Next(s, a))
  {
  }

  /** What a login adds to the balance: nothing, wherever it stops. */
  lemma LoginBalances(m: Moved, p: int, phase: Phase, queued: bool, n: nat)
    requires Balanced(m.client, m.counts, n)
    ensures Balanced(Login(m, p, phase, queued).client, Login(m, p, phase, queued).counts, n)
    ensures Login(m, p, phase, queued).proc.pc != ReloginWait
    ensures Balanced(UnderLock(m, p, phase).client, UnderLock(m, p, phase).counts, n)
    ensures UnderLock(m, p, phase).proc.pc != ReloginWait
  {
  }

  /** A forced re-login uses up one rejected request and drops the token if there is one. */
  lemma ReloginBalances(m: Moved, p: int, queued: bool, n: nat)
    requires Balanced(m.client, m.counts, n + 1)
    ensures Balanced(Relogin(m, p, queued).client, Relogin(m, p, queued).counts, n)
    ensures Relogin(m, p, queued).proc.pc != ReloginWait
  {
    var dropped := if m.client.token then 1 else 0;
    var bare := m.(client := m.client.(token := false, uri := false, latch := false),
                   counts := m.counts.(relogins := m.counts.relogins + 1,
                                       forcedDrops := m.counts.forcedDrops + dropped));
    assert Balanced(bare.client, bare.counts, n);
    LoginBalances(bare, p, Retry, queued, n);
  }

  lemma AnswerBalances(m: Moved, phase: Phase, reply: SessionReply, n: nat)
    requires Balanced(m.client, m.counts, n) && !m.client.token && m.proc.pc != ReloginWait
    ensures Balanced(OnAnswer(m, phase, reply).client, OnAnswer(m, phase, reply).counts, n)
    ensures OnAnswer(m, phase, reply).proc.pc != ReloginWait
  {
  }

  lemma ReplyBalances(m: Moved, p: int, isUnauthorized: bool, queued: bool, n: nat)
    requires Balanced(m.client, m.counts, n) && m.proc.pc != ReloginWait
    ensures var m' := OnReply(m, p, isUnauthorized, queued);
            Balanced(m'.client, m'.counts, if m'.proc.pc == ReloginWait then n + 1 else n)
  {
    var m1 := m.(counts := m.counts.(
                   unauthorized := m.counts.unauthorized + (if isUnauthorized then 1 else 0)));
    if isUnauthorized && m.proc.pc == Sent1 && CanRetry(m.client) {
      var m2 := m1.(counts := m1.counts.(rejected := m1.counts.rejected + 1));
      assert Balanced(m2.client, m2.counts, n + 1);
      if !queued {
        ReloginBalances(m2, p, false, n);
      }
    }
  }

  /** One segment keeps the balance, with the queue of re-logins adjusted for its coroutine. */
  lemma MoveBalances(s: Sys, a: Action, n: nat)
    requires LockOk(s) && Enabled(s, a) && !a.Logout?
    requires Balanced(s.client, s.counts, if a.p in Relogging(s.procs) then n + 1 else n)
    ensures var m := Move(s, a);
            Balanced(m.client, m.counts, if m.proc.pc == ReloginWait then n + 1 else n)
  {
    var proc := if a.p in s.procs then s.procs[a.p] else Proc(Closed, 0, 0);
    var m := Moved(s.client, s.counts, proc);
    match a {
      case Arrive(p, direct, queued) =>
        LoginBalances(m, p, if direct then Direct else Lazy, queued, n);
      case Wake(p) => LoginBalances(m, p, proc.pc.phase, false, n);
      case Answer(p, reply) => AnswerBalances(m, proc.pc.phase, reply, n);
      case Reply(p, isUnauthorized, queued) => ReplyBalances(m, p, isUnauthorized, queued, n);
      case WakeRelogin(p, queued) => ReloginBalances(m, p, queued, n);
    }
  }

  lemma CountsStep(s: Sys, a: Action)
    requires LockOk(s) && CountsOk(s) && Enabled(s, a)
    ensures CountsOk(Next(s, a))
  {
    if !a.Logout? {
      var queue := Relogging(s.procs);
      assert a.p in queue ==> |queue - {a.p}| == |queue| - 1;
      MoveBalances(s, a, if a.p in queue then |queue| - 1 else |queue|);
      ReloggingChanges(s.procs, a.p, Move(s, a).proc);
    }
  }

  lemma InvStep(s: Sys, a: Action)
    requires Inv(s) && Enabled(s, a)
    ensures Inv(Next(s, a))
  {
    WithinStep(s, a);
    LockStep(s, a);
    CountsStep(s, a);
  }

  lemma {:induction false} InvRun(s: Sys, actions: seq<Action>)
    requires Inv(s) && Valid(s, actions)
    ensures Inv(After(s, actions))
    decreases actions
  {
    if actions != [] {
      InvStep(s, actions[0]);
      InvRun(Next(s, actions[0]), actions[1..]);
    }
  }

  // ---- main results -------------------------------------------------------

  /**
   Sessions are conserved: every session minted is the one held now or was dropped by a
   forced re-login or a logout. So mints are at most one plus the 401s and the logouts.
   A latched client holds no token, and a client without credentials never POSTs for one.
   */
  lemma SessionsBounded(hasUser: bool, actions: seq<Action>)
    requires Valid(Start(hasUser), actions)
    ensures var s := After(Start(hasUser), actions);
            var n := s.counts;
            && n.minted == n.forcedDrops + n.logoutDrops + (if s.client.token then 1 else 0)
            && n.minted <= n.relogins + n.logouts + (if s.client.token then 1 else 0)
            && n.minted <= 1 + n.unauthorized + n.logouts
            && (s.client.latch ==> !s.client.token)
            && (!s.client.hasUser ==> n.posts == 0)
  {
    InvRun(Start(hasUser), actions);
  }

  /** Every coroutine sends its body at most twice and POSTs for a session at most twice. */
  lemma TriesBounded(hasUser: bool, actions: seq<Action>, p: int)
    requires Valid(Start(hasUser), actions) && p in After(Start(hasUser), actions).procs
    ensures var proc := After(Start(hasUser), actions).procs[p];
            && proc.sends <= 2 && proc.posts <= 2
            && (proc.pc == Sent2 ==> proc.sends == 2)
  {
    InvRun(Start(hasUser), actions);
    assert Within(After(Start(hasUser), actions).procs[p]);
  }

  // ---- what each step does ------------------------------------------------

  /** The request of `p` came back 401 on its first try, and a new session could help. */
  predicate Retries(s: Sys, a: Action) {
    && a.Reply? && a.isUnauthorized && a.p in s.procs && s.procs[a.p].pc == Sent1
    && s.client.hasUser && (s.client.token || !s.client.latch)
  }

  /** The step drops token, URI and latch before it logs in again. */
  predicate ForcesRelogin(s: Sys, a: Action) {
    a.WakeRelogin? || (Retries(s, a) && !a.queued)
  }

  /** The fields of the client after one step, whatever the state. */
  lemma ClientStep(s: Sys, a: Action)
    requires Enabled(s, a)
    ensures var c, c' := s.client, Next(s, a).client;
            var answer := if a.Answer? then Some(a.reply) else None;
            && c'.hasUser == c.hasUser
            && (c'.latch <==>
                  answer == Some(NotFound) || answer == Some(NoToken) || (c.latch && !ForcesRelogin(s, a)))
            && (c'.token <==>
                  answer == Some(Minted(true)) || answer == Some(Minted(false))
                  || (c.token && !a.Logout? && !ForcesRelogin(s, a)))
            && (c'.uri <==>
                  || answer == Some(Minted(true))
                  || (c.uri && answer != Some(Minted(false)) && !a.Logout? && !ForcesRelogin(s, a)))
  {
  }

  /** The step POSTs for a session: it has the lock to itself, and there is a user and no token or latch. */
  predicate PostsForSession(s: Sys, a: Action) {
    && s.client.hasUser
    && match a
       case Arrive(_, _, queued) => !queued && !s.client.token && !s.client.latch
       case Wake(_) => !s.client.token && !s.client.latch
       case WakeRelogin(_, queued) => !queued
       case Reply(_, _, queued) => Retries(s, a) && !queued
       case _ => false
  }

  /** The phase of the login the coroutine is in. */
  function PhaseOf(s: Sys, p: int): Option<Phase> {
    if p !in s.procs then None
    else
      match s.procs[p].pc
      case LoginWait(phase) => Some(phase)
      case Posting(phase) => Some(phase)
      case _ => None
  }

  /** The step ends a login without waiting: nothing to log in for, or the POST was answered. */
  predicate LoginDone(s: Sys, a: Action) {
    var c := s.client;
    match a
    case Arrive(_, direct, queued) =>
      c.token || (!direct && (c.latch || !c.hasUser)) || (!queued && (c.latch || !c.hasUser))
    case Wake(_) => c.token || c.latch || !c.hasUser
    case Answer(_, reply) => reply != Broken
    case WakeRelogin(_, queued) => !queued && !c.hasUser
    case _ => false
  }

  /**
   The coroutine after its step. A login that is done lets its request out, the lazy one on
   the first try and the one after a 401 on the second, whatever the answer to the session
   POST was, a refusal included; a POST that breaks off ends the coroutine.
   */
  lemma CoroutineStep(s: Sys, a: Action)
    requires Inv(s) && Enabled(s, a) && !a.Logout?
    ensures var s' := Next(s, a);
            var was := if a.p in s.procs then s.procs[a.p] else Proc(Closed, 0, 0);
            var phase := if a.Arrive? then (if a.direct then Direct else Lazy)
                         else if a.Reply? || a.WakeRelogin? then Retry else PhaseOf(s, a.p).value;
            && s'.procs == s.procs[a.p := s'.procs[a.p]]
            && s'.procs[a.p] ==
                 (if PostsForSession(s, a) then Proc(Posting(phase), was.sends, was.posts + 1)
                  else if LoginDone(s, a) && phase == Direct then Proc(Closed, was.sends, was.posts)
                  else if LoginDone(s, a) then
                    Proc(if phase == Lazy then Sent1 else Sent2, was.sends + 1, was.posts)
                  else if Retries(s, a) then Proc(ReloginWait, was.sends, was.posts)
                  else if a.Reply? || a.Answer? then Proc(Closed, was.sends, was.posts)
                  else Proc(LoginWait(phase), was.sends, was.posts))
            && s'.counts.posts == s.counts.posts + (if PostsForSession(s, a) then 1 else 0)
            && s'.client.lock == (if PostsForSession(s, a) then Some(a.p)
                                  else if a.Answer? then None else s.client.lock)
  {
  }

  /**
   Nothing is ever stuck, and the BMC may answer anything: a new request can always come, a
   POST and a request be answered in every way, a waiting one go on once the lock is free.
   */
  lemma AnythingMayHappen(hasUser: bool, actions: seq<Action>, p: int, direct: bool, reply: SessionReply,
                          isUnauthorized: bool)
    requires Valid(Start(hasUser), actions)
    ensures var s := After(Start(hasUser), actions);
            && Enabled(s, Logout)
            && (p !in s.procs ==> Enabled(s, Arrive(p, direct, s.client.lock.Some?)))
            && (p in s.procs ==>
                  match s.procs[p].pc
                  case LoginWait(_) => s.client.lock == None ==> Enabled(s, Wake(p))
                  case Posting(_) => Enabled(s, Answer(p, reply))
                  case ReloginWait => s.client.lock == None ==> Enabled(s, WakeRelogin(p, false))
                  case Closed => true
                  case _ => Enabled(s, Reply(p, isUnauthorized, s.client.lock.Some?)))
            && (s.client.lock.Some? ==> s.client.lock.value in s.procs && s.procs[s.client.lock.value].pc.Posting?)
  {
    InvRun(Start(hasUser), actions);
  }

  predicate SetsLatch(a: Action) {
    a.Answer? && (a.reply == NotFound || a.reply == NoToken)
  }

  predicate ForcedIn(s: Sys, actions: seq<Action>)
    requires Valid(s, actions)
    decreases actions
  {
    actions != [] && (ForcesRelogin(s, actions[0]) || ForcedIn(Next(s, actions[0]), actions[1..]))
  }

  /** Some answer says there is no session service, and no forced re-login comes after it. */
  predicate LatchedIn(s: Sys, actions: seq<Action>)
    requires Valid(s, actions)
    decreases actions
  {
    actions != []
    && (LatchedIn(Next(s, actions[0]), actions[1..])
        || (SetsLatch(actions[0]) && !ForcedIn(Next(s, actions[0]), actions[1..])))
  }

  lemma {:induction false} LatchRun(s: Sys, actions: seq<Action>)
    requires Valid(s, actions)
    ensures After(s, actions).client.latch <==>
              LatchedIn(s, actions) || (s.client.latch && !ForcedIn(s, actions))
    decreases actions
  {
    if actions != [] {
      ClientStep(s, actions[0]);
      LatchRun(Next(s, actions[0]), actions[1..]);
    }
  }

  /**
   In every run the client is latched exactly when a session POST was answered with 404 or
   without a token and no forced re-login has run since. Nothing else latches it, a refused
   or broken login in particular.
   */
  lemma LatchedIffNoService(hasUser: bool, actions: seq<Action>)
    requires Valid(Start(hasUser), actions)
    ensures After(Start(hasUser), actions).client.latch <==> LatchedIn(Start(hasUser), actions)
  {
    LatchRun(Start(hasUser), actions);
  }

  /**
   A login the BMC refuses costs nothing: the request behind it goes out all the same, and the
   next one to arrive POSTs for a session again.
   */
  lemma RefusedLoginIsRetried(hasUser: bool, actions: seq<Action>, p: int, q: int)
    requires Valid(Start(hasUser), actions) && Enabled(After(Start(hasUser), actions), Answer(p, Refused))
    ensures var s := After(Start(hasUser), actions);
            var s' := Next(s, Answer(p, Refused));
            && !s'.client.latch && !s'.client.token && s'.client.lock == None
            && (if s.procs[p].pc.phase == Direct then s'.procs[p] == s.procs[p].(pc := Closed)
                else s'.procs[p].sends == s.procs[p].sends + 1
                     && s'.procs[p].pc == (if s.procs[p].pc.phase == Lazy then Sent1 else Sent2))
            && (q !in s'.procs ==>
                  && Enabled(s', Arrive(q, false, false))
                  && Next(s', Arrive(q, false, false)).procs[q] == Proc(Posting(Lazy), 0, 1)
                  && Next(s', Arrive(q, false, false)).counts.posts == s'.counts.posts + 1)
  {
    InvRun(Start(hasUser), actions);
    var s := After(Start(hasUser), actions);
    InvStep(s, Answer(p, Refused));
    CoroutineStep(s, Answer(p, Refused));
  }

  /** The latch is set and no forced re-login is queued to clear it. */
  predicate Sealed(s: Sys) {
    s.client.latch && NoReloginQueued(s)
  }

  predicate NoReloginQueued(s: Sys) {
    forall p | p in s.procs :: s.procs[p].pc != ReloginWait
  }

  lemma SealedStep(s: Sys, a: Action)
    requires Inv(s) && Sealed(s) && Enabled(s, a)
    ensures Sealed(Next(s, a)) && Next(s, a).counts.posts == s.counts.posts
  {
    assert s.client.lock.None? && !s.client.token;
    if !a.Logout? {
      assert Move(s, a).proc.pc != ReloginWait;
    }
  }

  lemma {:induction false} SealedRun(s: Sys, actions: seq<Action>)
    requires Inv(s) && Sealed(s) && Valid(s, actions)
    ensures Sealed(After(s, actions)) && After(s, actions).counts.posts == s.counts.posts
    decreases actions
  {
    if actions != [] {
      SealedStep(s, actions[0]);
      InvStep(s, actions[0]);
      SealedRun(Next(s, actions[0]), actions[1..]);
    }
  }

  /**
   The latch is final exactly when no forced re-login is queued: from a reachable latched
   state no run ever POSTs for a session again if and only if nobody waits in
   `_force_relogin` for the lock.
   */
  lemma LatchFinalIffNoReloginQueued(s: Sys)
    requires Inv(s) && s.client.latch
    ensures (forall actions | Valid(s, actions) :: After(s, actions).counts.posts == s.counts.posts)
            <==> NoReloginQueued(s)
  {
    if NoReloginQueued(s) {
      forall actions | Valid(s, actions)
        ensures After(s, actions).counts.posts == s.counts.posts
      {
        SealedRun(s, actions);
      }
    } else {
      var p :| p in s.procs && s.procs[p].pc == ReloginWait;
      assert p in Relogging(s.procs);
      var a := WakeRelogin(p, false);
      assert s.client.lock.None?;
      assert CountsOk(s) && s.client.hasUser;
      assert Next(s, a).counts.posts == s.counts.posts + 1;
      assert Valid(Next(s, a), []) && After(Next(s, a), []) == Next(s, a);
      assert [a][1..] == [];
      assert Valid(s, [a]) && After(s, [a]).counts.posts == s.counts.posts + 1;
    }
  }

  /** Requests run one at a time: one arrives only when all earlier ones are closed. */
  predicate OneAtATime(s: Sys, actions: seq<Action>)
    requires Valid(s, actions)
    decreases actions
  {
    actions != [] ==>
      && (actions[0].Arrive? ==> forall p | p in s.procs :: s.procs[p].pc == Closed)
      && OneAtATime(Next(s, actions[0]), actions[1..])
  }

  ghost predicate Alone(s: Sys) {
    && (forall p, q | p in s.procs && q in s.procs && p != q ::
          s.procs[p].pc == Closed || s.procs[q].pc == Closed)
    && (forall p | p in s.procs :: !Waits(s, p))
  }

  /** Alone, a coroutine that is not POSTing finds the lock free and nobody queued. */
  lemma AloneUncontended(s: Sys, a: Action)
    requires LockOk(s) && Alone(s) && Enabled(s, a) && !a.Logout?
    requires a.Arrive? ==> forall p | p in s.procs :: s.procs[p].pc == Closed
    ensures a.Answer? || a.Arrive? || a.Reply?
    ensures !a.Answer? ==> !Contended(s, a.p)
  {
    if a.Wake? || a.WakeRelogin? {
      assert Waits(s, a.p);
    }
    if s.client.lock.Some? {
      var holder := s.client.lock.value;
      assert s.procs[holder].pc.Posting?;
    }
  }

  lemma {:induction false} AloneRun(s: Sys, actions: seq<Action>)
    requires Inv(s) && Alone(s) && Valid(s, actions) && OneAtATime(s, actions)
    ensures Alone(After(s, actions)) && Inv(After(s, actions))
    decreases actions
  {
    if actions != [] {
      var a := actions[0];
      InvStep(s, a);
      if !a.Logout? {
        AloneUncontended(s, a);
        assert !Move(s, a).proc.pc.LoginWait? && Move(s, a).proc.pc != ReloginWait;
      }
      AloneRun(Next(s, a), actions[1..]);
    }
  }

  /** When requests run one at a time, no session POST ever follows the latch. */
  lemma SequentialLatchIsFinal(hasUser: bool, before: seq<Action>, after: seq<Action>)
    requires Valid(Start(hasUser), before) && OneAtATime(Start(hasUser), before)
    requires After(Start(hasUser), before).client.latch
    requires Valid(After(Start(hasUser), before), after)
    ensures After(After(Start(hasUser), before), after).counts.posts ==
            After(Start(hasUser), before).counts.posts
  {
    var s := After(Start(hasUser), before);
    AloneRun(Start(hasUser), before);
    assert forall p | p in s.procs :: !Waits(s, p);
    SealedRun(s, after);
  }

  // A run in which two requests share a token and both get a 401.
  const LOGGING_IN := Sys(Client(true, false, false, false, Some(0)), Counts(0, 0, 0, 0, 0, 0, 0, 1),
                         map[0 := Proc(Posting(Lazy), 0, 1)])
  const FIRST_SENT := Sys(Client(true, true, true, false, None), Counts(1, 0, 0, 0, 0, 0, 0, 1),
                         map[0 := Proc(Sent1, 1, 1)])
  const BOTH_SENT := FIRST_SENT.(procs := map[0 := Proc(Sent1, 1, 1), 1 := Proc(Sent1, 1, 0)])
  const FIRST_REJECTED := Sys(Client(true, false, false, false, Some(0)), Counts(1, 1, 0, 0, 1, 1, 1, 2),
                             map[0 := Proc(Posting(Retry), 1, 2), 1 := Proc(Sent1, 1, 0)])
  const BOTH_REJECTED := Sys(Client(true, false, false, false, Some(0)), Counts(1, 1, 0, 0, 2, 2, 1, 2),
                            map[0 := Proc(Posting(Retry), 1, 2), 1 := Proc(ReloginWait, 1, 0)])
  const LATCHED := Sys(Client(true, false, false, true, None), Counts(1, 1, 0, 0, 2, 2, 1, 2),
                       map[0 := Proc(Sent2, 2, 2), 1 := Proc(ReloginWait, 1, 0)])

  lemma OneStep(s: Sys, a: Action, s': Sys)
    requires Enabled(s, a) && Next(s, a) == s'
    ensures Valid(s, [a]) && After(s, [a]) == s'
  {
    assert [a][1..] == [];
    assert Valid(s', []) && After(s', []) == s';
  }

  lemma {:induction false} Joined(s: Sys, first: seq<Action>, second: seq<Action>)
    requires Valid(s, first) && Valid(After(s, first), second)
    ensures Valid(s, first + second) && After(s, first + second) == After(After(s, first), second)
    decreases first
  {
    if first == [] {
      assert first + second == second;
    } else {
      assert (first + second)[1..] == first[1..] + second;
      Joined(Next(s, first[0]), first[1..], second);
    }
  }

  lemma BothGetSent() returns (actions: seq<Action>)
    ensures Valid(Start(true), actions) && After(Start(true), actions) == BOTH_SENT
  {
    OneStep(Start(true), Arrive(0, false, false), LOGGING_IN);
    OneStep(LOGGING_IN, Answer(0, Minted(true)), FIRST_SENT);
    OneStep(FIRST_SENT, Arrive(1, false, false), BOTH_SENT);
    Joined(Start(true), [Arrive(0, false, false)], [Answer(0, Minted(true))]);
    actions := [Arrive(0, false, false)] + [Answer(0, Minted(true))];
    Joined(Start(true), actions, [Arrive(1, false, false)]);
    actions := actions + [Arrive(1, false, false)];
  }

  lemma BothGetRejected() returns (actions: seq<Action>)
    ensures Valid(BOTH_SENT, actions) && After(BOTH_SENT, actions) == LATCHED
  {
    OneStep(BOTH_SENT, Reply(0, true, false), FIRST_REJECTED);
    OneStep(FIRST_REJECTED, Reply(1, true, true), BOTH_REJECTED);
    OneStep(BOTH_REJECTED, Answer(0, NotFound), LATCHED);
    Joined(BOTH_SENT, [Reply(0, true, false)], [Reply(1, true, true)]);
    actions := [Reply(0, true, false)] + [Reply(1, true, true)];
    Joined(BOTH_SENT, actions, [Answer(0, NotFound)]);
    actions := actions + [Answer(0, NotFound)];
  }

  /**
   Under concurrency the latch is not final: two requests hold a token and both get a 401;
   the first re-login latches, and the second, already queued, clears the latch and POSTs.
   */
  lemma ConcurrentReloginReopensLatch() returns (before: seq<Action>, after: seq<Action>)
    ensures Valid(Start(true), before) && After(Start(true), before).client.latch
    ensures Valid(After(Start(true), before), after)
    ensures After(After(Start(true), before), after).counts.posts >
            After(Start(true), before).counts.posts
  {
    before := BothGetSent();
    var rest := BothGetRejected();
    Joined(Start(true), before, rest);
    before := before + rest;
    after := [WakeRelogin(1, false)];
    OneStep(LATCHED, after[0], Next(LATCHED, after[0]));
  }
}
