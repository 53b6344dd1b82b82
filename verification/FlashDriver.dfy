/**
 The generic flash flow of plugins/generic_redfish/plugin.py: the Task polling loop
 (`_poll_task`), the rule for when an update may be called a success (`_do_update`,
 `update_hgx`), and the progress the orchestrator writes while it runs
 (`_run_task` / `_real_task`, core/services/update_orchestrator.py).

 The BMC is a stream of replies, one per GET of the Task URI, with the time each GET
 took. Everything else it is asked is a field of `Bmc`.
 */
module FlashDriver {
  import opened Prelude
  import opened Text
  import opened JobsRepo
  import FirmwareTargets
  import HgxRouter

  // ---- Retry-After --------------------------------------------------------

  /** What the header text is to Python's `float` and date parsers. */
  datatype Header = Absent | Blank | Seconds(seconds: real) | NotFinite | Date(wait: real) | Garbage

  function Min(a: real, b: real): real {
    if a < b then a else b
  }

  function Max(a: real, b: real): real {
    if a < b then b else a
  }

  function ParseRetryAfter(h: Header, default: real, cap: real): real {
    match h
    case Seconds(s) => if s < 0.0 then default else Max(0.0, Min(s, cap))
    case Date(wait) => Max(0.0, Min(wait, cap))
    case _ => default
  }

  /**
   The parsed wait is always usable: a number of seconds from 0 on and a date to come are
   kept up to the cap, a past date means no wait, and anything else the default.
   */
  lemma RetryAfterInRange(h: Header, default: real, cap: real)
    requires 0.0 <= default <= cap
    ensures var wait := ParseRetryAfter(h, default, cap);
            && 0.0 <= wait <= cap
            && (h.Seconds? && 0.0 <= h.seconds <= cap ==> wait == h.seconds)
            && (h.Seconds? && h.seconds > cap ==> wait == cap)
            && (h.Date? && 0.0 <= h.wait <= cap ==> wait == h.wait)
            && (h.Date? && h.wait > cap ==> wait == cap)
            && (h.Date? && h.wait < 0.0 ==> wait == 0.0)
            && (!h.Date? && !(h.Seconds? && h.seconds >= 0.0) ==> wait == default)
  {
  }

  // ---- the polling loop ---------------------------------------------------

  const CEILING := 1800.0
  const INTERVAL := 3.0
  const INTERVAL_MIN := 1.0
  const INTERVAL_MAX := 60.0
  const MAX_ERRORS := 60

  /** `Failed` is a RedfishError; `Raises` is any other exception. */
  datatype Reply =
    | Unanswered(error: string)
    | Raises
    | Task(percent: int, state: string, detail: string, retryAfter: Header)

  datatype End =
    NoTask | Done | Ended(state: string, detail: string) | Unreachable(error: string) | TimedOut | Raised

  datatype Event = Event(state: TaskState, percent: int)

  const BAD_STATES := ["Exception", "Killed", "Cancelled"]

  predicate Final(r: Reply) {
    r.Task? && (r.state == "Completed" || r.state in BAD_STATES)
  }

  /** How long the loop sleeps after a reply that does not end it. */
  function WaitAfter(r: Reply): real {
    if r.Task? then
      var ra := ParseRetryAfter(r.retryAfter, 0.0, 600.0);
      Max(INTERVAL_MIN, Min(if ra > 0.0 then ra else INTERVAL, INTERVAL_MAX))
    else Min(INTERVAL * 2.0, INTERVAL_MAX)
  }

  /**
   What the BMC asks for is slept, within 1 and 60 seconds; 3 seconds when it asks for nothing
   it can ask for, and 6 after a failed GET.
   */
  lemma WaitMeaning(r: Reply)
    ensures 1.0 <= WaitAfter(r) <= 60.0
    ensures r.Task? && r.retryAfter.Seconds? && 1.0 <= r.retryAfter.seconds <= 60.0 ==>
              WaitAfter(r) == r.retryAfter.seconds
    ensures r.Task? && r.retryAfter.Seconds? && r.retryAfter.seconds > 60.0 ==> WaitAfter(r) == 60.0
    ensures r.Task? && r.retryAfter.Seconds? && 0.0 < r.retryAfter.seconds < 1.0 ==> WaitAfter(r) == 1.0
    ensures r.Task? && r.retryAfter.Seconds? && r.retryAfter.seconds <= 0.0 ==> WaitAfter(r) == 3.0
    ensures r.Task? && !r.retryAfter.Seconds? && !r.retryAfter.Date? ==> WaitAfter(r) == 3.0
    ensures !r.Task? ==> WaitAfter(r) == 6.0
  {
  }

  function TotalWait(replies: nat -> Reply, n: nat): real {
    if n == 0 then 0.0 else TotalWait(replies, n - 1) + WaitAfter(replies(n - 1))
  }

  function TotalSpent(spent: nat -> real, n: nat): real {
    if n == 0 then 0.0 else TotalSpent(spent, n - 1) + spent(n - 1)
  }

  /** How many failed GETs in a row end at poll `n`. */
  function Streak(replies: nat -> Reply, n: nat): (k: nat)
    ensures k <= n && forall i | n - k <= i < n :: replies(i).Unanswered?
    ensures k < n ==> !replies(n - k - 1).Unanswered?
  {
    if n == 0 || !replies(n - 1).Unanswered? then 0 else Streak(replies, n - 1) + 1
  }

  /** Reply `k` leaves the loop running. */
  predicate GoesOn(replies: nat -> Reply, k: nat) {
    !Final(replies(k)) && !replies(k).Raises? && Streak(replies, k + 1) < MAX_ERRORS
  }

  /** The end that reply `k` brings about. */
  function EndAt(replies: nat -> Reply, k: nat): End {
    match replies(k)
    case Raises => Raised
    case Unanswered(error) => Unreachable(error)
    case Task(_, state, detail, _) => if state == "Completed" then Done else Ended(state, detail)
  }

  /** Python's `int(a / b)` for a positive `b`: towards zero. */
  function Truncated(a: int, b: int): int
    requires b > 0
  {
    if a >= 0 then a / b else -((-a) / b)
  }

  function Scaled(percent: int, lo: int, hi: int): int {
    lo + Truncated(percent * (hi - lo), 100)
  }

  /** The percentage seen last before poll `n`; -1 when none was. */
  function LastPercent(replies: nat -> Reply, n: nat): int {
    if n == 0 then -1
    else if replies(n - 1).Task? then replies(n - 1).percent
    else LastPercent(replies, n - 1)
  }

  /** What the first `n` polls report: one event whenever the percentage changed. */
  function Reported(replies: nat -> Reply, n: nat, lo: int, hi: int): seq<Event> {
    if n == 0 then []
    else
      var r, before := replies(n - 1), Reported(replies, n - 1, lo, hi);
      if r.Task? && r.percent != LastPercent(replies, n - 1) && lo < hi
      then before + [Event(Flashing, Scaled(r.percent, lo, hi))]
      else before
  }

  /**
   Polling ended in `end` after `polls` GETs: no earlier reply could have ended it, and
   the last one did, or nothing did and the time ran out.
   */
  ghost predicate Polled(replies: nat -> Reply, polls: nat, end: End) {
    if end.TimedOut? then forall k | 0 <= k < polls :: GoesOn(replies, k)
    else
      && 0 < polls
      && (forall k | 0 <= k < polls - 1 :: GoesOn(replies, k))
      && !GoesOn(replies, polls - 1)
      && end == EndAt(replies, polls - 1)
  }

  /** The sleep after an answered GET. */
  method ChooseWait(reply: Reply) returns (wait: real)
    requires reply.Task?
    ensures wait == WaitAfter(reply) && 1.0 <= wait <= 60.0
  {
    wait := INTERVAL;
    var ra := ParseRetryAfter(reply.retryAfter, 0.0, 600.0);
    if ra > 0.0 {
      wait := ra;
    }
    wait := Max(INTERVAL_MIN, Min(wait, INTERVAL_MAX));
  }

  /**
   The loop ends after at most 1800 polls and less than the ceiling plus one maximal
   sleep spent sleeping. Its end is the one the last reply brings about, every reply
   before that left it running, and a time-out means the ceiling has really passed.
   */
  method PollTask(uri: string, replies: nat -> Reply, spent: nat -> real, lo: int, hi: int)
    returns (end: End, polls: nat, slept: real, events: seq<Event>)
    requires forall k :: spent(k) >= 0.0
    ensures uri == "" <==> end.NoTask?
    ensures uri == "" ==> polls == 0 && events == []
    ensures polls <= 1800 && slept < 1860.0
    ensures events == Reported(replies, polls, lo, hi)
    ensures uri != "" ==> Polled(replies, polls, end)
    ensures end.TimedOut? ==> slept == TotalWait(replies, polls)
    ensures end.TimedOut? ==> slept + TotalSpent(spent, polls) >= 1800.0
    ensures polls > 0 ==> TotalWait(replies, polls - 1) + TotalSpent(spent, polls - 1) < 1800.0
    ensures uri != "" && !end.TimedOut? ==> slept == TotalWait(replies, polls - 1)
  {
    polls, slept, events := 0, 0.0, [];
    if uri == "" {
      return NoTask, polls, slept, events;
    }
    var now, lastPercent, errors := 0.0, -1, 0;
    ghost var begun := now;
    while now < CEILING
      invariant slept == TotalWait(replies, polls) && now == slept + TotalSpent(spent, polls)
      invariant polls as real <= slept <= now && slept < CEILING + INTERVAL_MAX
      invariant polls <= 1800
      invariant polls > 0 ==> begun == TotalWait(replies, polls - 1) + TotalSpent(spent, polls - 1) < 1800.0
      invariant forall k | 0 <= k < polls :: GoesOn(replies, k)
      invariant errors == Streak(replies, polls)
      invariant events == Reported(replies, polls, lo, hi)
      invariant lo < hi ==> lastPercent == LastPercent(replies, polls)
      decreases 1800 - polls
    {
      var reply := replies(polls);
      begun := now;
      now := now + spent(polls);
      polls := polls + 1;
      if reply.Raises? {
        return Raised, polls, slept, events;
      }
      var wait;
      if reply.Unanswered? {
        errors := errors + 1;
        if errors >= MAX_ERRORS {
          return Unreachable(reply.error), polls, slept, events;
        }
        wait := Min(INTERVAL * 2.0, INTERVAL_MAX);
      } else {
        errors := 0;
        if reply.percent != lastPercent && lo < hi {
          lastPercent := reply.percent;
          events := events + [Event(Flashing, Scaled(reply.percent, lo, hi))];
        }
        if reply.state == "Completed" {
          return Done, polls, slept, events;
        }
        if reply.state in BAD_STATES {
          return Ended(reply.state, reply.detail), polls, slept, events;
        }
        wait := ChooseWait(reply);
      }
      now := now + wait;
      slept := slept + wait;
    }
    return TimedOut, polls, slept, events;
  }

  /**
   "Unreachable" is answered exactly when the last sixty GETs failed, success exactly when
   the last reply was `Completed`, and a failed Task exactly on a failed final state.
   */
  lemma EndMeaning(replies: nat -> Reply, polls: nat, end: End)
    requires Polled(replies, polls, end)
    ensures end.Unreachable? <==>
              60 <= polls && forall k | polls - 60 <= k < polls :: replies(k).Unanswered?
    ensures end.Done? <==> 0 < polls && replies(polls - 1).Task? && replies(polls - 1).state == "Completed"
    ensures end.Ended? <==>
              && 0 < polls && replies(polls - 1).Task?
              && replies(polls - 1).state in ["Exception", "Killed", "Cancelled"]
    ensures end.Ended? ==> end.state == replies(polls - 1).state && end.detail == replies(polls - 1).detail
    ensures !end.NoTask?
  {
    if 60 <= polls && forall k | polls - 60 <= k < polls :: replies(k).Unanswered? {
      assert Streak(replies, polls) >= 60;
      assert !GoesOn(replies, polls - 1);
    }
    if end.TimedOut? && 0 < polls {
      assert GoesOn(replies, polls - 1);
    }
  }

  // ---- what the loop reports ----------------------------------------------

  /** The percentages the BMC gives in the first `n` polls stay in 0..100 and never fall. */
  predicate Climbing(replies: nat -> Reply, n: nat) {
    forall k | 0 <= k < n && replies(k).Task? ::
      0 <= replies(k).percent <= 100 && LastPercent(replies, k) <= replies(k).percent
  }

  predicate InRange(replies: nat -> Reply, n: nat) {
    forall k | 0 <= k < n && replies(k).Task? :: 0 <= replies(k).percent <= 100
  }

  lemma MulMonotone(p: int, q: int, w: nat)
    requires p <= q
    ensures p * w <= q * w
  {
    assert (q - p) * w >= 0;
    assert q * w == p * w + (q - p) * w;
  }

  lemma TruncatedMonotone(x: int, y: int)
    requires x <= y
    ensures Truncated(x, 100) <= Truncated(y, 100)
  {
  }

  lemma ScaledInBand(percent: int, lo: int, hi: int)
    requires 0 <= percent <= 100 && lo < hi
    ensures lo <= Scaled(percent, lo, hi) <= hi
  {
    var w := hi - lo;
    MulMonotone(0, percent, w);
    MulMonotone(percent, 100, w);
    TruncatedMonotone(0 * w, percent * w);
    TruncatedMonotone(percent * w, 100 * w);
    assert Truncated(100 * w, 100) == w;
  }

  lemma ScaledMonotone(p: int, q: int, lo: int, hi: int)
    requires 0 <= p <= q && lo < hi
    ensures Scaled(p, lo, hi) <= Scaled(q, lo, hi)
  {
    MulMonotone(p, q, hi - lo);
    TruncatedMonotone(p * (hi - lo), q * (hi - lo));
  }

  /** The band is divided evenly, and the fraction of a percent dropped towards its start. */
  lemma ScaledMeaning(percent: int, lo: int, hi: int)
    requires lo < hi
    ensures var off, share := Scaled(percent, lo, hi) - lo, percent * (hi - lo);
            if percent >= 0 then 0 <= share - 100 * off < 100 else -100 < share - 100 * off <= 0
  {
    MulMonotone(if percent >= 0 then 0 else percent, if percent >= 0 then percent else 0, hi - lo);
  }

  /** Percentages in 0..100 are reported inside the band. */
  lemma {:induction false} ReportedInBand(replies: nat -> Reply, n: nat, lo: int, hi: int)
    requires InRange(replies, n)
    ensures forall e | e in Reported(replies, n, lo, hi) :: e.state == Flashing && lo <= e.percent <= hi
  {
    if n > 0 {
      ReportedInBand(replies, n - 1, lo, hi);
      if replies(n - 1).Task? && lo < hi {
        ScaledInBand(replies(n - 1).percent, lo, hi);
      }
    }
  }

  /** How far along an update is: no state goes back and no percentage falls. */
  predicate Precedes(a: Event, b: Event) {
    Rank(a.state) <= Rank(b.state) && a.percent <= b.percent
  }

  function Rank(s: TaskState): nat {
    match s
    case Queued => 0 case Precheck => 1 case Uploading => 2 case Flashing => 3
    case Rebooting => 4 case Verifying => 5 case Completed => 6 case Failed => 7
  }

  predicate Advancing(events: seq<Event>) {
    forall i, j | 0 <= i < j < |events| :: Precedes(events[i], events[j])
  }

  lemma {:induction false} ReportedAdvances(replies: nat -> Reply, n: nat, lo: int, hi: int)
    requires Climbing(replies, n) && lo < hi
    ensures Advancing(Reported(replies, n, lo, hi))
    ensures forall e | e in Reported(replies, n, lo, hi) ::
              e.state == Flashing && lo <= e.percent <= Scaled(LastPercent(replies, n), lo, hi)
    ensures -1 <= LastPercent(replies, n) <= 100
    ensures LastPercent(replies, n) == -1 ==> Reported(replies, n, lo, hi) == []
  {
    if n > 0 {
      ReportedAdvances(replies, n - 1, lo, hi);
      if replies(n - 1).Task? {
        var last, now := LastPercent(replies, n - 1), replies(n - 1).percent;
        if last >= 0 {
          ScaledMonotone(last, now, lo, hi);
        }
        ScaledInBand(now, lo, hi);
      }
    }
  }

  lemma JoinAdvances(a: seq<Event>, b: seq<Event>)
    requires Advancing(a) && Advancing(b)
    requires forall x, y | x in a && y in b :: Precedes(x, y)
    ensures Advancing(a + b)
  {
  }

  // ---- one update ---------------------------------------------------------

  datatype Push = PushFailed(error: string) | PushRaised | Pushed(status: int, location: string, bodyUri: string)

  /** `Refused` is a RedfishError, `Raising` any other exception. */
  datatype Answer<+T> = Good(value: T) | Refused(error: string) | Raising

  /**
   What the flash targets come from: the walk behind a capability map, with the links of all
   pages and which members could be read, or without a map the listing of the first page.
   */
  datatype Surface =
    | Mapped(refs: seq<Option<string>>, readable: string -> bool)
    | Inline(listing: Answer<seq<string>>)

  /** What the BMC answers around the polling: see the fields' use in `DoUpdate`. */
  datatype Bmc = Bmc(
    service: Answer<bool>,       // UpdateService: is multipart push advertised?
    surface: Surface, forBios: bool,
    versionBefore: Answer<Option<string>>, versionAfter: Answer<Option<string>>,
    push: Push,
    tasks: string -> (nat -> Reply), spent: nat -> real,  // one reply per GET of the Task URI
    resetRaises: bool,           // applying the staged image breaks off with an exception
    readBack: Answer<Option<string>>)

  /** `_resolve_firmware_target`. */
  function Target(bmc: Bmc): Answer<string> {
    var component := if bmc.forBios then FirmwareTargets.Bios else FirmwareTargets.Bmc;
    match bmc.surface
    case Mapped(refs, readable) =>
      Found(FirmwareTargets.PickActive(FirmwareTargets.Build(refs, readable), component,
                                       FirmwareTargets.Candidates(component)))
    case Inline(Good(uris)) => Found(FirmwareTargets.LegacyResolve(uris, component))
    case Inline(Refused(error)) => Refused(error)
    case Inline(Raising) => Raising
  }

  function Found(uri: Option<string>): Answer<string> {
    if uri.Some? then Good(uri.value) else Refused("No member found in FirmwareInventory")
  }

  /** The HGX members of the capability map; without a map there are none. */
  function HgxMembersOf(bmc: Bmc): seq<HgxRouter.Member> {
    match bmc.surface
    case Mapped(refs, readable) =>
      var inv := FirmwareTargets.Build(refs, readable);
      FirmwareTargets.HgxMembers(inv, inv.names)
    case Inline(_) => []
  }

  /** The member is no rollback, recovery or staging bank. */
  predicate ActiveBank(uri: string) {
    FirmwareTargets.Active(uri)
  }

  /** An active member of the kind to flash; the inline walk takes a BIOS for a BMC if its name says both. */
  predicate Flashable(bmc: Bmc, uri: string) {
    && ActiveBank(uri)
    && if bmc.forBios then FirmwareTargets.Says(uri, ["bios", "uefi"])
       else
         && FirmwareTargets.Says(uri, ["bmc", "idrac", "ilo", "xcc", "manager"])
         && (bmc.surface.Mapped? ==> !FirmwareTargets.Says(uri, ["bios", "uefi"]))
  }

  /** The members the BMC offers to the choice. */
  predicate Offered(surface: Surface, uri: string) {
    match surface
    case Mapped(refs, readable) => Some(uri) in refs && uri != "" && readable(uri)
    case Inline(listing) => listing.Good? && uri in listing.value
  }

  /**
   Whatever the BMC lists, the resolved target is an active bank of the kind to flash that it
   offered; it is refused exactly when no such member is offered or the listing is refused, and
   raises exactly when the listing does.
   */
  lemma TargetIsActive(bmc: Bmc)
    ensures var listed := bmc.surface.Mapped? || bmc.surface.listing.Good?;
            && (Target(bmc).Good? ==>
                  Offered(bmc.surface, Target(bmc).value) && Flashable(bmc, Target(bmc).value))
            && (Target(bmc).Good? <==> exists uri :: Offered(bmc.surface, uri) && Flashable(bmc, uri))
            && (Target(bmc).Raising? <==> !listed && bmc.surface.listing.Raising?)
  {
    match bmc.surface {
      case Mapped(refs, readable) => MappedTarget(bmc, refs, readable);
      case Inline(Good(uris)) => InlineTarget(bmc, uris);
      case Inline(_) =>
    }
  }

  lemma KindsSay(uri: string)
    ensures FirmwareTargets.OfKind(uri, FirmwareTargets.Bios) <==> FirmwareTargets.Says(uri, ["bios", "uefi"])
    ensures FirmwareTargets.OfKind(uri, FirmwareTargets.Bmc) <==>
              && FirmwareTargets.Says(uri, ["bmc", "idrac", "ilo", "xcc", "manager"])
              && !FirmwareTargets.Says(uri, ["bios", "uefi"])
  {
    assert FirmwareTargets.KINDS[0] == FirmwareTargets.Bios && FirmwareTargets.KINDS[1] == FirmwareTargets.Bmc;
    assert forall k | 0 <= k < |FirmwareTargets.KINDS| ::
        (FirmwareTargets.KINDS[k] == FirmwareTargets.Bios ==> k == 0)
        && (FirmwareTargets.KINDS[k] == FirmwareTargets.Bmc ==> k == 1);
  }

  lemma MappedTarget(bmc: Bmc, refs: seq<Option<string>>, readable: string -> bool)
    requires bmc.surface == Mapped(refs, readable)
    ensures Target(bmc).Good? <==> exists uri :: Offered(bmc.surface, uri) && Flashable(bmc, uri)
    ensures Target(bmc).Good? ==> Offered(bmc.surface, Target(bmc).value) && Flashable(bmc, Target(bmc).value)
    ensures !Target(bmc).Raising?
  {
    var component := if bmc.forBios then FirmwareTargets.Bios else FirmwareTargets.Bmc;
    FirmwareTargets.TargetIsOfKind(refs, readable, component, FirmwareTargets.Candidates(component));
    forall uri
      ensures FirmwareTargets.OfKind(uri, component) && ActiveBank(uri) <==> Flashable(bmc, uri)
      ensures FirmwareTargets.Seen(refs, readable, uri) <==> Offered(bmc.surface, uri)
    {
      KindsSay(uri);
    }
  }

  lemma InlineTarget(bmc: Bmc, uris: seq<string>)
    requires bmc.surface == Inline(Good(uris))
    ensures Target(bmc).Good? <==> exists uri :: Offered(bmc.surface, uri) && Flashable(bmc, uri)
    ensures Target(bmc).Good? ==> Offered(bmc.surface, Target(bmc).value) && Flashable(bmc, Target(bmc).value)
    ensures !Target(bmc).Raising?
  {
    var component := if bmc.forBios then FirmwareTargets.Bios else FirmwareTargets.Bmc;
    FirmwareTargets.LegacyMeaning(uris, component);
    forall uri
      ensures FirmwareTargets.Tokened(uri, component) <==> Flashable(bmc, uri)
    {
      FirmwareTargets.TokenedSays(uri);
    }
  }

  /** Where one HGX upload goes: the members the router selects. */
  function HgxTargets(bmc: Bmc, name: string): seq<string> {
    match HgxRouter.SelectGroup(HgxMembersOf(bmc), name)
    case Ok(group) => Uris(group)
    case Err(_) => []
  }

  /** These are active banks too, and there is one as soon as there is a member. */
  lemma HgxTargetsAreActive(bmc: Bmc, name: string)
    ensures HgxTargets(bmc, name) != [] <==> HgxMembersOf(bmc) != []
    ensures forall uri | uri in HgxTargets(bmc, name) :: ActiveBank(uri)
  {
    var members := HgxMembersOf(bmc);
    if members != [] {
      var group := HgxRouter.SelectGroup(members, name);
      HgxRouter.GroupStaysInside(members, name);
      FirmwareTargets.HgxMembersExactly(bmc.surface.refs, bmc.surface.readable);
      forall uri | uri in Uris(group.value)
        ensures ActiveBank(uri)
      {
        var i :| 0 <= i < |group.value| && Uris(group.value)[i] == uri;
        assert group.value[i] in members;
      }
    }
  }

  /**
   An image named after some HGX members goes to the longest, first listed of them alone; one
   that marks a bundle, or has no name, to all in the order listed; any other to the first.
   */
  lemma HgxTargetsAreRouted(bmc: Bmc, name: string)
    requires HgxMembersOf(bmc) != []
    ensures var ms := HgxMembersOf(bmc);
            && ((exists m | m in ms :: Contains(Lower(name), Lower(m.key))) ==>
                  exists i :: HgxRouter.IsBest(ms, name, i) && HgxTargets(bmc, name) == [ms[i].uri])
            && ((forall m | m in ms :: !Contains(Lower(name), Lower(m.key))) ==>
                  if name == "" || ContainsAny(Lower(name), ["bundle", "baseboard", "hgx_fw_bundle", "dgx", "_all"])
                  then |HgxTargets(bmc, name)| == |ms|
                       && forall i | 0 <= i < |ms| :: HgxTargets(bmc, name)[i] == ms[i].uri
                  else HgxTargets(bmc, name) == [ms[0].uri])
  {
    HgxRouter.GroupIsExact(HgxMembersOf(bmc), name);
  }

  /** What the plugin hands back; `Crashed` is an exception out of it. */
  datatype Outcome = Returned(ok: bool, message: string, versionAfter: Option<string>) | Crashed

  /** `_resolve_task_uri`: Location wins over the body, and a bare path gets its slash. */
  function ResolveTaskUri(location: string, bodyUri: string): string {
    var loc, body := Strip(location), Strip(bodyUri);
    var uri := if loc != "" then loc else body;
    if uri == "" || StartsWith(uri, "http://") || StartsWith(uri, "https://") || StartsWith(uri, "/")
    then uri else "/" + uri
  }

  /**
   There is no Task exactly when both texts are blank. Otherwise it is the location, or the
   body's link when the location is blank, with a slash in front unless it begins with one or
   is a URL.
   */
  lemma TaskUriMeaning(location: string, bodyUri: string)
    ensures var uri := ResolveTaskUri(location, bodyUri);
            var given := if Strip(location) == "" then Strip(bodyUri) else Strip(location);
            && (uri == "" <==> Strip(location) == "" && Strip(bodyUri) == "")
            && (given != "" ==>
                  uri == if given[0] == '/' || "http://" <= given || "https://" <= given then given else "/" + given)
  {
  }

  function Message(end: End): string {
    match end
    case NoTask => "synchronous completion (no Task)"
    case Done => "completed"
    case Ended(state, detail) => Strip("BMC task ended '" + state + "'. " + detail)
    case Unreachable(error) => "BMC " + LOST + " for 60 consecutive polls: " + error
    case TimedOut => "flash did not finish within 30 min"
    case Raised => ""
  }

  const LOST := "unreachable"

  /** The substring test `_do_update` applies to the failure message. */
  predicate LooksTransient(end: End) {
    Contains(Lower(Message(end)), LOST)
  }

  /**
   That test fires for a Task that became unreachable, and for a Task the BMC itself
   declared failed exactly when the BMC's own text contains the word.
   */
  lemma TransientMeans(end: End)
    requires end.Ended? ==> end.state in BAD_STATES
    ensures LooksTransient(end) <==> SeemsLost(end)
  {
    match end {
      case Unreachable(error) => UnreachableLooksTransient(error);
      case Ended(state, detail) => EndedLooksTransient(state, detail);
      case NoTask => NoTaskIsNotTransient();
      case TimedOut => TimedOutIsNotTransient();
      case Done => LowerLacks("completed", LOST, 'u');
      case Raised => LowerLacks("", LOST, 'u');
    }
  }

  lemma NoTaskIsNotTransient()
    ensures !LooksTransient(NoTask)
  {
    LowerLacks("synchronous completion (no Task)", LOST, 'b');
  }

  lemma TimedOutIsNotTransient()
    ensures !LooksTransient(TimedOut)
  {
    LowerLacks("flash did not finish within 30 min", LOST, 'u');
  }

  lemma UnreachableLooksTransient(error: string)
    ensures LooksTransient(Unreachable(error))
  {
    var message := Message(Unreachable(error));
    forall k | 0 <= k < |LOST|
      ensures Lower(message)[4 + k] == LOST[k]
    {
      assert message[4 + k] == LOST[k] && 'a' <= LOST[k];
    }
    assert Lower(message)[4..4 + |LOST|] == LOST;
    assert At(Lower(message), LOST, 4);
  }

  lemma EndedLooksTransient(state: string, detail: string)
    requires state in BAD_STATES
    ensures LooksTransient(Ended(state, detail)) <==> Contains(Lower(detail), LOST)
  {
    var head := "BMC task ended '" + state + "'. ";
    StripKeepsContains(head + detail, LOST);
    LowerConcat(head, detail);
    LowerHeadHasNoU(state);
    ContainsAfter(Lower(head), Lower(detail), LOST);
  }

  lemma LowerHeadHasNoU(state: string)
    requires state in BAD_STATES
    ensures 'u' !in Lower("BMC task ended '" + state + "'. ")
  {
    LowerConcat("BMC task ended '" + state, "'. ");
    LowerConcat("BMC task ended '", state);
  }

  /** The BMC shows another version than the known one from before the flash. */
  predicate VersionMoved(bmc: Bmc) {
    && Target(bmc).Good? && Target(bmc).value != ""
    && Version(bmc.versionBefore).Some? && Version(bmc.versionAfter).Some?
    && Version(bmc.versionAfter).value != "" && Version(bmc.versionAfter) != Version(bmc.versionBefore)
  }

  /** `_read_current_version`: a refused read is no version. */
  function Version(read: Answer<Option<string>>): Option<string> {
    if read.Good? then read.value else None
  }

  /** Everything before the push went well. */
  predicate Pushing(bmc: Bmc) {
    bmc.service.Good? && Target(bmc).Good? && !bmc.versionBefore.Raising?
  }

  predicate Accepted(bmc: Bmc) {
    Pushing(bmc) && bmc.push.Pushed?
  }

  function TaskUri(bmc: Bmc): string {
    if bmc.push.Pushed? then ResolveTaskUri(bmc.push.location, bmc.push.bodyUri) else ""
  }

  /** What the GETs of that Task give. */
  function Replies(bmc: Bmc): nat -> Reply {
    bmc.tasks(TaskUri(bmc))
  }

  /** The accepted image came back with a Task: one of the two texts is not blank. */
  predicate HasTask(push: Push) {
    push.Pushed? && (Strip(push.location) != "" || Strip(push.bodyUri) != "")
  }

  lemma TaskIffGiven(bmc: Bmc)
    ensures TaskUri(bmc) != "" <==> HasTask(bmc.push)
  {
    if bmc.push.Pushed? {
      TaskUriMeaning(bmc.push.location, bmc.push.bodyUri);
    }
  }

  /** What is reported up to the end of polling into the band 30..`hi`. */
  function PolledEvents(replies: nat -> Reply, polls: nat, hi: int): seq<Event> {
    [Event(Uploading, 10), Event(Flashing, 30)] + Reported(replies, polls, 30, hi)
  }

  /** What is reported while the Task is followed into the band 30..`hi`. */
  function WatchEvents(bmc: Bmc, polls: nat, hi: int): seq<Event> {
    if TaskUri(bmc) == "" then [] else [Event(Flashing, 30)] + Reported(Replies(bmc), polls, 30, hi)
  }

  /** What is reported from the push to the end of the Task. */
  function PushEvents(bmc: Bmc, polls: nat, hi: int): seq<Event> {
    [Event(Uploading, 10)] + WatchEvents(bmc, polls, hi)
  }

  /** What a successful update has reported. */
  function UpdateEvents(bmc: Bmc, polls: nat): seq<Event> {
    PushEvents(bmc, polls, 80) + [Event(Rebooting, 85), Event(Verifying, 95)]
  }

  /** The same for an HGX update. */
  function HgxEvents(bmc: Bmc, polls: nat): seq<Event> {
    PushEvents(bmc, polls, 90) + [Event(Verifying, 95)]
  }

  lemma PushIsPolled(bmc: Bmc, polls: nat, hi: int)
    ensures PushEvents(bmc, polls, hi) ==
            if TaskUri(bmc) == "" then [Event(Uploading, 10)] else PolledEvents(Replies(bmc), polls, hi)
  {
    if TaskUri(bmc) != "" {
      assert PushEvents(bmc, polls, hi) == PolledEvents(Replies(bmc), polls, hi);
    }
  }

  /**
   The accepted image took: the BMC answered 200 or 204 without a Task, or its Task was seen
   `Completed`, or the Task was lost and the version has moved from a known earlier one. A
   Task the BMC declared failed counts as lost only when the BMC's own text contains
   "unreachable".
   */
  predicate Took(bmc: Bmc, end: Option<End>) {
    if !HasTask(bmc.push) then bmc.push.Pushed? && (bmc.push.status == 200 || bmc.push.status == 204)
    else end == Some(Done) || (VersionMoved(bmc) && end.Some? && SeemsLost(end.value))
  }

  predicate SeemsLost(end: End) {
    end.Unreachable? || (end.Ended? && Contains(Lower(end.detail), LOST))
  }

  /** The image was accepted and took, and nothing after that broke off with an exception. */
  predicate Evidence(bmc: Bmc, end: Option<End>) {
    Accepted(bmc) && Took(bmc, end) && !bmc.resetRaises && !bmc.readBack.Raising?
  }

  datatype Verdict = Confirmed | Denied(message: string) | Broken

  /** The middle of `_do_update`: follow the Task of an accepted image and judge its end. */
  method Watch(bmc: Bmc) returns (verdict: Verdict, events: seq<Event>, polls: nat, end: Option<End>)
    requires bmc.push.Pushed? && Target(bmc).Good?
    requires forall k :: bmc.spent(k) >= 0.0
    ensures end.Some? <==> HasTask(bmc.push)
    ensures end.Some? ==> Polled(Replies(bmc), polls, end.value)
    ensures verdict.Confirmed? <==> Took(bmc, end)
    ensures events == WatchEvents(bmc, polls, 80)
  {
    var uri := TaskUri(bmc);
    TaskIffGiven(bmc);
    if uri == "" {
      verdict := if bmc.push.status == 200 || bmc.push.status == 204 then Confirmed
                 else Denied("Update accepted but BMC returned no Task to monitor");
      return verdict, [], 0, None;
    }
    var e, n, _, reported := PollTask(uri, bmc.tasks(uri), bmc.spent, 30, 80);
    EndMeaning(Replies(bmc), n, e);
    polls, end, events := n, Some(e), [Event(Flashing, 30)] + reported;
    if e.Done? {
      return Confirmed, events, polls, end;
    }
    TransientMeans(e);
    if e.Raised? {
      return Broken, events, polls, end;
    }
    var lost := LooksTransient(e);
    if Target(bmc).value == "" || !lost || Version(bmc.versionBefore).None? {
      return Denied(Message(e)), events, polls, end;
    }
    if bmc.versionAfter.Raising? {
      return Broken, events, polls, end;
    }
    var after := Version(bmc.versionAfter);
    if after.None? || after.value == "" || after == Version(bmc.versionBefore) {
      return Denied(Message(e)), events, polls, end;
    }
    verdict := Confirmed;
  }

  /** The version in the result: the one read back when there is one. */
  function Shown(readBack: Answer<Option<string>>, version: string): Option<string> {
    if readBack.Good? && readBack.value.Some? && readBack.value.value != "" then readBack.value else Some(version)
  }

  /** `_do_update` says ok exactly on evidence, and pushes to an active bank or not at all. */
  method DoUpdate(bmc: Bmc, version: string)
    returns (out: Outcome, pushed: Option<string>, events: seq<Event>, polls: nat, end: Option<End>)
    requires forall k :: bmc.spent(k) >= 0.0
    ensures end.Some? <==> Accepted(bmc) && HasTask(bmc.push)
    ensures end.Some? ==> Polled(Replies(bmc), polls, end.value)
    ensures out.Returned? && out.ok <==> Evidence(bmc, end)
    ensures pushed.Some? <==> Pushing(bmc)
    ensures pushed.Some? ==> Target(bmc) == Good(pushed.value) && ActiveBank(pushed.value)
    ensures events <= UpdateEvents(bmc, polls)
    ensures pushed.Some? ==> [Event(Uploading, 10)] <= events
    ensures end.Some? ==> PushEvents(bmc, polls, 80) <= events
    ensures out.Returned? && out.ok ==> events == UpdateEvents(bmc, polls)
    ensures out.Returned? && out.ok ==> out.versionAfter == Shown(bmc.readBack, version)
  {
    pushed, events, polls, end := None, [], 0, None;
    if bmc.service.Raising? {
      return Crashed, pushed, events, polls, end;
    }
    if bmc.service.Refused? {
      return Returned(false, bmc.service.error, None), pushed, events, polls, end;
    }
    var target := Target(bmc);
    if target.Raising? {
      return Crashed, pushed, events, polls, end;
    }
    if target.Refused? {
      return Returned(false, "No active bank in FirmwareInventory", None), pushed, events, polls, end;
    }
    if bmc.versionBefore.Raising? {
      return Crashed, pushed, events, polls, end;
    }
    TargetIsActive(bmc);
    pushed, events := Some(target.value), [Event(Uploading, 10)];
    if bmc.push.PushRaised? {
      return Crashed, pushed, events, polls, end;
    }
    if bmc.push.PushFailed? {
      return Returned(false, bmc.push.error, None), pushed, events, polls, end;
    }
    var verdict, watched;
    verdict, watched, polls, end := Watch(bmc);
    events := events + watched;
    assert events == PushEvents(bmc, polls, 80);
    if verdict.Broken? {
      return Crashed, pushed, events, polls, end;
    }
    if verdict.Denied? {
      return Returned(false, verdict.message, None), pushed, events, polls, end;
    }
    events := events + [Event(Rebooting, 85)];
    if bmc.resetRaises {
      return Crashed, pushed, events, polls, end;
    }
    events := events + [Event(Verifying, 95)];
    if bmc.readBack.Raising? {
      return Crashed, pushed, events, polls, end;
    }
    var shown := version;
    if bmc.readBack.Good? && bmc.readBack.value.Some? && bmc.readBack.value.value != "" {
      shown := bmc.readBack.value.value;
    }
    out := Returned(true, "", Some(shown));
  }

  /** Version 1 before and 2 after, one BIOS member, and a Task that fails with the given text. */
  function FailingBmc(detail: string, spent: nat -> real): Bmc {
    Bmc(Good(true), Inline(Good(["f/BIOS"])), true, Good(Some("1")), Good(Some("2")), Pushed(202, "/t", ""),
        _ => _ => Task(0, "Exception", detail, Absent), spent, false, Good(None))
  }

  lemma FailingBmcAccepts(detail: string, spent: nat -> real)
    ensures var bmc := FailingBmc(detail, spent);
            Target(bmc) == Good("f/BIOS") && Accepted(bmc) && TaskUri(bmc) == "/t" && VersionMoved(bmc)
  {
    FirmwareTargets.LeafOf("f/", "BIOS");
    assert "f/" + "BIOS" == "f/BIOS";
    assert FirmwareTargets.FirstWithLeaf(["f/BIOS"], "BIOS") == Some("f/BIOS");
    StripClean("/t");
  }

  lemma DpuUnreachable()
    ensures Contains(Lower("DPU unreachable"), LOST)
  {
    var detail := "DPU unreachable";
    assert Lower(detail)[4..4 + |LOST|] == LOST;
    assert At(Lower(detail), LOST, 4);
  }

  /** A Task the BMC declared failed is taken for a success when its own text says "unreachable". */
  lemma FailedTaskTakenForSuccess(spent: nat -> real)
    ensures var bmc, end := FailingBmc("DPU unreachable", spent), Ended("Exception", "DPU unreachable");
            Polled(Replies(bmc), 1, end) && Evidence(bmc, Some(end))
  {
    var bmc, end := FailingBmc("DPU unreachable", spent), Ended("Exception", "DPU unreachable");
    FailingBmcAccepts("DPU unreachable", spent);
    DpuUnreachable();
    assert Final(Replies(bmc)(0)) && EndAt(Replies(bmc), 0) == end;
  }

  predicate HgxEvidence(bmc: Bmc, end: Option<End>) {
    HgxMembersOf(bmc) != [] && bmc.service == Good(true) && bmc.push.Pushed? && end == Some(Done)
  }

  /** The end of `update_hgx`: follow the Task of an accepted push. */
  method WatchHgx(bmc: Bmc) returns (verdict: Verdict, events: seq<Event>, polls: nat, end: Option<End>)
    requires bmc.push.Pushed?
    requires forall k :: bmc.spent(k) >= 0.0
    ensures end.Some? ==> Polled(Replies(bmc), polls, end.value)
    ensures verdict.Confirmed? <==> end == Some(Done)
    ensures events == WatchEvents(bmc, polls, 90)
  {
    var uri := TaskUri(bmc);
    if uri == "" {
      return Denied("HGX update accepted but BMC returned no Task to monitor"), [], 0, None;
    }
    var e, n, _, reported := PollTask(uri, bmc.tasks(uri), bmc.spent, 30, 90);
    polls, end, events := n, Some(e), [Event(Flashing, 30)] + reported;
    verdict := if e.Raised? then Broken else if e.Done? then Confirmed else Denied(Message(e));
  }

  /**
   `update_hgx` says ok exactly when the one multipart push to the selected members was
   accepted, came back with a Task, and that Task was seen `Completed`.
   */
  method UpdateHgx(name: string, bmc: Bmc, version: string)
    returns (out: Outcome, targets: seq<string>, events: seq<Event>, polls: nat, end: Option<End>)
    requires forall k :: bmc.spent(k) >= 0.0
    ensures end.Some? ==> Polled(Replies(bmc), polls, end.value)
    ensures out.Returned? && out.ok <==> HgxEvidence(bmc, end)
    ensures out.Returned? && out.ok ==>
              out.versionAfter == Some(version) && events == HgxEvents(bmc, polls)
    ensures targets == if HgxMembersOf(bmc) != [] && bmc.service == Good(true) then HgxTargets(bmc, name) else []
    ensures out.Returned? && out.ok ==> targets != []
    ensures forall uri | uri in targets :: ActiveBank(uri)
    ensures events <= HgxEvents(bmc, polls)
  {
    targets, events, polls, end := [], [], 0, None;
    HgxTargetsAreActive(bmc, name);
    if HgxMembersOf(bmc) == [] {
      return Returned(false, "No HGX/GPU components in FirmwareInventory", None), targets, events, polls, end;
    }
    if bmc.service.Raising? {
      return Crashed, targets, events, polls, end;
    }
    if bmc.service.Refused? {
      return Returned(false, bmc.service.error, None), targets, events, polls, end;
    }
    if !bmc.service.value {
      return Returned(false, "HGX firmware requires multipart push", None), targets, events, polls, end;
    }
    targets := HgxTargets(bmc, name);
    events := events + [Event(Uploading, 10)];
    if bmc.push.PushRaised? {
      return Crashed, targets, events, polls, end;
    }
    if bmc.push.PushFailed? {
      return Returned(false, bmc.push.error, None), targets, events, polls, end;
    }
    var verdict, watched;
    verdict, watched, polls, end := WatchHgx(bmc);
    events := events + watched;
    assert events == PushEvents(bmc, polls, 90);
    if verdict.Broken? {
      return Crashed, targets, events, polls, end;
    }
    if verdict.Denied? {
      return Returned(false, verdict.message, None), targets, events, polls, end;
    }
    events := events + [Event(Verifying, 95)];
    out := Returned(true, "", Some(version));
  }

  function Uris(ms: seq<HgxRouter.Member>): seq<string> {
    seq(|ms|, i requires 0 <= i < |ms| => ms[i].uri)
  }

  // ---- the whole task -----------------------------------------------------

  datatype Job = Firmware(bmc: Bmc) | Hgx(name: string, bmc: Bmc)

  /** The stored image; `digest` is that of the file now, `None` when there is no file. */
  datatype Image = Image(sha256: string, path: string, digest: Option<string>)

  /** The file is there and has the stored digest, letter case aside. */
  predicate ImageOk(image: Image) {
    && image.sha256 != "" && !StartsWith(image.path, "seed://")
    && image.digest.Some? && Lower(image.digest.value) == Lower(image.sha256)
  }

  /** `_verify_firmware_sha` */
  method VerifyImage(image: Image) returns (ok: bool)
    ensures ok <==> ImageOk(image)
  {
    var expected := Lower(image.sha256);
    if expected == "" {
      return false;
    }
    if StartsWith(image.path, "seed://") {
      return false;
    }
    if image.digest.None? {
      return false;
    }
    var actual := Lower(image.digest.value);
    return actual == expected;
  }

  /**
   What happens before the plugin is called. `pick` is the operator's OEM; `compatible` and
   `ready` are the answers of the plugin's `validate` and of the BMC pre-flight.
   */
  datatype Gates = Gates(task: bool, server: bool, root: string, image: Image, pick: string, plugin: bool,
                         compatible: bool, ready: bool)

  predicate LookedUp(g: Gates) {
    g.task && g.server && g.root != "" && ImageOk(g.image) && Strip(g.pick) != "" && g.plugin
  }

  predicate LetThrough(g: Gates) {
    LookedUp(g) && g.compatible && g.ready
  }

  /** The look-ups of `_real_task`, in its order. */
  method LookUp(g: Gates) returns (ok: bool)
    ensures ok <==> LookedUp(g)
  {
    if !g.task {
      return false;
    }
    if !g.server {
      return false;
    }
    if g.root == "" {
      return false;
    }
    ok := VerifyImage(g.image);
    if !ok {
      return false;
    }
    if Strip(g.pick) == "" {
      return false;
    }
    return g.plugin;
  }

  const FRESH := Event(Queued, 0)

  const OPENING := [FRESH, Event(Precheck, 5), Event(Precheck, 8)]

  lemma PolledAdvances(replies: nat -> Reply, polls: nat, hi: int)
    requires Climbing(replies, polls) && 30 < hi <= 90
    ensures Advancing(PolledEvents(replies, polls, hi))
    ensures forall e | e in PolledEvents(replies, polls, hi) ::
              Rank(Uploading) <= Rank(e.state) <= Rank(Flashing) && 10 <= e.percent <= hi
  {
    ReportedAdvances(replies, polls, 30, hi);
    if LastPercent(replies, polls) >= 0 {
      ScaledInBand(LastPercent(replies, polls), 30, hi);
    }
    JoinAdvances([Event(Uploading, 10), Event(Flashing, 30)], Reported(replies, polls, 30, hi));
  }

  /** What a successful plugin call reports. */
  function PluginEvents(job: Job, polls: nat): seq<Event> {
    if job.Firmware? then UpdateEvents(job.bmc, polls) else HgxEvents(job.bmc, polls)
  }

  const COMPLETING := [Event(Completed, 100), Event(Completed, 100)]

  predicate JobEvidence(job: Job, end: Option<End>) {
    if job.Firmware? then Evidence(job.bmc, end) else HgxEvidence(job.bmc, end)
  }

  method CallPlugin(job: Job, version: string)
    returns (ok: bool, targets: seq<string>, events: seq<Event>, polls: nat, end: Option<End>)
    requires forall k :: job.bmc.spent(k) >= 0.0
    ensures forall uri | uri in targets :: ActiveBank(uri)
    ensures ok ==> targets != []
    ensures events <= PluginEvents(job, polls)
    ensures ok ==> events == PluginEvents(job, polls)
    ensures ok <==> JobEvidence(job, end)
    ensures end.Some? ==> Polled(Replies(job.bmc), polls, end.value)
  {
    var out;
    if job.Firmware? {
      var pushed;
      out, pushed, events, polls, end := DoUpdate(job.bmc, version);
      targets := if pushed.Some? then [pushed.value] else [];
    } else {
      out, targets, events, polls, end := UpdateHgx(job.name, job.bmc, version);
    }
    ok := out.Returned? && out.ok;
  }

  lemma PushAdvances(bmc: Bmc, polls: nat, hi: int)
    requires Climbing(Replies(bmc), polls) && 30 < hi <= 90
    ensures Advancing(PushEvents(bmc, polls, hi))
    ensures forall e | e in PushEvents(bmc, polls, hi) ::
              Rank(Uploading) <= Rank(e.state) <= Rank(Flashing) && 10 <= e.percent <= hi
  {
    PolledAdvances(Replies(bmc), polls, hi);
    PushIsPolled(bmc, polls, hi);
  }

  /** What is reported after the end of polling. */
  function ClosingEvents(job: Job): seq<Event> {
    if job.Firmware? then [Event(Rebooting, 85), Event(Verifying, 95)] else [Event(Verifying, 95)]
  }

  lemma ClosingAdvances(job: Job)
    ensures Advancing(ClosingEvents(job)) && forall e | e in ClosingEvents(job) ::
              Rank(Rebooting) <= Rank(e.state) <= Rank(Verifying) && Band(job) <= e.percent <= 100
  {
  }

  lemma PluginShape(job: Job, polls: nat)
    ensures PluginEvents(job, polls) == PushEvents(job.bmc, polls, Band(job)) + ClosingEvents(job)
  {
  }

  function Band(job: Job): int {
    if job.Firmware? then 80 else 90
  }

  lemma Sandwich(body: seq<Event>, closing: seq<Event>, hi: int)
    requires Advancing(body) && Advancing(closing)
    requires forall e | e in body ::
               Rank(Uploading) <= Rank(e.state) <= Rank(Flashing) && 10 <= e.percent <= hi
    requires forall e | e in closing :: Rank(e.state) >= Rank(Rebooting) && e.percent >= hi && e.percent >= 10
    ensures Advancing(OPENING + body + closing)
  {
    JoinAdvances(OPENING, body);
    JoinAdvances(OPENING + body, closing);
  }

  lemma ClosedAdvances(closing: seq<Event>, lo: int)
    requires Advancing(closing) && lo <= 100
    requires forall e | e in closing :: Rank(Rebooting) <= Rank(e.state) <= Rank(Verifying) && lo <= e.percent <= 100
    ensures Advancing(closing + COMPLETING)
    ensures forall e | e in closing + COMPLETING :: Rank(e.state) >= Rank(Rebooting) && e.percent >= lo
  {
    JoinAdvances(closing, COMPLETING);
  }

  /** The row of a task that succeeds only ever goes forward, from creation to the end. */
  lemma WritesAdvance(job: Job, polls: nat)
    requires Climbing(Replies(job.bmc), polls)
    ensures Advancing(OPENING + PluginEvents(job, polls) + COMPLETING)
  {
    var body, closing := PushEvents(job.bmc, polls, Band(job)), ClosingEvents(job);
    PluginShape(job, polls);
    PushAdvances(job.bmc, polls, Band(job));
    ClosingAdvances(job);
    ClosedAdvances(closing, Band(job));
    Sandwich(body, closing + COMPLETING, Band(job));
    assert OPENING + body + (closing + COMPLETING) == OPENING + (body + closing) + COMPLETING;
  }

  lemma Forward(job: Job, polls: nat, events: seq<Event>)
    requires events <= PluginEvents(job, polls)
    ensures Climbing(Replies(job.bmc), polls) ==>
              Advancing(OPENING + events) && Advancing(OPENING + PluginEvents(job, polls) + COMPLETING)
  {
    if Climbing(Replies(job.bmc), polls) {
      WritesAdvance(job, polls);
      assert OPENING + events <= OPENING + PluginEvents(job, polls) + COMPLETING;
    }
  }

  /**
   `_run_task` around `_real_task`: the task ends `completed`/100 exactly when all gates
   let it through and there is evidence of success, and `failed`/0 otherwise. Whatever it
   pushes, it pushes to active banks. As long as the BMC's percentages climb within 0..100,
   up to its end the row goes forward from its creation without a state going back or a
   percentage falling.
   */
  method RunTask(job: Job, gates: Gates, version: string)
    returns (ok: bool, targets: seq<string>, writes: seq<Event>, polls: nat, end: Option<End>)
    requires forall k :: job.bmc.spent(k) >= 0.0
    ensures writes != []
    ensures ok <==> LetThrough(gates) && JobEvidence(job, end)
    ensures forall uri | uri in targets :: ActiveBank(uri)
    ensures targets != [] ==> LetThrough(gates)
    ensures end.Some? ==> Polled(Replies(job.bmc), polls, end.value)
    ensures writes[|writes| - 1] == if ok then Event(Completed, 100) else Event(Failed, 0)
    ensures !LookedUp(gates) ==> writes == [Event(Failed, 0)]
    ensures LookedUp(gates) && !LetThrough(gates) ==> writes == [Event(Precheck, 5), Event(Failed, 0)]
    ensures LetThrough(gates) ==> [Event(Precheck, 5), Event(Precheck, 8)] <= writes
    ensures ok ==> [FRESH] + writes == OPENING + PluginEvents(job, polls) + COMPLETING
    ensures Climbing(Replies(job.bmc), polls) ==>
              Advancing([FRESH] + if ok then writes else writes[..|writes| - 1])
  {
    targets, polls, writes, end := [], 0, [], None;
    var found := LookUp(gates);
    if !found {
      return false, targets, [Event(Failed, 0)], polls, end;
    }
    writes := [Event(Precheck, 5)];
    if !gates.compatible {
      return false, targets, writes + [Event(Failed, 0)], polls, end;
    }
    if !gates.ready {
      return false, targets, writes + [Event(Failed, 0)], polls, end;
    }
    writes := writes + [Event(Precheck, 8)];
    var events;
    ok, targets, events, polls, end := CallPlugin(job, version);
    Forward(job, polls, events);
    RowWrites(writes, events);
    writes := writes + events + if ok then COMPLETING else [Event(Failed, 0)];
  }

  /** The writes of one task, seen from the row's creation. */
  lemma RowWrites(writes: seq<Event>, events: seq<Event>)
    requires [FRESH] + writes == OPENING
    ensures [FRESH] + (writes + events + COMPLETING) == OPENING + events + COMPLETING
    ensures var w := writes + events + [Event(Failed, 0)];
            [FRESH] + w[..|w| - 1] == OPENING + events
  {
    var w := writes + events + [Event(Failed, 0)];
    assert w[..|w| - 1] == writes + events;
  }
}
