/**
 The server table of data/repositories/servers_repo.py. Addresses are reassigned, so a
 row's manual OEM pick and cached disk list must not outlive the machine they were made
 for. The class holds the rows by id; `Apply` says what each statement does to them, and
 the lemmas speak of whole histories of statements.
 */
module ServersRepo {
  import opened Prelude
  import opened Text

  /** `facts` holds the other columns discovery writes, by column name; NULL is absence. */
  datatype Row = Row(ip: string, serial: Option<string>, facts: map<string, string>,
                     pick: Option<string>, disks: Option<string>)

  type Rows = map<int, Row>

  datatype Op =
    | Upsert(ip: string, serial: Option<string>, facts: map<string, string>)
    | SetPick(id: int, oem: Option<string>)
    | SetDisks(ip: string, json: string)
    | SetStatus(id: int, status: string)
    | SetFingerprint(ip: string, fingerprint: string)
    | Delete(id: int)

  ghost predicate OneRowPerIp(rows: Rows) {
    forall a, b | a in rows && b in rows && rows[a].ip == rows[b].ip :: a == b
  }

  ghost predicate Stored(rows: Rows, ip: string) {
    exists id :: id in rows && rows[id].ip == ip
  }

  ghost function IdOf(rows: Rows, ip: string): (id: int)
    requires Stored(rows, ip)
    ensures id in rows && rows[id].ip == ip
  {
    var id :| id in rows && rows[id].ip == ip;
    id
  }

  /** SQLite's choice for an INTEGER PRIMARY KEY: one more than the largest id in the table. */
  ghost predicate IsNextId(rows: Rows, id: int) {
    if rows == map[] then id == 1 else id - 1 in rows && forall k | k in rows :: k < id
  }

  lemma NextIdExists(ids: set<int>) returns (id: int)
    ensures if ids == {} then id == 1 else id - 1 in ids && forall k | k in ids :: k < id
  {
    id := 1;
    if ids != {} {
      var some := Inhabited(ids);
      var rest := NextIdExists(ids - {some});
      id := if ids == {some} || some >= rest then some + 1 else rest;
      assert forall k | k in ids :: k == some || k in ids - {some};
    }
  }

  ghost function NextId(rows: Rows): (id: int)
    ensures IsNextId(rows, id) && id !in rows
  {
    assert exists id :: IsNextId(rows, id) by {
      var id := NextIdExists(rows.Keys);
      assert IsNextId(rows, id);
    }
    var id :| IsNextId(rows, id);
    id
  }

  // ---- one statement ------------------------------------------------------

  /** The serial as the comparison sees it. */
  function Known(serial: Option<string>): string {
    if serial.Some? then Strip(serial.value) else ""
  }

  /** Both serials are known and differ. */
  predicate HardwareChanged(before: Option<string>, now: Option<string>) {
    Known(before) != "" && Known(now) != "" && Known(before) != Known(now)
  }

  function Rediscovered(row: Row, serial: Option<string>, facts: map<string, string>): Row {
    var fresher := row.(serial := serial, facts := facts);
    if HardwareChanged(row.serial, serial) then fresher.(pick := None, disks := None) else fresher
  }

  ghost function Apply(rows: Rows, op: Op): Rows {
    match op
    case Upsert(ip, serial, facts) =>
      if Stored(rows, ip) then rows[IdOf(rows, ip) := Rediscovered(rows[IdOf(rows, ip)], serial, facts)]
      else rows[NextId(rows) := Row(ip, serial, facts, None, None)]
    case SetPick(id, oem) => if id in rows then rows[id := rows[id].(pick := oem)] else rows
    case SetDisks(ip, json) =>
      if Stored(rows, ip) then rows[IdOf(rows, ip) := rows[IdOf(rows, ip)].(disks := Some(json))] else rows
    case SetStatus(id, status) =>
      if id in rows then rows[id := rows[id].(facts := rows[id].facts["status" := status])] else rows
    case SetFingerprint(ip, fingerprint) =>
      if Stored(rows, ip)
      then rows[IdOf(rows, ip) := rows[IdOf(rows, ip)].(facts := rows[IdOf(rows, ip)].facts["tls_fpr" := fingerprint])]
      else rows
    case Delete(id) => rows - {id}
  }

  lemma ApplyKeepsOneRowPerIp(rows: Rows, op: Op)
    requires OneRowPerIp(rows)
    ensures OneRowPerIp(Apply(rows, op))
  {
  }

  /** The id of an address is settled by the table. */
  lemma IdOfIs(rows: Rows, id: int)
    requires OneRowPerIp(rows) && id in rows
    ensures Stored(rows, rows[id].ip) && IdOf(rows, rows[id].ip) == id
  {
  }

  /** Seeing the serial that is stored, or none, leaves the pick and the disk list alone. */
  lemma RediscoveryKeepsUnlessChanged(row: Row, serial: Option<string>, facts: map<string, string>)
    ensures var r := Rediscovered(row, serial, facts);
      if Known(row.serial) == "" || Known(serial) == "" || Known(row.serial) == Known(serial)
      then r.pick == row.pick && r.disks == row.disks
      else r.pick == None && r.disks == None
  {
  }

  class ServersRepo {
    var rows: Rows

    constructor ()
      ensures rows == map[]
    {
      rows := map[];
    }

    method NextRowId() returns (id: int)
      ensures id == NextId(rows)
    {
      id := 1;
      var rest := rows.Keys;
      while rest != {}
        invariant rest <= rows.Keys
        invariant forall k | k in rows :: k in rest || k < id
        invariant rest == rows.Keys ==> id == 1
        invariant rest != rows.Keys ==> id - 1 in rows
        decreases rest
      {
        ghost var some := Inhabited(rest);
        var k :| k in rest;
        id := if rest == rows.Keys || k >= id then k + 1 else id;
        rest := rest - {k};
      }
      assert IsNextId(rows, id);
    }

    method Upsert(ip: string, serial: Option<string>, facts: map<string, string>) returns (id: int)
      requires OneRowPerIp(rows)
      modifies this
      ensures OneRowPerIp(rows)
      ensures rows == Apply(old(rows), Op.Upsert(ip, serial, facts))
      ensures id in rows && rows[id].ip == ip && rows[id].serial == serial && rows[id].facts == facts
      ensures forall k | k in old(rows) && k != id :: k in rows && rows[k] == old(rows)[k]
      ensures Stored(old(rows), ip) ==> id in old(rows)
    {
      ApplyKeepsOneRowPerIp(rows, Op.Upsert(ip, serial, facts));
      if some :| some in rows && rows[some].ip == ip {
        IdOfIs(rows, some);
        rows := rows[some := Rediscovered(rows[some], serial, facts)];
        id := some;
      } else {
        id := NextRowId();
        rows := rows[id := Row(ip, serial, facts, None, None)];
      }
    }

    method SetOemOverride(id: int, oem: Option<string>) returns (found: bool)
      modifies this
      ensures rows == Apply(old(rows), SetPick(id, oem))
      ensures found == (id in old(rows))
    {
      found := id in rows;
      if found {
        rows := rows[id := rows[id].(pick := oem)];
      }
    }

    method SetDisksByIp(ip: string, json: string) returns (found: bool)
      requires OneRowPerIp(rows)
      modifies this
      ensures OneRowPerIp(rows)
      ensures rows == Apply(old(rows), SetDisks(ip, json))
      ensures found == Stored(old(rows), ip)
    {
      ApplyKeepsOneRowPerIp(rows, SetDisks(ip, json));
      if id :| id in rows && rows[id].ip == ip {
        IdOfIs(rows, id);
        rows := rows[id := rows[id].(disks := Some(json))];
        found := true;
      } else {
        found := false;
      }
    }

    method DeleteRow(id: int)
      modifies this
      ensures rows == Apply(old(rows), Delete(id))
    {
      rows := rows - {id};
    }
  }

  // ---- histories ----------------------------------------------------------

  /** `t` lists the tables before, between and after the statements `h`, from an empty one. */
  ghost predicate Runs(h: seq<Op>, t: seq<Rows>) {
    && |t| == |h| + 1
    && t[0] == map[]
    && forall n | 0 <= n < |h| :: t[n + 1] == Apply(t[n], h[n])
  }

  lemma {:induction false} AlwaysOneRowPerIp(h: seq<Op>, t: seq<Rows>, n: nat)
    requires Runs(h, t) && n <= |h|
    ensures OneRowPerIp(t[n])
  {
    if n > 0 {
      AlwaysOneRowPerIp(h, t, n - 1);
      ApplyKeepsOneRowPerIp(t[n - 1], h[n - 1]);
    }
  }

  lemma IdSurvives(rows: Rows, op: Op, id: int)
    requires id in rows && op != Delete(id)
    ensures id in Apply(rows, op) && Apply(rows, op)[id].ip == rows[id].ip
  {
  }

  /** A row keeps its id and its address for as long as it is not deleted. */
  lemma {:induction false} IdsAreStable(h: seq<Op>, t: seq<Rows>, m: nat, n: nat, id: int)
    requires Runs(h, t) && m <= n <= |h| && id in t[m]
    requires forall k | m <= k < n :: h[k] != Delete(id)
    ensures id in t[n] && t[n][id].ip == t[m][id].ip
    decreases n
  {
    if m < n {
      IdsAreStable(h, t, m, n - 1, id);
      IdSurvives(t[n - 1], h[n - 1], id);
    }
  }

  // ---- what is bound to the machine ---------------------------------------

  /** The two things a row remembers about the machine behind its address. */
  datatype Kind = ManualPick | DiskList

  function Bound(row: Row, kind: Kind): Option<string> {
    if kind == ManualPick then row.pick else row.disks
  }

  predicate Writes(rows: Rows, op: Op, id: int, kind: Kind, value: string) {
    && id in rows
    && op == if kind == ManualPick then SetPick(id, Some(value)) else SetDisks(rows[id].ip, value)
  }

  /** The statement records a discovery of the row's address. */
  predicate Sees(rows: Rows, op: Op, id: int) {
    op.Upsert? && id in rows && rows[id].ip == op.ip
  }

  /** Two serials that are known, white space at their ends aside, and differ. */
  predicate OtherHardware(before: Option<string>, now: Option<string>) {
    && before.Some? && now.Some? && Strip(before.value) != "" && Strip(now.value) != ""
    && Strip(before.value) != Strip(now.value)
  }

  /** The statements that may change what is bound: a write, a deletion, other hardware seen. */
  predicate Touches(rows: Rows, op: Op, id: int, kind: Kind) {
    || op == Delete(id)
    || (Sees(rows, op, id) && OtherHardware(rows[id].serial, op.serial))
    || (if kind == ManualPick then op.SetPick? && op.id == id
        else op.SetDisks? && id in rows && op.ip == rows[id].ip)
  }

  ghost predicate Holds(rows: Rows, id: int, kind: Kind, value: string) {
    id in rows && Bound(rows[id], kind) == Some(value)
  }

  lemma StepOfBound(rows: Rows, op: Op, id: int, kind: Kind, value: string)
    requires OneRowPerIp(rows)
    ensures Holds(Apply(rows, op), id, kind, value)
      <==> Writes(rows, op, id, kind, value) || (Holds(rows, id, kind, value) && !Touches(rows, op, id, kind))
  {
    if id in rows {
      IdOfIs(rows, id);
      if Sees(rows, op, id) {
        RediscoveryKeepsUnlessChanged(rows[id], op.serial, op.facts);
      }
    }
  }

  /** The other columns: a discovery overwrites them, the status and the fingerprint have a statement each. */
  lemma ColumnsStep(rows: Rows, op: Op, id: int)
    requires OneRowPerIp(rows) && id in rows && op != Delete(id)
    ensures id in Apply(rows, op)
    ensures var row, row' := rows[id], Apply(rows, op)[id];
            && row'.ip == row.ip
            && row'.serial == (if Sees(rows, op, id) then op.serial else row.serial)
            && row'.facts == (if Sees(rows, op, id) then op.facts
                              else if op.SetStatus? && op.id == id then row.facts["status" := op.status]
                              else if op.SetFingerprint? && op.ip == row.ip
                              then row.facts["tls_fpr" := op.fingerprint]
                              else row.facts)
  {
    IdOfIs(rows, id);
  }

  /** The rows there are: a discovery of a new address adds one, a deletion takes one away. */
  lemma RowsStep(rows: Rows, op: Op)
    ensures Apply(rows, op).Keys ==
            match op
            case Upsert(ip, _, _) => if Stored(rows, ip) then rows.Keys else rows.Keys + {NextId(rows)}
            case Delete(id) => rows.Keys - {id}
            case _ => rows.Keys
  {
  }

  /** Statement `k` wrote it and none from there to `n` touched it. */
  ghost predicate Kept(h: seq<Op>, t: seq<Rows>, k: int, n: int, id: int, kind: Kind, value: string)
    requires |t| == |h| + 1 && n <= |h|
  {
    && 0 <= k < n
    && Writes(t[k], h[k], id, kind, value)
    && forall m | k < m < n :: !Touches(t[m], h[m], id, kind)
  }

  /**
   A pick or disk list is there exactly when some statement wrote it and nothing since then
   wrote it again, deleted the row or saw other hardware.
   */
  lemma {:induction false} BoundIffKept(h: seq<Op>, t: seq<Rows>, n: nat, id: int, kind: Kind, value: string)
    requires Runs(h, t) && n <= |h|
    ensures Holds(t[n], id, kind, value) <==> KeptBySome(h, t, n, id, kind, value)
  {
    if n > 0 {
      AlwaysOneRowPerIp(h, t, n - 1);
      StepOfBound(t[n - 1], h[n - 1], id, kind, value);
      BoundIffKept(h, t, n - 1, id, kind, value);
      KeptOneMore(h, t, n, id, kind, value);
    }
  }

  ghost predicate KeptBySome(h: seq<Op>, t: seq<Rows>, n: int, id: int, kind: Kind, value: string)
    requires |t| == |h| + 1 && n <= |h|
  {
    exists k :: Kept(h, t, k, n, id, kind, value)
  }

  lemma KeptOneMore(h: seq<Op>, t: seq<Rows>, n: nat, id: int, kind: Kind, value: string)
    requires |t| == |h| + 1 && 0 < n <= |h|
    ensures KeptBySome(h, t, n, id, kind, value) <==>
              || Writes(t[n - 1], h[n - 1], id, kind, value)
              || (KeptBySome(h, t, n - 1, id, kind, value) && !Touches(t[n - 1], h[n - 1], id, kind))
  {
    var m := n - 1;
    if Writes(t[m], h[m], id, kind, value) {
      assert Kept(h, t, m, n, id, kind, value);
    }
    if KeptBySome(h, t, m, id, kind, value) && !Touches(t[m], h[m], id, kind) {
      var k :| Kept(h, t, k, m, id, kind, value);
      assert Kept(h, t, k, n, id, kind, value);
    }
    if KeptBySome(h, t, n, id, kind, value) {
      var k :| Kept(h, t, k, n, id, kind, value);
      if k < m {
        assert Kept(h, t, k, m, id, kind, value);
      }
    }
  }

  // ---- the machine behind the address -------------------------------------

  /** The last discovery of the row's address before step `n`; -1 when there was none. */
  ghost function LastSeen(h: seq<Op>, t: seq<Rows>, n: nat, id: int): int
    requires |t| == |h| + 1 && n <= |h|
  {
    if n == 0 then -1
    else if h[n - 1].Upsert? && id in t[n] && t[n][id].ip == h[n - 1].ip then n - 1
    else LastSeen(h, t, n - 1, id)
  }

  lemma UnseenRowKept(rows: Rows, op: Op, id: int)
    requires OneRowPerIp(rows) && id in Apply(rows, op)
    requires !(op.Upsert? && Apply(rows, op)[id].ip == op.ip)
    ensures id in rows && Apply(rows, op)[id].serial == rows[id].serial && Apply(rows, op)[id].ip == rows[id].ip
  {
  }

  lemma SeenRowShows(rows: Rows, op: Op, id: int)
    requires OneRowPerIp(rows) && op.Upsert? && id in Apply(rows, op) && Apply(rows, op)[id].ip == op.ip
    ensures Apply(rows, op)[id].serial == op.serial
  {
    ApplyKeepsOneRowPerIp(rows, op);
  }

  /** A row shows what its last discovery reported. */
  lemma {:induction false} RowShowsLastSeen(h: seq<Op>, t: seq<Rows>, n: nat, id: int)
    requires Runs(h, t) && n <= |h| && id in t[n]
    ensures var i := LastSeen(h, t, n, id);
            0 <= i < n && h[i].Upsert? && h[i].serial == t[n][id].serial && h[i].ip == t[n][id].ip
  {
    if n > 0 {
      AlwaysOneRowPerIp(h, t, n - 1);
      if h[n - 1].Upsert? && t[n][id].ip == h[n - 1].ip {
        SeenRowShows(t[n - 1], h[n - 1], id);
      } else {
        UnseenRowKept(t[n - 1], h[n - 1], id);
        RowShowsLastSeen(h, t, n - 1, id);
      }
    }
  }

  /**
   `who` says which machine answered each discovery, in line with what was reported: a known
   serial belongs to one machine, and a machine has one serial. It may keep it to itself.
   */
  ghost predicate InLine(h: seq<Op>, who: seq<int>) {
    && |who| == |h|
    && forall i, j | 0 <= i < |h| && 0 <= j < |h| && Names(h[i]) && Names(h[j]) ::
         Known(h[i].serial) == Known(h[j].serial) <==> who[i] == who[j]
  }

  predicate Names(op: Op) {
    op.Upsert? && Known(op.serial) != ""
  }

  /** The first discovery that reported the same known serial. */
  function FirstAlike(h: seq<Op>, i: nat, n: nat): nat
    requires n <= i < |h|
    decreases i - n
  {
    if n < i && !(Names(h[n]) && h[i].Upsert? && Known(h[n].serial) == Known(h[i].serial))
    then FirstAlike(h, i, n + 1)
    else n
  }

  lemma {:induction false} FirstAlikeMeaning(h: seq<Op>, i: nat, n: nat)
    requires n <= i < |h|
    ensures var f := FirstAlike(h, i, n);
            && n <= f <= i
            && (f < i ==> Names(h[f]) && h[i].Upsert? && Known(h[f].serial) == Known(h[i].serial))
            && forall m | n <= m < f :: !(Names(h[m]) && h[i].Upsert? && Known(h[m].serial) == Known(h[i].serial))
    decreases i - n
  {
    if n < i && !(Names(h[n]) && h[i].Upsert? && Known(h[n].serial) == Known(h[i].serial)) {
      FirstAlikeMeaning(h, i, n + 1);
    }
  }

  /** As many machines as the reports allow: each blank discovery is a machine of its own. */
  function AllDifferent(h: seq<Op>): seq<int> {
    seq(|h|, i requires 0 <= i < |h| => FirstAlike(h, i, 0))
  }

  lemma AllDifferentTells(h: seq<Op>, i: nat, j: nat)
    requires i < |h| && j < |h| && h[i].Upsert? && h[j].Upsert?
    ensures AllDifferent(h)[i] == AllDifferent(h)[j] <==>
            i == j || (Names(h[i]) && Names(h[j]) && Known(h[i].serial) == Known(h[j].serial))
  {
    FirstAlikeMeaning(h, i, 0);
    FirstAlikeMeaning(h, j, 0);
  }

  lemma AllDifferentIsInLine(h: seq<Op>)
    ensures InLine(h, AllDifferent(h))
  {
    forall i, j | 0 <= i < |h| && 0 <= j < |h| && Names(h[i]) && Names(h[j])
      ensures Known(h[i].serial) == Known(h[j].serial) <==> AllDifferent(h)[i] == AllDifferent(h)[j]
    {
      AllDifferentTells(h, i, j);
    }
  }

  /** The machine seen last at step `k` is the one seen last at step `n`. */
  ghost predicate SameMachine(h: seq<Op>, t: seq<Rows>, who: seq<int>, k: nat, n: nat, id: int)
    requires |t| == |h| + 1 == |who| + 1 && k <= n <= |h|
  {
    var i, j := LastSeen(h, t, k, id), LastSeen(h, t, n, id);
    0 <= i < |h| && 0 <= j < |h| && who[i] == who[j]
  }

  /**
   What the table shows of it at the two moments: no discovery in between, or one known
   serial at both. What was shown in between does not matter.
   */
  ghost predicate ShownSame(h: seq<Op>, t: seq<Rows>, k: nat, n: nat, id: int)
    requires |t| == |h| + 1 && k <= n <= |h| && id in t[k] && id in t[n]
  {
    || LastSeen(h, t, k, id) == LastSeen(h, t, n, id)
    || (Known(t[k][id].serial) != "" && Known(t[k][id].serial) == Known(t[n][id].serial))
  }

  /**
   A row surely stands for the machine it stood for at step `k`, whatever machines the
   reports leave possible, if and only if it was not discovered since, or shows the known
   serial it showed then. So a value written at step `k` and still there is for the machine
   now behind the address exactly under that condition.
   */
  lemma SurelySameMachineIff(h: seq<Op>, t: seq<Rows>, k: nat, n: nat, id: int)
    requires Runs(h, t) && k <= n <= |h| && id in t[k] && id in t[n]
    ensures (forall who | InLine(h, who) :: SameMachine(h, t, who, k, n, id)) <==> ShownSame(h, t, k, n, id)
  {
    var i, j := LastSeen(h, t, k, id), LastSeen(h, t, n, id);
    RowShowsLastSeen(h, t, k, id);
    RowShowsLastSeen(h, t, n, id);
    AllDifferentIsInLine(h);
    AllDifferentTells(h, i, j);
    if !ShownSame(h, t, k, n, id) {
      assert !SameMachine(h, t, AllDifferent(h), k, n, id);
    }
  }

  // ---- when every discovery names a serial --------------------------------

  ghost predicate SerialsNamed(h: seq<Op>) {
    forall m | 0 <= m < |h| && h[m].Upsert? :: Known(h[m].serial) != ""
  }

  /** What the row shows after a statement that wrote or left alone what is bound to it. */
  lemma SightingStep(rows: Rows, op: Op, id: int, kind: Kind, value: string)
    requires OneRowPerIp(rows) && id in rows
    requires Writes(rows, op, id, kind, value) || !Touches(rows, op, id, kind)
    ensures id in Apply(rows, op) && Apply(rows, op)[id].ip == rows[id].ip
    ensures Apply(rows, op)[id].serial == if Sees(rows, op, id) then op.serial else rows[id].serial
  {
    IdOfIs(rows, id);
  }

  /** With a known serial shown, a named discovery that changes nothing bound shows the same one. */
  lemma KnownStaysStep(rows: Rows, op: Op, id: int, kind: Kind, value: string)
    requires OneRowPerIp(rows) && id in rows && Known(rows[id].serial) != ""
    requires op.Upsert? ==> Known(op.serial) != ""
    requires Writes(rows, op, id, kind, value) || !Touches(rows, op, id, kind)
    ensures id in Apply(rows, op) && Known(Apply(rows, op)[id].serial) == Known(rows[id].serial)
  {
    SightingStep(rows, op, id, kind, value);
  }

  lemma KnownStep(rows: Rows, op: Op, id: int)
    requires id in Apply(rows, op)
    requires id in rows ==> Known(rows[id].serial) != ""
    requires op.Upsert? ==> Known(op.serial) != ""
    ensures Known(Apply(rows, op)[id].serial) != ""
  {
  }

  lemma {:induction false} StoredSerialsAreKnown(h: seq<Op>, t: seq<Rows>, n: nat, id: int)
    requires Runs(h, t) && SerialsNamed(h) && n <= |h| && id in t[n]
    ensures Known(t[n][id].serial) != ""
  {
    if n > 0 {
      if id in t[n - 1] {
        StoredSerialsAreKnown(h, t, n - 1, id);
      }
      KnownStep(t[n - 1], h[n - 1], id);
    }
  }

  lemma {:induction false} KeptShowsOneSerial(h: seq<Op>, t: seq<Rows>, k: nat, n: nat, id: int, kind: Kind,
                                              value: string, m: nat)
    requires Runs(h, t) && SerialsNamed(h) && n <= |h| && Kept(h, t, k, n, id, kind, value) && k <= m <= n
    ensures id in t[k] && id in t[m] && Known(t[k][id].serial) != ""
    ensures Known(t[m][id].serial) == Known(t[k][id].serial)
    decreases m
  {
    StoredSerialsAreKnown(h, t, k, id);
    if m > k {
      KeptShowsOneSerial(h, t, k, n, id, kind, value, m - 1);
      AlwaysOneRowPerIp(h, t, m - 1);
      KnownStaysStep(t[m - 1], h[m - 1], id, kind, value);
    }
  }

  /**
   If every discovery carries a serial, any pick or disk list present was written for the
   machine now behind its address, whatever machines the reports leave possible.
   */
  lemma BoundIsForThisMachine(h: seq<Op>, t: seq<Rows>, n: nat, id: int, kind: Kind, value: string) returns (k: nat)
    requires Runs(h, t) && SerialsNamed(h) && n <= |h| && Holds(t[n], id, kind, value)
    ensures k < n && Kept(h, t, k, n, id, kind, value)
    ensures id in t[k] && Known(t[k][id].serial) == Known(t[n][id].serial) != ""
    ensures forall who | InLine(h, who) :: SameMachine(h, t, who, k, n, id)
  {
    BoundIffKept(h, t, n, id, kind, value);
    k :| Kept(h, t, k, n, id, kind, value);
    KeptShowsOneSerial(h, t, k, n, id, kind, value, n);
    SurelySameMachineIff(h, t, k, n, id);
  }

  // ---- what may still happen to a value ------------------------------------

  /** `t` lists the tables of a history that starts from `rows`. */
  ghost predicate Continues(rows: Rows, h: seq<Op>, t: seq<Rows>) {
    && |t| == |h| + 1
    && t[0] == rows
    && forall n | 0 <= n < |h| :: t[n + 1] == Apply(t[n], h[n])
  }

  /** No statement of the history writes the value into the row. */
  ghost predicate Unwritten(h: seq<Op>, t: seq<Rows>, id: int, kind: Kind, value: string)
    requires |t| == |h| + 1
  {
    forall n | 0 <= n < |h| :: !Writes(t[n], h[n], id, kind, value)
  }

  /** The value came through the history and now stands under another serial. */
  ghost predicate Strayed(rows: Rows, h: seq<Op>, t: seq<Rows>, id: int, kind: Kind, value: string)
    requires |t| == |h| + 1 && id in rows
  {
    && Unwritten(h, t, id, kind, value) && Holds(t[|h|], id, kind, value)
    && Known(t[|h|][id].serial) != Known(rows[id].serial)
  }

  lemma {:induction false} UnwrittenShowsOneSerial(rows: Rows, h: seq<Op>, t: seq<Rows>, id: int, kind: Kind,
                                                   value: string, n: nat)
    requires OneRowPerIp(rows) && id in rows && Known(rows[id].serial) != ""
    requires Continues(rows, h, t) && SerialsNamed(h) && Unwritten(h, t, id, kind, value) && n <= |h|
    ensures OneRowPerIp(t[n])
    ensures Holds(t[n], id, kind, value) ==> Known(t[n][id].serial) == Known(rows[id].serial)
  {
    if n > 0 {
      UnwrittenShowsOneSerial(rows, h, t, id, kind, value, n - 1);
      ApplyKeepsOneRowPerIp(t[n - 1], h[n - 1]);
      StepOfBound(t[n - 1], h[n - 1], id, kind, value);
      if Holds(t[n], id, kind, value) {
        KnownStaysStep(t[n - 1], h[n - 1], id, kind, value);
      }
    }
  }

  /**
   A value in a row can never come to stand under another serial, as long as discoveries
   carry one, if and only if the row shows a known serial now.
   */
  lemma NeverStraysIff(rows: Rows, id: int, kind: Kind, value: string)
    requires OneRowPerIp(rows) && Holds(rows, id, kind, value)
    ensures (forall h, t | Continues(rows, h, t) && SerialsNamed(h) :: !Strayed(rows, h, t, id, kind, value))
            <==> Known(rows[id].serial) != ""
  {
    if Known(rows[id].serial) != "" {
      forall h, t | Continues(rows, h, t) && SerialsNamed(h)
        ensures !Strayed(rows, h, t, id, kind, value)
      {
        if Unwritten(h, t, id, kind, value) {
          UnwrittenShowsOneSerial(rows, h, t, id, kind, value, |h|);
        }
      }
    } else {
      var h := [Upsert(rows[id].ip, Some("X"), map[])];
      var t := [rows, Apply(rows, h[0])];
      IdOfIs(rows, id);
      XIsKnown();
      assert Continues(rows, h, t) && SerialsNamed(h);
      assert Strayed(rows, h, t, id, kind, value);
    }
  }

  lemma XIsKnown()
    ensures Known(Some("X")) == "X" && Known(None) == "" && Known(Some("Y")) == "Y"
  {
    StripClean("X");
    StripClean("Y");
  }

  /** One blank discovery and one of another machine suffice to make any value stray. */
  lemma BlankLetsStray(rows: Rows, id: int, kind: Kind, value: string) returns (h: seq<Op>, t: seq<Rows>)
    requires OneRowPerIp(rows) && Holds(rows, id, kind, value)
    ensures Continues(rows, h, t) && Strayed(rows, h, t, id, kind, value)
  {
    var other := if Known(rows[id].serial) == "X" then "Y" else "X";
    h := [Upsert(rows[id].ip, None, map[]), Upsert(rows[id].ip, Some(other), map[])];
    t := [rows, Apply(rows, h[0]), Apply(Apply(rows, h[0]), h[1])];
    XIsKnown();
    IdOfIs(rows, id);
    ApplyKeepsOneRowPerIp(rows, h[0]);
    IdOfIs(t[1], id);
  }

  function SwapBehindBlank(ip: string, facts: map<string, string>): seq<Op> {
    [Upsert(ip, Some("A"), facts), SetPick(1, Some("dell")),
     Upsert(ip, None, facts), Upsert(ip, Some("B"), facts)]
  }

  /** Without serials it fails: one blank discovery, and a pick outlives its machine. */
  lemma BlankSerialLeavesStalePick(ip: string, facts: map<string, string>, t: seq<Rows>)
    requires Runs(SwapBehindBlank(ip, facts), t)
    ensures t[1] == map[1 := Row(ip, Some("A"), facts, None, None)]
    ensures t[4] == map[1 := Row(ip, Some("B"), facts, Some("dell"), None)]
  {
    var h := SwapBehindBlank(ip, facts);
    assert t[0 + 1] == Apply(t[0], h[0]);
    assert IsNextId(t[0], NextId(t[0]));
    assert t[1 + 1] == Apply(t[1], h[1]);
    IdOfIs(t[2], 1);
    assert t[2 + 1] == Apply(t[2], h[2]);
    IdOfIs(t[3], 1);
    assert t[3 + 1] == Apply(t[3], h[3]);
  }
}
