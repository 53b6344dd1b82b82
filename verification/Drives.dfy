/**
 The disk inventory entry of core/models/drive.py, and the labelling pass of
 `get_storage_inventory` (plugins/generic_redfish/plugin.py) that makes every drive
 selectable by name.
 */
module Drives {
  import opened Prelude
  import opened Text
  import opened Numerals
  import opened Sorting

  datatype Drive = Drive(name: string, protocol: string, mediaType: string, capacity: int,
                         model: string, serial: string, slot: Option<string>, uri: string)

  function Names(ds: seq<Drive>): (names: seq<string>)
    ensures |names| == |ds| && forall i | 0 <= i < |ds| :: names[i] == ds[i].name
  {
    seq(|ds|, i requires 0 <= i < |ds| => ds[i].name)
  }

  /** `Counter(d.name for d in raw)[name] > 1`. */
  predicate Ambiguous(raw: seq<Drive>, name: string) {
    multiset(Names(raw))[name] > 1
  }

  // ---- labels -------------------------------------------------------------

  function Base(d: Drive, size: string): string {
    d.name + " (" + size + ")"
  }

  function Numbered(base: string, n: nat): string {
    base + " #" + Decimal(n)
  }

  function SerialTail(d: Drive): string {
    if |d.serial| <= 6 then d.serial else d.serial[|d.serial| - 6..]
  }

  function WithTail(d: Drive, size: string): string {
    if SerialTail(d) == "" then Base(d, size)
    else d.name + " (" + size + ", " + SerialTail(d) + ")"
  }

  /** The least free number from `n` on. It exists because `emitted` is finite. */
  function FirstFree(base: string, n: nat, emitted: set<string>): nat
    decreases emitted
  {
    if Numbered(base, n) in emitted then FirstFree(base, n + 1, emitted - {Numbered(base, n)}) else n
  }

  function Label(d: Drive, size: string, emitted: set<string>): string {
    if Base(d, size) !in emitted then Base(d, size)
    else if WithTail(d, size) !in emitted then WithTail(d, size)
    else Numbered(Base(d, size), FirstFree(Base(d, size), 2, emitted))
  }

  lemma NumberedInjective(base: string, m: nat, n: nat)
    requires Numbered(base, m) == Numbered(base, n)
    ensures m == n
  {
    assert Decimal(m) == Numbered(base, m)[|base| + 2..] == Numbered(base, n)[|base| + 2..] == Decimal(n);
    DecimalInjective(m, n);
  }

  /** The number found is free, and every smaller one from `n` on is taken. */
  lemma {:induction false} FirstFreeMeaning(base: string, n: nat, emitted: set<string>)
    ensures var m := FirstFree(base, n, emitted);
            && n <= m && Numbered(base, m) !in emitted
            && forall k | n <= k < m :: Numbered(base, k) in emitted
    decreases emitted
  {
    if Numbered(base, n) in emitted {
      var rest := emitted - {Numbered(base, n)};
      FirstFreeMeaning(base, n + 1, rest);
      var m := FirstFree(base, n + 1, rest);
      if Numbered(base, m) == Numbered(base, n) {
        NumberedInjective(base, m, n);
      }
    }
  }

  /** A label is never one that was handed out before, and it shows where it came from. */
  lemma LabelIsFresh(d: Drive, size: string, emitted: set<string>)
    ensures Label(d, size, emitted) !in emitted
    ensures d.name + " (" <= Label(d, size, emitted)
  {
    FirstFreeMeaning(Base(d, size), 2, emitted);
    assert d.name + " (" <= Base(d, size) && d.name + " (" <= WithTail(d, size);
    assert Base(d, size) <= Numbered(Base(d, size), FirstFree(Base(d, size), 2, emitted));
  }

  /** The last six characters, or all when there are fewer. */
  predicate IsTail(tail: string, serial: string) {
    EndsWith(serial, tail) && |tail| == if |serial| < 6 then |serial| else 6
  }

  /**
   The label is the name with the size; if that is taken and there is a serial, its tail comes
   with it; if that is taken too, the size label with the least free number from 2 on.
   */
  lemma LabelReads(d: Drive, size: string, emitted: set<string>) returns (tail: string)
    ensures IsTail(tail, d.serial)
    ensures var sized, got := d.name + " (" + size + ")", Label(d, size, emitted);
            var tailed := if tail == "" then sized else d.name + " (" + size + ", " + tail + ")";
            if sized !in emitted then got == sized
            else if tailed !in emitted then got == tailed
            else exists n :: LeastFree(sized + " #", n, emitted) && got == sized + " #" + Decimal(n)
  {
    tail := SerialTail(d);
    FirstFreeMeaning(Base(d, size), 2, emitted);
    var sized, n := d.name + " (" + size + ")", FirstFree(Base(d, size), 2, emitted);
    forall k
      ensures Numbered(Base(d, size), k) == sized + " #" + Decimal(k)
    {
    }
    assert LeastFree(sized + " #", n, emitted);
  }

  predicate LeastFree(head: string, n: nat, emitted: set<string>) {
    2 <= n && head + Decimal(n) !in emitted && forall k | 2 <= k < n :: head + Decimal(k) in emitted
  }

  // ---- the pass -----------------------------------------------------------

  /** The loop's variables: URIs seen, labels handed out, drives so far. */
  datatype Acc = Acc(seen: set<string>, emitted: set<string>, result: seq<Drive>)

  function Step(acc: Acc, d: Drive, ambiguous: bool, size: string): Acc {
    if d.uri != "" && d.uri in acc.seen then acc
    else
      var name := if ambiguous then Label(d, size, acc.emitted) else d.name;
      Acc(if d.uri != "" then acc.seen + {d.uri} else acc.seen,
          acc.emitted + {name}, acc.result + [d.(name := name)])
  }

  /** The loop after the first `n` raw drives; `size` writes a capacity for people. */
  function Labelled(raw: seq<Drive>, size: int -> string, n: nat): Acc
    requires n <= |raw|
  {
    if n == 0 then Acc({}, {}, [])
    else
      Step(Labelled(raw, size, n - 1), raw[n - 1], Ambiguous(raw, raw[n - 1].name),
           size(raw[n - 1].capacity))
  }

  predicate ByName(a: Drive, b: Drive) {
    LexLe(a.name, b.name)
  }

  /** The inventory as returned: labelled, then sorted by name. */
  function Inventory(raw: seq<Drive>, size: int -> string): seq<Drive> {
    Sort(ByName, Labelled(raw, size, |raw|).result)
  }

  method ChooseLabel(d: Drive, size: string, emitted: set<string>) returns (final: string)
    ensures final == Label(d, size, emitted)
  {
    final := Base(d, size);
    if final in emitted {
      final := WithTail(d, size);
      var n := 2;
      ghost var pending := emitted;
      FirstFreeMeaning(Base(d, size), 2, emitted);
      while final in emitted
        invariant 2 <= n
        invariant n == 2 ==> final == WithTail(d, size)
        invariant n > 2 ==> WithTail(d, size) in emitted && final == Numbered(Base(d, size), n - 1)
        invariant forall k | 2 <= k < n - 1 :: Numbered(Base(d, size), k) in emitted
        invariant forall k | n <= k :: Numbered(Base(d, size), k) in emitted ==> Numbered(Base(d, size), k) in pending
        invariant n > 2 ==> (final in emitted ==> final in pending)
        decreases n == 2, pending
      {
        if n > 2 {
          pending := pending - {final};
          forall k | n <= k && Numbered(Base(d, size), k) == final
            ensures false
          {
            NumberedInjective(Base(d, size), k, n - 1);
          }
        }
        final := Numbered(Base(d, size), n);
        n := n + 1;
      }
    }
  }

  method LabelDrives(raw: seq<Drive>, size: int -> string) returns (result: seq<Drive>)
    ensures result == Inventory(raw, size)
  {
    var counts := multiset(Names(raw));
    var emitted, seen := {}, {};
    result := [];
    for i := 0 to |raw|
      invariant Acc(seen, emitted, result) == Labelled(raw, size, i)
    {
      var d := raw[i];
      if d.uri != "" && d.uri in seen {
        continue;
      }
      if d.uri != "" {
        seen := seen + {d.uri};
      }
      if counts[d.name] > 1 {
        var final := ChooseLabel(d, size(d.capacity), emitted);
        emitted := emitted + {final};
        d := d.(name := final);
      } else {
        emitted := emitted + {d.name};
      }
      result := result + [d];
    }
    result := Sort(ByName, result);
  }

  // ---- what the pass keeps ------------------------------------------------

  /** Raw drive `i` survives: no earlier drive has its non-empty URI. */
  predicate Kept(raw: seq<Drive>, i: int)
    requires 0 <= i < |raw|
  {
    raw[i].uri == "" || forall j | 0 <= j < i :: raw[j].uri != raw[i].uri
  }

  /** The survivors among the first `n` raw drives, with their names blanked. */
  function Survivors(raw: seq<Drive>, n: nat): seq<Drive>
    requires n <= |raw|
  {
    if n == 0 then []
    else Survivors(raw, n - 1) + (if Kept(raw, n - 1) then [raw[n - 1].(name := "")] else [])
  }

  function Unnamed(ds: seq<Drive>): (r: seq<Drive>)
    ensures |r| == |ds| && forall i | 0 <= i < |ds| :: r[i] == ds[i].(name := "")
  {
    seq(|ds|, i requires 0 <= i < |ds| => ds[i].(name := ""))
  }

  /**
   Names aside, labelling only drops the repeats: the result is the list of drives whose
   non-empty URI did not occur before, in order, with every other field untouched.
   */
  lemma {:induction false} LabellingKeepsDrives(raw: seq<Drive>, size: int -> string, n: nat)
    requires n <= |raw|
    ensures Unnamed(Labelled(raw, size, n).result) == Survivors(raw, n)
    ensures forall u :: u in Labelled(raw, size, n).seen <==> u != "" && exists j | 0 <= j < n :: raw[j].uri == u
  {
    if n > 0 {
      LabellingKeepsDrives(raw, size, n - 1);
      var acc, acc' := Labelled(raw, size, n - 1), Labelled(raw, size, n);
      assert Kept(raw, n - 1) <==> raw[n - 1].uri == "" || raw[n - 1].uri !in acc.seen;
      if Kept(raw, n - 1) {
        assert Unnamed(acc'.result) == Unnamed(acc.result) + [raw[n - 1].(name := "")];
      }
    }
  }

  /** `emitted` is exactly the set of names handed out. */
  lemma {:induction false} EmittedAreNames(raw: seq<Drive>, size: int -> string, n: nat)
    requires n <= |raw|
    ensures forall name :: name in Labelled(raw, size, n).emitted <==> name in Names(Labelled(raw, size, n).result)
  {
    if n > 0 {
      EmittedAreNames(raw, size, n - 1);
      var before, after := Labelled(raw, size, n - 1).result, Labelled(raw, size, n).result;
      if |after| > |before| {
        assert Names(after) == Names(before) + [after[|after| - 1].name];
      }
    }
  }

  predicate DistinctNames(ds: seq<Drive>) {
    forall i, j | 0 <= i < j < |ds| :: ds[i].name != ds[j].name
  }

  /** An unambiguous drive is emitted under a name already handed out: the unchecked branch. */
  predicate Clash(raw: seq<Drive>, size: int -> string, i: int)
    requires 0 <= i < |raw|
  {
    && Kept(raw, i) && !Ambiguous(raw, raw[i].name)
    && raw[i].name in Labelled(raw, size, i).emitted
  }

  /** A name is ambiguous when two drives of the listing carry it. */
  lemma AmbiguousIff(raw: seq<Drive>, name: string)
    ensures Ambiguous(raw, name) <==> exists i, j | 0 <= i < j < |raw| :: raw[i].name == name && raw[j].name == name
  {
    if i, j :| 0 <= i < j < |raw| && raw[i].name == name && raw[j].name == name {
      SameNameIsAmbiguous(raw, i, j);
    } else {
      AtMostOnce(Names(raw), name);
    }
  }

  lemma {:induction false} AtMostOnce(names: seq<string>, name: string)
    requires forall i, j | 0 <= i < j < |names| :: !(names[i] == name && names[j] == name)
    ensures multiset(names)[name] <= 1
  {
    if names != [] {
      AtMostOnce(names[1..], name);
      assert names == [names[0]] + names[1..];
      assert names[0] == name ==> name !in names[1..];
      assert name in multiset(names[1..]) <==> name in names[1..];
    }
  }

  /** One turn of the loop: what it adds, if anything. */
  lemma StepShape(raw: seq<Drive>, size: int -> string, n: nat)
    requires 0 < n <= |raw|
    ensures var acc, after, d := Labelled(raw, size, n - 1), Labelled(raw, size, n).result, raw[n - 1];
            && (!Kept(raw, n - 1) ==> after == acc.result)
            && (Kept(raw, n - 1) && !Ambiguous(raw, d.name) ==> after == acc.result + [d])
            && (Kept(raw, n - 1) && Ambiguous(raw, d.name) ==>
                  && after == acc.result + [d.(name := Label(d, size(d.capacity), acc.emitted))]
                  && Label(d, size(d.capacity), acc.emitted) !in acc.emitted)
  {
    LabellingKeepsDrives(raw, size, n - 1);
    var acc, d := Labelled(raw, size, n - 1), raw[n - 1];
    assert Kept(raw, n - 1) <==> d.uri == "" || d.uri !in acc.seen;
    LabelIsFresh(d, size(d.capacity), acc.emitted);
    assert d.(name := d.name) == d;
  }

  /** One more drive keeps the names distinct exactly when it does not clash. */
  lemma DistinctOneMore(raw: seq<Drive>, size: int -> string, n: nat)
    requires 0 < n <= |raw|
    ensures DistinctNames(Labelled(raw, size, n).result) <==>
            DistinctNames(Labelled(raw, size, n - 1).result) && !Clash(raw, size, n - 1)
  {
    var before, after := Labelled(raw, size, n - 1).result, Labelled(raw, size, n).result;
    StepShape(raw, size, n);
    EmittedAreNames(raw, size, n - 1);
    if Kept(raw, n - 1) {
      var last := after[|after| - 1];
      AppendDistinct(before, last);
      NameAmong(before, last.name);
      assert after == before + [last];
    }
  }

  lemma {:induction false} DistinctUnlessClash(raw: seq<Drive>, size: int -> string, n: nat)
    requires n <= |raw|
    ensures DistinctNames(Labelled(raw, size, n).result) <==> forall i | 0 <= i < n :: !Clash(raw, size, i)
  {
    if n > 0 {
      DistinctUnlessClash(raw, size, n - 1);
      DistinctOneMore(raw, size, n);
    }
  }

  lemma NameAmong(ds: seq<Drive>, name: string)
    ensures name in Names(ds) <==> exists i | 0 <= i < |ds| :: ds[i].name == name
  {
    if i :| 0 <= i < |ds| && ds[i].name == name {
      assert Names(ds)[i] == name;
    }
  }

  lemma AppendDistinct(ds: seq<Drive>, d: Drive)
    ensures DistinctNames(ds + [d]) <==>
              DistinctNames(ds) && forall i | 0 <= i < |ds| :: ds[i].name != d.name
  {
    var all := ds + [d];
    if DistinctNames(all) {
      assert forall i | 0 <= i < |ds| :: ds[i] == all[i];
      assert all[|ds|] == d;
    }
  }

  lemma NamesCons(d: Drive, ds: seq<Drive>)
    ensures Names([d] + ds) == [d.name] + Names(ds)
  {
  }

  lemma {:induction false} InsertNames(d: Drive, ds: seq<Drive>)
    ensures multiset(Names(Insert(ByName, d, ds))) == multiset(Names(ds)) + multiset{d.name}
  {
    if ds == [] || ByName(d, ds[0]) {
      NamesCons(d, ds);
    } else {
      InsertNames(d, ds[1..]);
      NamesCons(ds[0], Insert(ByName, d, ds[1..]));
      NamesCons(ds[0], ds[1..]);
      assert ds == [ds[0]] + ds[1..];
    }
  }

  lemma {:induction false} SortNames(ds: seq<Drive>)
    ensures multiset(Names(Sort(ByName, ds))) == multiset(Names(ds))
  {
    if ds != [] {
      SortNames(ds[1..]);
      InsertNames(ds[0], Sort(ByName, ds[1..]));
      NamesCons(ds[0], ds[1..]);
      assert ds == [ds[0]] + ds[1..];
    }
  }

  lemma {:induction false} OnceEach(names: seq<string>)
    requires forall i, j | 0 <= i < j < |names| :: names[i] != names[j]
    ensures forall name :: multiset(names)[name] <= 1
  {
    if names != [] {
      OnceEach(names[1..]);
      assert names == [names[0]] + names[1..];
      assert names[0] !in multiset(names[1..]);
    }
  }

  lemma DistinctMeansOnce(ds: seq<Drive>)
    ensures DistinctNames(ds) <==> forall name :: multiset(Names(ds))[name] <= 1
  {
    if DistinctNames(ds) {
      OnceEach(Names(ds));
    } else {
      var i, j :| 0 <= i < j < |ds| && ds[i].name == ds[j].name;
      SameNameIsAmbiguous(ds, i, j);
    }
  }

  lemma ByNameIsPreorder()
    ensures TotalPreorder(ByName)
  {
    LexIsPreorder();
    forall a, b
      ensures Comparable(ByName, a, b)
    {
      assert Comparable(LexLe, a.name, b.name);
    }
    forall a, b, c
      ensures Chains(ByName, a, b, c)
    {
      assert Chains(LexLe, a.name, b.name, c.name);
    }
  }

  // ---- main results -------------------------------------------------------

  function Called(name: string): Drive -> bool {
    (d: Drive) => d.name == name
  }

  lemma CalledAlikeTie(name: string)
    ensures Ties(ByName, Called(name))
  {
    LexTotal(name, name);
    assert forall a, b :: Tied(ByName, Called(name), a, b);
  }

  /**
   The inventory is sorted by name and holds the labelled survivors, no more and no fewer;
   drives left under one name keep the order the BMC listed them in.
   */
  lemma InventoryIsSortedSurvivors(raw: seq<Drive>, size: int -> string)
    ensures forall name :: FilterSeq(Called(name), Inventory(raw, size))
                        == FilterSeq(Called(name), Labelled(raw, size, |raw|).result)
    ensures SortedBy(ByName, Inventory(raw, size))
    ensures multiset(Inventory(raw, size)) == multiset(Labelled(raw, size, |raw|).result)
    ensures Unnamed(Labelled(raw, size, |raw|).result) == Survivors(raw, |raw|)
  {
    ByNameIsPreorder();
    SortSorts(ByName, Labelled(raw, size, |raw|).result);
    LabellingKeepsDrives(raw, size, |raw|);
    forall name
      ensures FilterSeq(Called(name), Inventory(raw, size))
           == FilterSeq(Called(name), Labelled(raw, size, |raw|).result)
    {
      CalledAlikeTie(name);
      SortIsStable(ByName, Called(name), Labelled(raw, size, |raw|).result);
    }
  }

  /**
   The names of the inventory are pairwise distinct exactly when no unambiguous drive
   meets its own name already handed out as somebody's label, which the code does not check.
   */
  lemma NamesDistinctIff(raw: seq<Drive>, size: int -> string)
    ensures DistinctNames(Inventory(raw, size)) <==> forall i | 0 <= i < |raw| :: !Clash(raw, size, i)
  {
    var ds := Labelled(raw, size, |raw|).result;
    DistinctUnlessClash(raw, size, |raw|);
    SortNames(ds);
    DistinctMeansOnce(ds);
    DistinctMeansOnce(Inventory(raw, size));
  }

  /** Names already handed out are raw names seen earlier, or labels of ambiguous drives. */
  lemma {:induction false} EmittedShape(raw: seq<Drive>, size: int -> string, n: nat)
    requires n <= |raw|
    ensures forall name | name in Labelled(raw, size, n).emitted ::
              || (exists j | 0 <= j < n :: raw[j].name == name)
              || (exists j | 0 <= j < n :: Ambiguous(raw, raw[j].name) && raw[j].name + " (" <= name)
  {
    if n > 0 {
      EmittedShape(raw, size, n - 1);
      LabelIsFresh(raw[n - 1], size(raw[n - 1].capacity), Labelled(raw, size, n - 1).emitted);
    }
  }

  lemma SameNameIsAmbiguous(raw: seq<Drive>, i: int, j: int)
    requires 0 <= i < j < |raw| && raw[i].name == raw[j].name
    ensures Ambiguous(raw, raw[i].name)
  {
    var names := Names(raw);
    assert names == names[..j] + names[j..];
    assert names[..j][i] in multiset(names[..j]) && names[j..][0] in multiset(names[j..]);
  }

  /**
   A caller's check before the call: when no unambiguous drive is named like a label of an
   ambiguous one (in particular when no raw name contains a parenthesis), all names are
   distinct.
   */
  lemma PlainNamesAreDistinct(raw: seq<Drive>, size: int -> string)
    requires forall i, j | 0 <= i < |raw| && 0 <= j < |raw|
                           && !Ambiguous(raw, raw[i].name) && Ambiguous(raw, raw[j].name) ::
               !(raw[j].name + " (" <= raw[i].name)
    ensures DistinctNames(Inventory(raw, size))
  {
    forall i | 0 <= i < |raw|
      ensures !Clash(raw, size, i)
    {
      EmittedShape(raw, size, i);
      if Clash(raw, size, i) {
        var j :| 0 <= j < i && raw[j].name == raw[i].name;
        SameNameIsAmbiguous(raw, j, i);
      }
    }
    NamesDistinctIff(raw, size);
  }

  lemma NoParenthesisIsPlain(raw: seq<Drive>, size: int -> string)
    requires forall i | 0 <= i < |raw| :: '(' !in raw[i].name
    ensures DistinctNames(Inventory(raw, size))
  {
    forall i, j | 0 <= i < |raw| && 0 <= j < |raw|
      ensures !(raw[j].name + " (" <= raw[i].name)
    {
      assert (raw[j].name + " (")[|raw[j].name| + 1] == '(';
    }
    PlainNamesAreDistinct(raw, size);
  }

  /** Without the check, two different drives can end up under one name. */
  lemma LabelCollision(size: int -> string, uris: seq<string>)
    requires |uris| == 3 && uris[0] != "" && uris[1] != "" && uris[2] != ""
    requires uris[0] != uris[1] && uris[0] != uris[2] && uris[1] != uris[2]
    ensures var x := Drive("x", "SAS", "HDD", 1, "", "", None, "");
            var raw := [x.(uri := uris[0]), x.(uri := uris[1]),
                        x.(name := Base(x, size(1)), uri := uris[2])];
            !DistinctNames(Inventory(raw, size))
  {
    var x := Drive("x", "SAS", "HDD", 1, "", "", None, "");
    var third := Base(x, size(1));
    var raw := [x.(uri := uris[0]), x.(uri := uris[1]), x.(name := third, uri := uris[2])];
    assert Names(raw) == ["x", "x", third];
    assert |third| > 1;
    assert multiset(Names(raw))["x"] == 2 && multiset(Names(raw))[third] == 1;
    assert Labelled(raw, size, 0) == Acc({}, {}, []);
    assert Label(raw[0], size(1), {}) == third;
    assert Labelled(raw, size, 1).emitted == {} + {third};
    var two := Labelled(raw, size, 2);
    assert third in two.emitted;
    assert Clash(raw, size, 2);
    NamesDistinctIff(raw, size);
  }
}
