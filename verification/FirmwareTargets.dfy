/**
 Which FirmwareInventory member a flash targets. The choice is implemented twice: from
 the classified inventory of core/plugins_api/capability_discoverer.py, and by the
 inline walk of `_resolve_firmware_target` in plugins/generic_redfish/plugin.py.
 */
module FirmwareTargets {
  import opened Prelude
  import opened Text
  import opened Sorting
  import HgxRouter

  const BANNED := ["backup", "golden", "staging", "recovery", "history", "image2", "image_2"]

  const BIOS_CANDIDATES :=
    ["BIOS", "Bios", "SystemBios", "SystemBIOS", "UEFI", "Uefi", "BIOSImage1", "BIOSImage_1"]
  const BMC_NAMED := ["BMC", "BMC-Primary", "BMCActive", "BMC_Active", "BMCImage1", "BMCImage_1"]
  const BMC_BRANDED := ["iDRAC", "iLO", "iLO5", "iLO6", "XCC", "Manager"]
  const BMC_CANDIDATES := BMC_NAMED + BMC_BRANDED

  const BIOS_TOKENS := ["bios", "uefi"]
  const BMC_TOKENS := ["bmc", "idrac", "ilo", "xcc", "manager"]

  datatype Component = Bios | Bmc | Cpld | Fpga | Bp | Psu | Retimer | Other

  datatype FirmwareMember = FirmwareMember(uri: string, active: bool, component: Component)

  /** Python's `uri.rsplit("/", 1)[-1]`. */
  function Leaf(uri: string): string {
    if uri == "" || uri[|uri| - 1] == '/' then ""
    else Leaf(uri[..|uri| - 1]) + [uri[|uri| - 1]]
  }

  predicate IsActiveBank(leaf: string) {
    !ContainsAny(Lower(leaf), BANNED)
  }

  function Classify(leaf: string): Component {
    var l := Lower(leaf);
    if ContainsAny(l, BIOS_TOKENS) then Bios
    else if ContainsAny(l, BMC_TOKENS) then Bmc
    else if ContainsAny(l, ["cpld"]) then Cpld
    else if ContainsAny(l, ["fpga"]) then Fpga
    else if ContainsAny(l, ["backplane", "bp"]) then Bp
    else if ContainsAny(l, ["psu", "powersupply", "power_supply"]) then Psu
    else if ContainsAny(l, ["retimer"]) then Retimer
    else Other
  }

  predicate IsHgxMember(leaf: string) {
    ContainsAny(Lower(leaf), ["hgx", "hmc", "gpu", "erot", "inforom"])
  }

  // ---- the walk -----------------------------------------------------------

  /** One page of the collection: member links (None when unusable) and the next link. */
  datatype Page = Page(members: seq<Option<string>>, next: string)

  const PAGE_GUARD := 50

  /** The member links behind `next`, following at most the guarded number of pages. */
  function Following(next: string, fetch: string -> Option<Page>, guard: nat): seq<Option<string>>
    decreases PAGE_GUARD - guard
  {
    if next == "" || guard >= PAGE_GUARD || fetch(next).None? then []
    else fetch(next).value.members + Following(fetch(next).value.next, fetch, guard + 1)
  }

  /** A dictionary keyed by leaf: `names` is its insertion order. */
  datatype Inventory = Inventory(names: seq<string>, members: Members)

  function MemberOf(uri: string): FirmwareMember {
    FirmwareMember(uri, IsActiveBank(Leaf(uri)), Classify(Leaf(uri)))
  }

  /** One turn of the classification loop: a later member with the same leaf replaces. */
  function Recorded(inv: Inventory, ref: Option<string>, readable: string -> bool): Inventory {
    if ref.None? || ref.value == "" || !readable(ref.value) then inv
    else
      var leaf := Leaf(ref.value);
      Inventory(if leaf in inv.members then inv.names else inv.names + [leaf],
                inv.members[leaf := MemberOf(ref.value)])
  }

  function Build(refs: seq<Option<string>>, readable: string -> bool): Inventory {
    if refs == [] then Inventory([], map[])
    else Recorded(Build(refs[..|refs| - 1], readable), refs[|refs| - 1], readable)
  }

  type Members = map<string, FirmwareMember>

  predicate Fits(members: Members, leaf: string, component: Component) {
    leaf in members && members[leaf].active && members[leaf].component == component
  }

  function FirstFitting(members: Members, component: Component, leaves: seq<string>): Option<string> {
    if leaves == [] then None
    else if Fits(members, leaves[0], component) then Some(members[leaves[0]].uri)
    else FirstFitting(members, component, leaves[1..])
  }

  /** `_pick_active`: canonical names in priority order, then the lexically first of the class. */
  function PickActive(inv: Inventory, component: Component, priority: seq<string>): Option<string> {
    var canonical := FirstFitting(inv.members, component, priority);
    if canonical.Some? then canonical
    else FirstFitting(inv.members, component, Sort(LexLe, inv.names))
  }

  const EXTRA_CLASSES := [Cpld, Fpga, Bp, Psu, Retimer]

  function Extras(inv: Inventory, n: nat): map<Component, string>
    requires n <= |EXTRA_CLASSES|
  {
    if n == 0 then map[]
    else
      var uri := PickActive(inv, EXTRA_CLASSES[n - 1], []);
      if uri.Some? then Extras(inv, n - 1)[EXTRA_CLASSES[n - 1] := uri.value] else Extras(inv, n - 1)
  }

  function HgxMembers(inv: Inventory, names: seq<string>): seq<HgxRouter.Member> {
    if names == [] then []
    else
      var rest, leaf := HgxMembers(inv, names[..|names| - 1]), names[|names| - 1];
      if IsHgxMember(leaf) && leaf in inv.members && inv.members[leaf].active
      then rest + [HgxRouter.Member(leaf, inv.members[leaf].uri)]
      else rest
  }

  /** The part of the capability snapshot the flash targets come from. */
  class CapabilityMap {
    var inventory: Inventory
    var bios: Option<string>
    var bmc: Option<string>
    var extra: map<Component, string>
    var hgx: seq<HgxRouter.Member>

    constructor ()
      ensures inventory == Inventory([], map[]) && bios == None && bmc == None
      ensures extra == map[] && hgx == []
    {
      inventory, bios, bmc := Inventory([], map[]), None, None;
      extra, hgx := map[], [];
    }

    /** `_walk_firmware_inventory` on a fresh map; no collection leaves it as it was. */
    method WalkFirmwareInventory(collection: Option<Page>, fetch: string -> Option<Page>,
                                 readable: string -> bool)
      requires inventory == Inventory([], map[]) && extra == map[] && hgx == []
      modifies this
      ensures collection == None ==> unchanged(this)
      ensures collection.Some? ==>
                inventory == Build(collection.value.members + Following(collection.value.next, fetch, 0),
                                   readable)
      ensures collection.Some? ==>
                && bios == PickActive(inventory, Bios, BIOS_CANDIDATES)
                && bmc == PickActive(inventory, Bmc, BMC_CANDIDATES)
                && extra == Extras(inventory, |EXTRA_CLASSES|)
                && hgx == HgxMembers(inventory, inventory.names)
    {
      if collection.None? {
        return;
      }
      var refs := CollectRefs(collection.value, fetch);
      RecordAll(refs, readable);
      bios := PickActive(inventory, Bios, BIOS_CANDIDATES);
      bmc := PickActive(inventory, Bmc, BMC_CANDIDATES);
      ResolveExtras();
      ResolveHgx();
    }

    method RecordAll(refs: seq<Option<string>>, readable: string -> bool)
      requires inventory == Inventory([], map[])
      modifies this`inventory
      ensures inventory == Build(refs, readable)
    {
      for i := 0 to |refs|
        invariant inventory == Build(refs[..i], readable)
      {
        assert refs[..i + 1][..i] == refs[..i];
        inventory := Recorded(inventory, refs[i], readable);
      }
      assert refs[..|refs|] == refs;
    }

    method ResolveExtras()
      requires extra == map[]
      modifies this`extra
      ensures extra == Extras(inventory, |EXTRA_CLASSES|)
    {
      for k := 0 to |EXTRA_CLASSES|
        invariant extra == Extras(inventory, k)
      {
        var uri := PickActive(inventory, EXTRA_CLASSES[k], []);
        if uri.Some? {
          extra := extra[EXTRA_CLASSES[k] := uri.value];
        }
      }
    }

    method ResolveHgx()
      requires hgx == []
      modifies this`hgx
      ensures hgx == HgxMembers(inventory, inventory.names)
    {
      var names := inventory.names;
      for i := 0 to |names|
        invariant hgx == HgxMembers(inventory, names[..i])
      {
        assert names[..i + 1][..i] == names[..i];
        var leaf := names[i];
        if IsHgxMember(leaf) {
          if leaf in inventory.members && inventory.members[leaf].active {
            hgx := hgx + [HgxRouter.Member(leaf, inventory.members[leaf].uri)];
          }
        }
      }
      assert names[..|names|] == names;
    }
  }

  /** The page loop: follow next links until there is none, one fails, or the guard is hit. */
  method CollectRefs(first: Page, fetch: string -> Option<Page>) returns (refs: seq<Option<string>>)
    ensures refs == first.members + Following(first.next, fetch, 0)
  {
    refs := first.members;
    var next, guard := first.next, 0;
    while next != "" && guard < PAGE_GUARD
      invariant 0 <= guard <= PAGE_GUARD
      invariant refs + Following(next, fetch, guard) == first.members + Following(first.next, fetch, 0)
      decreases PAGE_GUARD - guard
    {
      guard := guard + 1;
      var page := fetch(next);
      if page.None? {
        break;
      }
      refs, next := refs + page.value.members, page.value.next;
    }
  }

  // ---- the inline walk ----------------------------------------------------

  function FirstWithLeaf(uris: seq<string>, leaf: string): Option<string> {
    if uris == [] then None else if Leaf(uris[0]) == leaf then Some(uris[0])
    else FirstWithLeaf(uris[1..], leaf)
  }

  function FirstExact(uris: seq<string>, candidates: seq<string>): Option<string> {
    if candidates == [] then None
    else if FirstWithLeaf(uris, candidates[0]).Some? then FirstWithLeaf(uris, candidates[0])
    else FirstExact(uris, candidates[1..])
  }

  function Candidates(component: Component): seq<string> {
    if component == Bios then BIOS_CANDIDATES else BMC_CANDIDATES
  }

  function Tokens(component: Component): seq<string> {
    if component == Bios then BIOS_TOKENS else BMC_TOKENS
  }

  /** The second test of the inline walk: an active bank with a token of the class. */
  predicate Tokened(uri: string, component: Component) {
    IsActiveBank(Leaf(uri)) && ContainsAny(Lower(Leaf(uri)), Tokens(component))
  }

  function FirstByToken(uris: seq<string>, component: Component): Option<string> {
    if uris == [] then None
    else if Tokened(uris[0], component) then Some(uris[0])
    else FirstByToken(uris[1..], component)
  }

  /** The legacy walk for `component` (BIOS or BMC) over the links of one page. */
  function LegacyResolve(uris: seq<string>, component: Component): Option<string> {
    var exact := FirstExact(uris, Candidates(component));
    if exact.Some? then exact else FirstByToken(uris, component)
  }

  // ---- facts about the canonical names ------------------------------------

  predicate Without(leaf: string, letters: string) {
    forall d | d in leaf :: LowerChar(d) !in letters
  }

  /** One missing letter of each banned word is enough. */
  lemma ActiveByLetters(leaf: string, golden: char, staging: char, recovery: char)
    requires golden in "gl" && staging in "ns" && recovery in "yv"
    requires Without(leaf, "kh2" + [golden, staging, recovery])
    ensures IsActiveBank(leaf)
  {
    var letters := "kh2" + [golden, staging, recovery];
    assert letters[0] == 'k' && letters[1] == 'h' && letters[2] == '2';
    assert letters[3] == golden && letters[4] == staging && letters[5] == recovery;
    LowerLacks(leaf, "backup", 'k');
    LowerLacks(leaf, "history", 'h');
    LowerLacks(leaf, "image2", '2');
    LowerLacks(leaf, "image_2", '2');
    LowerLacks(leaf, "golden", golden);
    LowerLacks(leaf, "staging", staging);
    LowerLacks(leaf, "recovery", recovery);
  }

  lemma BiosCanonicalIsActive(leaf: string)
    requires leaf in BIOS_CANDIDATES
    ensures IsActiveBank(leaf)
  {
    if leaf in ["BIOS", "Bios", "UEFI", "Uefi"] {
      ShortBiosIsActive(leaf);
    } else {
      LongBiosIsActive(leaf);
    }
  }

  lemma ShortBiosIsActive(leaf: string)
    requires leaf in ["BIOS", "Bios", "UEFI", "Uefi"]
    ensures IsActiveBank(leaf)
  {
    assert Without(leaf, "kh2" + ['l', 'n', 'v']);
    ActiveByLetters(leaf, 'l', 'n', 'v');
  }

  lemma LongBiosIsActive(leaf: string)
    requires leaf in ["SystemBios", "SystemBIOS", "BIOSImage1", "BIOSImage_1"]
    ensures IsActiveBank(leaf)
  {
    assert Without(leaf, "kh2" + ['l', 'n', 'v']);
    ActiveByLetters(leaf, 'l', 'n', 'v');
  }

  lemma NamedBmcIsActive(leaf: string)
    requires leaf in BMC_NAMED
    ensures IsActiveBank(leaf)
  {
    if leaf in ["BMCActive", "BMC_Active"] {
      ActiveNameIsActive(leaf);
    } else if leaf in ["BMCImage1", "BMCImage_1"] {
      FirstImageIsActive(leaf);
    } else {
      PlainNameIsActive(leaf);
    }
  }

  lemma ActiveNameIsActive(leaf: string)
    requires leaf in ["BMCActive", "BMC_Active"]
    ensures IsActiveBank(leaf)
  {
    assert Without(leaf, "kh2" + ['l', 'n', 'y']);
    ActiveByLetters(leaf, 'l', 'n', 'y');
  }

  lemma FirstImageIsActive(leaf: string)
    requires leaf in ["BMCImage1", "BMCImage_1"]
    ensures IsActiveBank(leaf)
  {
    assert Without(leaf, "kh2" + ['l', 'n', 'v']);
    ActiveByLetters(leaf, 'l', 'n', 'v');
  }

  lemma PlainNameIsActive(leaf: string)
    requires leaf in ["BMC", "BMC-Primary"]
    ensures IsActiveBank(leaf)
  {
    assert Without(leaf, "kh2" + ['l', 'n', 'v']);
    ActiveByLetters(leaf, 'l', 'n', 'v');
  }

  lemma BrandedBmcIsActive(leaf: string)
    requires leaf in BMC_BRANDED
    ensures IsActiveBank(leaf)
  {
    var golden := if leaf in ["iLO", "iLO5", "iLO6"] then 'g' else 'l';
    var staging := if leaf == "Manager" then 's' else 'n';
    assert Without(leaf, "kh2" + [golden, staging, 'v']);
    ActiveByLetters(leaf, golden, staging, 'v');
  }

  lemma TokenAt(leaf: string, token: string, i: nat)
    requires i + |token| <= |leaf|
    requires forall k | 0 <= k < |token| :: LowerChar(leaf[i + k]) == token[k]
    ensures Contains(Lower(leaf), token)
  {
    assert Lower(leaf)[i..i + |token|] == token;
    assert At(Lower(leaf), token, i);
  }

  lemma BiosCanonicalIsBios(leaf: string)
    requires leaf in BIOS_CANDIDATES
    ensures Classify(leaf) == Bios
  {
    if leaf in ["UEFI", "Uefi"] {
      TokenAt(leaf, "uefi", 0);
    } else {
      TokenAt(leaf, "bios", if leaf in ["SystemBios", "SystemBIOS"] then 6 else 0);
    }
  }

  lemma NoBiosToken(leaf: string)
    requires Without(leaf, "su")
    ensures !ContainsAny(Lower(leaf), BIOS_TOKENS)
  {
    assert "su"[0] == 's' && "su"[1] == 'u';
    LowerLacks(leaf, "bios", 's');
    LowerLacks(leaf, "uefi", 'u');
  }

  lemma NamedBmcIsBmc(leaf: string)
    requires leaf in BMC_NAMED
    ensures Classify(leaf) == Bmc
  {
    assert Without(leaf, "su");
    NoBiosToken(leaf);
    TokenAt(leaf, "bmc", 0);
    assert "bmc" in BMC_TOKENS;
  }

  lemma BrandedBmcIsBmc(leaf: string)
    requires leaf in BMC_BRANDED
    ensures Classify(leaf) == Bmc
  {
    assert Without(leaf, "su");
    NoBiosToken(leaf);
    var token := if leaf == "iDRAC" then "idrac" else if leaf == "XCC" then "xcc"
                 else if leaf == "Manager" then "manager" else "ilo";
    TokenAt(leaf, token, 0);
    assert token in BMC_TOKENS;
  }

  /** Every canonical name is of its own class and never a banned bank. */
  lemma CanonicalFits(component: Component, leaf: string)
    requires (component == Bios || component == Bmc) && leaf in Candidates(component)
    ensures IsActiveBank(leaf) && Classify(leaf) == component
  {
    if component == Bios {
      BiosCanonicalIsActive(leaf);
      BiosCanonicalIsBios(leaf);
    } else if leaf in BMC_NAMED {
      NamedBmcIsActive(leaf);
      NamedBmcIsBmc(leaf);
    } else {
      BrandedBmcIsActive(leaf);
      BrandedBmcIsBmc(leaf);
    }
  }

  // ---- what the inventory holds -------------------------------------------

  predicate Seen(refs: seq<Option<string>>, readable: string -> bool, uri: string) {
    Some(uri) in refs && uri != "" && readable(uri)
  }

  predicate NoRepeats(names: seq<string>) {
    forall i, j | 0 <= i < j < |names| :: names[i] != names[j]
  }

  /** The entry under `leaf` is a readable member with that leaf. */
  ghost predicate Filed(m: FirmwareMember, leaf: string, refs: seq<Option<string>>, readable: string -> bool) {
    Seen(refs, readable, m.uri) && m == MemberOf(m.uri) && Leaf(m.uri) == leaf
  }

  ghost predicate Indexed(inv: Inventory) {
    (forall leaf :: leaf in inv.names <==> leaf in inv.members) && NoRepeats(inv.names)
  }

  /** Every entry is a readable member filed under its own leaf, and no leaf is missing. */
  ghost predicate Files(members: Members, refs: seq<Option<string>>, readable: string -> bool) {
    && (forall leaf | leaf in members :: Filed(members[leaf], leaf, refs, readable))
    && (forall uri | Seen(refs, readable, uri) :: Leaf(uri) in members)
  }

  lemma RecordedFiles(inv: Inventory, refs: seq<Option<string>>, ref: Option<string>, readable: string -> bool)
    requires Files(inv.members, refs, readable)
    ensures Files(Recorded(inv, ref, readable).members, refs + [ref], readable)
  {
    var members, all := Recorded(inv, ref, readable).members, refs + [ref];
    forall leaf | leaf in members
      ensures Filed(members[leaf], leaf, all, readable)
    {
      if leaf in inv.members && members[leaf] == inv.members[leaf] {
        assert Filed(inv.members[leaf], leaf, refs, readable);
      }
    }
    forall uri | Seen(all, readable, uri)
      ensures Leaf(uri) in members
    {
      if Some(uri) in refs {
        assert Seen(refs, readable, uri);
      }
    }
  }

  lemma {:induction false} BuildFiles(refs: seq<Option<string>>, readable: string -> bool)
    ensures Files(Build(refs, readable).members, refs, readable) && Indexed(Build(refs, readable))
  {
    if refs != [] {
      var rest, ref := refs[..|refs| - 1], refs[|refs| - 1];
      BuildFiles(rest, readable);
      RecordedFiles(Build(rest, readable), rest, ref, readable);
      assert refs == rest + [ref];
    }
  }

  lemma {:induction false} FirstFittingMeaning(members: Members, component: Component, leaves: seq<string>)
    ensures var found := FirstFitting(members, component, leaves);
            && (found == None <==> forall leaf | leaf in leaves :: !Fits(members, leaf, component))
            && (found.Some? ==> exists i ::
                  && 0 <= i < |leaves| && Fits(members, leaves[i], component)
                  && found.value == members[leaves[i]].uri
                  && forall j | 0 <= j < i :: !Fits(members, leaves[j], component))
  {
    if leaves != [] {
      FirstFittingMeaning(members, component, leaves[1..]);
      assert leaves == [leaves[0]] + leaves[1..];
      if Fits(members, leaves[0], component) {
      } else if FirstFitting(members, component, leaves[1..]).Some? {
        var i :| 0 <= i < |leaves[1..]| && Fits(members, leaves[1..][i], component)
                 && FirstFitting(members, component, leaves[1..]).value == members[leaves[1..][i]].uri
                 && forall j | 0 <= j < i :: !Fits(members, leaves[1..][j], component);
        forall j | 0 <= j < i + 1
          ensures !Fits(members, leaves[j], component)
        {
          assert j > 0 ==> leaves[j] == leaves[1..][j - 1];
        }
        assert leaves[i + 1] == leaves[1..][i];
      }
    }
  }

  /** A pick exists exactly when some active member has the class, and it is such a member. */
  lemma PickActiveMeaning(inv: Inventory, component: Component, priority: seq<string>)
    requires forall leaf :: leaf in inv.names <==> leaf in inv.members
    ensures var picked := PickActive(inv, component, priority);
            && (picked == None <==> forall leaf | leaf in inv.members :: !Fits(inv.members, leaf, component))
            && (picked.Some? ==> exists leaf ::
                  Fits(inv.members, leaf, component) && picked.value == inv.members[leaf].uri)
  {
    FirstFittingMeaning(inv.members, component, priority);
    FirstFittingMeaning(inv.members, component, Sort(LexLe, inv.names));
    LexIsPreorder();
    SortSorts(LexLe, inv.names);
    assert forall leaf :: leaf in Sort(LexLe, inv.names) <==> leaf in multiset(Sort(LexLe, inv.names));
    assert forall leaf :: leaf in inv.names <==> leaf in multiset(inv.names);
  }

  // ---- main results -------------------------------------------------------

  /** A flash target that is a readable member outside every banned bank. */
  predicate Safe(refs: seq<Option<string>>, readable: string -> bool, uri: string) {
    Seen(refs, readable, uri) && IsActiveBank(Leaf(uri))
  }

  /**
   Whatever the inventory, its order and its paging, every URI the discoverer offers as a
   BIOS, BMC, extra or HGX target is a readable member with no banned leaf.
   */
  lemma DiscoveredTargetsAreSafe(refs: seq<Option<string>>, readable: string -> bool)
    ensures var inv := Build(refs, readable);
            && (forall c, priority :: PickActive(inv, c, priority).Some? ==>
                  Safe(refs, readable, PickActive(inv, c, priority).value)
                  && Classify(Leaf(PickActive(inv, c, priority).value)) == c)
            && (forall c | c in Extras(inv, |EXTRA_CLASSES|) ::
                  Safe(refs, readable, Extras(inv, |EXTRA_CLASSES|)[c])
                  && Classify(Leaf(Extras(inv, |EXTRA_CLASSES|)[c])) == c)
            && (forall m | m in HgxMembers(inv, inv.names) ::
                  Safe(refs, readable, m.uri) && Leaf(m.uri) == m.key && IsHgxMember(m.key))
  {
    var inv := Build(refs, readable);
    BuildFiles(refs, readable);
    assert forall leaf | leaf in inv.members :: Filed(inv.members[leaf], leaf, refs, readable);
    forall c, priority | PickActive(inv, c, priority).Some?
      ensures Safe(refs, readable, PickActive(inv, c, priority).value)
      ensures Classify(Leaf(PickActive(inv, c, priority).value)) == c
    {
      PickActiveMeaning(inv, c, priority);
    }
    ExtrasArePicks(inv, |EXTRA_CLASSES|);
    HgxMembersFit(inv, inv.names);
  }

  lemma {:induction false} ExtrasArePicks(inv: Inventory, n: nat)
    requires n <= |EXTRA_CLASSES|
    ensures forall c | c in Extras(inv, n) :: PickActive(inv, c, []) == Some(Extras(inv, n)[c])
  {
    if n > 0 {
      ExtrasArePicks(inv, n - 1);
    }
  }

  lemma {:induction false} HgxMembersFit(inv: Inventory, names: seq<string>)
    ensures forall m | m in HgxMembers(inv, names) ::
              && m.key in inv.members && inv.members[m.key].active
              && m.uri == inv.members[m.key].uri && IsHgxMember(m.key)
  {
    if names != [] {
      HgxMembersFit(inv, names[..|names| - 1]);
    }
  }

  /** So an HGX upload, bundle or single die, never targets a banned bank. */
  lemma HgxUploadIsSafe(refs: seq<Option<string>>, readable: string -> bool, name: string)
    requires HgxMembers(Build(refs, readable), Build(refs, readable).names) != []
    ensures var members := HgxMembers(Build(refs, readable), Build(refs, readable).names);
            && HgxRouter.SelectGroup(members, name).Ok?
            && forall m | m in HgxRouter.SelectGroup(members, name).value :: Safe(refs, readable, m.uri)
  {
    DiscoveredTargetsAreSafe(refs, readable);
    HgxRouter.GroupStaysInside(HgxMembers(Build(refs, readable), Build(refs, readable).names), name);
  }

  predicate DistinctLeaves(refs: seq<Option<string>>) {
    forall u, v | u in refs && v in refs && u.Some? && v.Some? && Leaf(u.value) == Leaf(v.value) :: u == v
  }

  /** With distinct leaves, the order in which the BMC lists its members changes no choice. */
  lemma OrderDoesNotMatter(refs: seq<Option<string>>, refs': seq<Option<string>>, readable: string -> bool,
                           component: Component, priority: seq<string>)
    requires multiset(refs) == multiset(refs') && DistinctLeaves(refs)
    ensures PickActive(Build(refs, readable), component, priority) ==
            PickActive(Build(refs', readable), component, priority)
  {
    var inv, inv' := Build(refs, readable), Build(refs', readable);
    BuildFiles(refs, readable);
    BuildFiles(refs', readable);
    SameMembers(refs, refs', readable);
    assert forall n :: n in inv.names <==> n in inv'.names;
    SameNamesSameOrder(inv.names, inv'.names);
  }

  lemma SameMembers(refs: seq<Option<string>>, refs': seq<Option<string>>, readable: string -> bool)
    requires multiset(refs) == multiset(refs') && DistinctLeaves(refs)
    ensures Build(refs, readable).members == Build(refs', readable).members
  {
    var ms, ms' := Build(refs, readable).members, Build(refs', readable).members;
    BuildFiles(refs, readable);
    BuildFiles(refs', readable);
    forall r
      ensures r in refs <==> r in refs'
    {
      assert r in refs <==> r in multiset(refs);
      assert r in refs' <==> r in multiset(refs');
    }
    forall leaf
      ensures leaf in ms <==> leaf in ms'
      ensures leaf in ms ==> ms[leaf] == ms'[leaf]
    {
      if leaf in ms {
        assert Filed(ms[leaf], leaf, refs, readable);
        assert Seen(refs', readable, ms[leaf].uri);
      }
      if leaf in ms' {
        assert Filed(ms'[leaf], leaf, refs', readable);
        assert Seen(refs, readable, ms'[leaf].uri);
      }
    }
  }

  lemma SameNamesSameOrder(names: seq<string>, names': seq<string>)
    requires NoRepeats(names) && NoRepeats(names') && forall n :: n in names <==> n in names'
    ensures Sort(LexLe, names) == Sort(LexLe, names')
  {
    LexIsPreorder();
    SortSorts(LexLe, names);
    SortSorts(LexLe, names');
    NoRepeatsCounts(names);
    NoRepeatsCounts(names');
    forall n
      ensures multiset(names)[n] == multiset(names')[n]
    {
      assert n in names <==> n in multiset(names);
    }
    assert multiset(names) == multiset(names');
    forall a, b | LexLe(a, b) && LexLe(b, a)
      ensures a == b
    {
      LexTotal(a, b);
    }
    SortedUnique(LexLe, Sort(LexLe, names), Sort(LexLe, names'));
  }

  lemma {:induction false} NoRepeatsCounts(names: seq<string>)
    requires NoRepeats(names)
    ensures forall n :: multiset(names)[n] == if n in names then 1 else 0
  {
    if names != [] {
      NoRepeatsCounts(names[1..]);
      assert names == [names[0]] + names[1..];
    }
  }

  // ---- the two implementations against each other -------------------------

  /** The link texts the inline walk sees: a missing link reads as the empty string. */
  function Links(refs: seq<Option<string>>): (uris: seq<string>)
    ensures |uris| == |refs|
    ensures forall i | 0 <= i < |refs| :: uris[i] == if refs[i].Some? then refs[i].value else ""
  {
    seq(|refs|, i requires 0 <= i < |refs| => if refs[i].Some? then refs[i].value else "")
  }

  function LastWithLeaf(uris: seq<string>, leaf: string): Option<string> {
    if uris == [] then None
    else if Leaf(uris[|uris| - 1]) == leaf then Some(uris[|uris| - 1])
    else LastWithLeaf(uris[..|uris| - 1], leaf)
  }

  predicate HasLeaf(uris: seq<string>, leaf: string) {
    exists uri | uri in uris :: Leaf(uri) == leaf
  }

  lemma {:induction false} FirstWithLeafMeaning(uris: seq<string>, leaf: string)
    ensures FirstWithLeaf(uris, leaf).Some? <==> HasLeaf(uris, leaf)
    ensures FirstWithLeaf(uris, leaf).Some? ==>
              FirstWithLeaf(uris, leaf).value in uris && Leaf(FirstWithLeaf(uris, leaf).value) == leaf
  {
    if uris != [] {
      FirstWithLeafMeaning(uris[1..], leaf);
      assert uris == [uris[0]] + uris[1..];
    }
  }

  lemma {:induction false} FirstExactMeaning(uris: seq<string>, candidates: seq<string>)
    ensures FirstExact(uris, candidates) == None <==> forall c | c in candidates :: !HasLeaf(uris, c)
    ensures forall k | 0 <= k < |candidates| && HasLeaf(uris, candidates[k])
                       && (forall j | 0 <= j < k :: !HasLeaf(uris, candidates[j])) ::
              FirstExact(uris, candidates) == FirstWithLeaf(uris, candidates[k])
  {
    if candidates != [] {
      FirstWithLeafMeaning(uris, candidates[0]);
      FirstExactMeaning(uris, candidates[1..]);
      assert candidates == [candidates[0]] + candidates[1..];
      forall k | 0 <= k < |candidates| && HasLeaf(uris, candidates[k])
                 && (forall j | 0 <= j < k :: !HasLeaf(uris, candidates[j]))
        ensures FirstExact(uris, candidates) == FirstWithLeaf(uris, candidates[k])
      {
        if k > 0 {
          assert !HasLeaf(uris, candidates[0]);
          assert candidates[k] == candidates[1..][k - 1];
          forall j | 0 <= j < k - 1
            ensures !HasLeaf(uris, candidates[1..][j])
          {
            assert candidates[1..][j] == candidates[j + 1];
          }
        }
      }
    }
  }

  lemma {:induction false} FirstByTokenMeaning(uris: seq<string>, component: Component)
    ensures var found := FirstByToken(uris, component);
            && (found == None <==> forall uri | uri in uris :: !Tokened(uri, component))
            && (found.Some? ==> found.value in uris && Tokened(found.value, component))
  {
    if uris != [] {
      FirstByTokenMeaning(uris[1..], component);
      assert uris == [uris[0]] + uris[1..];
    }
  }

  /** The inline walk resolves exactly when some link is active and carries a token, to such a link. */
  lemma LegacyMeaning(uris: seq<string>, component: Component)
    requires component == Bios || component == Bmc
    ensures var found := LegacyResolve(uris, component);
            && (found == None <==> forall uri | uri in uris :: !Tokened(uri, component))
            && (found.Some? ==> found.value in uris && Tokened(found.value, component))
  {
    var candidates := Candidates(component);
    FirstByTokenMeaning(uris, component);
    FirstExactMeaning(uris, candidates);
    if FirstExact(uris, candidates).Some? {
      var k := FirstPresent(uris, candidates);
      FirstWithLeafMeaning(uris, candidates[k]);
      CanonicalIsTokened(FirstWithLeaf(uris, candidates[k]).value, component);
    }
  }

  lemma CanonicalIsTokened(uri: string, component: Component)
    requires (component == Bios || component == Bmc) && Leaf(uri) in Candidates(component)
    ensures Tokened(uri, component)
  {
    CanonicalFits(component, Leaf(uri));
    TokenedIsClass(uri);
  }

  /** BIOS and BMC classes in terms of the tokens. */
  lemma TokenedIsClass(uri: string)
    ensures Tokened(uri, Bios) <==> IsActiveBank(Leaf(uri)) && Classify(Leaf(uri)) == Bios
    ensures Tokened(uri, Bmc) && !Tokened(uri, Bios) <==>
              IsActiveBank(Leaf(uri)) && Classify(Leaf(uri)) == Bmc
  {
  }

  lemma {:induction false} FirstPresent(uris: seq<string>, candidates: seq<string>) returns (k: nat)
    requires exists c | c in candidates :: HasLeaf(uris, c)
    ensures k < |candidates| && HasLeaf(uris, candidates[k])
    ensures forall j | 0 <= j < k :: !HasLeaf(uris, candidates[j])
  {
    if HasLeaf(uris, candidates[0]) {
      k := 0;
    } else {
      assert candidates == [candidates[0]] + candidates[1..];
      var k' := FirstPresent(uris, candidates[1..]);
      k := k' + 1;
      forall j | 0 <= j < k
        ensures !HasLeaf(uris, candidates[j])
      {
        assert j > 0 ==> candidates[j] == candidates[1..][j - 1];
      }
    }
  }

  /** No URI the inline walk returns has a banned leaf. */
  lemma LegacyTargetIsSafe(uris: seq<string>, component: Component)
    requires (component == Bios || component == Bmc) && LegacyResolve(uris, component).Some?
    ensures LegacyResolve(uris, component).value in uris
    ensures IsActiveBank(Leaf(LegacyResolve(uris, component).value))
  {
    LegacyMeaning(uris, component);
  }

  /** All members of the page could be read. */
  predicate AllReadable(refs: seq<Option<string>>, readable: string -> bool) {
    forall r | r in refs && r.Some? :: readable(r.value)
  }

  lemma LinksSnoc(refs: seq<Option<string>>, ref: Option<string>)
    ensures Links(refs + [ref]) == Links(refs) + [if ref.Some? then ref.value else ""]
  {
  }

  lemma LastWithLeafSnoc(uris: seq<string>, uri: string, leaf: string)
    ensures LastWithLeaf(uris + [uri], leaf) == if Leaf(uri) == leaf then Some(uri) else LastWithLeaf(uris, leaf)
  {
    assert (uris + [uri])[..|uris|] == uris;
  }

  /** The inventory shows, under a leaf, the last link that has it. */
  predicate KeepsLast(members: Members, uris: seq<string>, leaf: string) {
    LastWithLeaf(uris, leaf) == if leaf in members then Some(members[leaf].uri) else None
  }

  lemma RecordKeepsLast(inv: Inventory, uris: seq<string>, ref: Option<string>, readable: string -> bool, leaf: string)
    requires KeepsLast(inv.members, uris, leaf) && leaf != "" && (ref.Some? ==> readable(ref.value))
    ensures KeepsLast(Recorded(inv, ref, readable).members, uris + [if ref.Some? then ref.value else ""], leaf)
  {
    LastWithLeafSnoc(uris, if ref.Some? then ref.value else "", leaf);
  }

  lemma {:induction false} BuildKeepsLast(refs: seq<Option<string>>, readable: string -> bool, leaf: string)
    requires AllReadable(refs, readable) && leaf != ""
    ensures KeepsLast(Build(refs, readable).members, Links(refs), leaf)
  {
    if refs == [] {
      assert Links(refs) == [];
    } else {
      var rest, ref := refs[..|refs| - 1], refs[|refs| - 1];
      assert refs == rest + [ref];
      LinksSnoc(rest, ref);
      BuildKeepsLast(rest, readable, leaf);
      RecordKeepsLast(Build(rest, readable), Links(rest), ref, readable, leaf);
    }
  }

  lemma {:induction false} LastIsPresent(uris: seq<string>, leaf: string)
    ensures LastWithLeaf(uris, leaf).Some? <==> HasLeaf(uris, leaf)
    ensures LastWithLeaf(uris, leaf).Some? ==>
              LastWithLeaf(uris, leaf).value in uris && Leaf(LastWithLeaf(uris, leaf).value) == leaf
  {
    if uris != [] {
      LastIsPresent(uris[..|uris| - 1], leaf);
      assert uris == uris[..|uris| - 1] + [uris[|uris| - 1]];
    }
  }

  /**
   On one fully readable page with some canonical leaf, the discoverer picks the last link
   with the best canonical leaf and the inline walk the first one. So they agree exactly
   when these two are the same link, and always when the leaves are distinct.
   */
  lemma CanonicalAgreement(refs: seq<Option<string>>, readable: string -> bool, component: Component)
    returns (k: nat)
    requires (component == Bios || component == Bmc) && AllReadable(refs, readable)
    requires exists c | c in Candidates(component) :: HasLeaf(Links(refs), c)
    ensures k < |Candidates(component)|
    ensures var leaf, uris := Candidates(component)[k], Links(refs);
            && (forall j | 0 <= j < k :: !HasLeaf(uris, Candidates(component)[j]))
            && HasLeaf(uris, leaf)
            && PickActive(Build(refs, readable), component, Candidates(component)) == LastWithLeaf(uris, leaf)
            && LegacyResolve(uris, component) == FirstWithLeaf(uris, leaf)
            && (DistinctLeaves(refs) ==> LastWithLeaf(uris, leaf) == FirstWithLeaf(uris, leaf))
  {
    var candidates, uris := Candidates(component), Links(refs);
    k := FirstPresent(uris, candidates);
    var leaf := candidates[k];
    FirstExactMeaning(uris, candidates);
    FirstWithLeafMeaning(uris, leaf);
    LastIsPresent(uris, leaf);
    CanonicalFitsInside(refs, readable, component, leaf);
    DiscovererPicksLast(refs, readable, component, k);
    if DistinctLeaves(refs) {
      SameLinkTwice(refs, LastWithLeaf(uris, leaf).value, FirstWithLeaf(uris, leaf).value);
    }
  }

  lemma DiscovererPicksLast(refs: seq<Option<string>>, readable: string -> bool, component: Component, k: nat)
    requires (component == Bios || component == Bmc) && AllReadable(refs, readable)
    requires k < |Candidates(component)| && HasLeaf(Links(refs), Candidates(component)[k])
    requires forall j | 0 <= j < k :: !HasLeaf(Links(refs), Candidates(component)[j])
    ensures PickActive(Build(refs, readable), component, Candidates(component)) ==
            LastWithLeaf(Links(refs), Candidates(component)[k])
  {
    var candidates, ms := Candidates(component), Build(refs, readable).members;
    forall j | 0 <= j <= k
      ensures Fits(ms, candidates[j], component) <==> j == k
    {
      CanonicalFitsInside(refs, readable, component, candidates[j]);
    }
    CanonicalFitsInside(refs, readable, component, candidates[k]);
    BuildKeepsLast(refs, readable, candidates[k]);
    FirstFittingMeaning(ms, component, candidates);
    assert candidates[k] in candidates;
    var i :| 0 <= i < |candidates| && Fits(ms, candidates[i], component)
             && FirstFitting(ms, component, candidates).value == ms[candidates[i]].uri
             && forall j | 0 <= j < i :: !Fits(ms, candidates[j], component);
    assert i == k;
  }

  lemma SameLinkTwice(refs: seq<Option<string>>, u: string, v: string)
    requires DistinctLeaves(refs) && u in Links(refs) && v in Links(refs)
    requires Leaf(u) == Leaf(v) != ""
    ensures u == v
  {
    var i :| 0 <= i < |refs| && Links(refs)[i] == u;
    var j :| 0 <= j < |refs| && Links(refs)[j] == v;
    assert refs[i] in refs && refs[j] in refs;
  }

  /** A canonical leaf fits its class exactly when some link carries it. */
  lemma CanonicalFitsInside(refs: seq<Option<string>>, readable: string -> bool,
                            component: Component, leaf: string)
    requires (component == Bios || component == Bmc) && AllReadable(refs, readable)
    requires leaf in Candidates(component)
    ensures Fits(Build(refs, readable).members, leaf, component) <==> HasLeaf(Links(refs), leaf)
    ensures leaf != ""
  {
    BuildFiles(refs, readable);
    CanonicalFits(component, leaf);
    assert leaf != "";
    BuildKeepsLast(refs, readable, leaf);
    LastIsPresent(Links(refs), leaf);
    var ms := Build(refs, readable).members;
    if leaf in ms {
      assert Filed(ms[leaf], leaf, refs, readable);
    }
  }

  /** Two members with one leaf: the implementations choose different ones. */
  lemma SharedLeafDisagrees()
    ensures var refs := [Some("a/UEFI"), Some("b/UEFI")];
            && PickActive(Build(refs, _ => true), Bios, BIOS_CANDIDATES) == Some("b/UEFI")
            && LegacyResolve(Links(refs), Bios) == Some("a/UEFI")
  {
    var refs := [Some("a/UEFI"), Some("b/UEFI")];
    var uris := Links(refs);
    assert uris == ["a/UEFI", "b/UEFI"];
    assert "a/" + "UEFI" == uris[0] && "b/" + "UEFI" == uris[1];
    LeafOf("a/", "UEFI");
    LeafOf("b/", "UEFI");
    SharedUefi(refs, uris);
  }

  lemma SharedUefi(refs: seq<Option<string>>, uris: seq<string>)
    requires uris == Links(refs) && |uris| == 2 && Leaf(uris[0]) == Leaf(uris[1]) == "UEFI"
    ensures PickActive(Build(refs, _ => true), Bios, BIOS_CANDIDATES) == Some(uris[1])
    ensures LegacyResolve(uris, Bios) == Some(uris[0])
  {
    assert uris[0] in uris && HasLeaf(uris, "UEFI");
    assert Candidates(Bios)[4] == "UEFI";
    var k := CanonicalAgreement(refs, _ => true, Bios);
    assert Candidates(Bios)[k] == "UEFI";
  }

  lemma {:induction false} LeafOf(dir: string, leaf: string)
    requires EndsWith(dir, "/") && '/' !in leaf
    ensures Leaf(dir + leaf) == leaf
  {
    if leaf == "" {
      assert dir + leaf == dir;
    } else {
      assert (dir + leaf)[..|dir + leaf| - 1] == dir + leaf[..|leaf| - 1];
      LeafOf(dir, leaf[..|leaf| - 1]);
    }
  }

  /** The discoverer resolves a class exactly when some link is active and of that class. */
  lemma DiscovererResolvesIff(refs: seq<Option<string>>, readable: string -> bool,
                              component: Component, priority: seq<string>)
    requires AllReadable(refs, readable) && component != Other
    ensures PickActive(Build(refs, readable), component, priority) == None <==>
            forall uri | uri in Links(refs) :: !OfClass(uri, component)
  {
    var inv := Build(refs, readable);
    BuildFiles(refs, readable);
    PickActiveMeaning(inv, component, priority);
    forall uri | uri in Links(refs) && OfClass(uri, component)
      ensures Fits(inv.members, Leaf(uri), component)
    {
      FitsIffListed(refs, readable, component, Leaf(uri));
    }
    forall leaf | leaf in inv.members && Fits(inv.members, leaf, component)
      ensures Listed(Links(refs), component, leaf)
    {
      FitsIffListed(refs, readable, component, leaf);
    }
  }

  lemma EmptyIsOther()
    ensures Classify(Leaf("")) == Other
  {
    assert Lower("") == "";
    assert forall p: string | p != "" :: !Contains("", p);
  }

  /**
   On one fully readable page the two implementations resolve the BIOS together; a BMC hit
   of the discoverer implies one of the inline walk, which alone hits exactly when every
   active link with a BMC token also has a BIOS token.
   */
  lemma ResolveTogether(refs: seq<Option<string>>, readable: string -> bool)
    requires AllReadable(refs, readable)
    ensures var inv, uris := Build(refs, readable), Links(refs);
            && (PickActive(inv, Bios, BIOS_CANDIDATES).Some? <==> LegacyResolve(uris, Bios).Some?)
            && (PickActive(inv, Bmc, BMC_CANDIDATES).Some? ==> LegacyResolve(uris, Bmc).Some?)
            && (LegacyResolve(uris, Bmc).Some? && PickActive(inv, Bmc, BMC_CANDIDATES) == None <==>
                  && (exists uri | uri in uris :: Tokened(uri, Bmc))
                  && (forall uri | uri in uris && Tokened(uri, Bmc) :: Tokened(uri, Bios)))
  {
    BiosResolvesTogether(refs, readable);
    BmcResolvesTogether(refs, readable);
  }

  lemma BiosResolvesTogether(refs: seq<Option<string>>, readable: string -> bool)
    requires AllReadable(refs, readable)
    ensures PickActive(Build(refs, readable), Bios, BIOS_CANDIDATES).Some? <==> LegacyResolve(Links(refs), Bios).Some?
  {
    DiscovererResolvesIff(refs, readable, Bios, BIOS_CANDIDATES);
    LegacyMeaning(Links(refs), Bios);
    TokenedKinds();
  }

  lemma BmcResolvesTogether(refs: seq<Option<string>>, readable: string -> bool)
    requires AllReadable(refs, readable)
    ensures var inv, uris := Build(refs, readable), Links(refs);
            && (PickActive(inv, Bmc, BMC_CANDIDATES).Some? ==> LegacyResolve(uris, Bmc).Some?)
            && (LegacyResolve(uris, Bmc).Some? && PickActive(inv, Bmc, BMC_CANDIDATES) == None <==>
                  && (exists uri | uri in uris :: Tokened(uri, Bmc))
                  && (forall uri | uri in uris && Tokened(uri, Bmc) :: Tokened(uri, Bios)))
  {
    DiscovererResolvesIff(refs, readable, Bmc, BMC_CANDIDATES);
    LegacyMeaning(Links(refs), Bmc);
    TokenedKinds();
  }

  lemma TokenedKinds()
    ensures forall uri :: Tokened(uri, Bios) <==> IsActiveBank(Leaf(uri)) && Classify(Leaf(uri)) == Bios
    ensures forall uri :: Tokened(uri, Bmc) && !Tokened(uri, Bios) <==>
                            IsActiveBank(Leaf(uri)) && Classify(Leaf(uri)) == Bmc
  {
    forall uri
      ensures Tokened(uri, Bios) <==> IsActiveBank(Leaf(uri)) && Classify(Leaf(uri)) == Bios
      ensures Tokened(uri, Bmc) && !Tokened(uri, Bios) <==>
                IsActiveBank(Leaf(uri)) && Classify(Leaf(uri)) == Bmc
    {
      TokenedIsClass(uri);
    }
  }

  // ---- exactly when they agree --------------------------------------------

  /** An active link of the component's class. */
  predicate OfClass(uri: string, component: Component) {
    IsActiveBank(Leaf(uri)) && Classify(Leaf(uri)) == component
  }

  predicate HasCanonical(uris: seq<string>, component: Component) {
    exists c | c in Candidates(component) :: HasLeaf(uris, c)
  }

  /** Some active link of the class has this leaf. */
  predicate Listed(uris: seq<string>, component: Component, leaf: string) {
    exists uri | uri in uris :: OfClass(uri, component) && Leaf(uri) == leaf
  }

  /** The lexically least leaf among the active links of the class. */
  predicate LeastLeaf(uris: seq<string>, component: Component, leaf: string) {
    && Listed(uris, component, leaf)
    && (forall uri | uri in uris && OfClass(uri, component) :: LexLe(leaf, Leaf(uri)))
  }

  /** An active link of the class is in the inventory under its leaf, and nothing else is. */
  lemma FitsIffListed(refs: seq<Option<string>>, readable: string -> bool, component: Component, leaf: string)
    requires AllReadable(refs, readable) && component != Other
    ensures Fits(Build(refs, readable).members, leaf, component) <==> Listed(Links(refs), component, leaf)
    ensures Fits(Build(refs, readable).members, leaf, component) ==>
            leaf in Build(refs, readable).names
            && Some(Build(refs, readable).members[leaf].uri) == LastWithLeaf(Links(refs), leaf)
  {
    var inv := Build(refs, readable);
    BuildFiles(refs, readable);
    EmptyIsOther();
    if Fits(inv.members, leaf, component) {
      assert Filed(inv.members[leaf], leaf, refs, readable);
      assert leaf != "";
      BuildKeepsLast(refs, readable, leaf);
      LastIsPresent(Links(refs), leaf);
    }
    if uri :| uri in Links(refs) && OfClass(uri, component) && Leaf(uri) == leaf {
      assert leaf != "";
      LastIsPresent(Links(refs), leaf);
      BuildKeepsLast(refs, readable, leaf);
      assert Filed(inv.members[leaf], leaf, refs, readable);
    }
  }

  /** In a sorted list the first fitting leaf is the least. */
  lemma {:induction false} FirstFittingIsLeast(members: Members, component: Component, leaves: seq<string>)
    requires SortedBy(LexLe, leaves)
    ensures var found := FirstFitting(members, component, leaves);
            && (found == None <==> forall leaf | leaf in leaves :: !Fits(members, leaf, component))
            && (found.Some? ==> exists leaf | leaf in leaves ::
                  && Fits(members, leaf, component) && found.value == members[leaf].uri
                  && forall other | other in leaves && Fits(members, other, component) :: LexLe(leaf, other))
  {
    if leaves != [] {
      FirstFittingIsLeast(members, component, leaves[1..]);
      assert leaves == [leaves[0]] + leaves[1..];
      LexTotal(leaves[0], leaves[0]);
    }
  }

  /** Without a canonical leaf the discoverer picks the last link with the lexically least leaf of the class. */
  lemma DiscovererPicksLeast(refs: seq<Option<string>>, readable: string -> bool, component: Component)
    requires (component == Bios || component == Bmc) && AllReadable(refs, readable)
    requires !HasCanonical(Links(refs), component)
    ensures var pick, uris := PickActive(Build(refs, readable), component, Candidates(component)), Links(refs);
            && (pick == None <==> forall uri | uri in uris :: !OfClass(uri, component))
            && (pick.Some? ==> exists leaf :: LeastLeaf(uris, component, leaf) && pick == LastWithLeaf(uris, leaf))
  {
    NoCanonicalFits(refs, readable, component);
    BuildFiles(refs, readable);
    forall leaf
      ensures Fits(Build(refs, readable).members, leaf, component) <==> Listed(Links(refs), component, leaf)
      ensures Fits(Build(refs, readable).members, leaf, component) ==>
              leaf in Build(refs, readable).names
              && Some(Build(refs, readable).members[leaf].uri) == LastWithLeaf(Links(refs), leaf)
    {
      FitsIffListed(refs, readable, component, leaf);
    }
    FallbackPicksLeast(Build(refs, readable), component, Links(refs));
  }

  /** The fallback of `_pick_active`, on an inventory that reflects the links. */
  lemma FallbackPicksLeast(inv: Inventory, component: Component, uris: seq<string>)
    requires forall leaf :: Fits(inv.members, leaf, component) <==> Listed(uris, component, leaf)
    requires forall leaf :: Fits(inv.members, leaf, component) ==>
               leaf in inv.names && Some(inv.members[leaf].uri) == LastWithLeaf(uris, leaf)
    ensures var pick := FirstFitting(inv.members, component, Sort(LexLe, inv.names));
            && (pick == None <==> forall uri | uri in uris :: !OfClass(uri, component))
            && (pick.Some? ==> exists leaf :: LeastLeaf(uris, component, leaf) && pick == LastWithLeaf(uris, leaf))
  {
    var sorted := Sort(LexLe, inv.names);
    SortedNames(inv.names);
    FirstFittingIsLeast(inv.members, component, sorted);
    forall uri | uri in uris && OfClass(uri, component)
      ensures Leaf(uri) in sorted && Fits(inv.members, Leaf(uri), component)
    {
      assert Listed(uris, component, Leaf(uri));
    }
    var found := FirstFitting(inv.members, component, sorted);
    if found.Some? {
      var leaf :| leaf in sorted && Fits(inv.members, leaf, component) && found.value == inv.members[leaf].uri
                  && forall other | other in sorted && Fits(inv.members, other, component) :: LexLe(leaf, other);
      assert LeastLeaf(uris, component, leaf);
    }
  }

  lemma SortedNames(names: seq<string>)
    ensures SortedBy(LexLe, Sort(LexLe, names))
    ensures forall leaf :: leaf in Sort(LexLe, names) <==> leaf in names
  {
    LexIsPreorder();
    SortSorts(LexLe, names);
    assert forall leaf :: leaf in Sort(LexLe, names) <==> leaf in multiset(Sort(LexLe, names));
    assert forall leaf :: leaf in names <==> leaf in multiset(names);
  }

  lemma NoCanonicalFits(refs: seq<Option<string>>, readable: string -> bool, component: Component)
    requires (component == Bios || component == Bmc) && AllReadable(refs, readable)
    requires !HasCanonical(Links(refs), component)
    ensures FirstFitting(Build(refs, readable).members, component, Candidates(component)) == None
  {
    var members, candidates := Build(refs, readable).members, Candidates(component);
    FirstFittingMeaning(members, component, candidates);
    forall leaf | leaf in candidates
      ensures !Fits(members, leaf, component)
    {
      CanonicalFitsInside(refs, readable, component, leaf);
    }
  }

  /**
   What a reader of the page can check. With a canonical leaf: the first and the last link
   with the best one are the same. Without: no active link carries a token of the component;
   or the first that does is of the class, has its lexically least leaf and is the last with
   that leaf.
   */
  predicate Agreeable(uris: seq<string>, component: Component) {
    if HasCanonical(uris, component) then
      exists k | 0 <= k < |Candidates(component)| ::
        IsBestLeaf(uris, Candidates(component), k)
        && FirstWithLeaf(uris, Candidates(component)[k]) == LastWithLeaf(uris, Candidates(component)[k])
    else FallbackAgreeable(uris, component)
  }

  /** Candidate `k` is a leaf of some link, and no better candidate is. */
  predicate IsBestLeaf(uris: seq<string>, candidates: seq<string>, k: int) {
    && 0 <= k < |candidates| && HasLeaf(uris, candidates[k])
    && forall j | 0 <= j < k :: !HasLeaf(uris, candidates[j])
  }

  lemma OneBestLeaf(uris: seq<string>, candidates: seq<string>, i: int, k: int)
    requires IsBestLeaf(uris, candidates, i) && IsBestLeaf(uris, candidates, k)
    ensures i == k
  {
  }

  predicate FallbackAgreeable(uris: seq<string>, component: Component) {
    match FirstByToken(uris, component)
    case None => true
    case Some(u) =>
      && OfClass(u, component) && LeastLeaf(uris, component, Leaf(u))
      && LastWithLeaf(uris, Leaf(u)) == Some(u)
  }

  lemma AgreeWithCanonical(refs: seq<Option<string>>, readable: string -> bool, component: Component)
    requires (component == Bios || component == Bmc) && AllReadable(refs, readable)
    requires HasCanonical(Links(refs), component)
    ensures PickActive(Build(refs, readable), component, Candidates(component)) == LegacyResolve(Links(refs), component)
            <==> Agreeable(Links(refs), component)
  {
    var uris := Links(refs);
    var k := CanonicalAgreement(refs, readable, component);
    assert IsBestLeaf(uris, Candidates(component), k);
    forall i | IsBestLeaf(uris, Candidates(component), i)
      ensures i == k
    {
      OneBestLeaf(uris, Candidates(component), i, k);
    }
  }

  lemma AgreeWithoutCanonical(refs: seq<Option<string>>, readable: string -> bool, component: Component)
    requires (component == Bios || component == Bmc) && AllReadable(refs, readable)
    requires !HasCanonical(Links(refs), component)
    ensures PickActive(Build(refs, readable), component, Candidates(component)) == LegacyResolve(Links(refs), component)
            <==> Agreeable(Links(refs), component)
  {
    var uris := Links(refs);
    DiscovererPicksLeast(refs, readable, component);
    FirstExactMeaning(uris, Candidates(component));
    FallbacksAgree(uris, component, PickActive(Build(refs, readable), component, Candidates(component)));
  }

  lemma FallbacksAgree(uris: seq<string>, component: Component, pick: Option<string>)
    requires component == Bios || component == Bmc
    requires pick == None <==> forall uri | uri in uris :: !OfClass(uri, component)
    requires pick.Some? ==> exists leaf :: LeastLeaf(uris, component, leaf) && pick == LastWithLeaf(uris, leaf)
    ensures pick == FirstByToken(uris, component) <==> FallbackAgreeable(uris, component)
  {
    FirstByTokenMeaning(uris, component);
    if pick.Some? {
      var leaf :| LeastLeaf(uris, component, leaf) && pick == LastWithLeaf(uris, leaf);
      LastIsPresent(uris, leaf);
      OneLeastLeaf(uris, component, leaf);
      var u :| u in uris && OfClass(u, component) && Leaf(u) == leaf;
      TokenedIsClass(u);
      assert FirstByToken(uris, component).Some?;
    } else if FirstByToken(uris, component).Some? {
      assert !OfClass(FirstByToken(uris, component).value, component);
    }
  }

  lemma OneLeastLeaf(uris: seq<string>, component: Component, leaf: string)
    requires LeastLeaf(uris, component, leaf)
    ensures forall other | LeastLeaf(uris, component, other) :: other == leaf
  {
    forall other | LeastLeaf(uris, component, other)
      ensures other == leaf
    {
      LexTotal(leaf, other);
    }
  }

  /**
   On one fully readable page the cached classification and the inline walk give the same
   answer, the same URI or none, if and only if the page is agreeable.
   */
  lemma AgreeIff(refs: seq<Option<string>>, readable: string -> bool, component: Component)
    requires (component == Bios || component == Bmc) && AllReadable(refs, readable)
    ensures PickActive(Build(refs, readable), component, Candidates(component)) == LegacyResolve(Links(refs), component)
            <==> Agreeable(Links(refs), component)
  {
    if HasCanonical(Links(refs), component) {
      AgreeWithCanonical(refs, readable, component);
    } else {
      AgreeWithoutCanonical(refs, readable, component);
    }
  }

  // ---- beyond one readable page -------------------------------------------

  /** The links the discoverer could read. */
  function Visible(refs: seq<Option<string>>, readable: string -> bool): seq<Option<string>> {
    if refs == [] then []
    else
      var rest, ref := Visible(refs[..|refs| - 1], readable), refs[|refs| - 1];
      if ref.Some? && ref.value != "" && readable(ref.value) then rest + [ref] else rest
  }

  /** Links that cannot be read leave no trace in the inventory. */
  lemma {:induction false} BuildSeesVisible(refs: seq<Option<string>>, readable: string -> bool)
    ensures Build(refs, readable) == Build(Visible(refs, readable), readable)
    ensures AllReadable(Visible(refs, readable), readable)
  {
    if refs != [] {
      var rest, ref := refs[..|refs| - 1], refs[|refs| - 1];
      BuildSeesVisible(rest, readable);
      var seen := Visible(rest, readable);
      assert (seen + [ref])[..|seen|] == seen;
    }
  }

  /** What the discoverer takes from the links it saw: the last link with the best leaf. */
  predicate LastTaken(seen: seq<string>, component: Component, uri: string) {
    if HasCanonical(seen, component) then
      exists k | 0 <= k < |Candidates(component)| ::
        IsBestLeaf(seen, Candidates(component), k) && LastWithLeaf(seen, Candidates(component)[k]) == Some(uri)
    else
      OfClass(uri, component) && LeastLeaf(seen, component, Leaf(uri)) && LastWithLeaf(seen, Leaf(uri)) == Some(uri)
  }

  /** What the inline walk takes from the links of the first page: the first that will do. */
  predicate FirstTaken(listed: seq<string>, component: Component, uri: string) {
    if HasCanonical(listed, component) then
      exists k | 0 <= k < |Candidates(component)| ::
        IsBestLeaf(listed, Candidates(component), k) && FirstWithLeaf(listed, Candidates(component)[k]) == Some(uri)
    else FirstByToken(listed, component) == Some(uri)
  }

  lemma LegacyTakes(listed: seq<string>, component: Component, uri: string)
    requires component == Bios || component == Bmc
    ensures LegacyResolve(listed, component) == Some(uri) <==> FirstTaken(listed, component, uri)
  {
    var candidates := Candidates(component);
    FirstExactMeaning(listed, candidates);
    if HasCanonical(listed, component) {
      var k := FirstPresent(listed, candidates);
      assert IsBestLeaf(listed, candidates, k);
      FirstWithLeafMeaning(listed, candidates[k]);
      forall i | IsBestLeaf(listed, candidates, i)
        ensures i == k
      {
        OneBestLeaf(listed, candidates, i, k);
      }
    }
  }

  lemma DiscovererTakes(refs: seq<Option<string>>, readable: string -> bool, component: Component, uri: string)
    requires (component == Bios || component == Bmc) && AllReadable(refs, readable)
    ensures PickActive(Build(refs, readable), component, Candidates(component)) == Some(uri)
            <==> LastTaken(Links(refs), component, uri)
  {
    if HasCanonical(Links(refs), component) {
      DiscovererTakesCanonical(refs, readable, component, uri);
    } else {
      DiscovererPicksLeast(refs, readable, component);
      LastOfLeast(Links(refs), component, PickActive(Build(refs, readable), component, Candidates(component)), uri);
    }
  }

  lemma DiscovererTakesCanonical(refs: seq<Option<string>>, readable: string -> bool, component: Component, uri: string)
    requires (component == Bios || component == Bmc) && AllReadable(refs, readable)
    requires HasCanonical(Links(refs), component)
    ensures PickActive(Build(refs, readable), component, Candidates(component)) == Some(uri)
            <==> LastTaken(Links(refs), component, uri)
  {
    var seen := Links(refs);
    var k := CanonicalAgreement(refs, readable, component);
    assert IsBestLeaf(seen, Candidates(component), k);
    forall i | IsBestLeaf(seen, Candidates(component), i)
      ensures i == k
    {
      OneBestLeaf(seen, Candidates(component), i, k);
    }
  }

  lemma LastOfLeast(seen: seq<string>, component: Component, pick: Option<string>, uri: string)
    requires pick == None <==> forall u | u in seen :: !OfClass(u, component)
    requires pick.Some? ==> exists leaf :: LeastLeaf(seen, component, leaf) && pick == LastWithLeaf(seen, leaf)
    ensures pick == Some(uri) <==>
            && OfClass(uri, component) && LeastLeaf(seen, component, Leaf(uri))
            && LastWithLeaf(seen, Leaf(uri)) == Some(uri)
  {
    if pick.Some? {
      var leaf :| LeastLeaf(seen, component, leaf) && pick == LastWithLeaf(seen, leaf);
      LastIsPresent(seen, leaf);
      OneLeastLeaf(seen, component, leaf);
    }
  }

  /**
   Whatever the pages and whichever members can be read, the two implementations answer alike
   if and only if neither finds anything, there being no active link of the class among the
   links read and none with a token on the first page, or the link the inline walk takes from
   the first page is the one the discoverer takes from all it read.
   */
  lemma AgreeEverywhereIff(first: Page, fetch: string -> Option<Page>, readable: string -> bool, component: Component)
    requires component == Bios || component == Bmc
    ensures var all, listed := first.members + Following(first.next, fetch, 0), Links(first.members);
            var seen := Links(Visible(all, readable));
            PickActive(Build(all, readable), component, Candidates(component)) == LegacyResolve(listed, component)
            <==>
              || (&& (forall u | u in seen :: !OfClass(u, component))
                  && (forall u | u in listed :: !Tokened(u, component)))
              || exists u | u in listed :: FirstTaken(listed, component, u) && LastTaken(seen, component, u)
  {
    var all, listed := first.members + Following(first.next, fetch, 0), Links(first.members);
    var visible := Visible(all, readable);
    BuildSeesVisible(all, readable);
    DiscovererResolvesIff(visible, readable, component, Candidates(component));
    LegacyMeaning(listed, component);
    forall u
      ensures LegacyResolve(listed, component) == Some(u) <==> FirstTaken(listed, component, u)
      ensures PickActive(Build(visible, readable), component, Candidates(component)) == Some(u)
              <==> LastTaken(Links(visible), component, u)
    {
      LegacyTakes(listed, component, u);
      DiscovererTakes(visible, readable, component, u);
    }
  }

  // ---- the names themselves -----------------------------------------------

  /** The lower-cased leaf of the link contains one of the words. */
  predicate Says(uri: string, words: seq<string>) {
    ContainsAny(Lower(Leaf(uri)), words)
  }

  /** No rollback, recovery or staging bank. */
  predicate Active(uri: string) {
    !Says(uri, ["backup", "golden", "staging", "recovery", "history", "image2", "image_2"])
  }

  const KINDS := [Bios, Bmc, Cpld, Fpga, Bp, Psu, Retimer]

  function WordsOf(component: Component): seq<string> {
    match component
    case Bios => ["bios", "uefi"]
    case Bmc => ["bmc", "idrac", "ilo", "xcc", "manager"]
    case Cpld => ["cpld"]
    case Fpga => ["fpga"]
    case Bp => ["backplane", "bp"]
    case Psu => ["psu", "powersupply", "power_supply"]
    case Retimer => ["retimer"]
    case Other => []
  }

  /** The first class one of whose words the leaf contains. */
  predicate OfKind(uri: string, component: Component) {
    exists k | 0 <= k < |KINDS| ::
      KINDS[k] == component && Says(uri, WordsOf(component))
      && forall j | 0 <= j < k :: !Says(uri, WordsOf(KINDS[j]))
  }

  lemma ClassIsKind(uri: string, component: Component)
    requires component != Other
    ensures OfClass(uri, component) <==> Active(uri) && OfKind(uri, component)
  {
    assert IsActiveBank(Leaf(uri)) <==> Active(uri);
    ClassifiedKind(uri);
    if OfKind(uri, component) {
      var k :| 0 <= k < |KINDS| && KINDS[k] == component && Says(uri, WordsOf(component))
               && forall j | 0 <= j < k :: !Says(uri, WordsOf(KINDS[j]));
      if Classify(Leaf(uri)) != Other {
        OneKind(uri, component, Classify(Leaf(uri)));
      }
    }
  }

  /** The tokens of the inline walk. */
  lemma TokenedSays(uri: string)
    ensures Tokened(uri, Bios) <==> Active(uri) && Says(uri, WordsOf(Bios))
    ensures Tokened(uri, Bmc) <==> Active(uri) && Says(uri, WordsOf(Bmc))
  {
    assert IsActiveBank(Leaf(uri)) <==> Active(uri);
    assert WordsOf(Bios) == BIOS_TOKENS && WordsOf(Bmc) == BMC_TOKENS;
  }

  lemma OneKind(uri: string, a: Component, b: Component)
    requires OfKind(uri, a) && OfKind(uri, b)
    ensures a == b
  {
    var j :| 0 <= j < |KINDS| && KINDS[j] == a && Says(uri, WordsOf(a))
             && forall i | 0 <= i < j :: !Says(uri, WordsOf(KINDS[i]));
    var k :| 0 <= k < |KINDS| && KINDS[k] == b && Says(uri, WordsOf(b))
             && forall i | 0 <= i < k :: !Says(uri, WordsOf(KINDS[i]));
    assert !(j < k) && !(k < j);
  }

  lemma ClassifyIs(uri: string)
    ensures Classify(Leaf(uri)) ==
            if Says(uri, WordsOf(Bios)) then Bios
            else if Says(uri, WordsOf(Bmc)) then Bmc
            else if Says(uri, WordsOf(Cpld)) then Cpld
            else if Says(uri, WordsOf(Fpga)) then Fpga
            else if Says(uri, WordsOf(Bp)) then Bp
            else if Says(uri, WordsOf(Psu)) then Psu
            else if Says(uri, WordsOf(Retimer)) then Retimer
            else Other
  {
    assert WordsOf(Bios) == BIOS_TOKENS && WordsOf(Bmc) == BMC_TOKENS;
  }

  /** The first of the kinds, from `k` on, that the leaf says. */
  function FirstKind(uri: string, k: nat): Component
    requires k <= |KINDS|
    decreases |KINDS| - k
  {
    if k == |KINDS| then Other else if Says(uri, WordsOf(KINDS[k])) then KINDS[k] else FirstKind(uri, k + 1)
  }

  lemma {:induction false} FirstKindMeaning(uri: string, k: nat)
    requires k <= |KINDS| && forall j | 0 <= j < k :: !Says(uri, WordsOf(KINDS[j]))
    ensures if FirstKind(uri, k) == Other then forall j | 0 <= j < |KINDS| :: !Says(uri, WordsOf(KINDS[j]))
            else OfKind(uri, FirstKind(uri, k))
    decreases |KINDS| - k
  {
    if k < |KINDS| {
      if !Says(uri, WordsOf(KINDS[k])) {
        FirstKindMeaning(uri, k + 1);
      } else {
        assert KINDS[k] != Other;
      }
    }
  }

  lemma ClassifiedKind(uri: string)
    ensures Classify(Leaf(uri)) != Other ==> OfKind(uri, Classify(Leaf(uri)))
    ensures Classify(Leaf(uri)) == Other ==> forall k | 0 <= k < |KINDS| :: !Says(uri, WordsOf(KINDS[k]))
  {
    ClassifyIs(uri);
    assert FirstKind(uri, 7) == Other;
    assert FirstKind(uri, 6) == if Says(uri, WordsOf(Retimer)) then Retimer else FirstKind(uri, 7);
    assert FirstKind(uri, 5) == if Says(uri, WordsOf(Psu)) then Psu else FirstKind(uri, 6);
    assert FirstKind(uri, 4) == if Says(uri, WordsOf(Bp)) then Bp else FirstKind(uri, 5);
    assert FirstKind(uri, 3) == if Says(uri, WordsOf(Fpga)) then Fpga else FirstKind(uri, 4);
    assert FirstKind(uri, 2) == if Says(uri, WordsOf(Cpld)) then Cpld else FirstKind(uri, 3);
    assert FirstKind(uri, 1) == if Says(uri, WordsOf(Bmc)) then Bmc else FirstKind(uri, 2);
    assert FirstKind(uri, 0) == if Says(uri, WordsOf(Bios)) then Bios else FirstKind(uri, 1);
    FirstKindMeaning(uri, 0);
  }

  /**
   A target of a class is offered exactly when some member that could be read is active and
   of the class, by its name, and then it is such a member.
   */
  lemma TargetIsOfKind(refs: seq<Option<string>>, readable: string -> bool, component: Component, priority: seq<string>)
    requires component != Other
    ensures var pick := PickActive(Build(refs, readable), component, priority);
            && (pick == None <==>
                  forall uri | Seen(refs, readable, uri) :: !(Active(uri) && OfKind(uri, component)))
            && (pick.Some? ==>
                  Seen(refs, readable, pick.value) && Active(pick.value) && OfKind(pick.value, component))
  {
    var inv := Build(refs, readable);
    BuildFiles(refs, readable);
    PickActiveMeaning(inv, component, priority);
    forall uri | Seen(refs, readable, uri) && Active(uri) && OfKind(uri, component)
      ensures Fits(inv.members, Leaf(uri), component)
    {
      ClassIsKind(uri, component);
      assert Filed(inv.members[Leaf(uri)], Leaf(uri), refs, readable);
    }
    forall leaf | Fits(inv.members, leaf, component)
      ensures var uri := inv.members[leaf].uri; Seen(refs, readable, uri) && Active(uri) && OfKind(uri, component)
    {
      assert Filed(inv.members[leaf], leaf, refs, readable);
      ClassIsKind(inv.members[leaf].uri, component);
    }
  }

  /** The extra targets are one of each of the five further classes that has a member. */
  lemma ExtrasAreOfKind(refs: seq<Option<string>>, readable: string -> bool)
    ensures var extra := Extras(Build(refs, readable), |EXTRA_CLASSES|);
            && (forall c :: c in extra <==>
                  && c in [Cpld, Fpga, Bp, Psu, Retimer]
                  && exists uri | Some(uri) in refs :: Seen(refs, readable, uri) && Active(uri) && OfKind(uri, c))
            && (forall c | c in extra :: Seen(refs, readable, extra[c]) && Active(extra[c]) && OfKind(extra[c], c))
  {
    var inv := Build(refs, readable);
    var extra := Extras(inv, |EXTRA_CLASSES|);
    ExtrasArePicks(inv, |EXTRA_CLASSES|);
    ExtrasAreAll(inv, |EXTRA_CLASSES|);
    assert EXTRA_CLASSES[..|EXTRA_CLASSES|] == EXTRA_CLASSES;
    forall c | c in EXTRA_CLASSES
      ensures c in extra <==>
              exists uri | Some(uri) in refs :: Seen(refs, readable, uri) && Active(uri) && OfKind(uri, c)
      ensures c in extra ==> Seen(refs, readable, extra[c]) && Active(extra[c]) && OfKind(extra[c], c)
    {
      TargetIsOfKind(refs, readable, c, []);
    }
  }

  lemma {:induction false} ExtrasAreAll(inv: Inventory, n: nat)
    requires n <= |EXTRA_CLASSES|
    ensures forall c :: c in Extras(inv, n) <==> c in EXTRA_CLASSES[..n] && PickActive(inv, c, []).Some?
  {
    if n > 0 {
      ExtrasAreAll(inv, n - 1);
      assert EXTRA_CLASSES[..n] == EXTRA_CLASSES[..n - 1] + [EXTRA_CLASSES[n - 1]];
    }
  }

  /** The names looked for first, best first. */
  function Canonical(component: Component): seq<string> {
    if component == Bios
    then ["BIOS", "Bios", "SystemBios", "SystemBIOS", "UEFI", "Uefi", "BIOSImage1", "BIOSImage_1"]
    else ["BMC", "BMC-Primary", "BMCActive", "BMC_Active", "BMCImage1", "BMCImage_1",
          "iDRAC", "iLO", "iLO5", "iLO6", "XCC", "Manager"]
  }

  /** Both implementations look for the canonical names first, and take the best that is listed. */
  lemma CanonicalFirst(refs: seq<Option<string>>, readable: string -> bool, component: Component, k: nat)
    requires component == Bios || component == Bmc
    ensures IsBestLeaf(Links(Visible(refs, readable)), Canonical(component), k) ==>
              PickActive(Build(refs, readable), component, Candidates(component))
              == LastWithLeaf(Links(Visible(refs, readable)), Canonical(component)[k])
    ensures IsBestLeaf(Links(refs), Canonical(component), k) ==>
              LegacyResolve(Links(refs), component) == FirstWithLeaf(Links(refs), Canonical(component)[k])
  {
    var seen := Visible(refs, readable);
    CanonicalIsCandidates(component);
    BuildSeesVisible(refs, readable);
    if IsBestLeaf(Links(seen), Canonical(component), k) {
      DiscovererPicksLast(seen, readable, component, k);
    }
    if IsBestLeaf(Links(refs), Canonical(component), k) {
      LegacyPicksFirst(Links(refs), component, k);
    }
  }

  lemma CanonicalIsCandidates(component: Component)
    requires component == Bios || component == Bmc
    ensures Canonical(component) == Candidates(component)
  {
  }

  lemma LegacyPicksFirst(uris: seq<string>, component: Component, k: nat)
    requires IsBestLeaf(uris, Candidates(component), k)
    ensures LegacyResolve(uris, component) == FirstWithLeaf(uris, Candidates(component)[k])
  {
    FirstExactMeaning(uris, Candidates(component));
    FirstWithLeafMeaning(uris, Candidates(component)[k]);
  }

  // ---- the HGX members ----------------------------------------------------

  /** Where the leaf first occurs; the length when it does not. */
  function FirstAt(uris: seq<string>, leaf: string): nat
    ensures FirstAt(uris, leaf) <= |uris|
  {
    if uris == [] then 0
    else if FirstAt(uris[..|uris| - 1], leaf) < |uris| - 1 then FirstAt(uris[..|uris| - 1], leaf)
    else if Leaf(uris[|uris| - 1]) == leaf then |uris| - 1 else |uris|
  }

  predicate InOrder(uris: seq<string>, names: seq<string>) {
    forall i, j | 0 <= i < j < |names| :: FirstAt(uris, names[i]) < FirstAt(uris, names[j])
  }

  lemma FirstAtSnoc(uris: seq<string>, uri: string, leaf: string)
    ensures FirstAt(uris + [uri], leaf) == if FirstAt(uris, leaf) < |uris| then FirstAt(uris, leaf)
                                           else if Leaf(uri) == leaf then |uris| else |uris| + 1
  {
    assert (uris + [uri])[..|uris|] == uris;
  }

  /** One more link: the names shown so far keep their places, a new one comes last. */
  lemma OrderGrows(uris: seq<string>, names: seq<string>, uri: string)
    requires InOrder(uris, names) && forall n | n in names :: FirstAt(uris, n) < |uris|
    ensures InOrder(uris + [uri], names) && forall n | n in names :: FirstAt(uris + [uri], n) < |uris| + 1
    ensures FirstAt(uris, Leaf(uri)) == |uris| ==>
              && InOrder(uris + [uri], names + [Leaf(uri)])
              && forall n | n in names + [Leaf(uri)] :: FirstAt(uris + [uri], n) < |uris| + 1
  {
    FirstAtSnoc(uris, uri, Leaf(uri));
    forall n | n in names
      ensures FirstAt(uris + [uri], n) == FirstAt(uris, n) < |uris|
    {
      FirstAtSnoc(uris, uri, n);
    }
    assert forall i | 0 <= i < |names| :: (names + [Leaf(uri)])[i] == names[i] && names[i] in names;
  }

  /** The names of the inventory are in the order in which the members that could be read first show them. */
  lemma {:induction false} NamesInOrder(refs: seq<Option<string>>, readable: string -> bool)
    ensures var uris, names := Links(Visible(refs, readable)), Build(refs, readable).names;
            InOrder(uris, names) && forall n | n in names :: FirstAt(uris, n) < |uris|
  {
    if refs != [] {
      var rest, ref := refs[..|refs| - 1], refs[|refs| - 1];
      NamesInOrder(rest, readable);
      var seen, inv := Visible(rest, readable), Build(rest, readable);
      if ref.Some? && ref.value != "" && readable(ref.value) {
        LinksSnoc(seen, ref);
        OrderGrows(Links(seen), inv.names, ref.value);
        BuildFiles(rest, readable);
        if Leaf(ref.value) !in inv.names {
          NotYetShown(rest, readable, Leaf(ref.value));
        }
      }
    }
  }

  lemma NotYetShown(refs: seq<Option<string>>, readable: string -> bool, leaf: string)
    requires leaf !in Build(refs, readable).names
    ensures FirstAt(Links(Visible(refs, readable)), leaf) == |Links(Visible(refs, readable))|
  {
    var seen := Visible(refs, readable);
    BuildSeesVisible(refs, readable);
    BuildFiles(seen, readable);
    VisibleIsSeen(refs, readable);
    forall uri | uri in Links(seen)
      ensures Leaf(uri) != leaf
    {
      var i :| 0 <= i < |seen| && Links(seen)[i] == uri;
      assert seen[i] in seen && Seen(seen, readable, uri);
    }
    FirstAtAbsent(Links(seen), leaf);
  }

  lemma {:induction false} VisibleIsSeen(refs: seq<Option<string>>, readable: string -> bool)
    ensures forall r :: r in Visible(refs, readable) <==>
              r in refs && r.Some? && r.value != "" && readable(r.value)
  {
    if refs != [] {
      VisibleIsSeen(refs[..|refs| - 1], readable);
      assert refs == refs[..|refs| - 1] + [refs[|refs| - 1]];
    }
  }

  lemma {:induction false} FirstAtAbsent(uris: seq<string>, leaf: string)
    requires forall uri | uri in uris :: Leaf(uri) != leaf
    ensures FirstAt(uris, leaf) == |uris|
  {
    if uris != [] {
      FirstAtAbsent(uris[..|uris| - 1], leaf);
      assert uris[|uris| - 1] in uris;
    }
  }

  function Keys(ms: seq<HgxRouter.Member>): (keys: seq<string>)
    ensures |keys| == |ms| && forall i | 0 <= i < |ms| :: keys[i] == ms[i].key
  {
    seq(|ms|, i requires 0 <= i < |ms| => ms[i].key)
  }

  lemma {:induction false} HgxInOrder(inv: Inventory, names: seq<string>, uris: seq<string>)
    requires InOrder(uris, names)
    ensures InOrder(uris, Keys(HgxMembers(inv, names)))
    ensures forall key | key in Keys(HgxMembers(inv, names)) :: key in names
  {
    if names != [] {
      var front := names[..|names| - 1];
      HgxInOrder(inv, front, uris);
      assert forall n | n in front :: n in names && FirstAt(uris, n) < FirstAt(uris, names[|names| - 1]);
      assert forall key | key in Keys(HgxMembers(inv, front)) :: key in front;
    }
  }

  lemma {:induction false} HgxMembersAre(inv: Inventory, names: seq<string>)
    ensures forall m :: m in HgxMembers(inv, names) <==>
              && m.key in names && IsHgxMember(m.key) && m.key in inv.members && inv.members[m.key].active
              && m.uri == inv.members[m.key].uri
  {
    if names != [] {
      var front := names[..|names| - 1];
      HgxMembersAre(inv, front);
      assert names == front + [names[|names| - 1]];
    }
  }

  /** An HGX member: the last link that could be read with its leaf, which is active and says HGX. */
  predicate HgxLink(refs: seq<Option<string>>, readable: string -> bool, m: HgxRouter.Member) {
    && LastWithLeaf(Links(Visible(refs, readable)), m.key) == Some(m.uri) && m.key != ""
    && Active(m.uri) && Says(m.uri, ["hgx", "hmc", "gpu", "erot", "inforom"])
  }

  /** The HGX targets are exactly those links, each once, in the order in which their leaves are listed. */
  lemma HgxMembersExactly(refs: seq<Option<string>>, readable: string -> bool)
    ensures var ms := HgxMembers(Build(refs, readable), Build(refs, readable).names);
            && (forall m :: m in ms <==> HgxLink(refs, readable, m))
            && InOrder(Links(Visible(refs, readable)), Keys(ms))
  {
    var inv, seen := Build(refs, readable), Visible(refs, readable);
    NamesInOrder(refs, readable);
    HgxInOrder(inv, inv.names, Links(seen));
    HgxMembersAre(inv, inv.names);
    BuildFiles(refs, readable);
    forall m: HgxRouter.Member
      ensures m in HgxMembers(inv, inv.names) <==> HgxLink(refs, readable, m)
    {
      HgxMemberIff(refs, readable, m);
    }
  }

  lemma HgxMemberIff(refs: seq<Option<string>>, readable: string -> bool, m: HgxRouter.Member)
    ensures var inv := Build(refs, readable);
            && m.key in inv.names && IsHgxMember(m.key) && m.key in inv.members && inv.members[m.key].active
            && m.uri == inv.members[m.key].uri
            <==> HgxLink(refs, readable, m)
  {
    if m.key == "" {
      assert Lower("") == "" && forall p: string | p != "" :: !Contains("", p);
    } else {
      FiledIsLast(refs, readable, m.key);
      var last := LastWithLeaf(Links(Visible(refs, readable)), m.key);
      if last == Some(m.uri) {
        HgxNamed(m.uri);
      }
    }
  }

  lemma HgxNamed(uri: string)
    ensures IsHgxMember(Leaf(uri)) <==> Says(uri, ["hgx", "hmc", "gpu", "erot", "inforom"])
    ensures IsActiveBank(Leaf(uri)) <==> Active(uri)
  {
  }

  /** Under a leaf, the inventory holds the last link that could be read with it. */
  lemma FiledIsLast(refs: seq<Option<string>>, readable: string -> bool, leaf: string)
    requires leaf != ""
    ensures var inv, last := Build(refs, readable), LastWithLeaf(Links(Visible(refs, readable)), leaf);
            && (leaf in inv.names <==> leaf in inv.members)
            && last == (if leaf in inv.members then Some(inv.members[leaf].uri) else None)
            && (leaf in inv.members ==>
                  Leaf(inv.members[leaf].uri) == leaf && inv.members[leaf].active == IsActiveBank(leaf))
  {
    var inv, seen := Build(refs, readable), Visible(refs, readable);
    BuildFiles(refs, readable);
    BuildSeesVisible(refs, readable);
    BuildKeepsLast(seen, readable, leaf);
    if leaf in inv.members {
      assert Filed(inv.members[leaf], leaf, refs, readable);
    }
  }

  // ---- the pages ----------------------------------------------------------

  /** `chain` lists the pages behind `next` in order, each fetched by the next link of the one before. */
  predicate Chained(next: string, fetch: string -> Option<Page>, chain: seq<Page>)
    decreases chain
  {
    chain != [] ==> next != "" && fetch(next) == Some(chain[0]) && Chained(chain[0].next, fetch, chain[1..])
  }

  function MembersOf(chain: seq<Page>): seq<Option<string>> {
    if chain == [] then [] else chain[0].members + MembersOf(chain[1..])
  }

  /** The link behind the chain. */
  function NextOf(next: string, chain: seq<Page>): string
    decreases chain
  {
    if chain == [] then next else NextOf(chain[0].next, chain[1..])
  }

  /** The pages followed are the chain up to its end, to one that cannot be fetched, or to fifty. */
  lemma {:induction false} FollowsTheChain(next: string, fetch: string -> Option<Page>, guard: nat)
    returns (chain: seq<Page>)
    requires guard <= 50
    ensures Chained(next, fetch, chain) && Following(next, fetch, guard) == MembersOf(chain)
    ensures |chain| <= 50 - guard
    ensures |chain| == 50 - guard || NextOf(next, chain) == "" || fetch(NextOf(next, chain)) == None
    decreases 50 - guard
  {
    if next == "" || guard == 50 || fetch(next).None? {
      chain := [];
    } else {
      var rest := FollowsTheChain(fetch(next).value.next, fetch, guard + 1);
      chain := [fetch(next).value] + rest;
      assert chain[1..] == rest;
    }
  }

  // ---- pages on which they do not -----------------------------------------

  lemma SampleLeaves()
    ensures Leaf("f/ZBIOS") == "ZBIOS" && Leaf("f/ABIOS") == "ABIOS"
    ensures Leaf("f/BMC_BIOS") == "BMC_BIOS" && Leaf("f/UEFI") == "UEFI"
  {
    LeafOf("f/", "ZBIOS");
    LeafOf("f/", "ABIOS");
    LeafOf("f/", "BMC_BIOS");
    LeafOf("f/", "UEFI");
    assert "f/" + "ZBIOS" == "f/ZBIOS" && "f/" + "ABIOS" == "f/ABIOS";
    assert "f/" + "BMC_BIOS" == "f/BMC_BIOS" && "f/" + "UEFI" == "f/UEFI";
  }

  lemma PlainBios(uri: string)
    requires uri == "f/ZBIOS" || uri == "f/ABIOS"
    ensures Tokened(uri, Bios) && OfClass(uri, Bios)
  {
    SampleLeaves();
    var leaf := Leaf(uri);
    assert Without(leaf, "kh2" + ['l', 'n', 'v']);
    ActiveByLetters(leaf, 'l', 'n', 'v');
    TokenAt(leaf, "bios", 1);
    assert "bios" in BIOS_TOKENS;
    TokenedIsClass(uri);
  }

  /** Two members of the class, none with a canonical name, listed against the order of their leaves. */
  lemma ListedBackwards(refs: seq<Option<string>>, readable: string -> bool, uris: seq<string>)
    requires AllReadable(refs, readable) && uris == Links(refs) && |uris| == 2 && !HasCanonical(uris, Bios)
    requires Tokened(uris[0], Bios) && OfClass(uris[0], Bios) && OfClass(uris[1], Bios)
    requires !LexLe(Leaf(uris[0]), Leaf(uris[1]))
    ensures PickActive(Build(refs, readable), Bios, BIOS_CANDIDATES) == Some(uris[1])
    ensures LegacyResolve(uris, Bios) == Some(uris[0])
  {
    FirstExactMeaning(uris, BIOS_CANDIDATES);
    DiscovererPicksLeast(refs, readable, Bios);
    LexTotal(Leaf(uris[0]), Leaf(uris[1]));
    assert uris[0] in uris && uris[1] in uris;
    var leaf :| LeastLeaf(uris, Bios, leaf)
                && PickActive(Build(refs, readable), Bios, BIOS_CANDIDATES) == LastWithLeaf(uris, leaf);
    assert leaf == Leaf(uris[1]);
  }

  lemma NoneCanonical(uris: seq<string>)
    requires uris == ["f/ZBIOS", "f/ABIOS"]
    ensures !HasCanonical(uris, Bios) && !LexLe(Leaf(uris[0]), Leaf(uris[1]))
  {
    SampleLeaves();
    assert Leaf(uris[0])[0] == 'Z' && Leaf(uris[1])[0] == 'A';
    assert forall c | c in BIOS_CANDIDATES :: c[0] != 'Z' && c[0] != 'A';
  }

  lemma SampleIsDistinct(refs: seq<Option<string>>)
    requires refs == [Some("f/ZBIOS"), Some("f/ABIOS")]
    ensures DistinctLeaves(refs) && Links(refs) == ["f/ZBIOS", "f/ABIOS"]
  {
    SampleLeaves();
  }

  /** Two plain BIOS members without a canonical name: the first listed against the first by name. */
  lemma ListingOrderDisagrees()
    ensures var refs := [Some("f/ZBIOS"), Some("f/ABIOS")];
            && DistinctLeaves(refs)
            && PickActive(Build(refs, _ => true), Bios, BIOS_CANDIDATES) == Some("f/ABIOS")
            && LegacyResolve(Links(refs), Bios) == Some("f/ZBIOS")
  {
    var refs := [Some("f/ZBIOS"), Some("f/ABIOS")];
    var uris := ["f/ZBIOS", "f/ABIOS"];
    SampleIsDistinct(refs);
    PlainBios(uris[0]);
    PlainBios(uris[1]);
    NoneCanonical(uris);
    ListedBackwards(refs, _ => true, uris);
  }

  lemma BothTokens(uri: string)
    requires uri == "f/BMC_BIOS"
    ensures Tokened(uri, Bmc) && Tokened(uri, Bios)
  {
    SampleLeaves();
    var leaf := Leaf(uri);
    assert Without(leaf, "kh2" + ['l', 'n', 'v']);
    ActiveByLetters(leaf, 'l', 'n', 'v');
    TokenAt(leaf, "bmc", 0);
    TokenAt(leaf, "bios", 4);
    assert "bmc" in BMC_TOKENS && "bios" in BIOS_TOKENS;
  }

  lemma OnlyLegacyHits(refs: seq<Option<string>>, readable: string -> bool, uri: string)
    requires AllReadable(refs, readable) && Links(refs) == [uri] && Tokened(uri, Bmc) && Tokened(uri, Bios)
    ensures LegacyResolve([uri], Bmc) == Some(uri)
    ensures PickActive(Build(refs, readable), Bmc, BMC_CANDIDATES) == None
  {
    assert Links(refs)[0] in Links(refs);
    BmcResolvesTogether(refs, readable);
    LegacyMeaning([uri], Bmc);
  }

  /** One member with tokens of both: only the inline walk takes it for a BMC. */
  lemma SharedTokenDisagrees()
    ensures var refs := [Some("f/BMC_BIOS")];
            && LegacyResolve(Links(refs), Bmc) == Some("f/BMC_BIOS")
            && PickActive(Build(refs, _ => true), Bmc, BMC_CANDIDATES) == None
  {
    var refs := [Some("f/BMC_BIOS")];
    BothTokens("f/BMC_BIOS");
    assert Links(refs) == ["f/BMC_BIOS"];
    OnlyLegacyHits(refs, _ => true, "f/BMC_BIOS");
  }

  /** A canonical member on the second page: the inline walk, which reads the first only, misses it. */
  lemma SecondPageDisagrees()
    ensures var fetch := (_: string) => Some(Page([Some("f/UEFI")], ""));
            && PickActive(Build([] + Following("p", fetch, 0), _ => true), Bios, BIOS_CANDIDATES) == Some("f/UEFI")
            && LegacyResolve(Links([]), Bios) == None
  {
    var refs := [Some("f/UEFI")];
    var fetch := (_: string) => Some(Page([Some("f/UEFI")], ""));
    assert Following("", fetch, 1) == [] && [] + Following("p", fetch, 0) == refs;
    OneUefi(refs);
    assert Links([]) == [];
    LegacyMeaning([], Bios);
  }

  lemma OneUefi(refs: seq<Option<string>>)
    requires refs == [Some("f/UEFI")]
    ensures PickActive(Build(refs, _ => true), Bios, BIOS_CANDIDATES) == Some("f/UEFI")
    ensures LegacyResolve(Links(refs), Bios) == Some("f/UEFI")
  {
    SampleLeaves();
    assert Links(refs) == ["f/UEFI"] && Links(refs)[0] in Links(refs);
    assert HasLeaf(Links(refs), "UEFI") && BIOS_CANDIDATES[4] == "UEFI";
    var k := CanonicalAgreement(refs, _ => true, Bios);
  }

  /** A member that cannot be read: the inline walk, which reads none, takes it all the same. */
  lemma UnreadableDisagrees()
    ensures var refs := [Some("f/UEFI")];
            && PickActive(Build(refs, _ => false), Bios, BIOS_CANDIDATES) == None
            && LegacyResolve(Links(refs), Bios) == Some("f/UEFI")
  {
    var refs := [Some("f/UEFI")];
    OneUefi(refs);
    BuildFiles(refs, _ => false);
    PickActiveMeaning(Build(refs, _ => false), Bios, BIOS_CANDIDATES);
  }
}
