/**
 Which HGX firmware members one upload targets: `_select_hgx_target` and
 `_select_hgx_target_group` of plugins/generic_redfish/plugin.py. The member dictionary
 is the sequence of its items in insertion order.
 */
module HgxRouter {
  import opened Prelude
  import opened Text
  import opened Sorting

  datatype Member = Member(key: string, uri: string)

  const BUNDLE_MARKERS := ["bundle", "baseboard", "hgx_fw_bundle", "dgx", "_all"]

  /** The file name spells out this member's key. */
  predicate Named(name: string, m: Member) {
    Contains(Lower(name), Lower(m.key))
  }

  predicate LongestFirst(a: Member, b: Member) {
    |a.key| >= |b.key|
  }

  function FirstNamed(name: string, ms: seq<Member>): Option<Member> {
    if ms == [] then None else if Named(name, ms[0]) then Some(ms[0]) else FirstNamed(name, ms[1..])
  }

  function SelectTarget(members: seq<Member>, name: string): Result<Member> {
    if members == [] then Err("hgx_uris must be non-empty")
    else
      match FirstNamed(name, Sort(LongestFirst, members))
      case Some(m) => Ok(m)
      case None => Ok(members[0])
  }

  function SelectGroup(members: seq<Member>, name: string): Result<seq<Member>> {
    if members == [] then Err("hgx_uris must be non-empty")
    else
      match FirstNamed(name, Sort(LongestFirst, members))
      case Some(m) => Ok([m])
      case None =>
        if ContainsAny(Lower(name), BUNDLE_MARKERS) || name == "" then Ok(members)
        else
          match SelectTarget(members, name)
          case Ok(m) => Ok([m])
          case Err(e) => Err(e)
  }

  /** Member `i` is named, no named member has a longer key, and none as long comes earlier. */
  predicate IsBest(members: seq<Member>, name: string, i: int) {
    && 0 <= i < |members| && Contains(Lower(name), Lower(members[i].key))
    && forall j | 0 <= j < |members| && Contains(Lower(name), Lower(members[j].key)) ::
         |members[j].key| < |members[i].key| || (|members[j].key| == |members[i].key| && i <= j)
  }

  lemma LongestFirstIsPreorder()
    ensures TotalPreorder(LongestFirst)
  {
    assert forall a, b :: Comparable(LongestFirst, a, b);
    assert forall a, b, c :: Chains(LongestFirst, a, b, c);
  }

  lemma {:induction false} FirstNamedOfInsert(name: string, x: Member, xs: seq<Member>)
    requires SortedBy(LongestFirst, xs)
    ensures FirstNamed(name, Insert(LongestFirst, x, xs)) ==
            var rest := FirstNamed(name, xs);
            if Named(name, x) && (rest == None || |x.key| >= |rest.value.key|) then Some(x) else rest
  {
    FirstNamedIsMember(name, xs);
    if xs != [] && !LongestFirst(x, xs[0]) {
      FirstNamedOfInsert(name, x, xs[1..]);
    } else {
      assert ([x] + xs)[1..] == xs;
    }
  }

  lemma {:induction false} FirstNamedIsMember(name: string, xs: seq<Member>)
    ensures FirstNamed(name, xs) == None <==> forall m | m in xs :: !Named(name, m)
    ensures FirstNamed(name, xs) != None ==>
              FirstNamed(name, xs).value in xs && Named(name, FirstNamed(name, xs).value)
  {
    if xs != [] {
      FirstNamedIsMember(name, xs[1..]);
      assert xs == [xs[0]] + xs[1..];
    }
  }

  lemma BestOfTail(x: Member, xs: seq<Member>, name: string, i: int)
    requires IsBest(xs, name, i) && !(Named(name, x) && |x.key| >= |xs[i].key|)
    ensures IsBest([x] + xs, name, i + 1)
  {
    assert forall j | 0 < j < |[x] + xs| :: ([x] + xs)[j] == xs[j - 1];
  }

  lemma BestOfHead(x: Member, xs: seq<Member>, name: string)
    requires Named(name, x) && forall m | m in xs && Named(name, m) :: |x.key| >= |m.key|
    ensures IsBest([x] + xs, name, 0)
  {
    assert forall j | 0 < j < |[x] + xs| :: ([x] + xs)[j] in xs;
  }

  lemma {:induction false} LongestMatch(members: seq<Member>, name: string)
    ensures var found := FirstNamed(name, Sort(LongestFirst, members));
            && (found == None <==> forall m | m in members :: !Named(name, m))
            && (found != None ==> exists i :: IsBest(members, name, i) && members[i] == found.value)
  {
    if members != [] {
      var x, xs := members[0], members[1..];
      LongestMatch(xs, name);
      LongestFirstIsPreorder();
      SortSorts(LongestFirst, xs);
      FirstNamedOfInsert(name, x, Sort(LongestFirst, xs));
      assert members == [x] + xs;
      var rest := FirstNamed(name, Sort(LongestFirst, xs));
      if rest == None {
        if Named(name, x) {
          BestOfHead(x, xs, name);
        }
      } else {
        var i :| IsBest(xs, name, i) && xs[i] == rest.value;
        if Named(name, x) && |x.key| >= |rest.value.key| {
          LongestOfAll(xs, name, i);
          BestOfHead(x, xs, name);
        } else {
          BestOfTail(x, xs, name, i);
        }
      }
    }
  }

  lemma LongestOfAll(xs: seq<Member>, name: string, i: int)
    requires IsBest(xs, name, i)
    ensures forall m | m in xs && Named(name, m) :: |m.key| <= |xs[i].key|
  {
  }

  /**
   A file name that spells out some key selects exactly one member: the longest such key,
   the earliest among equals, and both selectors agree on it. Otherwise a bundle name or
   an empty one selects every member in order, and any other name the first member.
   */
  lemma GroupIsExact(members: seq<Member>, name: string)
    requires members != []
    ensures (exists m | m in members :: Contains(Lower(name), Lower(m.key))) ==>
              exists i :: IsBest(members, name, i)
                       && SelectGroup(members, name) == Ok([members[i]])
                       && SelectTarget(members, name) == Ok(members[i])
    ensures (forall m | m in members :: !Contains(Lower(name), Lower(m.key))) ==>
              && SelectTarget(members, name) == Ok(members[0])
              && SelectGroup(members, name) ==
                   Ok(if name == "" || ContainsAny(Lower(name), ["bundle", "baseboard", "hgx_fw_bundle", "dgx", "_all"])
                      then members else [members[0]])
  {
    LongestMatch(members, name);
  }

  /** At most one member can be the best one, so the selection above is determined. */
  lemma BestIsUnique(members: seq<Member>, name: string, i: int, j: int)
    requires IsBest(members, name, i) && IsBest(members, name, j)
    ensures i == j
  {
  }

  /** Whatever is selected is one of the members, so a property of all targets is kept. */
  lemma GroupStaysInside(members: seq<Member>, name: string)
    requires members != []
    ensures SelectGroup(members, name).Ok?
    ensures SelectGroup(members, name).value != []
    ensures forall m | m in SelectGroup(members, name).value :: m in members
  {
    LongestMatch(members, name);
  }

  /** A name that matches no key and marks no bundle goes to one member, not to all. */
  lemma UnmatchedNameGoesToOne()
    ensures var members := [Member("HGX_FW_GPU_0", "u0"), Member("HGX_FW_GPU_1", "u1")];
            SelectGroup(members, "fw.bin") == Ok([members[0]])
  {
    var members := [Member("HGX_FW_GPU_0", "u0"), Member("HGX_FW_GPU_1", "u1")];
    assert Lower("fw.bin") == "fw.bin";
    forall m | m in members
      ensures !Named("fw.bin", m)
    {
      assert Lower(m.key)[0] == 'h';
      Lacks("fw.bin", Lower(m.key), 'h');
    }
    assert forall p | p in BUNDLE_MARKERS :: 'd' in p || 'l' in p;
    assert 'd' !in "fw.bin" && 'l' !in "fw.bin";
    forall p | p in BUNDLE_MARKERS
      ensures !Contains("fw.bin", p)
    {
      Lacks("fw.bin", p, if 'd' in p then 'd' else 'l');
    }
    GroupIsExact(members, "fw.bin");
  }
}
