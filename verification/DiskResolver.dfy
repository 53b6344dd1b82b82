/**
 core/services/disk_resolver.py: from an operator's strategy text to one drive of a
 host's inventory. Python's `fnmatch` and `float` are parameters, gathered in `Lib`.
 */
module DiskResolver {
  import opened Prelude
  import opened Text
  import opened Numerals
  import opened Drives
  import opened Sorting

  datatype Lib = Lib(glob: (string, string) -> bool, parseFloat: string -> Option<real>)

  datatype Status = Matched | Unmatched | AmbiguousMatch | RequiresOverride | Override

  datatype Resolution = Resolution(drive: Option<Drive>, status: Status)

  const NOTHING := Resolution(None, Unmatched)

  // ---- reading the strategy -----------------------------------------------

  datatype Rule =
    | NoRule | Manual | FirstNvme | FirstM2 | SmallestSsd | LargestDisk | SmallestDisk
    | BySize(target: int, tolerance: real) | BadSize
    | ByModel(pattern: string) | BySlot(token: string) | BySerial(serial: string)
    | Unknown

  function Replaced(s: string, a: char, b: char): string {
    if s == "" then "" else [if s[0] == a then b else s[0]] + Replaced(s[1..], a, b)
  }

  function Power10(n: nat): nat {
    if n == 0 then 1 else 10 * Power10(n - 1)
  }

  /** `\d+(\.\d+)?` */
  function Amount(s: string): Option<real> {
    if s != "" && AllDigits(s) then Some(Value(s) as real)
    else if '.' in s then
      var (whole, part) := SplitOnce(s, '.');
      if whole != "" && part != "" && AllDigits(whole) && AllDigits(part) && Power10(|part|) > 0
      then Some(Value(whole) as real + Value(part) as real / Power10(|part|) as real)
      else None
    else None
  }

  /** Whole bytes in so many of the unit. */
  function InBytes(amount: real, unit: string): Option<int> {
    if unit == "mb" then Some((amount * 1_000_000.0).Floor)
    else if unit == "gb" then Some((amount * 1_000_000_000.0).Floor)
    else if unit == "tb" then Some((amount * 1_000_000_000_000.0).Floor)
    else None
  }

  /** The size pattern: an amount and a unit. */
  function SizeBytes(size: string): Option<int> {
    var text := if EndsWith(size, "\n") then size[..|size| - 1] else size;
    if |text| < 2 then None
    else
      match Amount(TrimRight(text[..|text| - 2]))
      case Some(amount) => InBytes(amount, Lower(text[|text| - 2..]))
      case None => None
  }

  /** The size text, with the tolerance already read. */
  function SizeOf(size: string, tolerance: Option<real>): Option<(int, real)> {
    var bytes := SizeBytes(size);
    if tolerance.None? || bytes.None? then None else Some((bytes.value, tolerance.value))
  }

  function Tolerance(lib: Lib, text: string): Option<real> {
    var percent := lib.parseFloat(if EndsWith(text, "%") then text[..|text| - 1] else text);
    if percent.Some? then Some(percent.value / 100.0) else None
  }

  /** `_parse_size_with_tolerance`: bytes and the tolerance as a fraction. */
  function ParseSize(lib: Lib, spec: string): Option<(int, real)> {
    var s := Without(Strip(spec), ' ');
    if '\U{00B1}' in s then
      var (a, b) := SplitOnce(s, '\U{00B1}');
      SizeOf(a, Tolerance(lib, b))
    else SizeOf(s, Some(0.10))
  }

  function ParseRule(lib: Lib, strategy: string): Rule {
    RuleOf(lib, Lower(Strip(strategy)))
  }

  function RuleOf(lib: Lib, s: string): Rule {
    if s == "" then NoRule
    else if s == "manual_per_host" then Manual
    else if s == "first_nvme" then FirstNvme
    else if s == "first_m2" then FirstM2
    else if s == "smallest_ssd" then SmallestSsd
    else if s == "largest_disk" then LargestDisk
    else if s == "smallest_disk" then SmallestDisk
    else if StartsWith(s, "by_size:") then
      var size := ParseSize(lib, s[8..]);
      if size.Some? then BySize(size.value.0, size.value.1) else BadSize
    else if StartsWith(s, "by_model:") then ByModel(Replaced(s[9..], '_', ' '))
    else if StartsWith(s, "by_slot:") then BySlot(Strip(s[8..]))
    else if StartsWith(s, "by_serial:") then BySerial(Strip(s[10..]))
    else Unknown
  }

  // ---- candidates ---------------------------------------------------------

  predicate IsNvme(d: Drive) {
    Lower(d.protocol) == "nvme"
  }

  predicate IsSsd(d: Drive) {
    Lower(d.mediaType) == "ssd"
  }

  predicate Sized(d: Drive) {
    d.capacity > 0
  }

  function SlotText(d: Drive): string {
    if d.slot.Some? then d.slot.value else ""
  }

  /** The pattern `m\.?2` occurs in the text. */
  predicate SaysM2(text: string) {
    Contains(Lower(text), "m2") || Contains(Lower(text), "m.2")
  }

  predicate MarkedM2(d: Drive) {
    SaysM2(d.model) || SaysM2(SlotText(d))
  }

  predicate ProbablyM2(d: Drive) {
    IsNvme(d) && IsSsd(d) && d.capacity < 1_000_000_000_000
  }

  predicate WithinTolerance(actual: int, target: int, tolerance: real) {
    target != 0 &&
    (if actual >= target then actual - target else target - actual) as real / target as real <= tolerance
  }

  function FirstMin(ds: seq<Drive>): Drive
    requires ds != []
  {
    if |ds| == 1 || ds[0].capacity <= FirstMin(ds[1..]).capacity then ds[0] else FirstMin(ds[1..])
  }

  function FirstMax(ds: seq<Drive>): Drive
    requires ds != []
  {
    if |ds| == 1 || ds[0].capacity >= FirstMax(ds[1..]).capacity then ds[0] else FirstMax(ds[1..])
  }

  /** The condition of a rule's list comprehension. */
  function Tester(lib: Lib, rule: Rule): Drive -> bool {
    match rule
    case FirstNvme => IsNvme
    case SmallestSsd => d => IsSsd(d) && Sized(d)
    case LargestDisk => Sized
    case SmallestDisk => Sized
    case BySize(target, tol) => (d: Drive) => WithinTolerance(d.capacity, target, tol)
    case ByModel(pattern) => (d: Drive) => lib.glob(Lower(d.model), pattern)
    case BySlot(token) => d => EndsWith(Lower(SlotText(d)), Lower(token))
    case BySerial(serial) => (d: Drive) => Lower(d.serial) == Lower(serial)
    case _ => _ => false
  }

  /** The list a rule's branch builds before it picks. */
  function Shortlist(lib: Lib, rule: Rule, drives: seq<Drive>): seq<Drive> {
    if rule.FirstM2? then
      var marked := FilterSeq(MarkedM2, drives);
      if marked != [] then marked else FilterSeq(ProbablyM2, drives)
    else FilterSeq(Tester(lib, rule), drives)
  }

  /** `resolve`. */
  function Resolve(lib: Lib, strategy: string, drives: seq<Drive>): Resolution {
    var rule := ParseRule(lib, strategy);
    if rule.NoRule? || drives == [] then NOTHING
    else if rule.Manual? then Resolution(None, RequiresOverride)
    else
      var cands := Shortlist(lib, rule, drives);
      if cands == [] then NOTHING
      else if rule.SmallestSsd? || rule.SmallestDisk? then Resolution(Some(FirstMin(cands)), Matched)
      else if rule.LargestDisk? then Resolution(Some(FirstMax(cands)), Matched)
      else if (rule.BySize? || rule.ByModel?) && |cands| > 1 then Resolution(Some(cands[0]), AmbiguousMatch)
      else Resolution(Some(cands[0]), Matched)
  }

  // ---- what the answer means ----------------------------------------------

  /** Drive `d` satisfies the rule, on a host with these drives. */
  predicate Satisfies(lib: Lib, rule: Rule, drives: seq<Drive>, d: Drive) {
    match rule
    case FirstNvme => IsNvme(d)
    case FirstM2 => if exists o | o in drives :: MarkedM2(o) then MarkedM2(d) else ProbablyM2(d)
    case SmallestSsd => IsSsd(d) && Sized(d)
    case LargestDisk => Sized(d)
    case SmallestDisk => Sized(d)
    case BySize(target, tol) => WithinTolerance(d.capacity, target, tol)
    case ByModel(pattern) => lib.glob(Lower(d.model), pattern)
    case BySlot(token) => EndsWith(Lower(SlotText(d)), Lower(token))
    case BySerial(serial) => Lower(d.serial) == Lower(serial)
    case _ => false
  }

  /** What the rule minimises; a constant for the rules that take the first drive. */
  function Cost(rule: Rule, d: Drive): int {
    if rule.SmallestSsd? || rule.SmallestDisk? then d.capacity
    else if rule.LargestDisk? then -d.capacity
    else 0
  }

  /** Drive `i` satisfies the rule, at the least cost, and comes first among equals. */
  predicate IsChoice(lib: Lib, rule: Rule, drives: seq<Drive>, i: int) {
    && 0 <= i < |drives| && Satisfies(lib, rule, drives, drives[i])
    && forall j | 0 <= j < |drives| && Satisfies(lib, rule, drives, drives[j]) ::
         Cost(rule, drives[i]) < Cost(rule, drives[j])
         || (Cost(rule, drives[i]) == Cost(rule, drives[j]) && i <= j)
  }

  function PickMin(cost: Drive -> int, ds: seq<Drive>): Drive
    requires ds != []
  {
    if |ds| == 1 || cost(ds[0]) <= cost(PickMin(cost, ds[1..])) then ds[0] else PickMin(cost, ds[1..])
  }

  predicate Best(p: Drive -> bool, cost: Drive -> int, xs: seq<Drive>, i: int) {
    && 0 <= i < |xs| && p(xs[i])
    && forall j | 0 <= j < |xs| && p(xs[j]) ::
         cost(xs[i]) < cost(xs[j]) || (cost(xs[i]) == cost(xs[j]) && i <= j)
  }

  lemma {:induction false} PickIsBest(p: Drive -> bool, cost: Drive -> int, xs: seq<Drive>) returns (i: nat)
    requires FilterSeq(p, xs) != []
    ensures Best(p, cost, xs, i) && xs[i] == PickMin(cost, FilterSeq(p, xs))
  {
    var rest := FilterSeq(p, xs[1..]);
    if !p(xs[0]) {
      assert FilterSeq(p, xs) == rest;
      var k := PickIsBest(p, cost, xs[1..]);
      i := k + 1;
    } else if rest == [] {
      FilterHolds(p, xs[1..]);
      i := 0;
      assert forall j | 0 < j < |xs| :: xs[j] == xs[1..][j - 1];
    } else {
      var k := PickIsBest(p, cost, xs[1..]);
      assert FilterSeq(p, xs)[1..] == rest;
      i := if cost(xs[0]) <= cost(xs[1..][k]) then 0 else k + 1;
    }
    assert forall j | 0 < j < |xs| :: xs[j] == xs[1..][j - 1];
  }

  lemma {:induction false} FilterHolds(p: Drive -> bool, xs: seq<Drive>)
    ensures forall x :: x in FilterSeq(p, xs) <==> x in xs && p(x)
  {
    if xs != [] {
      FilterHolds(p, xs[1..]);
      assert xs == [xs[0]] + xs[1..];
    }
  }

  lemma {:induction false} TwoAreFiltered(p: Drive -> bool, xs: seq<Drive>, i: int, j: int)
    requires 0 <= i < j < |xs| && p(xs[i]) && p(xs[j])
    ensures |FilterSeq(p, xs)| > 1
  {
    if i == 0 {
      FilterHolds(p, xs[1..]);
      assert xs[1..][j - 1] in FilterSeq(p, xs[1..]);
    } else {
      TwoAreFiltered(p, xs[1..], i - 1, j - 1);
    }
  }

  lemma {:induction false} FilteredAreTwo(p: Drive -> bool, xs: seq<Drive>) returns (i: nat, j: nat)
    requires |FilterSeq(p, xs)| > 1
    ensures i < j < |xs| && p(xs[i]) && p(xs[j])
  {
    if p(xs[0]) {
      var next := FilterSeq(p, xs[1..])[0];
      FilterHolds(p, xs[1..]);
      assert next in xs[1..];
      var k :| 0 <= k < |xs[1..]| && xs[1..][k] == next;
      i, j := 0, k + 1;
    } else {
      var i', j' := FilteredAreTwo(p, xs[1..]);
      i, j := i' + 1, j' + 1;
    }
  }

  lemma {:induction false} FirstIsPickMin(ds: seq<Drive>)
    requires ds != []
    ensures FirstMin(ds) == PickMin((d: Drive) => d.capacity, ds)
    ensures FirstMax(ds) == PickMin((d: Drive) => -d.capacity, ds)
    ensures ds[0] == PickMin((d: Drive) => 0, ds)
  {
    if |ds| > 1 {
      FirstIsPickMin(ds[1..]);
    }
  }

  /** The test a rule's shortlist was filtered with. */
  function Sieve(lib: Lib, rule: Rule, drives: seq<Drive>): Drive -> bool {
    if rule.FirstM2? then (if FilterSeq(MarkedM2, drives) != [] then MarkedM2 else ProbablyM2)
    else Tester(lib, rule)
  }

  lemma SieveMeaning(lib: Lib, rule: Rule, drives: seq<Drive>)
    ensures Shortlist(lib, rule, drives) == FilterSeq(Sieve(lib, rule, drives), drives)
    ensures forall d :: Sieve(lib, rule, drives)(d) <==> Satisfies(lib, rule, drives, d)
  {
    FilterHolds(MarkedM2, drives);
    var marked := FilterSeq(MarkedM2, drives);
    if marked != [] {
      assert marked[0] in marked;
    } else {
      assert forall o | o in drives :: o !in marked;
    }
  }

  /** What a branch picks from its shortlist is the least by the rule's cost. */
  lemma PickMeaning(rule: Rule, cands: seq<Drive>) returns (cost: Drive -> int)
    requires cands != []
    ensures forall d :: cost(d) == Cost(rule, d)
    ensures PickMin(cost, cands) ==
            if rule.SmallestSsd? || rule.SmallestDisk? then FirstMin(cands)
            else if rule.LargestDisk? then FirstMax(cands)
            else cands[0]
  {
    FirstIsPickMin(cands);
    cost := if rule.SmallestSsd? || rule.SmallestDisk? then (d: Drive) => d.capacity
            else if rule.LargestDisk? then (d: Drive) => -d.capacity
            else (d: Drive) => 0;
  }

  /** The answer in terms of the rule that was read. */
  lemma ResolveByRule(lib: Lib, strategy: string, drives: seq<Drive>)
    ensures var rule, r := ParseRule(lib, strategy), Resolve(lib, strategy, drives);
            && (r.drive.Some? <==> exists d | d in drives :: Satisfies(lib, rule, drives, d))
            && (r.drive.Some? <==> r.status == Matched || r.status == AmbiguousMatch)
            && (r.drive.Some? ==> exists i :: IsChoice(lib, rule, drives, i) && r.drive == Some(drives[i]))
            && (r.status == AmbiguousMatch <==>
                  (rule.BySize? || rule.ByModel?)
                  && exists i, j | 0 <= i < j < |drives| ::
                       Satisfies(lib, rule, drives, drives[i]) && Satisfies(lib, rule, drives, drives[j]))
            && (r.status == RequiresOverride <==> rule.Manual? && drives != [])
  {
    var rule, cands := ParseRule(lib, strategy), Shortlist(lib, ParseRule(lib, strategy), drives);
    var sieve := Sieve(lib, rule, drives);
    SieveMeaning(lib, rule, drives);
    FilterHolds(sieve, drives);
    if cands != [] {
      assert cands[0] in cands;
      var cost := PickMeaning(rule, cands);
      var i := PickIsBest(sieve, cost, drives);
      assert IsChoice(lib, rule, drives, i);
      if |cands| > 1 {
        var k, m := FilteredAreTwo(sieve, drives);
        assert Satisfies(lib, rule, drives, drives[k]) && Satisfies(lib, rule, drives, drives[m]);
      } else if k, m :| 0 <= k < m < |drives| && Satisfies(lib, rule, drives, drives[k])
                        && Satisfies(lib, rule, drives, drives[m]) {
        TwoAreFiltered(sieve, drives, k, m);
      }
    }
  }

  // ---- the operator's words -----------------------------------------------

  /** `m`, at most one dot, `2`. */
  predicate LooksM2(text: string) {
    exists i | 0 <= i < |text| - 1 ::
      && (text[i] == 'm' || text[i] == 'M')
      && (text[i + 1] == '2' || (text[i + 1] == '.' && i + 2 < |text| && text[i + 2] == '2'))
  }

  predicate M2Drive(d: Drive) {
    LooksM2(d.model) || (d.slot.Some? && LooksM2(d.slot.value))
  }

  /** The glob of a "by_model:" strategy: an underscore stands for a space. */
  function Pattern(rest: string): string {
    seq(|rest|, k requires 0 <= k < |rest| => if rest[k] == '_' then ' ' else rest[k])
  }

  /** The capacity is off by no more than the fraction of the target. */
  predicate CloseTo(capacity: int, target: int, tolerance: real) {
    target > 0 && (capacity - target) as real <= tolerance * target as real
    && (target - capacity) as real <= tolerance * target as real
  }

  /** Drive `d` of the host is one the strategy, in lower case and without outer white space, asks for. */
  predicate Asks(lib: Lib, words: string, drives: seq<Drive>, d: Drive) {
    || (words == "first_nvme" && Lower(d.protocol) == "nvme")
    || (words == "first_m2" &&
          if exists o | o in drives :: M2Drive(o) then M2Drive(d)
          else Lower(d.protocol) == "nvme" && Lower(d.mediaType) == "ssd" && d.capacity < 1_000_000_000_000)
    || (words == "smallest_ssd" && Lower(d.mediaType) == "ssd" && d.capacity > 0)
    || (words == "largest_disk" && d.capacity > 0)
    || (words == "smallest_disk" && d.capacity > 0)
    || (StartsWith(words, "by_size:") && ParseSize(lib, words[8..]).Some?
        && CloseTo(d.capacity, ParseSize(lib, words[8..]).value.0, ParseSize(lib, words[8..]).value.1))
    || (StartsWith(words, "by_model:") && lib.glob(Lower(d.model), Pattern(words[9..])))
    || (StartsWith(words, "by_slot:") &&
        EndsWith(Lower(if d.slot.Some? then d.slot.value else ""), Lower(Strip(words[8..]))))
    || (StartsWith(words, "by_serial:") && Lower(d.serial) == Lower(Strip(words[10..])))
  }

  /** What the strategy wants little of: capacity, or its opposite. */
  function Wants(words: string, d: Drive): int {
    if words == "smallest_ssd" || words == "smallest_disk" then d.capacity
    else if words == "largest_disk" then -d.capacity
    else 0
  }

  /** Drive `i` is what the strategy means on this host: asked for, the best, the first of these. */
  predicate Meant(lib: Lib, strategy: string, drives: seq<Drive>, i: int) {
    var words := Lower(Strip(strategy));
    && 0 <= i < |drives| && Asks(lib, words, drives, drives[i])
    && forall j | 0 <= j < |drives| && Asks(lib, words, drives, drives[j]) ::
         Wants(words, drives[i]) < Wants(words, drives[j])
         || (Wants(words, drives[i]) == Wants(words, drives[j]) && i <= j)
  }

  lemma {:induction false} ReplacedIsPattern(rest: string)
    ensures Replaced(rest, '_', ' ') == Pattern(rest)
  {
    if rest != "" {
      ReplacedIsPattern(rest[1..]);
      assert Pattern(rest) == [if rest[0] == '_' then ' ' else rest[0]] + Pattern(rest[1..]);
    }
  }

  lemma SaysM2Iff(text: string)
    ensures SaysM2(text) <==> LooksM2(text)
  {
    var low := Lower(text);
    if LooksM2(text) {
      var i :| 0 <= i < |text| - 1 && (text[i] == 'm' || text[i] == 'M')
               && (text[i + 1] == '2' || (text[i + 1] == '.' && i + 2 < |text| && text[i + 2] == '2'));
      M2At(text, i);
      assert At(low, "m2", i) || At(low, "m.2", i);
    }
    if i :| 0 <= i <= |low| && (At(low, "m2", i) || At(low, "m.2", i)) {
      M2At(text, i);
    }
  }

  lemma M2At(text: string, i: int)
    requires 0 <= i < |text| - 1
    ensures (text[i] == 'm' || text[i] == 'M') && text[i + 1] == '2' <==> At(Lower(text), "m2", i)
    ensures (text[i] == 'm' || text[i] == 'M') && text[i + 1] == '.' && i + 2 < |text| && text[i + 2] == '2'
            <==> At(Lower(text), "m.2", i)
  {
    var low := Lower(text);
    assert low[i..i + 2] == [low[i], low[i + 1]];
    if i + 2 < |text| {
      assert low[i..i + 3] == [low[i], low[i + 1], low[i + 2]];
    }
  }

  lemma CloseIff(capacity: int, target: int, tolerance: real)
    requires target >= 0
    ensures WithinTolerance(capacity, target, tolerance) <==> CloseTo(capacity, target, tolerance)
  {
    if target > 0 {
      var gap := if capacity >= target then capacity - target else target - capacity;
      QuotientAtMost(gap as real, target as real, tolerance);
      BothSides(capacity - target, tolerance * target as real);
    }
  }

  lemma BothSides(off: int, limit: real)
    ensures (if off >= 0 then off else -off) as real <= limit <==> off as real <= limit && (-off) as real <= limit
  {
  }

  lemma QuotientAtMost(gap: real, target: real, tolerance: real)
    requires target > 0.0
    ensures gap / target <= tolerance <==> gap <= tolerance * target
  {
    var q := gap / target;
    assert q * target == gap;
    if q <= tolerance {
      assert (tolerance - q) * target >= 0.0;
    } else {
      assert (q - tolerance) * target > 0.0;
    }
  }

  lemma AmountIsNatural(s: string)
    ensures Amount(s).Some? ==> Amount(s).value >= 0.0
  {
    if !(s != "" && AllDigits(s)) && '.' in s {
      var (whole, part) := SplitOnce(s, '.');
      if AllDigits(part) && Power10(|part|) > 0 {
        QuotientIsNatural(Value(part) as real, Power10(|part|) as real);
      }
    }
  }

  lemma QuotientIsNatural(a: real, b: real)
    requires a >= 0.0 && b > 0.0
    ensures a / b >= 0.0
  {
    assert a / b * b == a;
    ProductSign(a / b, b);
  }

  lemma ProductSign(q: real, b: real)
    requires b > 0.0
    ensures q < 0.0 ==> q * b < 0.0
  {
    if q < 0.0 {
      assert -q * b > 0.0;
    }
  }

  lemma BytesAreNatural(amount: real, unit: string)
    requires amount >= 0.0
    ensures InBytes(amount, unit).Some? ==> InBytes(amount, unit).value >= 0
  {
  }

  lemma SizeIsNatural(size: string)
    ensures SizeBytes(size).Some? ==> SizeBytes(size).value >= 0
  {
    var text := if EndsWith(size, "\n") then size[..|size| - 1] else size;
    if |text| >= 2 {
      var amount := Amount(TrimRight(text[..|text| - 2]));
      AmountIsNatural(TrimRight(text[..|text| - 2]));
      if amount.Some? {
        BytesAreNatural(amount.value, Lower(text[|text| - 2..]));
      }
    }
  }

  lemma ParsedSizeIsNatural(lib: Lib, text: string)
    ensures ParseSize(lib, text).Some? ==> ParseSize(lib, text).value.0 >= 0
  {
    var s := Without(Strip(text), ' ');
    SizeIsNatural(if SIGN[0] in s then SplitOnce(s, SIGN[0]).0 else s);
  }

  /** The heads of the texts with a parameter differ from each other and from the plain words. */
  lemma OneHead(words: string)
    ensures StartsWith(words, "by_size:") ==> words[0] == 'b' && words[3] == 's' && words[4] == 'i'
    ensures StartsWith(words, "by_model:") ==> words[0] == 'b' && words[3] == 'm'
    ensures StartsWith(words, "by_slot:") ==> words[0] == 'b' && words[3] == 's' && words[4] == 'l'
    ensures StartsWith(words, "by_serial:") ==> words[0] == 'b' && words[3] == 's' && words[4] == 'e'
  {
  }

  lemma RuleStatus(lib: Lib, words: string)
    ensures RuleOf(lib, words).Manual? <==> words == "manual_per_host"
    ensures RuleOf(lib, words).BySize? || RuleOf(lib, words).BadSize? <==> StartsWith(words, "by_size:")
    ensures RuleOf(lib, words).ByModel? <==> StartsWith(words, "by_model:")
  {
    OneHead(words);
  }

  lemma AsksIsSatisfies(lib: Lib, words: string, drives: seq<Drive>, d: Drive)
    ensures Satisfies(lib, RuleOf(lib, words), drives, d) <==> Asks(lib, words, drives, d)
    ensures Cost(RuleOf(lib, words), d) == Wants(words, d)
  {
    OneHead(words);
    if words == "first_m2" {
      M2Asks(lib, words, drives, d);
    } else if StartsWith(words, "by_size:") {
      SizeAsks(lib, words, drives, d);
    } else if StartsWith(words, "by_") {
      ParameterAsks(lib, words, drives, d);
    }
  }

  lemma M2Asks(lib: Lib, words: string, drives: seq<Drive>, d: Drive)
    requires words == "first_m2"
    ensures Satisfies(lib, FirstM2, drives, d) <==> Asks(lib, words, drives, d)
  {
    OneHead(words);
    forall o
      ensures MarkedM2(o) <==> M2Drive(o)
    {
      MarkedIff(o);
    }
  }

  lemma SizeAsks(lib: Lib, words: string, drives: seq<Drive>, d: Drive)
    requires StartsWith(words, "by_size:")
    ensures Satisfies(lib, RuleOf(lib, words), drives, d) <==> Asks(lib, words, drives, d)
    ensures Cost(RuleOf(lib, words), d) == Wants(words, d)
  {
    var size := ParseSize(lib, words[8..]);
    SizeRule(lib, words);
    SizeWords(lib, words, drives, d);
    if size.Some? {
      ParsedSizeIsNatural(lib, words[8..]);
      SizeSatisfies(lib, size.value.0, size.value.1, drives, d);
    }
  }

  lemma SizeRule(lib: Lib, words: string)
    requires StartsWith(words, "by_size:")
    ensures RuleOf(lib, words) == match ParseSize(lib, words[8..])
                                  case Some(size) => BySize(size.0, size.1)
                                  case None => BadSize
  {
    assert words == "by_size:" + words[8..];
    RuleOfSize(lib, words[8..]);
  }

  /** Of such words only the size counts. */
  lemma SizeWords(lib: Lib, words: string, drives: seq<Drive>, d: Drive)
    requires StartsWith(words, "by_size:")
    ensures Wants(words, d) == 0
    ensures Asks(lib, words, drives, d) <==> match ParseSize(lib, words[8..])
                                             case Some(size) => CloseTo(d.capacity, size.0, size.1)
                                             case None => false
  {
    OneHead(words);
  }

  lemma SizeSatisfies(lib: Lib, target: int, tolerance: real, drives: seq<Drive>, d: Drive)
    requires target >= 0
    ensures Satisfies(lib, BySize(target, tolerance), drives, d) <==> CloseTo(d.capacity, target, tolerance)
  {
    CloseIff(d.capacity, target, tolerance);
  }

  lemma ParameterAsks(lib: Lib, words: string, drives: seq<Drive>, d: Drive)
    requires StartsWith(words, "by_") && !StartsWith(words, "by_size:")
    ensures Satisfies(lib, RuleOf(lib, words), drives, d) <==> Asks(lib, words, drives, d)
    ensures Cost(RuleOf(lib, words), d) == Wants(words, d) == 0
  {
    OneHead(words);
    assert words[0] == 'b';
    if StartsWith(words, "by_model:") {
      ReplacedIsPattern(words[9..]);
    }
  }

  lemma MarkedIff(d: Drive)
    ensures MarkedM2(d) <==> M2Drive(d)
  {
    SaysM2Iff(d.model);
    SaysM2Iff(SlotText(d));
  }

  /**
   The resolver answers with a drive exactly when the strategy asks for some drive of the
   host, and then with the one it means: the first of the smallest sized SSDs for
   "smallest_ssd", and so on for every word. It says "ambiguous" exactly when a size or model
   strategy asks for two drives, and wants an override exactly for "manual_per_host".
   */
  lemma ResolveIsChoice(lib: Lib, strategy: string, drives: seq<Drive>)
    ensures var words, r := Lower(Strip(strategy)), Resolve(lib, strategy, drives);
            && (r.drive.Some? <==> exists d | d in drives :: Asks(lib, words, drives, d))
            && (r.drive.Some? ==> exists i :: Meant(lib, strategy, drives, i) && r.drive == Some(drives[i]))
            && (r.drive.Some? <==> r.status == Matched || r.status == AmbiguousMatch)
            && (r.status == AmbiguousMatch <==>
                  (StartsWith(words, "by_size:") || StartsWith(words, "by_model:"))
                  && exists i, j | 0 <= i < j < |drives| ::
                       Asks(lib, words, drives, drives[i]) && Asks(lib, words, drives, drives[j]))
            && (r.status == RequiresOverride <==> words == "manual_per_host" && drives != [])
            && r.status != Override
  {
    var words, rule := Lower(Strip(strategy)), ParseRule(lib, strategy);
    ResolveByRule(lib, strategy, drives);
    RuleStatus(lib, words);
    forall d
      ensures Satisfies(lib, rule, drives, d) <==> Asks(lib, words, drives, d)
      ensures Cost(rule, d) == Wants(words, d)
    {
      AsksIsSatisfies(lib, words, drives, d);
    }
    forall i
      ensures IsChoice(lib, rule, drives, i) <==> Meant(lib, strategy, drives, i)
    {
    }
  }

  // ---- strategy texts -----------------------------------------------------

  /** A clean text after a fixed head is read as it stands, in lower case. */
  lemma HeadAndTail(head: string, tail: string)
    requires head != "" && !IsSpace(head[0]) && !IsSpace(head[|head| - 1])
    requires Lower(head) == head && Strip(tail) == tail
    ensures Lower(Strip(head + tail)) == head + Lower(tail)
    ensures (head + Lower(tail))[|head|..] == Lower(tail)
  {
    var text := head + tail;
    if tail != "" {
      var a, b := StripSplits(tail);
      assert |a| + |b| == 0;
      assert text[|text| - 1] == tail[|tail| - 1];
    } else {
      assert text == head;
    }
    StripClean(text);
    LowerConcat(head, tail);
  }

  lemma BySizeHead(lib: Lib, spec: string)
    requires Strip(spec) == spec
    ensures ParseRule(lib, "by_size:" + spec)
      == match ParseSize(lib, Lower(spec)) case Some(size) => BySize(size.0, size.1) case None => BadSize
  {
    HeadAndTail("by_size:", spec);
    RuleOfSize(lib, Lower(spec));
  }

  lemma RuleOfSize(lib: Lib, rest: string)
    ensures RuleOf(lib, "by_size:" + rest)
      == match ParseSize(lib, rest) case Some(size) => BySize(size.0, size.1) case None => BadSize
  {
    var s := "by_size:" + rest;
    assert s[0] == 'b' && s[8..] == rest;
  }

  lemma RuleOfSerial(lib: Lib, rest: string)
    ensures RuleOf(lib, "by_serial:" + rest) == BySerial(Strip(rest))
  {
    var s := "by_serial:" + rest;
    assert s[0] == 'b' && s[4] == 'e' && s[10..] == rest;
  }

  const UNITS := ["MB", "GB", "TB"]

  /** So many of the unit in bytes. */
  function Bytes(n: nat, unit: string): nat {
    if unit == "MB" then n * 1_000_000 else if unit == "GB" then n * 1_000_000_000 else n * 1_000_000_000_000
  }

  lemma PlainText(n: nat, unit: string)
    requires unit in UNITS
    ensures Lower(Decimal(n) + unit) == Decimal(n) + Lower(unit)
    ensures |Lower(unit)| == 2 && Lower(Lower(unit)) == Lower(unit)
    ensures forall c | c in Decimal(n) + Lower(unit) :: IsDigit(c) || c in "mgtb"
  {
    LowerConcat(Decimal(n), unit);
    assert Lower(Decimal(n)) == Decimal(n);
    assert Lower(unit) == if unit == "MB" then "mb" else if unit == "GB" then "gb" else "tb";
  }

  lemma {:induction false} WithoutAbsent(s: string, c: char)
    requires c !in s
    ensures Without(s, c) == s
  {
    if s != "" {
      WithoutAbsent(s[1..], c);
      assert s == [s[0]] + s[1..];
    }
  }

  lemma InBytesOfWhole(n: nat, unit: string)
    requires unit in UNITS
    ensures InBytes(n as real, Lower(unit)) == Some(Bytes(n, unit))
  {
    PlainText(n, unit);
    if unit == "MB" {
      assert n as real * 1_000_000.0 == (n * 1_000_000) as real;
    } else if unit == "GB" {
      assert n as real * 1_000_000_000.0 == (n * 1_000_000_000) as real;
    } else {
      assert n as real * 1_000_000_000_000.0 == (n * 1_000_000_000_000) as real;
    }
  }

  lemma AmountOfDecimal(n: nat)
    ensures Amount(TrimRight(Decimal(n))) == Some(n as real)
  {
    ValueOfDecimal(n);
    assert !IsSpace(Decimal(n)[|Decimal(n)| - 1]);
  }

  /** The size part reads as the number times the unit. */
  lemma SizeValue(n: nat, unit: string, tolerance: real)
    requires unit in UNITS
    ensures SizeOf(Decimal(n) + Lower(unit), Some(tolerance)) == Some((Bytes(n, unit), tolerance))
  {
    PlainText(n, unit);
    AmountOfDecimal(n);
    InBytesOfWhole(n, unit);
    SizeParts(Decimal(n), Lower(unit));
  }

  lemma SizeParts(digits: string, unit: string)
    requires |unit| == 2 && unit[1] != '\n'
    ensures SizeBytes(digits + unit)
      == match Amount(TrimRight(digits))
         case Some(amount) => InBytes(amount, Lower(unit))
         case None => None
  {
    var text := digits + unit;
    assert text[|text| - 1] == unit[1] && text[|text| - 1..][0] == unit[1];
    assert text[..|text| - 2] == digits && text[|text| - 2..] == unit;
  }

  // ---- every size text ----------------------------------------------------

  lemma {:induction false} ValueConcat(a: string, b: string)
    requires AllDigits(a) && AllDigits(b)
    ensures AllDigits(a + b) && Value(a + b) == Value(a) * Power10(|b|) + Value(b)
  {
    if b == "" {
      assert a + b == a;
    } else {
      var front := b[..|b| - 1];
      ValueConcat(a, front);
      assert (a + b)[..|a + b| - 1] == a + front;
      TenTimes(Value(a), Power10(|front|), Value(front), b[|b| - 1] as int - 48);
    }
  }

  lemma TenTimes(a: int, p: int, f: int, d: int)
    ensures 10 * (a * p + f) + d == a * (10 * p) + (10 * f + d)
  {
    assert a * (10 * p) == 10 * (a * p);
  }

  lemma {:induction false} Power10Positive(n: nat)
    ensures Power10(n) > 0
  {
    if n > 0 {
      Power10Positive(n - 1);
    }
  }

  /** The digits of an amount, with or without a point. */
  function Pointed(whole: string, part: string): string {
    if part == "" then whole else whole + "." + part
  }

  /** The digits written without their point, divided by ten for each place after it. */
  function Ratio(whole: string, part: string): real
    requires AllDigits(whole + part)
  {
    Power10Positive(|part|);
    Value(whole + part) as real / Power10(|part|) as real
  }

  lemma AmountReads(whole: string, part: string)
    requires whole != "" && AllDigits(whole) && AllDigits(part)
    ensures AllDigits(whole + part)
    ensures Amount(Pointed(whole, part)) == Some(Ratio(whole, part))
  {
    ValueConcat(whole, part);
    Power10Positive(|part|);
    if part == "" {
      assert whole + part == whole;
    } else {
      var text := Pointed(whole, part);
      assert text == whole + ['.'] + part && text[|whole|] == '.';
      SplitOnceAt(whole, '.', part);
      SplitRatio(Value(whole), Power10(|part|), Value(part));
    }
  }

  /** And no other text is an amount. */
  lemma AmountShape(number: string) returns (whole: string, part: string)
    requires Amount(number).Some?
    ensures whole != "" && AllDigits(whole) && AllDigits(part) && number == Pointed(whole, part)
  {
    if number != "" && AllDigits(number) {
      whole, part := number, "";
    } else {
      whole, part := SplitOnce(number, '.').0, SplitOnce(number, '.').1;
    }
  }

  lemma SplitRatio(a: nat, p: nat, b: nat)
    requires p > 0
    ensures (a * p + b) as real / p as real == a as real + b as real / p as real
  {
    assert (a * p + b) as real == a as real * p as real + b as real;
    assert (a as real * p as real) / p as real == a as real;
  }

  /** Bytes of one unit, in any case. */
  function UnitBytes(unit: string): real {
    if Lower(unit) == "mb" then 1_000_000.0 else if Lower(unit) == "gb" then 1_000_000_000.0 else 1_000_000_000_000.0
  }

  predicate IsUnit(unit: string) {
    Lower(unit) == "mb" || Lower(unit) == "gb" || Lower(unit) == "tb"
  }

  /** An amount, white space, a unit and perhaps a line feed mean the amount times the unit, in whole bytes. */
  lemma SizeTextReads(number: string, amount: real, gap: string, unit: string, end: string)
    requires Amount(number) == Some(amount) && AllSpace(gap) && IsUnit(unit) && (end == "" || end == "\n")
    ensures SizeBytes(number + gap + unit + end) == Some((amount * UnitBytes(unit)).Floor)
  {
    AmountEnds(number);
    TrimRightPadded(number, gap);
    SizeBytesOfParts(number + gap, unit, end);
    InBytesOfAny(amount, unit);
  }

  lemma SizeBytesOfParts(front: string, unit: string, end: string)
    requires IsUnit(unit) && (end == "" || end == "\n")
    ensures SizeBytes(front + unit + end)
      == match Amount(TrimRight(front))
         case Some(amount) => InBytes(amount, Lower(unit))
         case None => None
  {
    UnitEnds(front, unit);
    SizeBytesOf(front + unit, end);
  }

  lemma AmountEnds(number: string)
    requires Amount(number).Some?
    ensures number != "" && !IsSpace(number[|number| - 1])
  {
    var whole, part := AmountShape(number);
  }

  lemma UnitEnds(front: string, unit: string)
    requires IsUnit(unit)
    ensures var body := front + unit;
            |body| >= 2 && body[|body| - 1] != '\n' && body[..|body| - 2] == front && body[|body| - 2..] == unit
  {
    assert |unit| == |Lower(unit)| == 2 && Lower(unit)[1] == 'b';
  }

  /** The line feed at the end is not looked at. */
  lemma SizeBytesOf(body: string, end: string)
    requires |body| >= 2 && (end == "\n" || (end == "" && body[|body| - 1] != '\n'))
    ensures SizeBytes(body + end)
      == match Amount(TrimRight(body[..|body| - 2]))
         case Some(amount) => InBytes(amount, Lower(body[|body| - 2..]))
         case None => None
  {
    var text := body + end;
    assert text[|text| - 1..] == [text[|text| - 1]];
    if end == "" {
      assert text == body;
    } else {
      assert text[..|text| - 1] == body;
    }
  }

  lemma InBytesOfAny(amount: real, unit: string)
    requires IsUnit(unit)
    ensures InBytes(amount, Lower(unit)) == Some((amount * UnitBytes(unit)).Floor)
  {
  }

  /** What the reader found when it found a size. */
  lemma SizeFound(body: string, end: string)
    requires end == "\n" || (end == "" && !EndsWith(body, "\n"))
    requires SizeBytes(body + end).Some?
    ensures |body| >= 2 && Amount(TrimRight(body[..|body| - 2])).Some? && IsUnit(body[|body| - 2..])
  {
    var text := body + end;
    assert (if EndsWith(text, "\n") then text[..|text| - 1] else text) == body;
  }

  /** And no other text means a size. */
  lemma SizeTextShape(text: string) returns (number: string, gap: string, unit: string, end: string)
    requires SizeBytes(text).Some?
    ensures text == number + gap + unit + end
    ensures Amount(number).Some? && AllSpace(gap) && IsUnit(unit) && (end == "" || end == "\n")
  {
    end := if EndsWith(text, "\n") then "\n" else "";
    var body := text[..|text| - |end|];
    assert text == body + end;
    SizeFound(body, end);
    unit := body[|body| - 2..];
    var front := body[..|body| - 2];
    gap := TrimRightSplits(front);
    number := TrimRight(front);
    assert body == front + unit && front == number + gap;
  }

  /** Spaces in a size do not matter, nor does white space around it. */
  lemma SizeSpacesDropped(lib: Lib, spec: string)
    ensures ParseSize(lib, spec) == ParseSize(lib, Without(Strip(spec), ' '))
  {
    var t := Strip(spec);
    var a, b := StripSplits(spec);
    WithoutTwice(t, ' ');
    WithoutKeepsEnds(t);
    StripClean(Without(t, ' '));
  }

  lemma {:induction false} WithoutTwice(s: string, c: char)
    ensures Without(Without(s, c), c) == Without(s, c)
    ensures c !in Without(s, c)
  {
    if s != "" {
      WithoutTwice(s[1..], c);
      var rest := Without(s[1..], c);
      assert Without(s, c) == if s[0] == c then rest else [s[0]] + rest;
      assert ([s[0]] + rest)[1..] == rest;
      assert Without([s[0]] + rest, c) == (if s[0] == c then "" else [s[0]]) + Without(rest, c);
    }
  }

  lemma {:induction false} WithoutLast(s: string)
    requires s != "" && s[|s| - 1] != ' '
    ensures Without(s, ' ') != "" && Without(s, ' ')[|Without(s, ' ')| - 1] == s[|s| - 1]
  {
    if |s| > 1 {
      WithoutLast(s[1..]);
    }
  }

  lemma WithoutKeepsEnds(t: string)
    requires t != "" ==> !IsSpace(t[0]) && !IsSpace(t[|t| - 1])
    ensures var u := Without(t, ' '); u != "" ==> !IsSpace(u[0]) && !IsSpace(u[|u| - 1])
  {
    if t != "" {
      WithoutLast(t);
    }
  }

  /** Text that is not empty and holds no white space. */
  predicate Solid(s: string) {
    s != "" && forall c | c in s :: !IsSpace(c)
  }

  lemma SolidConcat(a: string, b: string)
    requires Solid(a) && Solid(b)
    ensures Solid(a + b)
  {
  }

  lemma SolidText(s: string)
    requires Solid(s)
    ensures Strip(s) == s && Without(s, ' ') == s
  {
    assert s[0] in s && s[|s| - 1] in s;
    StripClean(s);
    WithoutAbsent(s, ' ');
  }

  lemma SizeTextIsSolid(n: nat, unit: string)
    requires unit in UNITS
    ensures Solid(Decimal(n) + unit) && Solid(Decimal(n) + Lower(unit))
    ensures SIGN[0] !in Decimal(n) + Lower(unit)
  {
    PlainText(n, unit);
    assert forall c | c in Decimal(n) :: IsDigit(c);
  }

  lemma PlainSizeParses(lib: Lib, text: string)
    requires Solid(text) && SIGN[0] !in text
    ensures ParseSize(lib, text) == SizeOf(text, Some(0.10))
  {
    SolidText(text);
  }

  /** "by_size:480GB" means 480 decimal gigabytes, give or take a tenth. */
  lemma BySizeReads(lib: Lib, n: nat, unit: string)
    requires unit in UNITS
    ensures ParseRule(lib, "by_size:" + (Decimal(n) + unit)) == BySize(Bytes(n, unit), 0.10)
  {
    PlainText(n, unit);
    SizeTextIsSolid(n, unit);
    SolidText(Decimal(n) + unit);
    PlainSizeParses(lib, Decimal(n) + Lower(unit));
    SizeValue(n, unit, 0.10);
    BySizeHead(lib, Decimal(n) + unit);
  }

  const SIGN := "\U{00B1}"

  lemma ToleranceText(n: nat, unit: string, percent: nat)
    requires unit in UNITS
    ensures Lower(Decimal(n) + unit + SIGN + Decimal(percent) + "%")
      == Decimal(n) + Lower(unit) + SIGN + (Decimal(percent) + "%")
  {
    PlainText(n, unit);
    LowerConcat(Decimal(n) + unit + SIGN + Decimal(percent), "%");
    LowerConcat(Decimal(n) + unit + SIGN, Decimal(percent));
    LowerConcat(Decimal(n) + unit, SIGN);
    assert Lower(Decimal(percent)) == Decimal(percent);
    assert Lower(SIGN) == SIGN && Lower("%") == "%";
  }

  lemma SignedSizeParses(lib: Lib, size: string, tail: string)
    requires Solid(size) && Solid(tail) && SIGN[0] !in size
    ensures ParseSize(lib, size + SIGN + tail) == SizeOf(size, Tolerance(lib, tail))
  {
    assert Solid(SIGN);
    SolidConcat(size, SIGN);
    SolidConcat(size + SIGN, tail);
    SolidText(size + SIGN + tail);
    SplitOnceAt(size, SIGN[0], tail);
    assert SIGN == [SIGN[0]];
  }

  lemma ToleranceReads(lib: Lib, n: nat, unit: string, percent: nat)
    requires unit in UNITS
    ensures ParseSize(lib, Decimal(n) + Lower(unit) + SIGN + (Decimal(percent) + "%"))
      == SizeOf(Decimal(n) + Lower(unit), Tolerance(lib, Decimal(percent) + "%"))
  {
    assert forall c | c in Decimal(percent) + "%" :: IsDigit(c) || c == '%';
    SizeTextIsSolid(n, unit);
    SignedSizeParses(lib, Decimal(n) + Lower(unit), Decimal(percent) + "%");
  }

  lemma SignedSizeValue(lib: Lib, n: nat, unit: string, percent: nat)
    requires unit in UNITS
    ensures SizeOf(Decimal(n) + Lower(unit), Tolerance(lib, Decimal(percent) + "%"))
      == match lib.parseFloat(Decimal(percent))
         case Some(x) => Some((Bytes(n, unit), x / 100.0))
         case None => None
  {
    SizeValue(n, unit, 0.0);
    SignedSize(lib, Decimal(n) + Lower(unit), Bytes(n, unit), Decimal(percent));
  }

  /** The tolerance goes with whatever size was read. */
  lemma SignedSize(lib: Lib, size: string, bytes: int, digits: string)
    requires SizeOf(size, Some(0.0)) == Some((bytes, 0.0))
    ensures SizeOf(size, Tolerance(lib, digits + "%"))
      == match lib.parseFloat(digits) case Some(x) => Some((bytes, x / 100.0)) case None => None
  {
    PercentReads(lib, digits);
  }

  lemma SpecIsClean(n: nat, unit: string, percent: nat)
    ensures var spec := Decimal(n) + unit + SIGN + Decimal(percent) + "%"; Strip(spec) == spec
  {
    var spec := Decimal(n) + unit + SIGN + Decimal(percent) + "%";
    assert spec[0] == Decimal(n)[0] && spec[|spec| - 1] == '%';
    StripClean(spec);
  }

  /** A tolerance is in percent, with or without the sign. */
  lemma PercentReads(lib: Lib, digits: string)
    ensures Tolerance(lib, digits + "%")
      == match lib.parseFloat(digits) case Some(x) => Some(x / 100.0) case None => None
    ensures !EndsWith(digits, "%") ==> Tolerance(lib, digits) == Tolerance(lib, digits + "%")
  {
    var tail := digits + "%";
    assert tail[..|tail| - 1] == digits && EndsWith(tail, "%");
  }

  /** With "±5%" the tolerance is the stated one, as `float` reads it; unreadable text fits no drive. */
  lemma BySizeReadsTolerance(lib: Lib, n: nat, unit: string, percent: nat)
    requires unit in UNITS
    ensures ParseRule(lib, "by_size:" + (Decimal(n) + unit + SIGN + Decimal(percent) + "%"))
      == match lib.parseFloat(Decimal(percent))
         case Some(x) => BySize(Bytes(n, unit), x / 100.0)
         case None => BadSize
  {
    SpecIsClean(n, unit, percent);
    SpecParses(lib, n, unit, percent);
    BySizeHead(lib, Decimal(n) + unit + SIGN + Decimal(percent) + "%");
  }

  lemma SpecParses(lib: Lib, n: nat, unit: string, percent: nat)
    requires unit in UNITS
    ensures ParseSize(lib, Lower(Decimal(n) + unit + SIGN + Decimal(percent) + "%"))
      == match lib.parseFloat(Decimal(percent))
         case Some(x) => Some((Bytes(n, unit), x / 100.0))
         case None => None
  {
    ToleranceText(n, unit, percent);
    ToleranceReads(lib, n, unit, percent);
    SignedSizeValue(lib, n, unit, percent);
  }

  /**
   Pinning a host to a drive by its serial finds a drive with that serial, letter case aside;
   if no other drive carries it, exactly that drive.
   */
  lemma SerialPins(lib: Lib, drives: seq<Drive>, i: int)
    requires 0 <= i < |drives| && Strip(drives[i].serial) == drives[i].serial
    ensures var serial := drives[i].serial;
            var r := Resolve(lib, "by_serial:" + serial, drives);
            && r.status == Matched && r.drive.Some?
            && r.drive.value in drives && Lower(r.drive.value.serial) == Lower(serial)
            && ((forall d | d in drives && Lower(d.serial) == Lower(serial) :: d == drives[i]) ==>
                  r.drive == Some(drives[i]))
  {
    SerialRule(lib, drives[i].serial);
    SerialChoice(lib, "by_serial:" + drives[i].serial, drives, i);
  }

  lemma SerialRule(lib: Lib, serial: string)
    requires Strip(serial) == serial
    ensures ParseRule(lib, "by_serial:" + serial) == BySerial(Lower(serial))
  {
    HeadAndTail("by_serial:", serial);
    RuleOfSerial(lib, Lower(serial));
    StripOfLower(serial);
  }

  lemma SerialChoice(lib: Lib, strategy: string, drives: seq<Drive>, i: int)
    requires 0 <= i < |drives|
    ensures ParseRule(lib, strategy) == BySerial(Lower(drives[i].serial)) ==>
              var r := Resolve(lib, strategy, drives);
              && r.status == Matched && r.drive.Some? && r.drive.value in drives
              && Lower(r.drive.value.serial) == Lower(drives[i].serial)
  {
    if ParseRule(lib, strategy) == BySerial(Lower(drives[i].serial)) {
      ResolveByRule(lib, strategy, drives);
      LowerTwice(drives[i].serial);
      assert Satisfies(lib, ParseRule(lib, strategy), drives, drives[i]);
    }
  }

  lemma LowerTwice(s: string)
    ensures Lower(Lower(s)) == Lower(s)
  {
  }

  lemma StripOfLower(s: string)
    requires Strip(s) == s
    ensures Strip(Lower(s)) == Lower(s)
  {
    var a, b := StripSplits(s);
    assert |a| + |b| == 0;
    StripClean(Lower(s));
  }
}
