/**
 core/engine/scanner.py, `parse_range` and `Target.base_url`, and `_parse_redfish_root`
 of core/services/update_orchestrator.py: operator text to targets and back. Python's
 `ip_network(...).hosts()` is the parameter `network`; `None` stands for `ValueError`.
 */
module Addresses {
  import opened Prelude
  import opened Text
  import opened Numerals

  datatype Target = Target(ip: string, port: int, scheme: string)

  /** What `parse_range` takes beside the text. */
  datatype Defaults = Defaults(network: string -> Option<seq<string>>, port: int, scheme: string)

  type Parsed = Option<seq<Target>>

  function BaseUrl(t: Target): string {
    t.scheme + "://" + t.ip + ":" + IntText(t.port)
  }

  // ---- IPv4 text ----------------------------------------------------------

  const TOP := 0x1_0000_0000

  predicate IsOctet(s: string) {
    s != "" && |s| <= 3 && AllDigits(s) && (s[0] != '0' || s == "0") && Value(s) <= 255
  }

  function Combine(a: nat, b: nat, c: nat, d: nat): nat {
    a * 0x100_0000 + b * 0x1_0000 + c * 0x100 + d
  }

  lemma PartsRecombine(i: nat)
    requires i < TOP
    ensures Combine(i / 0x100_0000, i / 0x1_0000 % 256, i / 0x100 % 256, i % 256) == i
    ensures i / 0x100_0000 <= 255
  {
    assert i / 0x100 == i / 0x100 / 0x100 * 0x100 + i / 0x100 % 0x100;
    assert i / 0x1_0000 == i / 0x100 / 0x100;
    assert i / 0x100_0000 == i / 0x1_0000 / 0x100;
  }

  lemma PartsOfCombined(a: nat, b: nat, c: nat, d: nat)
    requires a <= 255 && b <= 255 && c <= 255 && d <= 255
    ensures Combine(a, b, c, d) < TOP
    ensures Combine(a, b, c, d) / 0x100_0000 == a
    ensures Combine(a, b, c, d) / 0x1_0000 % 256 == b
    ensures Combine(a, b, c, d) / 0x100 % 256 == c
    ensures Combine(a, b, c, d) % 256 == d
  {
    var i := Combine(a, b, c, d);
    assert i / 0x1_0000 == a * 256 + b;
    assert i / 0x100 == (a * 256 + b) * 256 + c;
  }

  /** `int(ipaddress.IPv4Address(s))`. */
  function ParseIPv4(s: string): Option<nat> {
    var p := Split(s, '.');
    if |p| == 4 && IsOctet(p[0]) && IsOctet(p[1]) && IsOctet(p[2]) && IsOctet(p[3])
    then Some(Combine(Value(p[0]), Value(p[1]), Value(p[2]), Value(p[3])))
    else None
  }

  /** The first three octets. */
  function Network24(i: nat): string {
    Decimal(i / 0x100_0000) + "." + Decimal(i / 0x1_0000 % 256) + "." + Decimal(i / 0x100 % 256)
  }

  /** `str(ipaddress.IPv4Address(i))`. */
  function IPv4Text(i: nat): string {
    Network24(i) + "." + Decimal(i % 256)
  }

  lemma OctetText(n: nat)
    ensures IsOctet(Decimal(n)) <==> n <= 255
    ensures Value(Decimal(n)) == n
  {
    ValueOfDecimal(n);
    if n >= 10 && n / 10 >= 10 {
      assert Decimal(n / 10) == Decimal(n / 10 / 10) + [Digit(n / 10 % 10)];
      if n < 1000 {
        assert Decimal(n / 10 / 10) == [Digit(n / 10 / 10)];
      }
    }
  }

  lemma SplitFour(a: string, b: string, c: string, d: string)
    requires '.' !in a && '.' !in b && '.' !in c && '.' !in d
    ensures Split(a + "." + b + "." + c + "." + d, '.') == [a, b, c, d]
  {
    SplitJoin(a, '.', b);
    SplitJoin(a + "." + b, '.', c);
    SplitJoin(a + "." + b + "." + c, '.', d);
  }

  /** Reading the text of an address gives the address. */
  lemma IPv4RoundTrip(i: nat)
    requires i < TOP
    ensures ParseIPv4(IPv4Text(i)) == Some(i)
  {
    var a, b, c, d := i / 0x100_0000, i / 0x1_0000 % 256, i / 0x100 % 256, i % 256;
    PartsRecombine(i);
    OctetText(a);
    OctetText(b);
    OctetText(c);
    OctetText(d);
    SplitFour(Decimal(a), Decimal(b), Decimal(c), Decimal(d));
  }

  lemma JoinFour(p: seq<string>)
    requires |p| == 4
    ensures Join(p, '.') == p[0] + "." + p[1] + "." + p[2] + "." + p[3]
  {
    assert p[1..][1..] == p[2..] && p[2..][1..] == [p[3]];
    assert Join(p[2..], '.') == p[2] + "." + p[3];
    assert Join(p[1..], '.') == p[1] + "." + (p[2] + "." + p[3]);
  }

  lemma OctetIsCanonical(s: string)
    requires IsOctet(s)
    ensures Decimal(Value(s)) == s
  {
    DecimalOfValue(s);
  }

  /** Writing the address that was read gives the text: each address has one spelling. */
  lemma IPv4IsCanonical(s: string)
    requires ParseIPv4(s).Some?
    ensures ParseIPv4(s).value < TOP && IPv4Text(ParseIPv4(s).value) == s
  {
    var p := Split(s, '.');
    var i := ParseIPv4(s).value;
    OctetIsCanonical(p[0]);
    OctetIsCanonical(p[1]);
    OctetIsCanonical(p[2]);
    OctetIsCanonical(p[3]);
    PartsOfCombined(Value(p[0]), Value(p[1]), Value(p[2]), Value(p[3]));
    JoinFour(p);
    SplitRejoins(s, '.');
  }

  // ---- one token ----------------------------------------------------------

  /** `n` targets on consecutive addresses. */
  function Addresses(first: nat, n: nat, port: int, scheme: string): seq<Target> {
    seq(n, k requires 0 <= k < n => Target(IPv4Text(first + k), port, scheme))
  }

  /** `n` targets on consecutive ports. */
  function Ports(host: string, first: int, n: nat, scheme: string): seq<Target> {
    seq(n, k requires 0 <= k < n => Target(host, first + k, scheme))
  }

  function Hosts(ips: seq<string>, port: int, scheme: string): seq<Target> {
    seq(|ips|, k requires 0 <= k < |ips| => Target(ips[k], port, scheme))
  }

  function ParseHostPort(spec: string, scheme: string): Parsed
    requires ':' in spec
  {
    var (host, ports) := SplitLast(spec, ':');
    if '-' in ports then
      var (lo, hi) := SplitOnce(ports, '-');
      match (PyInt(lo), PyInt(hi))
      case (Some(i), Some(j)) => if j < i then None else Some(Ports(host, i, j - i + 1, scheme))
      case _ => None
    else
      match PyInt(ports)
      case Some(n) => Some([Target(host, n, scheme)])
      case None => None
  }

  /** `lo.rsplit(".", 1)[0]` */
  function AllButLastOctet(lo: string): string {
    if '.' in lo then SplitLast(lo, '.').0 else lo
  }

  /** The upper end of an address range; a bare number replaces the last octet of the lower end. */
  function UpperEnd(lo: string, hi: string): Option<nat> {
    if '.' in hi then ParseIPv4(hi)
    else
      match PyInt(hi)
      case Some(n) => ParseIPv4(AllButLastOctet(lo) + "." + IntText(n))
      case None => None
  }

  /** The targets of an address range whose two ends have been read. */
  function Between(lo: Option<nat>, hi: Option<nat>, port: int, scheme: string): Parsed {
    match (lo, hi)
    case (Some(i), Some(j)) => if j < i then None else Some(Addresses(i, j - i + 1, port, scheme))
    case _ => None
  }

  function ParseAddresses(spec: string, port: int, scheme: string): Parsed
    requires '-' in spec
  {
    var (lo, hi) := SplitOnce(spec, '-');
    Between(ParseIPv4(Strip(lo)), UpperEnd(Strip(lo), Strip(hi)), port, scheme)
  }

  /** `_parse_one` */
  function ParseOne(d: Defaults, spec: string): Parsed {
    if ':' in spec && '/' !in spec then ParseHostPort(spec, d.scheme)
    else if '/' in spec then
      match d.network(spec)
      case Some(ips) => Some(Hosts(ips, d.port, d.scheme))
      case None => None
    else if '-' in spec then ParseAddresses(spec, d.port, d.scheme)
    else Some([Target(spec, d.port, d.scheme)])
  }

  // ---- the whole text -----------------------------------------------------

  function ParseToken(d: Defaults, raw: string): Parsed {
    var s := Strip(raw);
    if s == "" then Some([])
    else if StartsWith(s, "http://") then ParseOne(d.(scheme := "http"), s[7..])
    else if StartsWith(s, "https://") then ParseOne(d.(scheme := "https"), s[8..])
    else ParseOne(d, s)
  }

  function TokenParser(d: Defaults): string -> Parsed {
    raw => ParseToken(d, raw)
  }

  function Joined(a: Parsed, b: Parsed): Parsed {
    if a.Some? && b.Some? then Some(a.value + b.value) else None
  }

  function JoinAll(parse: string -> Parsed, tokens: seq<string>): Parsed {
    if tokens == [] then Some([]) else Joined(parse(tokens[0]), JoinAll(parse, tokens[1..]))
  }

  function ParseSpec(d: Defaults, spec: string): Parsed {
    JoinAll(TokenParser(d), Split(spec, ','))
  }

  lemma JoinedAssociates(a: Parsed, b: Parsed, c: Parsed)
    ensures Joined(Joined(a, b), c) == Joined(a, Joined(b, c))
  {
    assert a.Some? && b.Some? && c.Some? ==> a.value + b.value + c.value == a.value + (b.value + c.value);
  }

  lemma JoinedUnit(a: Parsed)
    ensures Joined(Some([]), a) == a == Joined(a, Some([]))
  {
    assert a.Some? ==> [] + a.value == a.value == a.value + [];
  }

  method ParseRange(d: Defaults, spec: string) returns (result: Parsed)
    ensures result == ParseSpec(d, spec)
  {
    var tokens := Split(spec, ',');
    ghost var parse := TokenParser(d);
    var found: seq<Target> := [];
    var i := 0;
    JoinedUnit(JoinAll(parse, tokens));
    assert tokens[0..] == tokens;
    while i < |tokens|
      invariant 0 <= i <= |tokens|
      invariant JoinAll(parse, tokens) == Joined(Some(found), JoinAll(parse, tokens[i..]))
    {
      assert tokens[i..][0] == tokens[i] && tokens[i..][1..] == tokens[i + 1..];
      var more := ParseToken(d, tokens[i]);
      JoinedAssociates(Some(found), parse(tokens[i]), JoinAll(parse, tokens[i + 1..]));
      if more.None? {
        return None;
      }
      found := found + more.value;
      i := i + 1;
    }
    JoinedUnit(Some(found));
    return Some(found);
  }

  // ---- text to target and back --------------------------------------------

  predicate Web(scheme: string) {
    scheme == "http" || scheme == "https"
  }

  lemma IntTextChars(z: int, c: char)
    requires c in IntText(z)
    ensures IsDigit(c) || (z < 0 && c == '-')
  {
  }

  lemma HostPortParses(host: string, port: int, scheme: string)
    ensures ':' in host + ":" + IntText(port)
    ensures ParseHostPort(host + ":" + IntText(port), scheme)
      == if port < 0 then None else Some([Target(host, port, scheme)])
  {
    var p := IntText(port);
    assert ':' !in p && (port >= 0 ==> '-' !in p) by {
      forall c | c in p
        ensures IsDigit(c) || (port < 0 && c == '-')
      {
        IntTextChars(port, c);
      }
    }
    SplitLastAt(host, ':', p);
    if port < 0 {
      NegativeSplits(port);
    } else {
      PyIntOfText(port);
    }
  }

  /** A negative number reads as a range without a lower end. */
  lemma NegativeSplits(port: int)
    requires port < 0
    ensures '-' in IntText(port) && PyInt(SplitOnce(IntText(port), '-').0).None?
  {
    assert IntText(port) == "" + ['-'] + Decimal(-port);
    SplitOnceAt("", '-', Decimal(-port));
  }

  lemma OneToken(d: Defaults, spec: string)
    requires ',' !in spec
    ensures ParseSpec(d, spec) == ParseToken(d, spec)
  {
    var parse := TokenParser(d);
    assert Split(spec, ',') == [spec];
    assert JoinAll(parse, [spec][1..]) == Some([]);
    JoinedUnit(parse(spec));
  }

  lemma PortTextIsPlain(port: int)
    ensures ',' !in IntText(port) && '/' !in IntText(port) && !IsSpace(IntText(port)[|IntText(port)| - 1])
  {
    var p := IntText(port);
    forall c | c in p
      ensures c != ',' && c != '/' && !IsSpace(c)
    {
      IntTextChars(port, c);
    }
    assert p[|p| - 1] in p;
  }

  /** The URL of a target, cut after its scheme. */
  lemma UrlShape(t: Target)
    requires Web(t.scheme) && '/' !in t.ip && ',' !in t.ip
    ensures BaseUrl(t) == t.scheme + "://" + (t.ip + ":" + IntText(t.port))
    ensures ',' !in BaseUrl(t) && '/' !in t.ip + ":" + IntText(t.port)
    ensures Strip(BaseUrl(t)) == BaseUrl(t)
  {
    var url, p := BaseUrl(t), IntText(t.port);
    PortTextIsPlain(t.port);
    assert url[0] == t.scheme[0] && url[|url| - 1] == p[|p| - 1];
    StripClean(url);
  }

  /**
   A target's URL parses back to that target, whatever its host (free of '/' and ',') and
   whatever the defaults, for every port a port can be; a negative one is refused.
   */
  lemma BaseUrlRoundTrip(d: Defaults, t: Target)
    requires Web(t.scheme) && '/' !in t.ip && ',' !in t.ip
    ensures ParseSpec(d, BaseUrl(t)) == if t.port < 0 then None else Some([t])
  {
    var url := BaseUrl(t);
    var tail := t.ip + ":" + IntText(t.port);
    UrlShape(t);
    OneToken(d, url);
    HostPortParses(t.ip, t.port, t.scheme);
    SchemeIsCutOff(d, t.scheme, tail);
  }

  lemma SchemeIsCutOff(d: Defaults, scheme: string, tail: string)
    requires Web(scheme) && Strip(scheme + "://" + tail) == scheme + "://" + tail
    ensures ParseToken(d, scheme + "://" + tail) == ParseOne(d.(scheme := scheme), tail)
  {
    var url := scheme + "://" + tail;
    if scheme == "http" {
      assert url[..7] == "http://" && url[7..] == tail;
    } else {
      assert url[..8] == "https://" && url[8..] == tail && url[4] == 's';
    }
  }

  lemma {:induction false} JoinAllConcatenates(parse: string -> Parsed, a: seq<string>, b: seq<string>)
    ensures JoinAll(parse, a + b) == Joined(JoinAll(parse, a), JoinAll(parse, b))
  {
    if a == [] {
      assert a + b == b;
      JoinedUnit(JoinAll(parse, b));
    } else {
      assert (a + b)[1..] == a[1..] + b;
      JoinAllConcatenates(parse, a[1..], b);
      JoinedAssociates(parse(a[0]), JoinAll(parse, a[1..]), JoinAll(parse, b));
    }
  }

  /** Parsing a comma join is the concatenation of the parses. */
  lemma CommaConcatenates(d: Defaults, a: string, b: string)
    ensures ParseSpec(d, a + "," + b) == Joined(ParseSpec(d, a), ParseSpec(d, b))
  {
    SplitJoin(a, ',', b);
    JoinAllConcatenates(TokenParser(d), Split(a, ','), Split(b, ','));
  }

  // ---- the other tokens ---------------------------------------------------

  /** Blank tokens are skipped; a bare host gets the default port and scheme, a scheme in front replaces the default. */
  lemma PlainTokens(d: Defaults, s: string, host: string)
    requires Strip(host) == host && host != "" && Unmarked(host)
    ensures Strip(s) == "" ==> ParseToken(d, s) == Some([])
    ensures ParseToken(d, host) == Some([Target(host, d.port, d.scheme)])
    ensures ParseToken(d, "http://" + host) == Some([Target(host, d.port, "http")])
    ensures ParseToken(d, "https://" + host) == Some([Target(host, d.port, "https")])
  {
    assert "http://"[4] == ':' && "https://"[5] == ':';
    assert !StartsWith(host, "http://") && !StartsWith(host, "https://");
    Schemed(host);
    assert "http" + "://" == "http://" && "https" + "://" == "https://";
    SchemeIsCutOff(d, "http", host);
    SchemeIsCutOff(d, "https", host);
  }

  lemma Schemed(host: string)
    requires Strip(host) == host && host != ""
    ensures Strip("http://" + host) == "http://" + host
    ensures Strip("https://" + host) == "https://" + host
  {
    var a, b := StripSplits(host);
    assert |a| + |b| == 0;
    StripClean("http://" + host);
    StripClean("https://" + host);
  }

  /** A token with a slash is a network: its hosts in order, each with the default port and scheme. */
  lemma NetworkParses(d: Defaults, spec: string)
    requires '/' in spec
    ensures ParseOne(d, spec).None? <==> d.network(spec).None?
    ensures d.network(spec).Some? ==>
              var ips := d.network(spec).value;
              && |ParseOne(d, spec).value| == |ips|
              && forall i | 0 <= i < |ips| :: ParseOne(d, spec).value[i] == Target(ips[i], d.port, d.scheme)
  {
  }

  // ---- ranges -------------------------------------------------------------

  lemma AddressChars(s: string, c: char)
    requires ParseIPv4(Strip(s)).Some? && c in s
    ensures IsDigit(c) || c == '.' || IsSpace(c)
  {
    var a, b := StripSplits(s);
    if c in Strip(s) {
      SplitCovers(Strip(s), '.', c);
    }
  }

  predicate Unmarked(s: string) {
    ':' !in s && '/' !in s && '-' !in s
  }

  lemma AddressIsPlain(s: string)
    requires ParseIPv4(Strip(s)).Some?
    ensures Unmarked(s)
  {
    forall c | c in s
      ensures c !in ":/-"
    {
      AddressChars(s, c);
    }
  }

  lemma DashSplits(d: Defaults, lo: string, hi: string)
    requires Unmarked(lo) && ':' !in hi && '/' !in hi
    ensures ParseOne(d, lo + "-" + hi)
      == Between(ParseIPv4(Strip(lo)), UpperEnd(Strip(lo), Strip(hi)), d.port, d.scheme)
  {
    var spec := lo + "-" + hi;
    SplitOnceAt(lo, '-', hi);
    assert ':' !in spec && '/' !in spec && '-' in spec;
  }

  lemma AddressHasDot(s: string)
    requires ParseIPv4(s).Some?
    ensures '.' in s
  {
    if '.' !in s {
      assert |Split(s, '.')| == 1;
    }
  }

  /**
   "lo-hi" is exactly the addresses from `lo` to `hi`, each once and in order; it is refused
   when `hi` comes before `lo`.
   */
  lemma RangeIsConsecutive(d: Defaults, lo: string, hi: string) returns (r: Parsed)
    requires ParseIPv4(Strip(lo)).Some? && ParseIPv4(Strip(hi)).Some?
    ensures r == ParseOne(d, lo + "-" + hi)
    ensures var i, j := ParseIPv4(Strip(lo)).value, ParseIPv4(Strip(hi)).value;
      && (r.None? <==> j < i)
      && (i <= j ==> Consecutive(r.value, i, j, d))
  {
    AddressIsPlain(lo);
    AddressIsPlain(hi);
    DashSplits(d, lo, hi);
    AddressHasDot(Strip(hi));
    r := ParseOne(d, lo + "-" + hi);
    var i, j := ParseIPv4(Strip(lo)).value, ParseIPv4(Strip(hi)).value;
    IPv4IsCanonical(Strip(hi));
    if i <= j {
      AddressesAreConsecutive(i, j, d);
    }
  }

  /** One target for every address from `i` to `j`, in order, with the default port and scheme. */
  predicate Consecutive(ts: seq<Target>, i: nat, j: nat, d: Defaults) {
    && |ts| == j - i + 1
    && forall k | 0 <= k < |ts| ::
         ParseIPv4(ts[k].ip) == Some(i + k) && ts[k].port == d.port && ts[k].scheme == d.scheme
  }

  lemma AddressesAreConsecutive(i: nat, j: nat, d: Defaults)
    requires i <= j < TOP
    ensures Consecutive(Addresses(i, j - i + 1, d.port, d.scheme), i, j, d)
  {
    var ts := Addresses(i, j - i + 1, d.port, d.scheme);
    forall k | 0 <= k < |ts|
      ensures ParseIPv4(ts[k].ip) == Some(i + k)
    {
      AddressParses(i, j - i + 1, d.port, d.scheme, k);
    }
  }

  lemma AddressParses(first: nat, n: nat, port: int, scheme: string, k: nat)
    requires k < n && first + k < TOP
    ensures ParseIPv4(Addresses(first, n, port, scheme)[k].ip) == Some(first + k)
  {
    AddressAt(first, n, port, scheme, k);
    IPv4RoundTrip(first + k);
  }

  lemma AddressAt(first: nat, n: nat, port: int, scheme: string, k: nat)
    requires k < n
    ensures Addresses(first, n, port, scheme)[k].ip == IPv4Text(first + k)
  {
  }

  /** The address that differs from `i` only in its last octet. */
  function WithLastOctet(i: nat, n: nat): nat {
    i / 256 * 256 + n
  }

  /**
   A bare number after the dash stands for the address that has it as last octet: the
   shorthand reads as the full range does, and a number no octet can hold is refused.
   */
  lemma ShorthandIsFullRange(d: Defaults, lo: string, hi: string, i: nat, n: int)
    ensures IsShorthand(lo, hi, i, n) ==>
              ParseOne(d, lo + "-" + hi) ==
              if 0 <= n <= 255 then ParseOne(d, lo + "-" + IPv4Text(WithLastOctet(i, n))) else None
  {
    if IsShorthand(lo, hi, i, n) {
      ShorthandParses(d, lo, hi, i, n);
      if 0 <= n <= 255 {
        IPv4IsCanonical(Strip(lo));
        ReplaceOctet(i, n);
        FullEnd(d, lo, WithLastOctet(i, n));
      }
    }
  }

  /** The lower end reads as address `i`, and the upper end as the bare number `n`. */
  predicate IsShorthand(lo: string, hi: string, i: nat, n: int) {
    ParseIPv4(Strip(lo)) == Some(i) && '.' !in hi && PyInt(Strip(hi)) == Some(n)
  }

  lemma ShorthandParses(d: Defaults, lo: string, hi: string, i: nat, n: int)
    ensures IsShorthand(lo, hi, i, n) ==>
              ParseOne(d, lo + "-" + hi) ==
              Between(Some(i), if 0 <= n <= 255 then Some(WithLastOctet(i, n)) else None, d.port, d.scheme)
  {
    if IsShorthand(lo, hi, i, n) {
      AddressIsPlain(lo);
      NumberIsPlain(hi);
      DashSplits(d, lo, hi);
      StripLacks(hi, '.');
      ShorthandEnd(Strip(lo), Strip(hi), i, n);
    }
  }

  lemma FullEnd(d: Defaults, lo: string, j: nat)
    requires ParseIPv4(Strip(lo)).Some? && j < TOP
    ensures ParseOne(d, lo + "-" + IPv4Text(j)) == Between(ParseIPv4(Strip(lo)), Some(j), d.port, d.scheme)
  {
    AddressIsPlain(lo);
    IPv4RoundTrip(j);
    AddressTextIsClean(j);
    DashSplits(d, lo, IPv4Text(j));
  }

  lemma ShorthandEnd(lo: string, hi: string, i: nat, n: int)
    requires ParseIPv4(lo) == Some(i)
    requires '.' !in hi && PyInt(hi) == Some(n)
    ensures UpperEnd(lo, hi) == if 0 <= n <= 255 then Some(WithLastOctet(i, n)) else None
  {
    IPv4IsCanonical(lo);
    DropLastOctet(i);
    if 0 <= n <= 255 {
      LastOctetReplaced(i, n);
    } else {
      LastOctetRefused(i, n);
    }
  }

  lemma ReplaceOctet(i: nat, n: nat)
    requires i < TOP && n <= 255
    ensures WithLastOctet(i, n) < TOP
    ensures WithLastOctet(i, n) / 256 == i / 256 && WithLastOctet(i, n) % 256 == n
  {
  }

  lemma LastOctetReplaced(i: nat, n: nat)
    requires i < TOP && n <= 255
    ensures ParseIPv4(Network24(i) + "." + Decimal(n)) == Some(WithLastOctet(i, n))
  {
    var j := WithLastOctet(i, n);
    ReplaceOctet(i, n);
    SameNetwork(i, j);
    IPv4RoundTrip(j);
    assert IPv4Text(j) == Network24(i) + "." + Decimal(n);
  }

  lemma NumberIsPlain(s: string)
    requires PyInt(Strip(s)).Some?
    ensures ':' !in s && '/' !in s
  {
    var a, b := StripSplits(s);
    forall c | c in s
      ensures c !in ":/"
    {
      if c in Strip(s) {
        PyIntChars(Strip(s), c);
      }
    }
  }

  lemma DropLastOctet(i: nat)
    ensures AllButLastOctet(IPv4Text(i)) == Network24(i)
  {
    assert '.' !in Decimal(i % 256);
    SplitLastAt(Network24(i), '.', Decimal(i % 256));
  }

  lemma SameNetwork(i: nat, j: nat)
    requires i / 256 == j / 256
    ensures Network24(i) == Network24(j)
  {
    assert i / 0x100 / 0x100 == i / 0x1_0000 && j / 0x100 / 0x100 == j / 0x1_0000;
    assert i / 0x1_0000 / 0x100 == i / 0x100_0000 && j / 0x1_0000 / 0x100 == j / 0x100_0000;
  }

  lemma AddressTextIsClean(j: nat)
    requires j < TOP
    ensures Strip(IPv4Text(j)) == IPv4Text(j)
    ensures ':' !in IPv4Text(j) && '/' !in IPv4Text(j) && '.' in IPv4Text(j)
  {
    assert forall c | c in IPv4Text(j) :: IsDigit(c) || c == '.';
    StripClean(IPv4Text(j));
  }

  lemma LastOctetRefused(i: nat, n: int)
    requires n < 0 || n > 255
    ensures ParseIPv4(Network24(i) + "." + IntText(n)).None?
  {
    var last := IntText(n);
    forall c | c in last
      ensures c != '.'
    {
      IntTextChars(n, c);
    }
    SplitFour(Decimal(i / 0x100_0000), Decimal(i / 0x1_0000 % 256), Decimal(i / 0x100 % 256), last);
    if n > 255 {
      OctetText(n);
    } else {
      assert last[0] == '-';
    }
  }

  /** "host:lo-hi" is exactly the ports from `lo` to `hi` of that host, in order. */
  lemma PortRangeIsConsecutive(d: Defaults, host: string, lo: string, hi: string) returns (r: Parsed)
    requires '/' !in host && '-' !in lo && PyInt(lo).Some? && PyInt(hi).Some?
    ensures r == ParseOne(d, host + ":" + lo + "-" + hi)
    ensures var i, j := PyInt(lo).value, PyInt(hi).value;
      && (r.None? <==> j < i)
      && (i <= j ==>
            |r.value| == j - i + 1 && forall k | 0 <= k <= j - i :: r.value[k] == Target(host, i + k, d.scheme))
  {
    var ports := lo + "-" + hi;
    forall c | c in ports
      ensures c !in ":/"
    {
      if c in lo {
        PyIntChars(lo, c);
      } else if c in hi {
        PyIntChars(hi, c);
      }
    }
    assert host + ":" + lo + "-" + hi == host + ":" + ports;
    SplitLastAt(host, ':', ports);
    SplitOnceAt(lo, '-', hi);
    r := ParseOne(d, host + ":" + lo + "-" + hi);
  }

  // ---- the address stored with a server -----------------------------------

  const ROOT := "/redfish/v1/"

  /** `_parse_redfish_root`: host, port and scheme. */
  function ParseRedfishRoot(root: Option<string>): Option<(string, int, string)> {
    if root.None? || root.value == "" then Some(("", 443, "https"))
    else
      var s := TrimRightOf(RemoveAll(root.value, ROOT), '/');
      var (scheme, hostport) := Partition(s, "://");
      var (host, port) := Partition(hostport, ":");
      var named := if scheme == "" then "https" else scheme;
      if port == "" then Some((host, if scheme == "https" then 443 else 80, named))
      else
        match PyInt(port)
        case Some(n) => Some((host, n, named))
        case None => None
  }

  /** The only slashes of the URL are the two after the scheme. */
  lemma SlashesOfUrl(t: Target, i: nat)
    requires Web(t.scheme) && '/' !in t.ip && i < |BaseUrl(t)|
    ensures BaseUrl(t)[i] == '/' ==> i == |t.scheme| + 1 || i == |t.scheme| + 2
  {
    var url, head := BaseUrl(t), t.scheme + "://";
    var p := IntText(t.port);
    assert url == head + (t.ip + (":" + p));
    if i >= |head| + |t.ip| + 1 {
      assert url[i] == p[i - |head| - |t.ip| - 1];
      IntTextChars(t.port, url[i]);
    } else if i >= |head| {
      assert url[i] == (t.ip + ":")[i - |head|];
    }
  }

  lemma ColonOfUrl(t: Target)
    ensures var colon := |t.scheme| + 3 + |t.ip|;
            colon < |BaseUrl(t)| && BaseUrl(t)[colon] == ':'
  {
  }

  /** The stored root's path occurs nowhere before its own place. */
  lemma NoEarlierRoot(t: Target, i: nat)
    requires Web(t.scheme) && '/' !in t.ip && i < |BaseUrl(t)|
    ensures !At(BaseUrl(t) + ROOT, ROOT, i)
  {
    var url, k := BaseUrl(t), |t.scheme| + 1;
    var s := url + ROOT;
    SlashesOfUrl(t, i);
    if At(s, ROOT, i) {
      AtMatches(s, ROOT, i, 0);
      AtMatches(s, ROOT, i, 1);
      assert url[k + 1] == (t.scheme + "://")[k + 1];
      SecondSlashFails(t);
    }
  }

  /** At the second slash it would have to run over the colon before the port. */
  lemma SecondSlashFails(t: Target)
    requires Web(t.scheme) && '/' !in t.ip
    ensures !At(BaseUrl(t) + ROOT, ROOT, |t.scheme| + 2)
  {
    var url, i := BaseUrl(t), |t.scheme| + 2;
    ColonOfUrl(t);
    if i + 8 < |url| {
      SlashesOfUrl(t, i + 8);
    }
    RootNeedsSlash(url, i, i + 1 + |t.ip|);
  }

  lemma RootNeedsSlash(url: string, i: nat, colon: nat)
    requires i < colon < |url| && url[colon] == ':'
    requires i + 8 < |url| ==> url[i + 8] != '/'
    ensures !At(url + ROOT, ROOT, i)
  {
    if At(url + ROOT, ROOT, i) {
      AtMatches(url + ROOT, ROOT, i, 8);
      AtMatches(url + ROOT, ROOT, i, colon - i);
    }
  }

  lemma {:induction false} PartitionLacks(s: string, c: char)
    ensures c !in Partition(s, [c]).0
  {
    if s != "" && s[0] != c {
      PartitionLacks(s[1..], c);
    }
  }

  /**
   The root stored for a target gives back its host, port and scheme exactly when the host
   holds no colon: the first colon ends the host here, the last one does in `parse_range`.
   */
  lemma RedfishRootRoundTrip(t: Target)
    requires Web(t.scheme) && '/' !in t.ip
    ensures ParseRedfishRoot(Some(BaseUrl(t) + ROOT)) == Some((t.ip, t.port, t.scheme)) <==> ':' !in t.ip
  {
    var url := BaseUrl(t);
    var p := IntText(t.port);
    var tail := t.ip + ":" + p;
    forall i | 0 <= i < |url|
      ensures !At(url + ROOT, ROOT, i)
    {
      NoEarlierRoot(t, i);
    }
    RemoveSuffix(url, ROOT);
    assert url[|url| - 1] == p[|p| - 1];
    IntTextChars(t.port, p[|p| - 1]);
    assert TrimRightOf(url, '/') == url;
    assert url == t.scheme + "://" + tail;
    PartitionAt(t.scheme, "://", tail);
    PartitionLacks(tail, ':');
    if ':' !in t.ip {
      PartitionAt(t.ip, ":", p);
      PyIntOfText(t.port);
    }
  }

  /** Without a port it is 443 for https and 80 for http; no root at all is an empty https host. */
  lemma RootDefaults(host: string)
    requires host != "" && '/' !in host && ':' !in host
    ensures ParseRedfishRoot(None) == ParseRedfishRoot(Some("")) == Some(("", 443, "https"))
    ensures ParseRedfishRoot(Some("https://" + host)) == Some((host, 443, "https"))
    ensures ParseRedfishRoot(Some("http://" + host)) == Some((host, 80, "http"))
  {
    PortlessRoot("https", host);
    PortlessRoot("http", host);
    assert "http" + "://" == "http://" && "https" + "://" == "https://";
  }

  lemma PortlessRoot(scheme: string, host: string)
    requires Web(scheme) && host != "" && '/' !in host && ':' !in host
    ensures ParseRedfishRoot(Some(scheme + "://" + host))
      == Some((host, if scheme == "https" then 443 else 80, scheme))
  {
    var url := scheme + "://" + host;
    forall i | 0 <= i < |url|
      ensures !At(url, ROOT, i)
    {
      NoRootInside(scheme, host, i);
    }
    RemoveAbsent(url, ROOT);
    assert url[|url| - 1] == host[|host| - 1];
    PartitionAt(scheme, "://", host);
    PartitionWhole(host, ":");
  }

  /** The root's path has two slashes eight apart, the URL only adjacent ones. */
  lemma NoRootInside(scheme: string, host: string, i: nat)
    requires Web(scheme) && '/' !in host && i < |scheme + "://" + host|
    ensures !At(scheme + "://" + host, ROOT, i)
  {
    var url := scheme + "://" + host;
    if At(url, ROOT, i) {
      AtMatches(url, ROOT, i, 0);
      AtMatches(url, ROOT, i, 8);
      OnlyTwoSlashes(scheme, host, i);
      OnlyTwoSlashes(scheme, host, i + 8);
    }
  }

  lemma OnlyTwoSlashes(scheme: string, host: string, i: nat)
    requires Web(scheme) && '/' !in host && i < |scheme + "://" + host|
    ensures (scheme + "://" + host)[i] == '/' ==> i == |scheme| + 1 || i == |scheme| + 2
  {
    var head := scheme + "://";
    if i >= |head| {
      assert (head + host)[i] == host[i - |head|];
    }
  }
}
