/** The Python string operations the models use, on ASCII text. */
module Text {
  // ---- searching ----------------------------------------------------------

  predicate At(s: string, p: string, i: int) {
    0 <= i && i + |p| <= |s| && s[i..i + |p|] == p
  }

  lemma AtMatches(s: string, p: string, i: int, m: int)
    requires At(s, p, i) && 0 <= m < |p|
    ensures s[i + m] == p[m]
  {
    assert s[i..i + |p|][m] == s[i + m];
  }

  /** Python's `p in s`. */
  predicate Contains(s: string, p: string) {
    exists i | 0 <= i <= |s| :: At(s, p, i)
  }

  predicate ContainsAny(s: string, ps: seq<string>) {
    exists p | p in ps :: Contains(s, p)
  }

  predicate StartsWith(s: string, p: string) {
    p <= s
  }

  predicate EndsWith(s: string, p: string) {
    |p| <= |s| && s[|s| - |p|..] == p
  }

  /** Text that lacks a character of the pattern lacks the pattern. */
  lemma Lacks(s: string, p: string, c: char)
    requires c in p && c !in s
    ensures !Contains(s, p)
  {
  }

  /** An occurrence cannot start in text that lacks the pattern's first character. */
  lemma ContainsAfter(a: string, b: string, p: string)
    requires p != "" && p[0] !in a
    ensures Contains(a + b, p) <==> Contains(b, p)
  {
    var s := a + b;
    if i :| 0 <= i <= |s| && At(s, p, i) {
      assert s[i..i + |p|][0] == s[i];
      assert s[i..i + |p|] == b[i - |a|..i - |a| + |p|];
      assert At(b, p, i - |a|);
    }
    if i :| 0 <= i <= |b| && At(b, p, i) {
      assert s[i + |a|..i + |a| + |p|] == b[i..i + |p|];
      assert At(s, p, i + |a|);
    }
  }

  /** An occurrence cannot end in text that lacks the pattern's last character. */
  lemma ContainsBefore(a: string, b: string, p: string)
    requires p != "" && p[|p| - 1] !in b
    ensures Contains(a + b, p) <==> Contains(a, p)
  {
    var s := a + b;
    if i :| 0 <= i <= |s| && At(s, p, i) {
      assert s[i..i + |p|][|p| - 1] == s[i + |p| - 1];
      assert s[i..i + |p|] == a[i..i + |p|];
      assert At(a, p, i);
    }
    if i :| 0 <= i <= |a| && At(a, p, i) {
      assert s[i..i + |p|] == a[i..i + |p|];
      assert At(s, p, i);
    }
  }

  // ---- case ---------------------------------------------------------------

  function LowerChar(c: char): char {
    if 'A' <= c <= 'Z' then ((c as int) + 32) as char else c
  }

  function Lower(s: string): (r: string)
    ensures |r| == |s| && forall i | 0 <= i < |s| :: r[i] == LowerChar(s[i])
  {
    seq(|s|, i requires 0 <= i < |s| => LowerChar(s[i]))
  }

  /** The letters A to Z become small, and no other character changes. */
  lemma LowerLetters(c: char)
    ensures Lower("ABCDEFGHIJKLMNOPQRSTUVWXYZ") == "abcdefghijklmnopqrstuvwxyz"
    ensures c !in "ABCDEFGHIJKLMNOPQRSTUVWXYZ" ==> Lower([c]) == [c]
  {
    var big, small := "ABCDEFGHIJKLMNOPQRSTUVWXYZ", "abcdefghijklmnopqrstuvwxyz";
    forall i | 0 <= i < 26
      ensures big[i] == (65 + i) as char && small[i] == (97 + i) as char
    {
      LetterAt(i);
    }
    if 'A' <= c <= 'Z' {
      assert big[c as int - 65] == c;
    }
  }

  lemma LetterAt(i: nat)
    requires i < 26
    ensures "ABCDEFGHIJKLMNOPQRSTUVWXYZ"[i] == (65 + i) as char
    ensures "abcdefghijklmnopqrstuvwxyz"[i] == (97 + i) as char
  {
  }

  /** Lower-casing brings in no letter that was absent in both cases. */
  lemma LowerLacks(s: string, p: string, c: char)
    requires c in p && LowerChar(c) == c
    requires forall d | d in s :: LowerChar(d) != c
    ensures !Contains(Lower(s), p)
  {
    Lacks(Lower(s), p, c);
  }

  lemma LowerConcat(a: string, b: string)
    ensures Lower(a + b) == Lower(a) + Lower(b)
  {
  }

  // ---- trimming -----------------------------------------------------------

  predicate IsSpace(c: char) {
    c == ' ' || 9 <= c as int <= 13 || 28 <= c as int <= 31
  }

  predicate AllSpace(s: string) {
    forall i | 0 <= i < |s| :: IsSpace(s[i])
  }

  function TrimLeft(s: string): string {
    if s != "" && IsSpace(s[0]) then TrimLeft(s[1..]) else s
  }

  function TrimRight(s: string): string {
    if s != "" && IsSpace(s[|s| - 1]) then TrimRight(s[..|s| - 1]) else s
  }

  function Strip(s: string): string {
    TrimRight(TrimLeft(s))
  }

  lemma {:induction false} TrimLeftSplits(s: string) returns (a: string)
    ensures s == a + TrimLeft(s) && AllSpace(a)
    ensures TrimLeft(s) != "" ==> !IsSpace(TrimLeft(s)[0])
  {
    if s != "" && IsSpace(s[0]) {
      var a' := TrimLeftSplits(s[1..]);
      a := [s[0]] + a';
    } else {
      a := "";
    }
  }

  lemma {:induction false} TrimRightSplits(s: string) returns (b: string)
    ensures s == TrimRight(s) + b && AllSpace(b)
    ensures TrimRight(s) != "" ==> !IsSpace(TrimRight(s)[|TrimRight(s)| - 1])
  {
    if s != "" && IsSpace(s[|s| - 1]) {
      var b' := TrimRightSplits(s[..|s| - 1]);
      b := b' + [s[|s| - 1]];
    } else {
      b := "";
    }
  }

  /** Stripping removes white space from the two ends and nothing else. */
  lemma StripSplits(s: string) returns (a: string, b: string)
    ensures s == a + Strip(s) + b && AllSpace(a) && AllSpace(b)
    ensures Strip(s) != "" ==> !IsSpace(Strip(s)[0]) && !IsSpace(Strip(s)[|Strip(s)| - 1])
  {
    a := TrimLeftSplits(s);
    b := TrimRightSplits(TrimLeft(s));
    if Strip(s) != "" {
      assert TrimLeft(s)[0] == Strip(s)[0];
    }
  }

  lemma StripLacks(s: string, c: char)
    requires c !in s
    ensures c !in Strip(s)
  {
    var a, b := StripSplits(s);
  }

  /** Text with no white space at its ends strips to itself. */
  lemma StripClean(s: string)
    requires s != "" ==> !IsSpace(s[0]) && !IsSpace(s[|s| - 1])
    ensures Strip(s) == s
  {
  }

  lemma {:induction false} StripPadded(a: string, s: string, b: string)
    requires (forall c | c in a + b :: IsSpace(c)) && s != "" && !IsSpace(s[0]) && !IsSpace(s[|s| - 1])
    ensures Strip(a + s + b) == s
    decreases |a| + |b|
  {
    var text := a + s + b;
    if a != "" {
      assert text[0] == a[0] && a[0] in a + b && text[1..] == a[1..] + s + b;
      assert forall c | c in a[1..] + b :: c in a + b;
      StripPadded(a[1..], s, b);
    } else {
      assert text == s + b && TrimLeft(text) == text;
      TrimRightPadded(s, b);
    }
  }

  lemma {:induction false} TrimRightPadded(s: string, b: string)
    requires AllSpace(b) && s != "" && !IsSpace(s[|s| - 1])
    ensures TrimRight(s + b) == s
    decreases |b|
  {
    if b == "" {
      assert s + b == s;
    } else {
      assert (s + b)[..|s + b| - 1] == s + b[..|b| - 1];
      TrimRightPadded(s, b[..|b| - 1]);
    }
  }

  /** What Python counts as white space in ASCII: the blank, tab to carriage return, and the four separators. */
  lemma StripsThese(c: char, s: string)
    requires s != "" && !IsSpace(s[0]) && !IsSpace(s[|s| - 1])
    ensures c in [' ', '\t', '\n', '\U{0B}', '\U{0C}', '\r', '\U{1C}', '\U{1D}', '\U{1E}', '\U{1F}'] <==>
              Strip([c] + s) == s
  {
    var text := [c] + s;
    StripPadded("", s, "");
    assert text[1..] == s && "" + s + "" == s;
    if IsSpace(c) {
      StripPadded([c], s, "");
      assert [c] + s + "" == text;
    } else {
      StripClean(text);
    }
  }

  /** Stripping does not hide or create an occurrence of a pattern free of white space. */
  lemma StripKeepsContains(s: string, p: string)
    requires p != "" && !IsSpace(p[0]) && !IsSpace(p[|p| - 1])
    ensures Contains(Lower(Strip(s)), p) <==> Contains(Lower(s), p)
  {
    var a, b := StripSplits(s);
    LowerConcat(a + Strip(s), b);
    LowerConcat(a, Strip(s));
    assert forall c | c in Lower(a) + Lower(b) :: IsSpace(c);
    ContainsBefore(Lower(a) + Lower(Strip(s)), Lower(b), p);
    ContainsAfter(Lower(a), Lower(Strip(s)), p);
  }

  // ---- splitting ----------------------------------------------------------

  /** The text before and after the first `c`. */
  function SplitOnce(s: string, c: char): (r: (string, string))
    requires c in s
    ensures s == r.0 + [c] + r.1 && c !in r.0
  {
    if s[0] == c then ("", s[1..])
    else
      var (a, b) := SplitOnce(s[1..], c);
      ([s[0]] + a, b)
  }

  /** The text before and after the last `c`. */
  function SplitLast(s: string, c: char): (r: (string, string))
    requires c in s
    ensures s == r.0 + [c] + r.1 && c !in r.1
  {
    if s[|s| - 1] == c then (s[..|s| - 1], "")
    else
      var (a, b) := SplitLast(s[..|s| - 1], c);
      (a, b + [s[|s| - 1]])
  }

  function Split(s: string, c: char): seq<string>
    decreases |s|
  {
    if c in s then [SplitOnce(s, c).0] + Split(SplitOnce(s, c).1, c) else [s]
  }

  lemma SplitOnceAt(a: string, c: char, b: string)
    requires c !in a
    ensures c in a + [c] + b && SplitOnce(a + [c] + b, c) == (a, b)
  {
    var s := a + [c] + b;
    assert s[|a|] == c;
    var (x, y) := SplitOnce(s, c);
    assert s[|x|] == c;
    assert x == s[..|a|] == a && y == s[|a| + 1..] == b;
  }

  lemma SplitLastAt(a: string, c: char, b: string)
    requires c !in b
    ensures c in a + [c] + b && SplitLast(a + [c] + b, c) == (a, b)
  {
    var s := a + [c] + b;
    assert s[|a|] == c;
    var (x, y) := SplitLast(s, c);
    assert s[|x|] == c;
    assert x == s[..|a|] == a && y == s[|a| + 1..] == b;
  }

  lemma {:induction false} SplitJoin(a: string, c: char, b: string)
    ensures Split(a + [c] + b, c) == Split(a, c) + Split(b, c)
    decreases |a|
  {
    if c in a {
      var (x, y) := SplitOnce(a, c);
      assert a + [c] + b == x + [c] + (y + [c] + b);
      SplitOnceAt(x, c, y + [c] + b);
      SplitJoin(y, c, b);
    } else {
      SplitOnceAt(a, c, b);
    }
  }

  function Join(ps: seq<string>, c: char): string {
    if ps == [] then "" else if |ps| == 1 then ps[0] else ps[0] + [c] + Join(ps[1..], c)
  }

  /** The pieces, joined with the separator, are the text again. */
  lemma {:induction false} SplitRejoins(s: string, c: char)
    ensures Split(s, c) != [] && Join(Split(s, c), c) == s
    decreases |s|
  {
    if c in s {
      SplitRejoins(SplitOnce(s, c).1, c);
      assert Split(s, c)[1..] == Split(SplitOnce(s, c).1, c);
    }
  }

  /** Every character of the text is the separator or lies in one of the pieces. */
  lemma {:induction false} SplitCovers(s: string, c: char, x: char)
    requires x in s
    ensures x == c || exists i | 0 <= i < |Split(s, c)| :: x in Split(s, c)[i]
    decreases |s|
  {
    if c in s {
      var (a, b) := SplitOnce(s, c);
      assert Split(s, c)[0] == a && Split(s, c)[1..] == Split(b, c);
      if x in b {
        SplitCovers(b, c, x);
        if x != c {
          var i :| 0 <= i < |Split(b, c)| && x in Split(b, c)[i];
          assert Split(s, c)[i + 1] == Split(b, c)[i];
        }
      } else {
        assert x == c || x in a;
      }
    } else {
      assert Split(s, c)[0] == s;
    }
  }

  /** Python's `str.partition`: the text before and after the first `sep`. */
  function Partition(s: string, sep: string): (string, string)
    requires sep != ""
  {
    if |s| < |sep| then (s, "")
    else if sep <= s then ("", s[|sep|..])
    else ([s[0]] + Partition(s[1..], sep).0, Partition(s[1..], sep).1)
  }

  lemma {:induction false} PartitionAt(a: string, sep: string, b: string)
    requires sep != "" && sep[0] !in a
    ensures Partition(a + sep + b, sep) == (a, b)
  {
    var s := a + sep + b;
    if a != "" {
      assert s[0] == a[0] && !(sep <= s);
      assert s[1..] == a[1..] + sep + b;
      assert a == [a[0]] + a[1..];
      PartitionAt(a[1..], sep, b);
    } else {
      assert s[..|sep|] == sep && s[|sep|..] == b;
    }
  }

  lemma {:induction false} PartitionWhole(s: string, sep: string)
    requires |sep| == 1 && sep[0] !in s
    ensures Partition(s, sep) == (s, "")
  {
    if s != "" {
      PartitionWhole(s[1..], sep);
      assert s == [s[0]] + s[1..];
    }
  }

  // ---- removing -----------------------------------------------------------

  function Without(s: string, c: char): string {
    if s == "" then "" else (if s[0] == c then "" else [s[0]]) + Without(s[1..], c)
  }

  /** Python's `s.replace(p, "")`. */
  function RemoveAll(s: string, p: string): string
    requires p != ""
  {
    if |s| < |p| then s
    else if p <= s then RemoveAll(s[|p|..], p)
    else [s[0]] + RemoveAll(s[1..], p)
  }

  lemma {:induction false} RemoveAbsent(s: string, p: string)
    requires p != "" && forall i | 0 <= i < |s| :: !At(s, p, i)
    ensures RemoveAll(s, p) == s
  {
    if |s| >= |p| {
      assert s[..|p|] == s[0..0 + |p|] && !At(s, p, 0);
      forall i | 0 <= i < |s[1..]|
        ensures !At(s[1..], p, i)
      {
        assert !At(s, p, i + 1);
        if i + |p| <= |s[1..]| {
          assert s[1..][i..i + |p|] == s[i + 1..i + 1 + |p|];
        }
      }
      RemoveAbsent(s[1..], p);
      assert s == [s[0]] + s[1..];
    }
  }

  /** Up to its first occurrence the text stays, the pattern goes, and so on with the rest. */
  lemma {:induction false} RemoveNext(a: string, p: string, b: string)
    requires p != "" && forall i | 0 <= i < |a| :: !At(a + p + b, p, i)
    ensures RemoveAll(a + p + b, p) == a + RemoveAll(b, p)
  {
    var s := a + p + b;
    if a == "" {
      assert s[..|p|] == p && s[|p|..] == b;
      assert a + RemoveAll(b, p) == RemoveAll(b, p);
    } else {
      var rest := a[1..] + p + b;
      assert s[..|p|] == s[0..0 + |p|] && !At(s, p, 0);
      assert s[1..] == rest;
      forall i | 0 <= i < |a[1..]|
        ensures !At(rest, p, i)
      {
        assert !At(s, p, i + 1);
        if i + |p| <= |rest| {
          assert rest[i..i + |p|] == s[i + 1..i + 1 + |p|];
        }
      }
      RemoveNext(a[1..], p, b);
      assert [s[0]] + (a[1..] + RemoveAll(b, p)) == a + RemoveAll(b, p);
    }
  }

  lemma RemoveSuffix(a: string, p: string)
    requires p != "" && forall i | 0 <= i < |a| :: !At(a + p, p, i)
    ensures RemoveAll(a + p, p) == a
  {
    assert a + p + "" == a + p;
    RemoveNext(a, p, "");
  }

  /** Python's `rstrip` of one character. */
  function TrimRightOf(s: string, c: char): string {
    if s != "" && s[|s| - 1] == c then TrimRightOf(s[..|s| - 1], c) else s
  }
}
