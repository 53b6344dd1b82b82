/** Decimal text of natural numbers, as Python's `str(int)` writes it and `int(str)` reads it. */
module Numerals {
  import opened Prelude
  import opened Text

  function Digit(d: nat): char
    requires d < 10
  {
    (d + 48) as char
  }

  predicate IsDigit(c: char) {
    '0' <= c <= '9'
  }

  predicate AllDigits(s: string) {
    forall i | 0 <= i < |s| :: IsDigit(s[i])
  }

  function Decimal(n: nat): (s: string)
    ensures s != "" && AllDigits(s)
  {
    if n < 10 then [Digit(n)] else Decimal(n / 10) + [Digit(n % 10)]
  }

  function Value(s: string): nat
    requires AllDigits(s)
  {
    if s == "" then 0 else 10 * Value(s[..|s| - 1]) + (s[|s| - 1] as int - 48)
  }

  /** Reading back what was written gives the number, so two numbers never share a text. */
  lemma {:induction false} ValueOfDecimal(n: nat)
    ensures Value(Decimal(n)) == n
  {
    if n >= 10 {
      ValueOfDecimal(n / 10);
      assert Decimal(n)[..|Decimal(n)| - 1] == Decimal(n / 10);
    }
  }

  lemma DecimalInjective(m: nat, n: nat)
    requires Decimal(m) == Decimal(n)
    ensures m == n
  {
    ValueOfDecimal(m);
    ValueOfDecimal(n);
  }

  /** Digits without a leading zero are what the number they spell is written as. */
  lemma {:induction false} DecimalOfValue(s: string)
    requires s != "" && AllDigits(s) && (s[0] != '0' || s == "0")
    ensures Decimal(Value(s)) == s
    ensures s != "0" ==> Value(s) > 0
  {
    var front := s[..|s| - 1];
    var d := s[|s| - 1] as int - 48;
    if |s| == 1 {
      assert front == "" && Value(s) == d;
      assert s == [s[0]];
    } else {
      assert front[0] == s[0];
      DecimalOfValue(front);
      assert Value(s) == 10 * Value(front) + d;
      assert Value(s) / 10 == Value(front) && Value(s) % 10 == d;
      assert s == front + [s[|s| - 1]];
    }
  }

  // ---- integers -----------------------------------------------------------

  /** Python's `str(z)`. */
  function IntText(z: int): string {
    if z < 0 then "-" + Decimal(-z) else Decimal(z)
  }

  /** Digits, with single underscores allowed between them. */
  predicate IsIntBody(s: string) {
    && s != ""
    && IsDigit(s[0])
    && IsDigit(s[|s| - 1])
    && forall i | 0 <= i < |s| :: IsDigit(s[i]) || (s[i] == '_' && (i + 1 < |s| ==> IsDigit(s[i + 1])))
  }

  lemma {:induction false} WithoutUnderscores(s: string)
    requires forall i | 0 <= i < |s| :: IsDigit(s[i]) || s[i] == '_'
    ensures AllDigits(Without(s, '_'))
    ensures AllDigits(s) ==> Without(s, '_') == s
  {
    if s != "" {
      WithoutUnderscores(s[1..]);
    }
  }

  function IntBody(s: string): Option<nat> {
    if IsIntBody(s) then
      WithoutUnderscores(s);
      Some(Value(Without(s, '_')))
    else None
  }

  function Signed(s: string): Option<int> {
    if s != "" && s[0] in "+-" then
      match IntBody(s[1..])
      case Some(n) =>
        var magnitude: int := n;
        Some(if s[0] == '-' then -magnitude else magnitude)
      case None => None
    else IntBody(s)
  }

  /** The control characters `str.strip` removes and `int` does not. */
  predicate IsSeparator(c: char) {
    28 <= c as int <= 31
  }

  /** Python's `int(s)` on ASCII text; `None` is its `ValueError`. */
  function PyInt(s: string): Option<int> {
    if exists c | c in s :: IsSeparator(c) then None else Signed(Strip(s))
  }

  lemma IntBodyOfDigits(s: string)
    requires s != "" && AllDigits(s)
    ensures IntBody(s) == Some(Value(s))
  {
    WithoutUnderscores(s);
  }

  lemma PyIntOfDigits(s: string)
    requires s != "" && AllDigits(s)
    ensures PyInt(s) == Some(Value(s))
    ensures PyInt("-" + s).Some? && PyInt("-" + s).value == 0 - Value(s)
  {
    IntBodyOfDigits(s);
    StripClean(s);
    StripClean("-" + s);
    assert ("-" + s)[1..] == s;
    assert forall c | c in "-" + s :: c == '-' || c in s;
    assert forall c | c in s :: IsDigit(c);
  }

  /** `int` reads back what `str` wrote. */
  lemma PyIntOfText(z: int)
    ensures PyInt(IntText(z)) == Some(z)
  {
    var n: nat := if z < 0 then -z else z;
    ValueOfDecimal(n);
    PyIntOfDigits(Decimal(n));
  }

  /** White space around a number does not matter to `int`, except for the four separators. */
  lemma PyIntOfPadded(a: string, s: string, b: string)
    requires forall c | c in a + b :: IsSpace(c)
    requires s != "" && AllDigits(s)
    ensures (forall c | c in a + b :: c < 28 as char || c > 31 as char) ==> PyInt(a + s + b) == Some(Value(s))
    ensures (exists c | c in a + b :: 28 as char <= c <= 31 as char) ==> PyInt(a + s + b) == None
  {
    var text := a + s + b;
    assert forall c | c in s :: IsDigit(c);
    assert forall c :: c in text <==> c in a + b || c in s;
    StripPadded(a, s, b);
    IntBodyOfDigits(s);
  }

  /** A single underscore between digits is allowed, and does not count; two are not. */
  lemma PyIntOfUnderscored(a: string, b: string)
    requires a != "" && b != "" && AllDigits(a) && AllDigits(b)
    ensures PyInt(a + "_" + b) == PyInt(a + b)
    ensures PyInt(a + "__" + b) == None
  {
    NumberLike(a, "_", b);
    NumberLike(a, "__", b);
    UnderscoredBody(a, b);
    PyIntOfDigits(a + b);
    var twice := a + "__" + b;
    assert twice[|a|] == '_' && twice[|a| + 1] == '_';
  }

  /** Text of digits and underscores is read by its body alone. */
  lemma NumberLike(a: string, gap: string, b: string)
    requires a != "" && b != "" && AllDigits(a) && AllDigits(b) && forall c | c in gap :: c == '_'
    ensures PyInt(a + gap + b) == IntBody(a + gap + b)
  {
    var text := a + gap + b;
    assert text[0] == a[0] && text[|text| - 1] == b[|b| - 1];
    forall c | c in text
      ensures c == '_' || IsDigit(c)
    {
      assert c in a || c in gap || c in b;
    }
    StripClean(text);
  }

  lemma UnderscoredBody(a: string, b: string)
    requires a != "" && b != "" && AllDigits(a) && AllDigits(b)
    ensures IntBody(a + "_" + b) == Some(Value(a + b))
  {
    UnderscoredIsBody(a, b);
    WithoutUnderscore(a, b);
  }

  lemma UnderscoredIsBody(a: string, b: string)
    requires a != "" && b != "" && AllDigits(a) && AllDigits(b)
    ensures IsIntBody(a + "_" + b)
  {
    var text := a + "_" + b;
    assert text[|a| + 1] == b[0] && text[|text| - 1] == b[|b| - 1];
    assert forall i | 0 <= i < |a| :: text[i] == a[i];
    assert forall i | |a| < i < |text| :: text[i] == b[i - |a| - 1];
  }

  lemma WithoutUnderscore(a: string, b: string)
    requires AllDigits(a) && AllDigits(b)
    ensures Without(a + "_" + b, '_') == a + b
  {
    WithoutUnderscores(a);
    WithoutUnderscores(b);
    WithoutConcat(a + "_", b, '_');
    WithoutConcat(a, "_", '_');
  }

  lemma {:induction false} WithoutConcat(a: string, b: string, c: char)
    ensures Without(a + b, c) == Without(a, c) + Without(b, c)
  {
    if a == "" {
      assert a + b == b;
    } else {
      assert (a + b)[1..] == a[1..] + b;
      WithoutConcat(a[1..], b, c);
    }
  }

  /** Text `int` accepts holds only digits, signs, underscores and white space. */
  lemma PyIntChars(s: string, c: char)
    requires PyInt(s).Some? && c in s
    ensures IsDigit(c) || c in "+-_" || IsSpace(c)
  {
    var a, b := StripSplits(s);
    var t := Strip(s);
    if c in t && c != t[0] {
      assert c in t[1..];
    }
  }
}
