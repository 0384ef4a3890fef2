/** Decimal numbers as the C library and Java print and parse them, with the exact widths that the fixed buffers
    of the sources rely on. */
module Decimal {
  import opened Options

  const INT_MIN := -0x8000_0000
  const INT_MAX := 0x7FFF_FFFF
  const LONG_MIN := -0x8000_0000_0000_0000
  const LONG_MAX := 0x7FFF_FFFF_FFFF_FFFF

  predicate IsInt(n: int) { INT_MIN <= n <= INT_MAX }
  predicate IsLong(n: int) { LONG_MIN <= n <= LONG_MAX }

  /** A C int. */
  type cint = n: int | IsInt(n)

  /** A C long, which is also what holds a time stamp. */
  type clong = n: int | IsLong(n)

  predicate IsDigit(c: char) { '0' <= c <= '9' }

  predicate AllDigits(s: string) { forall c | c in s :: IsDigit(c) }

  // ---------------------------------------------------------------------------------------------
  // Printing: "%d" and "%ld"
  // ---------------------------------------------------------------------------------------------

  function Digits(n: nat): (s: string)
    ensures s != [] && AllDigits(s)
  {
    var last := ['0' + (n % 10) as char];
    if n < 10 then last else Digits(n / 10) + last
  }

  function Dec(n: int): (s: string)
    ensures s != []
    ensures n >= 0 ==> AllDigits(s)
    ensures ' ' !in s && '\0' !in s
  {
    if n < 0 then "-" + Digits(-n) else Digits(n)
  }

  function Pow10(k: nat): nat {
    if k == 0 then 1 else 10 * Pow10(k - 1)
  }

  /** A number has at most k digits exactly when it is below 10^k. */
  lemma {:induction false} DigitsWidth(n: nat, k: nat)
    requires k >= 1
    ensures |Digits(n)| <= k <==> n < Pow10(k)
  {
    if k == 1 {
      assert Pow10(1) == 10 * Pow10(0);
    } else if n >= 10 {
      DigitsWidth(n / 10, k - 1);
    } else {
      DigitsWidth(n, k - 1);
    }
  }

  lemma {:induction false} Powers()
    ensures Pow10(10) == 10_000_000_000 && Pow10(19) == 10_000_000_000_000_000_000
    ensures Pow10(9) == 1_000_000_000 && Pow10(18) == 1_000_000_000_000_000_000
  {
    assert Pow10(5) == 100_000;
    assert Pow10(9) == 1_000_000_000;
    assert Pow10(10) == 10_000_000_000;
    assert Pow10(14) == 100_000_000_000_000;
    assert Pow10(18) == 1_000_000_000_000_000_000;
  }

  /** The widths the source reserves: 10 characters for a row id, 20 for a time stamp, 11 for any int. */
  lemma {:induction false} DecWidths(n: int)
    ensures 0 <= n <= INT_MAX ==> |Dec(n)| <= 10
    ensures IsInt(n) ==> |Dec(n)| <= 11
    ensures 0 <= n <= LONG_MAX ==> |Dec(n)| <= 19
    ensures IsLong(n) ==> |Dec(n)| <= 20
  {
    Powers();
    var m := if n < 0 then -n else n;
    DigitsWidth(m, 10);
    DigitsWidth(m, 19);
  }

  // ---------------------------------------------------------------------------------------------
  // Parsing
  // ---------------------------------------------------------------------------------------------

  predicate IsSpace(c: char) {
    c == ' ' || '\t' <= c <= '\r'
  }

  function SkipSpaces(s: string): string {
    if s != [] && IsSpace(s[0]) then SkipSpaces(s[1..]) else s
  }

  /** The leading digits of s. */
  function DigitRun(s: string): (d: string)
    ensures AllDigits(d) && d <= s
  {
    if s != [] && IsDigit(s[0]) then [s[0]] + DigitRun(s[1..]) else []
  }

  function Value(d: string): nat
    requires AllDigits(d)
  {
    if d == [] then 0 else assert IsDigit(d[|d| - 1]); Value(d[..|d| - 1]) * 10 + (d[|d| - 1] - '0') as int
  }

  /** The number that the subject of strtol denotes, before any limit. */
  function Subject(s: string): int {
    var t := SkipSpaces(s);
    if t != [] && t[0] == '-' then 0 - Value(DigitRun(t[1..]))
    else if t != [] && t[0] == '+' then Value(DigitRun(t[1..]))
    else Value(DigitRun(t))
  }

  /** atol: strtol saturates at the limits of long. */
  function Atol(s: string): (n: int)
    ensures IsLong(n)
  {
    var n := Subject(s);
    if n < LONG_MIN then LONG_MIN else if n > LONG_MAX then LONG_MAX else n
  }

  /** The conversion of a wider integer to int keeps the low 32 bits. */
  function ToInt(n: int): (r: int)
    ensures IsInt(r) && (r - n) % 0x1_0000_0000 == 0
    ensures IsInt(n) ==> r == n
  {
    var m := n % 0x1_0000_0000;
    if m <= INT_MAX then m else m - 0x1_0000_0000
  }

  /** atoi is strtol converted to int. */
  function Atoi(s: string): (n: int)
    ensures IsInt(n)
  {
    ToInt(Atol(s))
  }

  /** Integer.parseInt and Long.parseLong: the whole string must be a number in range. */
  function ParseJava(s: string, min: int, max: int): Option<int> {
    if s == [] then None else
      var d := if s[0] == '-' || s[0] == '+' then s[1..] else s;
      if d == [] || !AllDigits(d) then None else
        var n: int := if s[0] == '-' then 0 - Value(d) else Value(d);
        if min <= n <= max then Some(n) else None
  }

  /** Java takes at least one digit with or without a sign before it, and nothing else. */
  lemma {:induction false} ParseJavaIs(s: string, min: int, max: int)
    ensures s != "" && AllDigits(s) ==>
              && ParseJava(s, min, max) == ParseJava("+" + s, min, max)
                 == (if min <= Value(s) <= max then Some(Value(s)) else None)
              && ParseJava("-" + s, min, max) == if min <= 0 - Value(s) <= max then Some(0 - Value(s)) else None
    ensures ParseJava(s, min, max).Some? ==>
              s != "" && (AllDigits(s) || (s[0] in "+-" && s[1..] != "" && AllDigits(s[1..])))
  {
    assert ("+" + s)[1..] == s && ("-" + s)[1..] == s;
    if s != "" && AllDigits(s) { assert IsDigit(s[0]); }
  }

  // ---------------------------------------------------------------------------------------------
  // Round trips
  // ---------------------------------------------------------------------------------------------

  lemma {:induction false} ValueOfDigits(n: nat)
    ensures Value(Digits(n)) == n
  {
    var s := Digits(n);
    if n >= 10 {
      ValueOfDigits(n / 10);
      assert s[..|s| - 1] == Digits(n / 10);
    }
  }

  lemma {:induction false} DigitRunStops(d: string, rest: string)
    requires AllDigits(d) && (rest == [] || !IsDigit(rest[0]))
    ensures DigitRun(d + rest) == d
  {
    if d == [] {
      assert d + rest == rest;
    } else {
      assert (d + rest)[1..] == d[1..] + rest;
      assert forall c | c in d[1..] :: c in d;
      DigitRunStops(d[1..], rest);
    }
  }

  lemma {:induction false} SubjectOfDigits(d: string, rest: string)
    requires d != [] && AllDigits(d) && (rest == [] || !IsDigit(rest[0]))
    ensures Subject(d + rest) == Value(d)
  {
    var s := d + rest;
    assert s[0] == d[0] && d[0] in d;
    assert SkipSpaces(s) == s;
    DigitRunStops(d, rest);
  }

  lemma {:induction false} SubjectOfNegative(d: string, rest: string)
    requires d != [] && AllDigits(d) && (rest == [] || !IsDigit(rest[0]))
    ensures Subject("-" + d + rest) == 0 - Value(d)
  {
    var s := "-" + d + rest;
    assert s[0] == '-' && s[1..] == d + rest;
    assert SkipSpaces(s) == s;
    DigitRunStops(d, rest);
  }

  /** What is printed is what is parsed, whatever follows the number. */
  lemma {:induction false} SubjectOfDec(n: int, rest: string)
    requires rest == [] || !IsDigit(rest[0])
    ensures Subject(Dec(n) + rest) == n
  {
    var m := if n < 0 then -n else n;
    ValueOfDigits(m);
    if n < 0 {
      SubjectOfNegative(Digits(m), rest);
    } else {
      SubjectOfDigits(Digits(m), rest);
    }
  }

  lemma {:induction false} AtolOfDec(n: int, rest: string)
    requires rest == [] || !IsDigit(rest[0])
    ensures IsLong(n) ==> Atol(Dec(n) + rest) == n
    ensures IsInt(n) ==> Atoi(Dec(n) + rest) == n
  {
    SubjectOfDec(n, rest);
  }

  lemma {:induction false} AtolOfDecAlone(n: int)
    ensures IsLong(n) ==> Atol(Dec(n)) == n
    ensures IsInt(n) ==> Atoi(Dec(n)) == n
  {
    AtolOfDec(n, "");
    assert Dec(n) + "" == Dec(n);
  }

  /** A number beyond the limits of long is read as the limit. */
  lemma {:induction false} AtolSaturates(n: int)
    ensures n > LONG_MAX ==> Atol(Dec(n)) == LONG_MAX
    ensures n < LONG_MIN ==> Atol(Dec(n)) == LONG_MIN
  {
    SubjectOfDec(n, "");
    assert Dec(n) + "" == Dec(n);
  }

  /** Spaces, and then a plus sign, before a number are skipped; a string without a number is 0. */
  lemma {:induction false} SubjectSkips(s: string)
    ensures Subject(" " + s) == Subject(s) && Subject("\t" + s) == Subject(s)
    ensures s != "" && IsDigit(s[0]) ==> Subject("+" + s) == Subject(s)
    ensures s == "" || !(IsSpace(s[0]) || IsDigit(s[0]) || s[0] in "+-") ==> Subject(s) == 0
  {
    assert (" " + s)[1..] == s && ("\t" + s)[1..] == s && ("+" + s)[1..] == s;
  }

  lemma {:induction false} ParseJavaOfDec(n: int, min: int, max: int)
    ensures ParseJava(Dec(n), min, max) == if min <= n <= max then Some(n) else None
  {
    var m := if n < 0 then -n else n;
    ValueOfDigits(m);
    if n < 0 {
      assert Dec(n)[1..] == Digits(m);
    } else {
      assert Dec(n)[0] in Digits(m);
    }
  }

  lemma {:induction false} DecInjective(a: int, b: int)
    requires Dec(a) == Dec(b)
    ensures a == b
  {
    SubjectOfDec(a, "");
    SubjectOfDec(b, "");
  }
}
