/**
 Decimal text of integers: `itoa` of the rate limiter (internal/ratelimit/ratelimit.go) on 64-bit
 integers, with the reading of numerals that says what its result should mean.
 */
module Decimal {
  const MIN_INT := -0x8000_0000_0000_0000
  const MAX_INT := 0x7FFF_FFFF_FFFF_FFFF

  function Digit(d: int): char
    requires 0 <= d < 10
  {
    '0' + d as char
  }

  predicate IsDigit(c: char) { '0' <= c <= '9' }

  predicate AllDigits(s: string) { forall i :: 0 <= i < |s| ==> IsDigit(s[i]) }

  /** The digits of a number; none for 0. */
  function Digits(n: nat): string {
    if n == 0 then "" else Digits(n / 10) + [Digit(n % 10)]
  }

  /** The usual decimal numeral, which is also what fmt prints for %d. */
  function Numeral(i: int): string {
    if i == 0 then "0" else if i < 0 then "-" + Digits(-i) else Digits(i)
  }

  /** The number a string of digits denotes. */
  function ReadDigits(s: string): nat
    requires AllDigits(s)
  {
    if s == "" then 0 else 10 * ReadDigits(s[..|s| - 1]) + (s[|s| - 1] - '0') as int
  }

  /** A well-formed numeral: digits without a leading zero, a sign only in front of a nonzero number. */
  predicate WellFormed(s: string) {
    s == "0" || (Canonical(s)) || (|s| > 1 && s[0] == '-' && Canonical(s[1..]))
  }

  predicate Canonical(s: string) { s != "" && AllDigits(s) && s[0] != '0' }

  function Read(s: string): int
    requires WellFormed(s)
  {
    if s[0] == '-' then -(ReadDigits(s[1..]) as int) else ReadDigits(s)
  }

  lemma DigitValue(d: int)
    requires 0 <= d < 10
    ensures IsDigit(Digit(d)) && (Digit(d) - '0') as int == d && (Digit(d) == '0' <==> d == 0)
  {
  }

  lemma ReadStep(s: string, c: char)
    requires AllDigits(s) && IsDigit(c)
    ensures AllDigits(s + [c]) && ReadDigits(s + [c]) == 10 * ReadDigits(s) + (c - '0') as int
  {
    assert (s + [c])[..|s|] == s;
  }

  /** Appending a digit, in terms of the quotient and remainder it comes from. */
  lemma AppendDigit(s: string, q: nat, d: int)
    requires 0 <= d < 10 && AllDigits(s) && ReadDigits(s) == q
    requires if q > 0 then Canonical(s) else s == "" && d > 0
    ensures AllDigits(s + [Digit(d)]) && ReadDigits(s + [Digit(d)]) == 10 * q + d
    ensures Canonical(s + [Digit(d)])
  {
    DigitValue(d);
    ReadStep(s, Digit(d));
    assert (s + [Digit(d)])[0] == if s == "" then Digit(d) else s[0];
  }

  lemma {:induction false} DigitsRead(n: nat)
    ensures AllDigits(Digits(n)) && ReadDigits(Digits(n)) == n
    ensures if n > 0 then Canonical(Digits(n)) else Digits(n) == ""
  {
    if n > 0 {
      var q, d := n / 10, n % 10;
      assert n == 10 * q + d;
      DigitsRead(q);
      AppendDigit(Digits(q), q, d);
    }
  }

  lemma NumeralReads(i: int)
    ensures WellFormed(Numeral(i)) && Read(Numeral(i)) == i
    ensures forall k :: 0 <= k < |Numeral(i)| ==> Numeral(i)[k] != ','
  {
    DigitsRead(if i < 0 then -i else i);
    if i < 0 {
      assert Numeral(i)[1..] == Digits(-i);
    } else if i > 0 {
      assert IsDigit(Numeral(i)[0]);
    }
  }

  lemma {:induction false} CanonicalIsDigits(s: string)
    requires Canonical(s)
    ensures ReadDigits(s) > 0 && Digits(ReadDigits(s)) == s
  {
    var n := |s| - 1;
    var d := (s[n] - '0') as int;
    DigitValue(d);
    assert s == s[..n] + [s[n]];
    if n > 0 {
      assert Canonical(s[..n]);
      CanonicalIsDigits(s[..n]);
      DigitsAppend(ReadDigits(s[..n]), d);
    } else {
      DigitsAppend(0, d);
    }
  }

  lemma DigitsAppend(q: nat, d: int)
    requires 0 <= d < 10 && 10 * q + d > 0
    ensures Digits(10 * q + d) == Digits(q) + [Digit(d)]
  {
    assert (10 * q + d) / 10 == q && (10 * q + d) % 10 == d;
  }

  /** The well-formed numerals are the texts that are the numeral of the number they denote. */
  lemma WellFormedIsNumeral(s: string)
    requires WellFormed(s)
    ensures Numeral(Read(s)) == s
  {
    if s == "0" {
      assert s[..0] == "";
    } else if s[0] == '-' {
      CanonicalIsDigits(s[1..]);
      assert s == "-" + s[1..];
    } else {
      CanonicalIsDigits(s);
    }
  }

  /** Two's complement negation on 64 bits: the smallest integer is its own negative. */
  function Negate(i: int): int { if i == MIN_INT then MIN_INT else -i }

  /** What itoa prints: the numeral, except for the smallest integer. */
  function Printed(n: int): string { if n == MIN_INT then "-" else Numeral(n) }

  lemma PrintedReads(n: int)
    ensures WellFormed(Printed(n)) <==> n != MIN_INT
    ensures WellFormed(Printed(n)) ==> Read(Printed(n)) == n
  {
    if n != MIN_INT { NumeralReads(n); }
  }

  lemma DigitsStep(i: int, tail: string)
    requires i > 0
    ensures Digits(i) + tail == Digits(i / 10) + ([Digit(i % 10)] + tail)
  {
    Regroup(Digits(i / 10), [Digit(i % 10)], tail);
  }

  lemma Regroup(a: string, b: string, c: string)
    ensures (a + b) + c == a + (b + c)
  {
  }

  /** The digit loop: the digits of i, and then what is already there. */
  method PrependDigits(n: nat, tail: string) returns (result: string)
    ensures result == Digits(n) + tail
  {
    var i := n;
    result := tail;
    while i > 0
      invariant i >= 0 && Digits(i) + result == Digits(n) + tail
      decreases i
    {
      DigitsStep(i, result);
      result := [Digit(i % 10)] + result;
      i := i / 10;
    }
  }

  /** The text reads back as the number, in canonical form, for every 64-bit integer but the smallest,
      whose text is no numeral at all. */
  method Itoa(n: int) returns (result: string)
    requires MIN_INT <= n <= MAX_INT
    ensures result == Printed(n)
    ensures WellFormed(result) <==> n != MIN_INT
    ensures WellFormed(result) ==> Read(result) == n
    ensures n == MIN_INT ==> result == "-"
  {
    PrintedReads(n);
    if n == 0 {
      return "0";
    }
    var i := n;
    result := "";
    var negative := false;
    if i < 0 {
      negative := true;
      i := Negate(i);
    }
    if i > 0 {
      result := PrependDigits(i, result);
    }
    if negative {
      result := "-" + result;
    }
  }
}
