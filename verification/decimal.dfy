/** Decimal text: the digit-prefix parse that `simple_strtoul(s, &end, 10)` performs
    on a size, and the `%d` formatting that builds the lookup key. */
module Decimal {
  import opened CTypes

  predicate IsDigit(c: char) {
    '0' <= c <= '9'
  }

  predicate AllDigits(s: seq<char>) {
    forall j :: 0 <= j < |s| ==> IsDigit(s[j])
  }

  function DigitValue(c: char): (d: nat)
    requires IsDigit(c)
    ensures d < 10
  {
    (c as int) - ('0' as int)
  }

  function DigitChar(d: nat): (c: char)
    requires d < 10
    ensures IsDigit(c) && DigitValue(c) == d
  {
    (d + '0' as int) as char
  }

  /** The number of leading decimal digits of `s`: where `simple_strtoul` stops reading. */
  function DigitRun(s: seq<char>): (n: nat)
    ensures n <= |s|
    ensures AllDigits(s[..n])
    ensures n < |s| ==> !IsDigit(s[n])
  {
    if s == [] || !IsDigit(s[0]) then 0
    else
      var n := 1 + DigitRun(s[1..]);
      assert s[..n] == [s[0]] + s[1..][..n - 1];
      n
  }

  /** The number a string of decimal digits denotes, most significant digit first. */
  function Value(s: seq<char>): nat
    requires AllDigits(s)
  {
    if s == [] then 0 else 10 * Value(s[..|s| - 1]) + DigitValue(s[|s| - 1])
  }

  /** The decimal digits of `n`, without leading zeros. */
  function NatDigits(n: nat): (s: seq<char>)
    ensures |s| > 0 && AllDigits(s)
  {
    if n < 10 then [DigitChar(n)] else NatDigits(n / 10) + [DigitChar(n % 10)]
  }

  /** `%d` of an `int`. */
  function FormatInt(n: int32): (s: seq<char>)
    ensures |s| > 0 && '\0' !in s
    ensures n >= 0 <==> AllDigits(s)
  {
    if n < 0 then
      var s := "-" + NatDigits(-(n as int));
      assert !IsDigit(s[0]);
      s
    else NatDigits(n)
  }

  /** Parsing the digits that `%d` prints for a natural number gives that number back. */
  lemma {:induction false} ValueOfNatDigits(n: nat)
    ensures Value(NatDigits(n)) == n
  {
    var s := NatDigits(n);
    if n >= 10 {
      ValueOfNatDigits(n / 10);
      assert s[..|s| - 1] == NatDigits(n / 10);
    }
  }

  /** `simple_strtoul` reads exactly the digits, whatever follows them. */
  lemma {:induction false} DigitRunStopsAfterDigits(digits: seq<char>, rest: seq<char>)
    requires AllDigits(digits)
    requires rest == [] || !IsDigit(rest[0])
    ensures DigitRun(digits + rest) == |digits|
    ensures (digits + rest)[..|digits|] == digits
  {
    var s := digits + rest;
    if digits != [] {
      assert s[1..] == digits[1..] + rest;
      DigitRunStopsAfterDigits(digits[1..], rest);
    }
    assert s[..|digits|] == digits;
  }
}
