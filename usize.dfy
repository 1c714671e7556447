/** `str::parse::<usize>` as the decoder uses it on a `Content-Length` value
    (src/io.rs:74, 95), for a 64-bit target. */
module Usize {
  import opened Base

  /** `usize::MAX` on a 64-bit target. */
  const MAX: nat := 0xFFFF_FFFF_FFFF_FFFF

  predicate IsDigit(c: char) {
    '0' <= c <= '9'
  }

  predicate AllDigits(s: string) {
    forall k :: 0 <= k < |s| ==> IsDigit(s[k])
  }

  /** The number a string of decimal digits denotes, read left to right. */
  function Value(d: string): nat
    requires AllDigits(d)
  {
    if d == [] then 0 else Value(d[..|d| - 1]) * 10 + (d[|d| - 1] as int - '0' as int)
  }

  /** The text without one leading '+' sign. */
  function Unsigned(s: string): string {
    if s != [] && s[0] == '+' then s[1..] else s
  }

  /** Rust's unsigned parse: an optional '+', then at least one decimal digit
      and nothing else, denoting a number that fits the type. A '-' sign,
      an empty string, a lone '+', any other character and an overflow are
      errors. */
  function Parse(s: string): (r: Option<nat>)
    ensures r.Some? ==> r.value <= MAX
    ensures r.Some? ==> s != [] && (IsDigit(s[0]) || s[0] == '+') && IsDigit(s[|s| - 1])
    ensures r.Some? ==> forall k :: 1 <= k < |s| ==> IsDigit(s[k])
    ensures r.Some? ==> AllDigits(Unsigned(s)) && r.value == Value(Unsigned(s))
  {
    var digits := Unsigned(s);
    if digits == [] || !AllDigits(digits) then None
    else
      var v := Value(digits);
      if v > MAX then None else Some(v)
  }

  /** The decimal text of `n` (`usize::to_string`), without sign or leading zeros. */
  function Format(n: nat): (s: string)
    ensures s != [] && AllDigits(s)
    ensures |s| > 1 ==> s[0] != '0'
  {
    if n < 10 then ['0' + n as char]
    else Format(n / 10) + ['0' + (n % 10) as char]
  }

  lemma {:induction false} ValueFormat(n: nat)
    ensures Value(Format(n)) == n
  {
    if n >= 10 {
      var s := Format(n);
      ValueFormat(n / 10);
      assert s[..|s| - 1] == Format(n / 10);
    }
  }

  /** Every length the decoder can be sent in decimal is read back exactly. */
  lemma ParseFormat(n: nat)
    requires n <= MAX
    ensures Parse(Format(n)) == Some(n)
  {
    ValueFormat(n);
  }

  /** Every in-range string of digits is accepted, with or without a '+'
      sign, and denotes its value. */
  lemma ParseDigits(d: string)
    requires d != [] && AllDigits(d) && Value(d) <= MAX
    ensures Parse(d) == Some(Value(d))
    ensures Parse(['+'] + d) == Some(Value(d))
  {
    assert (['+'] + d)[1..] == d;
  }

  /** Leading zeros do not change the number a digit string denotes. */
  lemma {:induction false} ValueLeadingZero(d: string)
    requires AllDigits(d)
    ensures AllDigits(['0'] + d) && Value(['0'] + d) == Value(d)
  {
    if d != [] {
      ValueLeadingZero(d[..|d| - 1]);
      assert (['0'] + d)[..|d|] == ['0'] + d[..|d| - 1];
    }
  }

  /** A leading zero does not change what a length parses to, accepted or not. */
  lemma ParseLeadingZero(d: string)
    requires d != [] && d[0] != '+'
    ensures Parse(['0'] + d) == Parse(d)
  {
    if AllDigits(d) {
      ValueLeadingZero(d);
    } else {
      var k :| 0 <= k < |d| && !IsDigit(d[k]);
      assert (['0'] + d)[k + 1] == d[k];
    }
  }
}
