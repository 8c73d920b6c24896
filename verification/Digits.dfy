/** Digits of numbers: hexadecimal ones are written in upper case and read in either case. */
module Digits {
  predicate IsXDigit(c: char) {
    '0' <= c <= '9' || 'a' <= c <= 'f' || 'A' <= c <= 'F'
  }

  function UpperXDigit(n: nat): char
    requires n < 0x10
  {
    if n < 10 then '0' + n as char else 'A' + (n - 10) as char
  }

  function XDigitValue(c: char): (n: nat)
    requires IsXDigit(c)
    ensures n < 0x10
  {
    if c <= '9' then (c - '0') as int else if c <= 'F' then 10 + (c - 'A') as int else 10 + (c - 'a') as int
  }

  lemma XDigitRoundTrip(n: nat)
    requires n < 0x10
    ensures IsXDigit(UpperXDigit(n)) && XDigitValue(UpperXDigit(n)) == n
  {
  }

  /** "%X" */
  function UpperHex(n: nat): (digits: string)
    ensures digits != "" && forall k :: 0 <= k < |digits| ==> IsXDigit(digits[k])
  {
    XDigitRoundTrip(n % 0x10);
    (if n < 0x10 then "" else UpperHex(n / 0x10)) + [UpperXDigit(n % 0x10)]
  }

  lemma {:induction false} UpperHexLength(n: nat, limit: nat, most: nat)
    requires n < limit && limit == PowerOf16(most) && most > 0
    ensures |UpperHex(n)| <= most
    decreases n
  {
    if n >= 0x10 {
      UpperHexLength(n / 0x10, PowerOf16(most - 1), most - 1);
    }
  }

  function PowerOf16(k: nat): nat {
    if k == 0 then 1 else 0x10 * PowerOf16(k - 1)
  }

  /** The longest run of digits of that radix in front, as a number and a length. */
  function DigitRun(t: string, radix: nat, value: nat, length: nat): (r: (nat, nat))
    ensures length <= r.1 <= length + |t|
  {
    if t == "" || !IsXDigit(t[0]) || XDigitValue(t[0]) >= radix then (value, length)
    else DigitRun(t[1..], radix, radix * value + XDigitValue(t[0]), length + 1)
  }

  /** How many digits of that radix are in front. */
  function DigitCount(t: string, radix: nat): (n: nat)
    ensures n <= |t| && forall k :: 0 <= k < n ==> IsXDigit(t[k])
  {
    if t == "" || !IsXDigit(t[0]) || XDigitValue(t[0]) >= radix then 0 else 1 + DigitCount(t[1..], radix)
  }

  lemma {:induction false} RunLength(t: string, radix: nat, value: nat, length: nat)
    ensures DigitRun(t, radix, value, length).1 == length + DigitCount(t, radix)
  {
    if t != "" && IsXDigit(t[0]) && XDigitValue(t[0]) < radix {
      RunLength(t[1..], radix, radix * value + XDigitValue(t[0]), length + 1);
    }
  }

  /** A number is read back from its digits, and from the digits that follow. */
  lemma {:induction false} UpperHexIsRead(n: nat, t: string)
    ensures DigitRun(UpperHex(n) + t, 0x10, 0, 0) == DigitRun(t, 0x10, n, |UpperHex(n)|)
    decreases n
  {
    var front, digit := if n < 0x10 then "" else UpperHex(n / 0x10), [UpperXDigit(n % 0x10)];
    XDigitRoundTrip(n % 0x10);
    assert UpperHex(n) + t == front + (digit + t);
    assert (digit + t)[1..] == t;
    if n >= 0x10 {
      UpperHexIsRead(n / 0x10, digit + t);
    } else {
      assert front + (digit + t) == digit + t;
    }
  }

  /** The digits are upper-case ones, without a zero in front. */
  lemma {:induction false} UpperHexIsCanonical(n: nat)
    ensures forall k :: 0 <= k < |UpperHex(n)| ==>
              '0' <= UpperHex(n)[k] <= '9' || 'A' <= UpperHex(n)[k] <= 'F'
    ensures n > 0 ==> UpperHex(n)[0] != '0'
    decreases n
  {
    if n >= 0x10 {
      UpperHexIsCanonical(n / 0x10);
    }
  }
}
