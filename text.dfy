/**
 * Small string helpers the program gets from .NET: printing an integer in
 * decimal (string formatting of an issue number or a count) and the
 * ordinal case-insensitive comparison of two URLs.
 */
module Text {

  function DigitChar(d: nat): (c: char)
    requires d < 10
    ensures '0' <= c <= '9'
  {
    "0123456789"[d]
  }

  function DigitValue(c: char): nat
  {
    if '0' <= c <= '9' then (c - '0') as nat else 0
  }

  /** The decimal digits of `n`, most significant first, without leading zeros. */
  function NatDigits(n: nat): (s: string)
    ensures |s| > 0
    ensures forall k :: 0 <= k < |s| ==> '0' <= s[k] <= '9'
    ensures |s| > 1 ==> s[0] != '0'
  {
    if n < 10 then [DigitChar(n)] else NatDigits(n / 10) + [DigitChar(n % 10)]
  }

  /** Reads back a string of decimal digits, most significant first. */
  function ParseDigits(s: string): nat
  {
    if s == [] then 0 else ParseDigits(s[..|s| - 1]) * 10 + DigitValue(s[|s| - 1])
  }

  lemma {:induction false} ParseNatDigits(n: nat)
    ensures ParseDigits(NatDigits(n)) == n
  {
    var s := NatDigits(n);
    if n >= 10 {
      ParseNatDigits(n / 10);
      assert s[..|s| - 1] == NatDigits(n / 10);
    }
  }

  /** How .NET formats an `int`: an optional minus sign followed by the digits. */
  function DecimalString(n: int): (s: string)
    ensures |s| > 0
    ensures (s[0] == '-') <==> n < 0
    ensures var digits := if n < 0 then s[1..] else s;
      |digits| > 0 &&
      (forall k :: 0 <= k < |digits| ==> '0' <= digits[k] <= '9') &&
      (|digits| > 1 ==> digits[0] != '0') &&
      ParseDigits(digits) == if n < 0 then -n else n
  {
    ParseNatDigits(if n < 0 then -n else n);
    if n < 0 then "-" + NatDigits(-n) else NatDigits(n)
  }

  /** Simple upper-case mapping, restricted to ASCII letters. */
  function UpperAscii(c: char): (u: char)
    ensures !('a' <= u <= 'z')
    ensures 'a' <= c <= 'z' ==> 'A' <= u <= 'Z' && u as int - 'A' as int == c as int - 'a' as int
    ensures !('a' <= c <= 'z') ==> u == c
  {
    if 'a' <= c <= 'z' then (c as int - 32) as char else c
  }

  /** Every character of `s` upper-cased. */
  function Upper(s: string): (u: string)
    ensures |u| == |s|
  {
    if s == [] then [] else [UpperAscii(s[0])] + Upper(s[1..])
  }

  /** `String.Equals(a, b, StringComparison.OrdinalIgnoreCase)` for non-null strings. */
  predicate EqualsIgnoreCase(a: string, b: string)
    ensures a == b ==> EqualsIgnoreCase(a, b)
    ensures EqualsIgnoreCase(a, b) ==> |a| == |b|
  {
    Upper(a) == Upper(b)
  }

  /** Two strings are equal ignoring case exactly when they agree letter by letter once upper-cased. */
  lemma {:induction false} EqualsIgnoreCaseCharwise(a: string, b: string)
    ensures EqualsIgnoreCase(a, b) <==>
      (|a| == |b| && forall k :: 0 <= k < |a| ==> UpperAscii(a[k]) == UpperAscii(b[k]))
  {
    if a != [] && b != [] {
      EqualsIgnoreCaseCharwise(a[1..], b[1..]);
      assert Upper(a) == [UpperAscii(a[0])] + Upper(a[1..]);
      assert Upper(b) == [UpperAscii(b[0])] + Upper(b[1..]);
      if |a| == |b| && forall k :: 0 <= k < |a| ==> UpperAscii(a[k]) == UpperAscii(b[k]) {
        assert forall k :: 0 <= k < |a[1..]| ==> UpperAscii(a[1..][k]) == UpperAscii(b[1..][k]) by {
          forall k | 0 <= k < |a[1..]| ensures UpperAscii(a[1..][k]) == UpperAscii(b[1..][k]) {
            assert a[1..][k] == a[k + 1] && b[1..][k] == b[k + 1];
          }
        }
      }
      if EqualsIgnoreCase(a, b) {
        assert Upper(a)[0] == Upper(b)[0] && Upper(a)[1..] == Upper(b)[1..];
        forall k | 0 <= k < |a| ensures UpperAscii(a[k]) == UpperAscii(b[k]) {
          if k > 0 {
            assert a[1..][k - 1] == a[k] && b[1..][k - 1] == b[k];
          }
        }
      }
    }
  }

  /** Ignoring case differs from plain equality: "ABC" and "abc" are equal, "abc" and "abd" are not. */
  lemma EqualsIgnoreCaseExamples()
    ensures EqualsIgnoreCase("ABC", "abc")
    ensures !EqualsIgnoreCase("abc", "abd")
  {
    EqualsIgnoreCaseCharwise("ABC", "abc");
    EqualsIgnoreCaseCharwise("abc", "abd");
    assert "abc"[2] == 'c' && "abd"[2] == 'd';
  }
}
