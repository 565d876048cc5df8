/** The few `java.lang.String` operations the services rely on, over
    `seq<char>`: `lastIndexOf`, `toLowerCase` (ASCII letters only), decimal
    rendering of integers, and `replaceAll("[^0-9]", "")` with `parseInt`. */
module Text {

  /** `s.lastIndexOf(c)`: the index of the last `c`, or -1 when there is none. */
  function LastIndexOf(s: string, c: char): (k: int)
    ensures -1 <= k < |s|
    ensures k == -1 <==> c !in s
    ensures k >= 0 ==> s[k] == c && c !in s[k + 1..]
  {
    if s == [] then -1
    else if s[|s| - 1] == c then |s| - 1
    else
      assert s[..|s| - 1] + [s[|s| - 1]] == s;
      var k := LastIndexOf(s[..|s| - 1], c);
      assert k >= 0 ==> s[k + 1..] == s[..|s| - 1][k + 1..] + [s[|s| - 1]];
      k
  }

  /** The last `c` of `x + [c] + e` is the one after `x` when `e` has none. */
  lemma LastIndexOfSplit(x: string, c: char, e: string)
    requires c !in e
    ensures LastIndexOf(x + [c] + e, c) == |x|
  {
    var s := x + [c] + e;
    assert s[|x|] == c;
  }

  /** From the last `c` on, a string is that `c` followed by a part without `c`. */
  lemma LastIndexOfTail(s: string, c: char)
    requires c in s
    ensures var k := LastIndexOf(s, c);
      && 0 <= k && s[k..] != [] && s[k..][0] == c && c !in s[k..][1..]
      && s == s[..k] + s[k..]
  {
    var k := LastIndexOf(s, c);
    assert s[k..][1..] == s[k + 1..];
  }

  function LowerChar(c: char): char {
    if 'A' <= c <= 'Z' then (c as int - 'A' as int + 'a' as int) as char else c
  }

  /** `s.toLowerCase()` restricted to the ASCII letters. */
  function ToLower(s: string): (r: string)
    ensures |r| == |s|
    ensures forall i :: 0 <= i < |s| ==> r[i] == LowerChar(s[i])
  {
    if s == [] then [] else [LowerChar(s[0])] + ToLower(s[1..])
  }

  predicate IsDigit(c: char) {
    '0' <= c <= '9'
  }

  function DigitChar(d: nat): (c: char)
    requires d < 10
    ensures IsDigit(c)
  {
    ('0' as int + d) as char
  }

  /** The decimal rendering of a natural number, as `String.valueOf`. */
  function NatToString(n: nat): (r: string)
    ensures |r| > 0
    ensures forall i :: 0 <= i < |r| ==> IsDigit(r[i])
  {
    if n < 10 then [DigitChar(n)] else NatToString(n / 10) + [DigitChar(n % 10)]
  }

  /** The decimal rendering of an integer, with a leading '-' when negative. */
  function IntToString(i: int): (r: string)
    ensures '.' !in r
  {
    if i < 0 then "-" + NatToString(-i) else NatToString(i)
  }

  /** `s.replaceAll("[^0-9]", "")`: the digits of `s`, in order. */
  function Digits(s: string): (r: string)
    ensures |r| <= |s|
    ensures forall i :: 0 <= i < |r| ==> IsDigit(r[i])
  {
    if s == [] then []
    else if IsDigit(s[0]) then [s[0]] + Digits(s[1..])
    else Digits(s[1..])
  }

  /** A string of digits is its own digit filter. */
  lemma {:induction false} DigitsOfDigitString(s: string)
    requires forall i :: 0 <= i < |s| ==> IsDigit(s[i])
    ensures Digits(s) == s
  {
    if s != [] {
      DigitsOfDigitString(s[1..]);
    }
  }

  /** `Integer.parseInt` of a string of digits, without the 32-bit bound. */
  function DigitsValue(d: string): nat
    requires forall i :: 0 <= i < |d| ==> IsDigit(d[i])
  {
    if d == [] then 0
    else
      assert IsDigit(d[|d| - 1]);
      10 * DigitsValue(d[..|d| - 1]) + (d[|d| - 1] as int - '0' as int)
  }

  /** Parsing a rendered number gives the number back. */
  lemma {:induction false} NatToStringRoundTrip(n: nat)
    ensures DigitsValue(NatToString(n)) == n
  {
    if n >= 10 {
      var r := NatToString(n);
      assert r[..|r| - 1] == NatToString(n / 10);
      NatToStringRoundTrip(n / 10);
    }
  }
}
