/** String helpers: prefixes, decimal rendering of indices and ASCII lower-casing. */
module Strings {

  /** `s.startsWith(p)`. */
  predicate StartsWith(s: string, p: string) {
    |p| <= |s| && s[..|p|] == p
  }

  predicate IsDigit(c: char) {
    '0' <= c <= '9'
  }

  predicate AllDigits(s: string) {
    forall i :: 0 <= i < |s| ==> IsDigit(s[i])
  }

  function DigitChar(d: nat): (c: char)
    requires d < 10
    ensures IsDigit(c)
  {
    (48 + d) as char
  }

  function DigitValue(c: char): (d: nat)
    requires IsDigit(c)
    ensures d < 10 && DigitChar(d) == c
  {
    c as int - 48
  }

  /** The decimal rendering of an index, as JavaScript's template literal `${i}` produces it. */
  function NatToString(n: nat): (s: string)
    ensures |s| > 0 && AllDigits(s)
    ensures |s| > 1 ==> s[0] != '0'
  {
    if n < 10 then [DigitChar(n)] else NatToString(n / 10) + [DigitChar(n % 10)]
  }

  /** Reads a non-empty run of decimal digits back as a number. */
  function ParseNat(s: string): nat
    requires |s| > 0 && AllDigits(s)
  {
    if |s| == 1 then DigitValue(s[0])
    else ParseNat(s[..|s| - 1]) * 10 + DigitValue(s[|s| - 1])
  }

  /** Reading a rendered index gives the index back. */
  lemma {:induction false} ParseNatToString(n: nat)
    ensures ParseNat(NatToString(n)) == n
  {
    if n >= 10 {
      var s := NatToString(n);
      assert s[..|s| - 1] == NatToString(n / 10);
      ParseNatToString(n / 10);
    }
  }

  /** Distinct indices render to distinct names. */
  lemma NatToStringInjective(m: nat, n: nat)
    ensures NatToString(m) == NatToString(n) ==> m == n
  {
    ParseNatToString(m);
    ParseNatToString(n);
  }

  /** A digit string followed by a text that starts with a non-digit can be taken apart in one way only. */
  lemma {:induction false} DigitsSplitUnique(a: string, b: string, a': string, b': string)
    requires AllDigits(a) && AllDigits(a')
    requires |b| > 0 && !IsDigit(b[0]) && |b'| > 0 && !IsDigit(b'[0])
    requires a + b == a' + b'
    ensures a == a' && b == b'
  {
    if |a| == |a'| {
      assert a == (a + b)[..|a|];
      assert a' == (a' + b')[..|a'|];
      assert b == (a + b)[|a|..];
      assert b' == (a' + b')[|a'|..];
    } else {
      ConcatIndex(a, b);
      ConcatIndex(a', b');
      assert false;
    }
  }

  /** Indexing into a concatenation. */
  lemma ConcatIndex(a: string, b: string)
    ensures forall k :: 0 <= k < |a| ==> (a + b)[k] == a[k]
    ensures |b| > 0 ==> (a + b)[|a|] == b[0]
  {
  }

  lemma AppendAssoc(a: string, b: string, c: string)
    ensures a + (b + c) == (a + b) + c
  {
  }

  /** ASCII lower-casing of one character. */
  function LowerChar(c: char): (r: char)
    ensures 'A' <= c <= 'Z' ==> r as int == c as int + 32
    ensures !('A' <= c <= 'Z') ==> r == c
  {
    if 'A' <= c <= 'Z' then (c as int + 32) as char else c
  }

  /**
   * `s.toLowerCase()` restricted to ASCII. The only use is a comparison with "desc", and no
   * character outside ASCII lower-cases to one of 'd', 'e', 's' or 'c'.
   */
  function AsciiLower(s: string): (r: string)
    ensures |r| == |s|
    ensures forall i :: 0 <= i < |s| ==> r[i] == LowerChar(s[i])
  {
    if |s| == 0 then [] else [LowerChar(s[0])] + AsciiLower(s[1..])
  }
}
