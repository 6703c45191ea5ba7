/**
 * JavaScript strings are sequences of UTF-16 code units: `line.length` counts code units and the
 * relational operators compare code units. Dafny strings hold Unicode scalar values, so this
 * module spells out the encoding that connects the two.
 */
module Utf16 {

  predicate IsUnit(u: int) {
    0 <= u < 0x1_0000
  }

  predicate IsHighSurrogate(u: int) {
    0xD800 <= u < 0xDC00
  }

  /** The code units of one scalar value: one unit in the Basic Multilingual Plane, else a surrogate pair. */
  function CharUnits(c: char): (us: seq<int>)
    ensures 1 <= |us| <= 2
    ensures forall k :: 0 <= k < |us| ==> IsUnit(us[k])
    ensures |us| == 2 <==> IsHighSurrogate(us[0])
  {
    var v := c as int;
    if v < 0x1_0000 then [v]
    else [0xD800 + (v - 0x1_0000) / 0x400, 0xDC00 + (v - 0x1_0000) % 0x400]
  }

  /** The code units of a string, in order. */
  function Encode(s: string): (us: seq<int>)
    ensures |s| <= |us| <= 2 * |s|
    ensures forall k :: 0 <= k < |us| ==> IsUnit(us[k])
  {
    if |s| == 0 then [] else CharUnits(s[0]) + Encode(s[1..])
  }

  /** `s.length` in JavaScript. */
  function Length(s: string): nat {
    |Encode(s)|
  }

  lemma {:induction false} EncodeAppend(a: string, b: string)
    ensures Encode(a + b) == Encode(a) + Encode(b)
  {
    if |a| > 0 {
      assert (a + b)[0] == a[0];
      assert (a + b)[1..] == a[1..] + b;
      EncodeAppend(a[1..], b);
    } else {
      assert a + b == b;
    }
  }

  /** One scalar value's code units determine it. */
  lemma CharUnitsInjective(c: char, d: char)
    requires CharUnits(c) == CharUnits(d)
    ensures c == d
  {
    if (c as int) >= 0x1_0000 {
      var v := c as int - 0x1_0000;
      var w := d as int - 0x1_0000;
      assert v == (v / 0x400) * 0x400 + v % 0x400;
      assert w == (w / 0x400) * 0x400 + w % 0x400;
    }
  }

  /** Distinct strings have distinct code-unit sequences, so comparing code units orders strings. */
  lemma {:induction false} EncodeInjective(a: string, b: string)
    requires Encode(a) == Encode(b)
    ensures a == b
  {
    if |a| > 0 && |b| > 0 {
      var ua, ub := CharUnits(a[0]), CharUnits(b[0]);
      assert Encode(a) == ua + Encode(a[1..]);
      assert Encode(b) == ub + Encode(b[1..]);
      assert |ua| == |ub| by {
        assert Encode(a)[0] == ua[0];
        assert Encode(b)[0] == ub[0];
      }
      assert ua == Encode(a)[..|ua|];
      assert ub == Encode(b)[..|ub|];
      CharUnitsInjective(a[0], b[0]);
      assert Encode(a[1..]) == Encode(a)[|ua|..];
      assert Encode(b[1..]) == Encode(b)[|ub|..];
      EncodeInjective(a[1..], b[1..]);
      assert a == [a[0]] + a[1..];
      assert b == [b[0]] + b[1..];
    }
  }
}
