/** The textual form of a list: each value in decimal followed by "->",
    and the terminator "nil"; so [1, 2] renders as "1->2->nil" and the
    empty list as "nil". ParseRendered reads such a text back. */
module Rendering {
  import opened Options

  predicate IsDigit(c: char) {
    '0' <= c <= '9'
  }

  function DigitChar(d: nat): (c: char)
    requires d < 10
    ensures IsDigit(c)
  {
    (('0' as int) + d) as char
  }

  function DigitValue(c: char): (d: nat)
    requires IsDigit(c)
    ensures d < 10
  {
    (c as int) - ('0' as int)
  }

  /** Decimal digits of n, most significant first, without leading zeros. */
  function NatToString(n: nat): (s: string)
    ensures |s| > 0 && forall i :: 0 <= i < |s| ==> IsDigit(s[i])
    decreases n
  {
    if n < 10 then [DigitChar(n)] else NatToString(n / 10) + [DigitChar(n % 10)]
  }

  /** Decimal form of an integer, with a leading '-' when negative. */
  function IntToString(v: int): (s: string) {
    if v < 0 then "-" + NatToString(-v) else NatToString(v)
  }

  /** The rendering of a value sequence. */
  function Render(vs: seq<int>): (s: string) {
    if vs == [] then "nil" else IntToString(vs[0]) + "->" + Render(vs[1..])
  }

  /** The rendering from position i on starts with the entry for vs[i]. */
  lemma RenderFrom(vs: seq<int>, i: nat)
    requires i < |vs|
    ensures Render(vs[i..]) == IntToString(vs[i]) + "->" + Render(vs[i + 1..])
  {
    assert vs[i..][1..] == vs[i + 1..];
  }

  /** Value of a digit string, most significant first. */
  function DigitsValue(d: string): nat
    requires forall i :: 0 <= i < |d| ==> IsDigit(d[i])
  {
    if d == [] then 0 else DigitsValue(d[..|d| - 1]) * 10 + DigitValue(d[|d| - 1])
  }

  /** Length of the longest prefix of s made of digits. */
  function DigitSpan(s: string): (k: nat)
    ensures k <= |s| && forall i :: 0 <= i < k ==> IsDigit(s[i])
  {
    if s != [] && IsDigit(s[0]) then 1 + DigitSpan(s[1..]) else 0
  }

  /** Length of the longest prefix of s that is a decimal integer: an
      optional '-' and at least one digit; 0 if there is none. */
  function NumberSpan(s: string): (k: nat)
    ensures k <= |s|
  {
    var start := if s != [] && s[0] == '-' then 1 else 0;
    var d := DigitSpan(s[start..]);
    if d == 0 then 0 else start + d
  }

  /** Value of a decimal integer as NumberSpan delimits it. */
  function NumberValue(num: string): int
    requires num != [] && forall i :: (if num[0] == '-' then 1 else 0) <= i < |num| ==> IsDigit(num[i])
  {
    if num[0] == '-' then 0 - DigitsValue(num[1..]) as int else DigitsValue(num)
  }

  /** Reads a rendering back into its values; None if s is not a rendering. */
  function ParseRendered(s: string): Option<seq<int>>
    decreases |s|
  {
    if s == "nil" then Some([])
    else
      var k := NumberSpan(s);
      if k == 0 || k + 2 > |s| || s[k..k + 2] != "->" then None
      else
        match ParseRendered(s[k + 2..])
        case None => None
        case Some(rest) => Some([NumberValue(s[..k])] + rest)
  }

  /** The digits of n denote n. */
  lemma {:induction false} NatToStringValue(n: nat)
    ensures DigitsValue(NatToString(n)) == n
    decreases n
  {
    var s := NatToString(n);
    if n < 10 {
      assert s[..|s| - 1] == [];
    } else {
      NatToStringValue(n / 10);
      assert s[..|s| - 1] == NatToString(n / 10);
    }
  }

  /** A digit run followed by a non-digit is read exactly up to its end. */
  lemma {:induction false} DigitSpanOf(d: string, t: string)
    requires forall i :: 0 <= i < |d| ==> IsDigit(d[i])
    requires t == [] || !IsDigit(t[0])
    ensures DigitSpan(d + t) == |d|
  {
    if d != [] {
      assert (d + t)[1..] == d[1..] + t;
      DigitSpanOf(d[1..], t);
    }
  }

  /** A digit run, followed by text that does not start with a digit, is
      delimited exactly as a number. */
  lemma PlainSpan(digits: string, t: string)
    requires digits != [] && forall i :: 0 <= i < |digits| ==> IsDigit(digits[i])
    requires t == [] || !IsDigit(t[0])
    ensures NumberSpan(digits + t) == |digits|
  {
    assert (digits + t)[0] == digits[0];
    DigitSpanOf(digits, t);
    assert (digits + t)[0..] == digits + t;
  }

  /** The same with a leading '-'. */
  lemma MinusSpan(digits: string, t: string)
    requires digits != [] && forall i :: 0 <= i < |digits| ==> IsDigit(digits[i])
    requires t == [] || !IsDigit(t[0])
    ensures NumberSpan("-" + digits + t) == 1 + |digits|
  {
    var s := "-" + digits + t;
    assert s[0] == '-';
    assert s[1..] == digits + t;
    DigitSpanOf(digits, t);
  }

  /** The decimal form of v, followed by text that does not start with a
      digit, is delimited exactly and denotes v. */
  lemma NumberOf(v: int, t: string)
    requires t == [] || !IsDigit(t[0])
    ensures NumberSpan(IntToString(v) + t) == |IntToString(v)|
    ensures NumberValue(IntToString(v)) == v
  {
    if v < 0 {
      var digits := NatToString(-v);
      MinusSpan(digits, t);
      NatToStringValue(-v);
      assert IntToString(v)[1..] == digits;
    } else {
      PlainSpan(NatToString(v), t);
      NatToStringValue(v);
    }
  }

  /** One rendered entry in front of any text is read back as that value
      in front of whatever the text reads as. */
  lemma ParseEntry(v: int, rest: string)
    ensures ParseRendered(IntToString(v) + "->" + rest) ==
      match ParseRendered(rest)
      case None => None
      case Some(vs) => Some([v] + vs)
  {
    var num := IntToString(v);
    var s := num + ("->" + rest);
    assert s == num + "->" + rest;
    NumberOf(v, "->" + rest);
    var k := |num|;
    assert s[..k] == num;
    assert s[k..k + 2] == "->";
    assert s[k + 2..] == rest;
    assert s != "nil" by {
      assert s[0] == num[0];
      assert num[0] == '-' || IsDigit(num[0]);
    }
  }

  /** Reading a rendering back gives the values that were rendered. */
  lemma {:induction false} ParseRender(vs: seq<int>)
    ensures ParseRendered(Render(vs)) == Some(vs)
  {
    if vs != [] {
      ParseEntry(vs[0], Render(vs[1..]));
      ParseRender(vs[1..]);
      assert vs == [vs[0]] + vs[1..];
    }
  }

  /** Distinct value sequences render differently. */
  lemma RenderInjective(a: seq<int>, b: seq<int>)
    requires Render(a) == Render(b)
    ensures a == b
  {
    ParseRender(a);
    ParseRender(b);
  }
}
