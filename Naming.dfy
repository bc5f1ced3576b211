/** The "<name>r<botCount>" naming convention shared by the experiment scripts:
    Python's `str` of an integer, the strip `s.rsplit('r', 1)[0]` and the
    variant name `name + "r" + str(count)`. */
module Naming {

  predicate IsDigit(c: char) {
    '0' <= c <= '9'
  }

  function DigitChar(d: nat): (c: char)
    requires d < 10
    ensures IsDigit(c) && c as int - '0' as int == d
  {
    ['0', '1', '2', '3', '4', '5', '6', '7', '8', '9'][d]
  }

  /** Python's `str(n)` for a non-negative integer: decimal, no leading zero. */
  function NatToString(n: nat): (s: string)
    ensures |s| >= 1
    ensures forall i :: 0 <= i < |s| ==> IsDigit(s[i])
    ensures s[0] == '0' ==> n == 0
    decreases n
  {
    if n < 10 then [DigitChar(n)] else NatToString(n / 10) + [DigitChar(n % 10)]
  }

  /** Python's `str(i)` for any integer: a minus sign before the magnitude. */
  function IntToString(i: int): (s: string)
    ensures 'r' !in s
    ensures i >= 0 ==> s == NatToString(i)
  {
    NoRInDigits(if i < 0 then -i else i);
    if i < 0 then "-" + NatToString(-i) else NatToString(i)
  }

  /** Reads back a string of decimal digits. */
  function ParseNat(s: string): nat
    requires forall i :: 0 <= i < |s| ==> IsDigit(s[i])
  {
    if s == [] then 0
    else
      assert IsDigit(s[|s| - 1]);
      ParseNat(s[..|s| - 1]) * 10 + (s[|s| - 1] as int - '0' as int)
  }

  lemma {:induction false} ParseNatToString(n: nat)
    ensures ParseNat(NatToString(n)) == n
    decreases n
  {
    var s := NatToString(n);
    if n < 10 {
      assert s[..|s| - 1] == [];
    } else {
      ParseNatToString(n / 10);
      assert s[..|s| - 1] == NatToString(n / 10);
    }
  }

  /** Distinct counts print as distinct strings. */
  lemma NatToStringInjective(a: nat, b: nat)
    requires NatToString(a) == NatToString(b)
    ensures a == b
  {
    ParseNatToString(a);
    ParseNatToString(b);
  }

  lemma NoRInDigits(n: nat)
    ensures 'r' !in NatToString(n)
  {
    var s := NatToString(n);
    forall k | 0 <= k < |s| ensures s[k] != 'r' {
      assert IsDigit(s[k]);
    }
  }

  /** Index of the last 'r' in s, or -1 when s holds none. */
  function LastR(s: string): (k: int)
    ensures -1 <= k < |s|
    ensures k == -1 <==> 'r' !in s
    ensures k >= 0 ==> s[k] == 'r' && 'r' !in s[k + 1..]
  {
    if s == [] then -1
    else if s[|s| - 1] == 'r' then |s| - 1
    else
      var k := LastR(s[..|s| - 1]);
      assert s == s[..|s| - 1] + [s[|s| - 1]];
      assert k >= 0 ==> s[k + 1..] == s[..|s| - 1][k + 1..] + [s[|s| - 1]];
      k
  }

  /** `s.rsplit('r', 1)[0]`: everything before the last 'r', or all of s
      when it has no 'r'. */
  function StripSuffix(s: string): (r: string)
    ensures 'r' !in s ==> r == s
    ensures 'r' in s ==>
      |r| < |s| && s[..|r|] == r && s[|r|] == 'r' && 'r' !in s[|r| + 1..]
  {
    var k := LastR(s);
    if k < 0 then s else s[..k]
  }

  /** `f"{name}r{count}"`: the name of the variant of `name` with `count` bots. */
  function VariantName(name: string, count: nat): (r: string)
    ensures |r| > |name| + 1 && r[..|name|] == name && r[|name|] == 'r'
    ensures forall i :: |name| < i < |r| ==> IsDigit(r[i])
  {
    name + "r" + NatToString(count)
  }

  /** Stripping the last 'r' undoes appending "r" and an 'r'-free tail,
      whatever `name` itself contains. */
  lemma {:induction false} StripAppended(name: string, tail: string)
    requires 'r' !in tail
    ensures StripSuffix(name + "r" + tail) == name
  {
    var s := name + "r" + tail;
    assert s[|name|] == 'r';
    assert s[|name| + 1..] == tail;
    assert s[..|name|] == name;
  }

  lemma StripVariantName(name: string, count: nat)
    ensures StripSuffix(VariantName(name, count)) == name
  {
    NoRInDigits(count);
    StripAppended(name, NatToString(count));
  }

  /** Every variant name strips back to its layout name. */
  lemma StripVariantNames()
    ensures forall name, count: nat :: StripSuffix(VariantName(name, count)) == name
  {
    forall name, count: nat ensures StripSuffix(VariantName(name, count)) == name {
      StripVariantName(name, count);
    }
  }

  lemma VariantNameInjective(name: string, a: nat, b: nat)
    requires VariantName(name, a) == VariantName(name, b)
    ensures a == b
  {
    var va, vb := VariantName(name, a), VariantName(name, b);
    assert NatToString(a) == va[|name| + 1..];
    assert NatToString(b) == vb[|name| + 1..];
    NatToStringInjective(a, b);
  }
}
