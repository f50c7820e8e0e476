/**
 * Decimal text as the source writes it (`'%d' % n`, `str(n)`) and reads it back (`int(s)`),
 * and the image cache key `"%s_%s" % (path, rot)`.
 */
module Text {
  import opened Basics

  /** An XML element's attributes, as lxml stores them: name to string value. */
  type Attributes = map<string, string>

  /** `int(node.get(name))`: None when the attribute is missing or not an integer (the source raises). */
  function GetInt(node: Attributes, name: string): Option<int>
  {
    if name in node then ParseInt(node[name]) else None
  }

  predicate IsDigit(c: char) { '0' <= c <= '9' }

  function DigitChar(d: nat): (c: char)
    requires d < 10
    ensures IsDigit(c) && c as int - '0' as int == d
  {
    (d + '0' as int) as char
  }

  /** Decimal digits of n, most significant first, no leading zeros. */
  function NatToString(n: nat): string
  {
    if n < 10 then [DigitChar(n)] else NatToString(n / 10) + [DigitChar(n % 10)]
  }

  /** `'%d' % i` (and `str(i)`) for a Python integer. */
  function IntToString(i: int): string
  {
    if i < 0 then "-" + NatToString(-i) else NatToString(i)
  }

  /** Value of a run of decimal digits. */
  function DigitsValue(s: string): nat
    requires forall i :: 0 <= i < |s| ==> IsDigit(s[i])
  {
    if |s| == 0 then 0
    else DigitsValue(s[..|s| - 1]) * 10 + DigitValue(s[|s| - 1])
  }

  function DigitValue(c: char): nat
    requires IsDigit(c)
  {
    c as int - '0' as int
  }

  function ParseNat(s: string): Option<nat>
  {
    if |s| > 0 && forall i :: 0 <= i < |s| ==> IsDigit(s[i]) then Some(DigitsValue(s)) else None
  }

  /** `int(s)`: an optional sign followed by decimal digits; anything else raises ValueError (None). */
  function ParseInt(s: string): Option<int>
  {
    if |s| > 0 && (s[0] == '-' || s[0] == '+') then
      match ParseNat(s[1..])
      case None => None
      case Some(n) =>
        var v: int := if s[0] == '-' then -(n as int) else n;
        Some(v)
    else
      match ParseNat(s)
      case None => None
      case Some(n) => Some(n)
  }

  lemma {:induction false} NatToStringDigits(n: nat)
    ensures |NatToString(n)| >= 1
    ensures forall i :: 0 <= i < |NatToString(n)| ==> IsDigit(NatToString(n)[i])
  {
    if n >= 10 {
      NatToStringDigits(n / 10);
    }
  }

  lemma {:induction false} DigitsOfNat(n: nat)
    ensures forall i :: 0 <= i < |NatToString(n)| ==> IsDigit(NatToString(n)[i])
    ensures DigitsValue(NatToString(n)) == n
  {
    NatToStringDigits(n);
    if n >= 10 {
      var s := NatToString(n);
      assert s[..|s| - 1] == NatToString(n / 10);
      DigitsOfNat(n / 10);
    }
  }

  /** Reading back what `'%d'` wrote gives the same integer. */
  lemma ParseIntToString(i: int)
    ensures ParseInt(IntToString(i)) == Some(i)
  {
    if i < 0 {
      DigitsOfNat(-i);
      assert IntToString(i)[1..] == NatToString(-i);
    } else {
      DigitsOfNat(i);
    }
  }

  /** Distinct integers are written as distinct strings. */
  lemma IntToStringInjective(a: int, b: int)
    requires IntToString(a) == IntToString(b)
    ensures a == b
  {
    ParseIntToString(a);
    ParseIntToString(b);
  }

  /** The image cache key `"%s_%s" % (imgPath, rot)`. */
  function CacheKey(imgPath: string, rot: int): string
  {
    imgPath + "_" + IntToString(rot)
  }

  lemma NoUnderscoreInInt(i: int)
    ensures '_' !in IntToString(i)
  {
    var s := NatToString(if i < 0 then -i else i);
    NatToStringDigits(if i < 0 then -i else i);
    assert forall k :: 0 <= k < |s| ==> s[k] != '_';
  }

  lemma SplitAtLastUnderscore(p1: string, s1: string, p2: string, s2: string)
    requires '_' !in s1 && '_' !in s2
    requires p1 + "_" + s1 == p2 + "_" + s2
    ensures p1 == p2 && s1 == s2
  {
    var k := p1 + "_" + s1;
    NoUnderscoreAfter(p1, s1);
    NoUnderscoreAfter(p2, s2);
    assert k[|p1|] == '_';
    assert (p2 + "_" + s2)[|p2|] == '_';
    assert p1 == k[..|p1|] == p2;
    assert s1 == k[|p1| + 1..] == s2;
  }

  /** In `q + "_" + t`, no position after the separator holds '_' when t has none. */
  lemma NoUnderscoreAfter(q: string, t: string)
    requires '_' !in t
    ensures forall i :: |q| < i < |q| + 1 + |t| ==> (q + "_" + t)[i] != '_'
  {
    forall i | |q| < i < |q| + 1 + |t| ensures (q + "_" + t)[i] != '_' {
      assert (q + "_" + t)[i] == t[i - |q| - 1];
    }
  }

  /** Two (path, rotation) pairs share a cache entry only when they are the same pair. */
  lemma CacheKeyInjective(p1: string, r1: int, p2: string, r2: int)
    requires CacheKey(p1, r1) == CacheKey(p2, r2)
    ensures p1 == p2 && r1 == r2
  {
    NoUnderscoreInInt(r1);
    NoUnderscoreInInt(r2);
    SplitAtLastUnderscore(p1, IntToString(r1), p2, IntToString(r2));
    IntToStringInjective(r1, r2);
  }
}
