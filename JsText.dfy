/** The few JavaScript string built-ins that the attendance views rely on,
    written out so that their behaviour is part of the model:
    `toLowerCase` (ASCII letters), `includes`, `Number.prototype.toString`
    for integers, the comparator of `Array.prototype.sort` without an
    argument (UTF-16 code-unit order) and the code units that `split("")`
    and `charCodeAt(0)` expose. */
module JsText {

  // ---------------------------------------------------------------------
  // toLowerCase

  predicate IsUpper(c: char) {
    'A' <= c <= 'Z'
  }

  /** Lower-cases one character; only the ASCII letters A-Z change. */
  function LowerChar(c: char): (r: char)
    ensures !IsUpper(r)
    ensures IsUpper(c) ==> r as int - c as int == 32
    ensures !IsUpper(c) ==> r == c
  {
    if IsUpper(c) then (c as int + 32) as char else c
  }

  /** `s.toLowerCase()`. */
  function Lower(s: string): (r: string)
    ensures |r| == |s|
    ensures forall i :: 0 <= i < |s| ==> r[i] == LowerChar(s[i])
  {
    seq(|s|, i requires 0 <= i < |s| => LowerChar(s[i]))
  }

  /** `a` and `b` differ at most in the case of their letters. */
  predicate SameUpToCase(a: string, b: string) {
    |a| == |b| && forall i :: 0 <= i < |a| ==> LowerChar(a[i]) == LowerChar(b[i])
  }

  lemma LowerIgnoresCase(a: string, b: string)
    requires SameUpToCase(a, b)
    ensures Lower(a) == Lower(b)
  {
    assert forall i :: 0 <= i < |a| ==> Lower(a)[i] == Lower(b)[i];
  }

  lemma LowerIdempotent(s: string)
    ensures Lower(Lower(s)) == Lower(s)
  {
    assert forall i :: 0 <= i < |s| ==> Lower(Lower(s))[i] == Lower(s)[i];
  }

  // ---------------------------------------------------------------------
  // includes

  /** `q` occurs in `s` starting at index `i`. */
  predicate OccursAt(s: string, q: string, i: nat) {
    i + |q| <= |s| && s[i..i + |q|] == q
  }

  /** `s.includes(q)`: is `q` a contiguous substring of `s`?  Scans the start
      positions of `s` from left to right. */
  predicate Contains(s: string, q: string): (r: bool)
    ensures r ==> |q| <= |s|
    ensures |q| == |s| ==> (r <==> q == s)
    decreases |s|
  {
    (|q| <= |s| && s[..|q|] == q) || (|s| > 0 && Contains(s[1..], q))
  }

  /** `Contains` is sound and complete for "some occurrence exists". */
  lemma {:induction false} ContainsIff(s: string, q: string)
    ensures Contains(s, q) <==> exists i: nat :: OccursAt(s, q, i)
    decreases |s|
  {
    if |q| <= |s| && s[..|q|] == q {
      assert OccursAt(s, q, 0);
    } else if |s| > 0 {
      ContainsIff(s[1..], q);
      if Contains(s[1..], q) {
        var i: nat :| OccursAt(s[1..], q, i);
        assert s[i + 1..i + 1 + |q|] == s[1..][i..i + |q|];
        assert OccursAt(s, q, i + 1);
      }
      if i: nat :| OccursAt(s, q, i) {
        assert i != 0;
        assert s[1..][i - 1..i - 1 + |q|] == s[i..i + |q|];
        assert OccursAt(s[1..], q, i - 1);
      }
    }
  }

  /** The empty string occurs in every string. */
  lemma ContainsEmpty(s: string)
    ensures Contains(s, "")
  {
    assert s[..0] == "";
  }

  /** Every string occurs in itself. */
  lemma ContainsSelf(s: string)
    ensures Contains(s, s)
  {
    assert s[..|s|] == s;
  }

  // ---------------------------------------------------------------------
  // Number.prototype.toString for integers

  function DigitChar(d: nat): (c: char)
    requires d < 10
    ensures '0' <= c <= '9'
  {
    ('0' as int + d) as char
  }

  predicate IsDigit(c: char) {
    '0' <= c <= '9'
  }

  function DigitValue(c: char): (d: nat)
    requires IsDigit(c)
    ensures d < 10
  {
    c as int - '0' as int
  }

  /** Decimal rendering of a natural number, without leading zeros. */
  function NatToString(n: nat): (r: string)
    ensures |r| > 0
    ensures forall i :: 0 <= i < |r| ==> IsDigit(r[i])
    ensures |r| > 1 ==> r[0] != '0'
    decreases n
  {
    if n < 10 then [DigitChar(n)] else NatToString(n / 10) + [DigitChar(n % 10)]
  }

  /** `n.toString()` for an integer `n`. */
  function IntToString(n: int): (r: string)
    ensures |r| > 0
    ensures r[0] == '-' <==> n < 0
  {
    if n < 0 then "-" + NatToString(-n) else NatToString(n)
  }

  /** Reads back a string of decimal digits. */
  function ParseDigits(s: string): nat
    requires forall i :: 0 <= i < |s| ==> IsDigit(s[i])
    decreases |s|
  {
    if s == [] then 0 else 10 * ParseDigits(s[..|s| - 1]) + DigitValue(s[|s| - 1])
  }

  /** Reads back the decimal form of an integer. */
  function ParseInt(s: string): int
    requires |s| > 0
    requires s[0] == '-' ==> forall i :: 1 <= i < |s| ==> IsDigit(s[i])
    requires s[0] != '-' ==> forall i :: 0 <= i < |s| ==> IsDigit(s[i])
  {
    if s[0] == '-' then 0 - ParseDigits(s[1..]) as int else ParseDigits(s)
  }

  lemma {:induction false} ParseNatToString(n: nat)
    ensures ParseDigits(NatToString(n)) == n
    decreases n
  {
    var r := NatToString(n);
    if n >= 10 {
      ParseNatToString(n / 10);
      assert r[..|r| - 1] == NatToString(n / 10);
    }
  }

  /** The decimal rendering of an integer reads back as that integer, so two
      different roll numbers never print the same. */
  lemma IntToStringRoundTrip(n: int)
    ensures ParseInt(IntToString(n)) == n
  {
    if n < 0 {
      assert IntToString(n)[1..] == NatToString(-n);
      ParseNatToString(-n);
    } else {
      ParseNatToString(n);
    }
  }

  lemma IntToStringInjective(m: int, n: int)
    requires IntToString(m) == IntToString(n)
    ensures m == n
  {
    IntToStringRoundTrip(m);
    IntToStringRoundTrip(n);
  }

  // ---------------------------------------------------------------------
  // The default comparator of Array.prototype.sort

  /** JavaScript compares strings by UTF-16 code units.  A character below
      U+D800 is one unit below every surrogate, a supplementary character
      (U+10000 and above) starts with a high surrogate U+D800..U+DBFF, and a
      character in U+E000..U+FFFF is one unit above every surrogate.  Within a
      class the order is that of the code points. */
  function UnitClass(c: char): nat {
    if c as int < 0xD800 then 0 else if c as int >= 0x10000 then 1 else 2
  }

  /** Character `a` sorts strictly before character `b`. */
  predicate CharBefore(a: char, b: char) {
    UnitClass(a) < UnitClass(b) || (UnitClass(a) == UnitClass(b) && a < b)
  }

  /** String `a` sorts strictly before string `b` (a proper prefix sorts first). */
  predicate Before(a: string, b: string): (r: bool)
    ensures r ==> a != b
    ensures |a| < |b| && a == b[..|a|] ==> r
    decreases |a|
  {
    if a == [] then b != []
    else if b == [] then false
    else if a[0] == b[0] then Before(a[1..], b[1..])
    else CharBefore(a[0], b[0])
  }

  lemma {:induction false} BeforeTransitive(a: string, b: string, c: string)
    requires Before(a, b) && Before(b, c)
    ensures Before(a, c)
    decreases |a|
  {
    if a != [] && b != [] && c != [] && a[0] == b[0] && b[0] == c[0] {
      BeforeTransitive(a[1..], b[1..], c[1..]);
    }
  }

  lemma {:induction false} BeforeTotal(a: string, b: string)
    requires a != b
    ensures Before(a, b) || Before(b, a)
    decreases |a|
  {
    if a != [] && b != [] && a[0] == b[0] {
      assert a == [a[0]] + a[1..] && b == [b[0]] + b[1..];
      BeforeTotal(a[1..], b[1..]);
    }
  }

  lemma BeforeAsymmetric(a: string, b: string)
    requires Before(a, b)
    ensures !Before(b, a)
  {
    if Before(b, a) {
      BeforeTransitive(a, b, a);
    }
  }

  // ---------------------------------------------------------------------
  // split("") + charCodeAt(0)

  /** The UTF-16 surrogate pair of a supplementary character: a high
      surrogate and a low surrogate that together encode its code point. */
  function Surrogates(c: char): (p: (int, int))
    requires c as int >= 0x10000
    ensures 0xD800 <= p.0 < 0xDC00 && 0xDC00 <= p.1 < 0xE000
    ensures 0x10000 + (p.0 - 0xD800) * 0x400 + (p.1 - 0xDC00) == c as int
  {
    var v := c as int - 0x10000;
    (0xD800 + v / 0x400, 0xDC00 + v % 0x400)
  }

  /** A supplementary character has only one surrogate pair. */
  lemma SurrogatesUnique(c: char, hi: int, lo: int)
    requires c as int >= 0x10000
    requires 0xD800 <= hi < 0xDC00 && 0xDC00 <= lo < 0xE000
    requires 0x10000 + (hi - 0xD800) * 0x400 + (lo - 0xDC00) == c as int
    ensures (hi, lo) == Surrogates(c)
  {
  }

  /** The sum of the UTF-16 code units of one character: `split("")` splits a
      supplementary character into its two surrogates. */
  function CodeUnitSum(c: char): (r: nat)
    ensures c as int < 0x10000 ==> r == c as int
    ensures c as int >= 0x10000 ==> r == Surrogates(c).0 + Surrogates(c).1
  {
    if c as int < 0x10000 then c as int
    else
      var p := Surrogates(c);
      p.0 + p.1
  }
}
