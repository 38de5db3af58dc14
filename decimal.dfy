/** The two JavaScript string operations the game rule uses: `String(n)` on an
    integer (its decimal numeral) and `String.prototype.includes`. */
module Decimal {

  predicate IsDigit(c: char) {
    '0' <= c <= '9'
  }

  predicate AllDigits(s: string) {
    forall i | 0 <= i < |s| :: IsDigit(s[i])
  }

  function DigitChar(d: nat): (c: char)
    requires d < 10
    ensures IsDigit(c)
  {
    (48 + d) as char
  }

  function DigitValue(c: char): (d: nat)
    requires IsDigit(c)
    ensures d < 10
  {
    c as int - 48
  }

  /** The decimal numeral of a natural number: digits only, no leading zero. */
  function NatToString(n: nat): (s: string)
    ensures s != [] && AllDigits(s)
    ensures |s| > 1 ==> s[0] != '0'
    decreases n
  {
    if n < 10 then [DigitChar(n)] else NatToString(n / 10) + [DigitChar(n % 10)]
  }

  /** JavaScript's `String(n)` for an integer `n`: a minus sign before the
      numeral of |n| when `n` is negative. */
  function IntToString(n: int): (s: string)
    ensures s != []
    ensures s[0] == '-' <==> n < 0
    ensures var d := if n < 0 then s[1..] else s;
      d != [] && AllDigits(d) && (|d| > 1 ==> d[0] != '0')
  {
    if n < 0 then "-" + NatToString(-n) else NatToString(n)
  }

  /** Reads a numeral back: the inverse that `IntToString` is checked against. */
  function ParseNat(s: string): nat
    requires AllDigits(s)
  {
    if s == [] then 0 else ParseNat(s[..|s| - 1]) * 10 + DigitValue(s[|s| - 1])
  }

  function ParseInt(s: string): int
    requires s != []
    requires AllDigits(if s[0] == '-' then s[1..] else s)
  {
    if s[0] == '-' then -(ParseNat(s[1..]) as int) else ParseNat(s)
  }

  lemma {:induction false} NatRoundTrip(n: nat)
    ensures ParseNat(NatToString(n)) == n
    decreases n
  {
    if n >= 10 {
      var s := NatToString(n);
      assert s[..|s| - 1] == NatToString(n / 10);
      NatRoundTrip(n / 10);
    }
  }

  /** `String(n)` loses no information: parsing it gives `n` back. */
  lemma IntRoundTrip(n: int)
    ensures ParseInt(IntToString(n)) == n
  {
    if n < 0 {
      assert IntToString(n)[1..] == NatToString(-n);
      NatRoundTrip(-n);
    } else {
      NatRoundTrip(n);
    }
  }

  /** Distinct integers have distinct numerals. */
  lemma IntToStringInjective(a: int, b: int)
    ensures IntToString(a) == IntToString(b) ==> a == b
  {
    IntRoundTrip(a);
    IntRoundTrip(b);
  }

  /** `needle` occurs in `hay` starting at index `i`. */
  predicate OccursAt(hay: string, needle: string, i: int) {
    0 <= i && i + |needle| <= |hay| && hay[i..i + |needle|] == needle
  }

  /** JavaScript's `hay.includes(needle)`: true exactly when `needle` occurs
      somewhere in `hay` as a contiguous block. */
  function Contains(hay: string, needle: string): (r: bool)
    ensures r <==> exists i :: OccursAt(hay, needle, i)
    decreases |hay|
  {
    if |needle| > |hay| then
      false
    else if hay[..|needle|] == needle then
      assert OccursAt(hay, needle, 0);
      true
    else
      ShiftOccurrence(hay, needle);
      Contains(hay[1..], needle)
  }

  /** An occurrence in `hay` other than at 0 is an occurrence in `hay[1..]`, one
      index earlier. */
  lemma ShiftOccurrence(hay: string, needle: string)
    requires hay != [] && !OccursAt(hay, needle, 0)
    ensures (exists i :: OccursAt(hay, needle, i)) <==> (exists i :: OccursAt(hay[1..], needle, i))
  {
    forall i | OccursAt(hay, needle, i)
      ensures OccursAt(hay[1..], needle, i - 1)
    {
      assert hay[1..][i - 1..i - 1 + |needle|] == hay[i..i + |needle|];
    }
    forall i | OccursAt(hay[1..], needle, i)
      ensures OccursAt(hay, needle, i + 1)
    {
      assert hay[1..][i..i + |needle|] == hay[i + 1..i + 1 + |needle|];
    }
  }
}
