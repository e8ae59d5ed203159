/**
 * The `YYYY-MM-DD` date strings the catalogue uses for start and end
 * dates. The front end never compares them; this module shows that
 * JavaScript's string `<=` on such strings orders them as days, which is
 * how the catalogue's start-before-end property is stated.
 */
module Dates {
  import Text

  predicate IsDigit(c: char) { '0' <= c <= '9' }

  /** A calendar date written `YYYY-MM-DD`. */
  predicate IsIsoDate(s: string) {
    |s| == 10 && s[4] == '-' && s[7] == '-' &&
    forall i :: 0 <= i < 10 && i != 4 && i != 7 ==> IsDigit(s[i])
  }

  /** The value of a decimal digit; other characters count as 0. */
  function DigitValue(c: char): (d: nat)
    ensures d <= 9
  {
    if IsDigit(c) then c as int - '0' as int else 0
  }

  function Pow10(n: nat): (p: nat)
    ensures p >= 1
  {
    if n == 0 then 1 else 10 * Pow10(n - 1)
  }

  /** The number a string of decimal digits spells, most significant digit first. */
  function Number(s: string): (n: nat)
    ensures n < Pow10(|s|)
    decreases |s|
  {
    if s == [] then 0
    else
      LeadingDigitDecides(DigitValue(s[0]), Number(s[1..]), 10, 0, Pow10(|s| - 1));
      DigitValue(s[0]) * Pow10(|s| - 1) + Number(s[1..])
  }

  predicate AllDigits(s: string) {
    forall i :: 0 <= i < |s| ==> IsDigit(s[i])
  }

  /** `x <= y` scales to `x * p <= y * p`. */
  lemma MulMonotone(x: nat, y: nat, p: nat)
    requires x <= y
    ensures x * p <= y * p
  {
    assert y * p == x * p + (y - x) * p;
  }

  /** A number whose leading digit is smaller is smaller, whatever the digits after it. */
  lemma LeadingDigitDecides(da: nat, na: nat, db: nat, nb: nat, p: nat)
    requires da < db && na < p
    ensures da * p + na < db * p + nb
  {
    MulMonotone(da + 1, db, p);
    assert (da + 1) * p == da * p + p;
  }

  /** For digit strings of one length, string order is numeric order. */
  lemma {:induction false} DigitStringOrder(a: string, b: string)
    requires |a| == |b| && AllDigits(a) && AllDigits(b)
    ensures Text.LessOrEqual(a, b) <==> Number(a) <= Number(b)
    decreases |a|
  {
    if a != [] {
      var p := Pow10(|a| - 1);
      var da, db := DigitValue(a[0]), DigitValue(b[0]);
      assert Number(a) == da * p + Number(a[1..]);
      assert Number(b) == db * p + Number(b[1..]);
      assert AllDigits(a[1..]) && AllDigits(b[1..]) by {
        assert forall i :: 0 <= i < |a| - 1 ==> a[1..][i] == a[i + 1] && b[1..][i] == b[i + 1];
      }
      DigitStringOrder(a[1..], b[1..]);
      if a[0] < b[0] {
        LeadingDigitDecides(da, Number(a[1..]), db, Number(b[1..]), p);
      } else if a[0] > b[0] {
        LeadingDigitDecides(db, Number(b[1..]), da, Number(a[1..]), p);
      }
    }
  }

  /** The number spelt by two digit strings written one after the other. */
  lemma {:induction false} NumberAppend(x: string, y: string)
    ensures Number(x + y) == Number(x) * Pow10(|y|) + Number(y)
    decreases |x|
  {
    if x == [] {
      assert x + y == y;
    } else {
      assert (x + y)[0] == x[0] && (x + y)[1..] == x[1..] + y;
      assert Number(x + y) == DigitValue(x[0]) * Pow10(|x| - 1 + |y|) + Number(x[1..] + y);
      NumberAppend(x[1..], y);
      PowAdd(|x| - 1, |y|);
      Regroup(DigitValue(x[0]), Pow10(|x| - 1), Number(x[1..]), Pow10(|y|), Number(y));
    }
  }

  lemma Regroup(d: nat, p: nat, n: nat, q: nat, m: nat)
    ensures d * (p * q) + (n * q + m) == (d * p + n) * q + m
  {
    assert d * (p * q) == (d * p) * q;
    assert (d * p + n) * q == (d * p) * q + n * q;
  }

  lemma {:induction false} PowAdd(m: nat, n: nat)
    ensures Pow10(m + n) == Pow10(m) * Pow10(n)
    decreases m
  {
    if m > 0 {
      PowAdd(m - 1, n);
      assert Pow10(m + n) == 10 * Pow10(m - 1 + n);
    }
  }

  /** The digits of a `YYYY-MM-DD` date without the dashes. */
  function DateDigits(s: string): string
    requires IsIsoDate(s)
  {
    s[..4] + s[5..7] + s[8..]
  }

  /** The day a `YYYY-MM-DD` date names, as `year * 10000 + month * 100 + day`. */
  function DayNumber(s: string): nat
    requires IsIsoDate(s)
  {
    Number(s[..4]) * 10000 + Number(s[5..7]) * 100 + Number(s[8..])
  }

  /** Comparing `YYYY-MM-DD` dates as strings orders them by year, then month, then day. */
  lemma IsoDateOrderIsChronological(a: string, b: string)
    requires IsIsoDate(a) && IsIsoDate(b)
    ensures Text.LessOrEqual(a, b) <==> DayNumber(a) <= DayNumber(b)
  {
    var da, db := DateDigits(a), DateDigits(b);
    assert a == a[..4] + ("-" + (a[5..7] + ("-" + a[8..])));
    assert b == b[..4] + ("-" + (b[5..7] + ("-" + b[8..])));
    StripDashes(a, b);
    assert AllDigits(da) && AllDigits(db) by {
      assert forall i :: 0 <= i < 8 ==> da[i] == a[if i < 4 then i else if i < 6 then i + 1 else i + 2];
      assert forall i :: 0 <= i < 8 ==> db[i] == b[if i < 4 then i else if i < 6 then i + 1 else i + 2];
    }
    DigitStringOrder(da, db);
    DigitsSpellDay(a);
    DigitsSpellDay(b);
  }

  /** A dash at the same place in both strings does not affect their order. */
  lemma DashBetween(p: string, x: string, q: string, y: string)
    requires |p| == |q|
    ensures Text.LessOrEqual(p + ("-" + x), q + ("-" + y)) == Text.LessOrEqual(p + x, q + y)
  {
    Text.LessOrEqualConcat(p, "-" + x, q, "-" + y);
    Text.LessOrEqualConcat("-", x, "-", y);
    Text.LessOrEqualConcat(p, x, q, y);
  }

  /** The dashes sit at the same places in both dates, so they do not affect the comparison. */
  lemma StripDashes(a: string, b: string)
    requires IsIsoDate(a) && IsIsoDate(b)
    ensures Text.LessOrEqual(a, b) == Text.LessOrEqual(DateDigits(a), DateDigits(b))
  {
    var a1, a2, a3 := a[..4], a[5..7], a[8..];
    var b1, b2, b3 := b[..4], b[5..7], b[8..];
    assert a == a1 + ("-" + (a2 + ("-" + a3)));
    assert b == b1 + ("-" + (b2 + ("-" + b3)));
    assert DateDigits(a) == a1 + (a2 + a3);
    assert DateDigits(b) == b1 + (b2 + b3);
    DashBetween(a1, a2 + ("-" + a3), b1, b2 + ("-" + b3));
    DashBetween(a2, a3, b2, b3);
    Text.LessOrEqualConcat(a1, a2 + ("-" + a3), b1, b2 + ("-" + b3));
    Text.LessOrEqualConcat(a1, a2 + a3, b1, b2 + b3);
  }

  /** The dash-free digits spell the day number. */
  lemma DigitsSpellDay(s: string)
    requires IsIsoDate(s)
    ensures Number(DateDigits(s)) == DayNumber(s)
  {
    assert DateDigits(s) == s[..4] + (s[5..7] + s[8..]);
    NumberAppend(s[..4], s[5..7] + s[8..]);
    NumberAppend(s[5..7], s[8..]);
    assert Pow10(2) == 100;
    assert Pow10(4) == 10000;
  }

}
