/** The `date` column and the date query parameters carry `YYYY-MM-DD`
    strings. This module reads such a string as a `Date` and writes a `Date`
    back, and shows that comparing the strings as text (which is what the
    range filters do on SQLite, where a `date` column holds text) orders them
    exactly as the dates they denote. On PostgreSQL the column is a real date
    and the filters compare dates directly. */
module Dates {
  import opened Domain
  import opened Seqs
  import opened Validation

  predicate AllDigits(s: string) {
    forall i :: 0 <= i < |s| ==> IsDigitChar(s[i])
  }

  function DigitValue(c: char): (r: nat)
    requires IsDigitChar(c)
    ensures r < 10
  {
    (c as int - '0' as int) as nat
  }

  function DigitChar(d: nat): (c: char)
    requires d < 10
    ensures IsDigitChar(c) && DigitValue(c) == d
  {
    ('0' as int + d) as char
  }

  /** The decimal value of a digit string, most significant digit first. */
  function Number(s: string): nat
    requires AllDigits(s)
  {
    if s == [] then 0 else Number(s[..|s| - 1]) * 10 + DigitValue(s[|s| - 1])
  }

  function Pow10(n: nat): (r: nat)
    ensures r >= 1
  {
    if n == 0 then 1 else 10 * Pow10(n - 1)
  }

  /** `n` written with exactly `width` digits, zero-padded on the left. */
  function Digits(n: nat, width: nat): (s: string)
    ensures |s| == width && AllDigits(s)
  {
    if width == 0 then [] else Digits(n / 10, width - 1) + [DigitChar(n % 10)]
  }

  lemma {:induction false} NumberBound(s: string)
    requires AllDigits(s)
    ensures Number(s) < Pow10(|s|)
  {
    if s != [] {
      NumberBound(s[..|s| - 1]);
    }
  }

  lemma {:induction false} NumberOfDigits(n: nat, width: nat)
    requires n < Pow10(width)
    ensures Number(Digits(n, width)) == n
  {
    if width > 0 {
      NumberOfDigits(n / 10, width - 1);
      var s := Digits(n, width);
      assert s[..|s| - 1] == Digits(n / 10, width - 1);
    }
  }

  lemma {:induction false} DigitsOfNumber(s: string)
    requires AllDigits(s)
    ensures Digits(Number(s), |s|) == s
  {
    if s != [] {
      var init := s[..|s| - 1];
      var n := Number(s);
      assert n / 10 == Number(init) && n % 10 == DigitValue(s[|s| - 1]);
      DigitsOfNumber(init);
      assert s == init + [s[|s| - 1]];
    }
  }

  /** Comparing `x + y` with `x' + y'` for `|x| == |x'|`: the heads decide unless they are equal. */
  lemma {:induction false} StrLeConcat(x: string, y: string, x': string, y': string)
    requires |x| == |x'|
    ensures StrLe(x + y, x' + y') <==> (x != x' && StrLe(x, x')) || (x == x' && StrLe(y, y'))
    decreases |x|
  {
    if |x| > 0 {
      assert (x + y)[0] == x[0] && (x' + y')[0] == x'[0];
      assert (x + y)[1..] == x[1..] + y && (x' + y')[1..] == x'[1..] + y';
      StrLeConcat(x[1..], y, x'[1..], y');
      assert x == [x[0]] + x[1..] && x' == [x'[0]] + x'[1..];
    } else {
      assert x + y == y && x' + y' == y';
    }
  }

  /** `10a + d <= 10b + e` for single digits `d`, `e`: compare `a`, `b` first. */
  lemma PlaceValueOrder(a: nat, d: nat, b: nat, e: nat)
    requires d < 10 && e < 10
    ensures a * 10 + d <= b * 10 + e <==> a < b || (a == b && d <= e)
    ensures a * 10 + d == b * 10 + e <==> a == b && d == e
  {
    if a < b {
      assert a * 10 + 10 <= b * 10;
    } else if b < a {
      assert b * 10 + 10 <= a * 10;
    }
  }

  /** On digit strings of one length, string order is numeric order, and equal values mean equal strings. */
  lemma {:induction false} DigitOrder(a: string, b: string)
    requires AllDigits(a) && AllDigits(b) && |a| == |b|
    ensures StrLe(a, b) <==> Number(a) <= Number(b)
    ensures a == b <==> Number(a) == Number(b)
    decreases |a|
  {
    if |a| > 0 {
      var n := |a| - 1;
      var a', b' := a[..n], b[..n];
      DigitOrder(a', b');
      assert a == a' + [a[n]] && b == b' + [b[n]];
      StrLeConcat(a', [a[n]], b', [b[n]]);
      PlaceValueOrder(Number(a'), DigitValue(a[n]), Number(b'), DigitValue(b[n]));
      assert DigitValue(a[n]) == DigitValue(b[n]) <==> a[n] == b[n];
    }
  }

  // ---- dates ----

  lemma DateShapeParts(s: string)
    requires IsDateShape(s)
    ensures AllDigits(s[..4]) && AllDigits(s[5..7]) && AllDigits(s[8..])
    ensures s == s[..4] + "-" + s[5..7] + "-" + s[8..]
  {
    assert forall i :: 0 <= i < 4 ==> s[..4][i] == s[i];
    assert forall i :: 0 <= i < 2 ==> s[5..7][i] == s[i + 5] && s[8..][i] == s[i + 8];
    var t := s[..4] + "-" + s[5..7] + "-" + s[8..];
    assert forall i :: 0 <= i < 10 ==> t[i] == s[i];
  }

  /** The date a `YYYY-MM-DD`-shaped string names; month 13 or day 45 are read as they are. */
  function ParseDate(s: string): (d: Date)
    requires IsDateShape(s)
    ensures d.year < 10000 && d.month < 100 && d.day < 100
  {
    DateShapeParts(s);
    NumberBound(s[..4]);
    NumberBound(s[5..7]);
    NumberBound(s[8..]);
    Date(Number(s[..4]), Number(s[5..7]), Number(s[8..]))
  }

  predicate Formattable(d: Date) {
    d.year < 10000 && d.month < 100 && d.day < 100
  }

  function FormatDate(d: Date): string
    requires Formattable(d)
  {
    Digits(d.year, 4) + "-" + Digits(d.month, 2) + "-" + Digits(d.day, 2)
  }

  lemma FormatDateShape(d: Date)
    requires Formattable(d)
    ensures IsDateShape(FormatDate(d))
  {
    var s := FormatDate(d);
    var y, m, dd := Digits(d.year, 4), Digits(d.month, 2), Digits(d.day, 2);
    assert forall i :: 0 <= i < 4 ==> s[i] == y[i];
    assert forall i :: 0 <= i < 2 ==> s[i + 5] == m[i] && s[i + 8] == dd[i];
  }

  lemma FormatDateParts(d: Date)
    requires Formattable(d)
    ensures |FormatDate(d)| == 10
    ensures FormatDate(d)[..4] == Digits(d.year, 4)
    ensures FormatDate(d)[5..7] == Digits(d.month, 2)
    ensures FormatDate(d)[8..] == Digits(d.day, 2)
  {
    var s := FormatDate(d);
    var y, m, dd := Digits(d.year, 4), Digits(d.month, 2), Digits(d.day, 2);
    assert s[..4] == y;
    assert s[5..7] == m;
    assert s[8..] == dd;
  }

  /** Reading back a written date gives the date. */
  lemma ParseFormat(d: Date)
    requires Formattable(d)
    ensures IsDateShape(FormatDate(d)) && ParseDate(FormatDate(d)) == d
  {
    FormatDateShape(d);
    FormatDateParts(d);
    NumberOfDigits(d.year, 4);
    NumberOfDigits(d.month, 2);
    NumberOfDigits(d.day, 2);
  }

  /** Writing a read date gives back the string. */
  lemma FormatParse(s: string)
    requires IsDateShape(s)
    ensures FormatDate(ParseDate(s)) == s
  {
    DateShapeParts(s);
    DigitsOfNumber(s[..4]);
    DigitsOfNumber(s[5..7]);
    DigitsOfNumber(s[8..]);
  }

  /** `-` followed by `x`, against `-` followed by `y`: the dashes tie. */
  lemma DashTie(x: string, y: string)
    ensures StrLe("-" + x, "-" + y) <==> StrLe(x, y)
  {
    StrLeConcat("-", x, "-", y);
  }

  /** Text order on `x1-x2-x3` against `y1-y2-y3`, parts of equal lengths, is part by part. */
  lemma ThreePartOrder(x1: string, x2: string, x3: string, y1: string, y2: string, y3: string)
    requires |x1| == |y1| && |x2| == |y2|
    ensures StrLe(x1 + "-" + x2 + "-" + x3, y1 + "-" + y2 + "-" + y3) <==>
      (x1 != y1 && StrLe(x1, y1)) || (x1 == y1 && ((x2 != y2 && StrLe(x2, y2)) || (x2 == y2 && StrLe(x3, y3))))
  {
    var tx, ty := x2 + "-" + x3, y2 + "-" + y3;
    assert x1 + "-" + x2 + "-" + x3 == x1 + ("-" + tx);
    assert y1 + "-" + y2 + "-" + y3 == y1 + ("-" + ty);
    StrLeConcat(x1, "-" + tx, y1, "-" + ty);
    DashTie(tx, ty);
    assert tx == x2 + ("-" + x3) && ty == y2 + ("-" + y3);
    StrLeConcat(x2, "-" + x3, y2, "-" + y3);
    DashTie(x3, y3);
  }

  /** Comparing two `YYYY-MM-DD` strings as text, as SQLite does, orders them exactly as the dates they name. */
  lemma DateStringOrder(a: string, b: string)
    requires IsDateShape(a) && IsDateShape(b)
    ensures StrLe(a, b) <==> DateLe(ParseDate(a), ParseDate(b))
  {
    DateShapeParts(a);
    DateShapeParts(b);
    DigitOrder(a[..4], b[..4]);
    DigitOrder(a[5..7], b[5..7]);
    DigitOrder(a[8..], b[8..]);
    ThreePartOrder(a[..4], a[5..7], a[8..], b[..4], b[5..7], b[8..]);
  }

  /** Two date-shaped strings name the same date only when they are the same string. */
  lemma ParseDateInjective(a: string, b: string)
    requires IsDateShape(a) && IsDateShape(b) && ParseDate(a) == ParseDate(b)
    ensures a == b
  {
    FormatParse(a);
    FormatParse(b);
  }

  /** A date the transaction DTOs accept can always be read as a `Date`. */
  lemma AcceptedDatesParse(s: string)
    requires FullMatch(DatePattern, s)
    ensures IsDateShape(s) && FormatDate(ParseDate(s)) == s
  {
    DatePatternMeans(s);
    FormatParse(s);
  }
}
