/** The canonical database timestamp: UTC, fixed width, nine fractional digits, so that text order is
    time order. */
module Timestamps {
  import opened Options
  import Lex

  datatype Civil = Civil(year: nat, month: nat, day: nat, hour: nat, minute: nat, second: nat, nanos: nat)

  // ---- The calendar ----

  predicate Leap(y: nat) {
    y % 4 == 0 && (y % 100 != 0 || y % 400 == 0)
  }

  function MonthLength(y: nat, m: nat): nat {
    if m == 2 then (if Leap(y) then 29 else 28)
    else if m == 4 || m == 6 || m == 9 || m == 11 then 30
    else 31
  }

  function YearLength(y: nat): nat { if Leap(y) then 366 else 365 }

  /** Days before January 1 of year y, counted from year 0. */
  function YearStart(y: nat): nat {
    if y == 0 then 0 else YearStart(y - 1) + YearLength(y - 1)
  }

  /** Days of year y before the first of month m. */
  function MonthStart(y: nat, m: nat): nat
    requires 1 <= m
  {
    if m == 1 then 0 else MonthStart(y, m - 1) + MonthLength(y, m - 1)
  }

  /** The Gregorian calendar in closed form: days before year y. */
  lemma {:induction false} YearStartExactly(y: nat)
    ensures YearStart(y) == 365 * y + (y + 3) / 4 - (y + 99) / 100 + (y + 399) / 400
  {
    if y > 0 {
      YearStartExactly(y - 1);
      OneYearMore(y - 1);
      CenturiesAreFourths(y - 1);
    }
  }

  lemma By4(n: nat, q: nat, r: nat)
    requires n == 4 * q + r && r < 4
    ensures n % 4 == r && (n + 4) / 4 == q + 1 && (n + 3) / 4 == if r == 0 then q else q + 1
  {
  }

  lemma By100(n: nat, q: nat, r: nat)
    requires n == 100 * q + r && r < 100
    ensures n % 100 == r && (n + 100) / 100 == q + 1 && (n + 99) / 100 == if r == 0 then q else q + 1
  {
  }

  lemma By400(n: nat, q: nat, r: nat)
    requires n == 400 * q + r && r < 400
    ensures n % 400 == r && (n + 400) / 400 == q + 1 && (n + 399) / 400 == if r == 0 then q else q + 1
  {
  }

  /** Counting multiples by rounding up. */
  lemma OneYearMore(n: nat)
    ensures (n + 4) / 4 == (n + 3) / 4 + if n % 4 == 0 then 1 else 0
    ensures (n + 100) / 100 == (n + 99) / 100 + if n % 100 == 0 then 1 else 0
    ensures (n + 400) / 400 == (n + 399) / 400 + if n % 400 == 0 then 1 else 0
  {
    By4(n, n / 4, n % 4);
    By100(n, n / 100, n % 100);
    By400(n, n / 400, n % 400);
  }

  lemma CenturiesAreFourths(n: nat)
    ensures n % 100 == 0 ==> n % 4 == 0
    ensures n % 400 == 0 ==> n % 100 == 0
  {
    if n % 100 == 0 { By4(n, 25 * (n / 100), 0); }
    if n % 400 == 0 { By100(n, 4 * (n / 400), 0); }
  }

  /** Days before month m, a leap day counted from March on. */
  lemma MonthStartExactly(y: nat, m: nat)
    requires 1 <= m <= 12
    ensures var leapDay := y % 400 == 0 || (y % 4 == 0 && y % 100 != 0);
            MonthStart(y, m) == [0, 31, 59, 90, 120, 151, 181, 212, 243, 273, 304, 334][m - 1] +
                                if m > 2 && leapDay then 1 else 0
  {
    assert MonthStart(y, 3) == MonthStart(y, 2) + MonthLength(y, 2) == 31 + MonthLength(y, 2);
    assert MonthStart(y, 6) == MonthStart(y, 5) + 31 == MonthStart(y, 4) + 61 == MonthStart(y, 3) + 92;
    assert MonthStart(y, 9) == MonthStart(y, 8) + 31 == MonthStart(y, 7) + 62 == MonthStart(y, 6) + 92;
    assert MonthStart(y, 12) == MonthStart(y, 11) + 30 == MonthStart(y, 10) + 61 == MonthStart(y, 9) + 91;
  }

  /** A UTC time of the years the four-digit layout covers. */
  predicate Valid(t: Civil) {
    && t.year <= 9999 && 1 <= t.month <= 12 && 1 <= t.day <= MonthLength(t.year, t.month)
    && t.hour < 24 && t.minute < 60 && t.second < 60 && t.nanos < 1_000_000_000
  }

  function Days(t: Civil): nat
    requires Valid(t)
  {
    YearStart(t.year) + MonthStart(t.year, t.month) + t.day - 1
  }

  /** Nanoseconds since the start of year 0. */
  function Instant(t: Civil): nat
    requires Valid(t)
  {
    (((Days(t) * 24 + t.hour) * 60 + t.minute) * 60 + t.second) * 1_000_000_000 + t.nanos
  }

  // ---- The layout ----

  function Digit(n: nat): char
    requires n < 10
  {
    ['0', '1', '2', '3', '4', '5', '6', '7', '8', '9'][n]
  }

  /** n in w digits, zero-padded. */
  function Digits(n: nat, w: nat): (s: string)
    ensures |s| == w
  {
    if w == 0 then "" else Digits(n / 10, w - 1) + [Digit(n % 10)]
  }

  datatype Field = Field(value: nat, width: nat, after: char)

  function Fields(t: Civil): seq<Field> {
    [Field(t.year, 4, '-'), Field(t.month, 2, '-'), Field(t.day, 2, 'T'), Field(t.hour, 2, ':'),
     Field(t.minute, 2, ':'), Field(t.second, 2, '.'), Field(t.nanos, 9, 'Z')]
  }

  function Layout(fields: seq<Field>): string {
    if fields == [] then "" else Digits(fields[0].value, fields[0].width) + ([fields[0].after] + Layout(fields[1..]))
  }

  /** 2006-01-02T15:04:05.000000000Z */
  function Format(t: Civil): string { Layout(Fields(t)) }

  // ---- Text order is field order ----

  function Pow10(w: nat): nat { if w == 0 then 1 else 10 * Pow10(w - 1) }

  lemma {:induction false} DigitsOrder(a: nat, b: nat, w: nat)
    requires a < b < Pow10(w)
    ensures Lex.Less(Digits(a, w), Digits(b, w))
  {
    if a / 10 < b / 10 {
      DigitsOrder(a / 10, b / 10, w - 1);
      Lex.BlockDecides(Digits(a / 10, w - 1), Digits(b / 10, w - 1), [Digit(a % 10)], [Digit(b % 10)]);
    } else {
      assert a / 10 == b / 10 && a % 10 < b % 10;
      Lex.CommonPrefix(Digits(a / 10, w - 1), [Digit(a % 10)], [Digit(b % 10)]);
    }
  }

  predicate SameShape(x: seq<Field>, y: seq<Field>) {
    |x| == |y| && forall i :: 0 <= i < |x| ==>
      && x[i].width == y[i].width && x[i].after == y[i].after
      && x[i].value < Pow10(x[i].width) && y[i].value < Pow10(y[i].width)
  }

  predicate FieldsLess(x: seq<Field>, y: seq<Field>)
    requires |x| == |y|
  {
    x != [] && (x[0].value < y[0].value || (x[0].value == y[0].value && FieldsLess(x[1..], y[1..])))
  }

  lemma {:induction false} LayoutOrder(x: seq<Field>, y: seq<Field>)
    requires SameShape(x, y)
    ensures Lex.Less(Layout(x), Layout(y)) <==> FieldsLess(x, y)
  {
    if x == [] {
    } else {
      var a, b := Digits(x[0].value, x[0].width), Digits(y[0].value, y[0].width);
      var s, t := [x[0].after] + Layout(x[1..]), [y[0].after] + Layout(y[1..]);
      LayoutOrder(x[1..], y[1..]);
      if x[0].value < y[0].value {
        DigitsOrder(x[0].value, y[0].value, x[0].width);
        Lex.BlockDecides(a, b, s, t);
      } else if y[0].value < x[0].value {
        DigitsOrder(y[0].value, x[0].value, x[0].width);
        Lex.BlockDecides(b, a, t, s);
        Lex.Asymmetric(Layout(y), Layout(x));
      } else {
        Lex.CommonPrefix(a, s, t);
        Lex.CommonPrefix([x[0].after], Layout(x[1..]), Layout(y[1..]));
      }
    }
  }

  // ---- Field order is time order ----

  lemma {:induction false} YearsGrow(x: nat, y: nat)
    requires x < y
    ensures YearStart(x) + YearLength(x) <= YearStart(y)
  {
    if x < y - 1 { YearsGrow(x, y - 1); }
  }

  lemma {:induction false} MonthsGrow(y: nat, m: nat, n: nat)
    requires 1 <= m < n
    ensures MonthStart(y, m) + MonthLength(y, m) <= MonthStart(y, n)
  {
    if m < n - 1 { MonthsGrow(y, m, n - 1); }
  }

  lemma YearHasTwelveMonths(y: nat)
    ensures MonthStart(y, 13) == YearLength(y)
  {
    assert MonthStart(y, 4) == MonthStart(y, 3) + 31 == MonthStart(y, 2) + MonthLength(y, 2) + 31;
    assert MonthStart(y, 7) == MonthStart(y, 6) + 30 == MonthStart(y, 5) + 61 == MonthStart(y, 4) + 91;
    assert MonthStart(y, 10) == MonthStart(y, 9) + 30 == MonthStart(y, 8) + 61 == MonthStart(y, 7) + 92;
    assert MonthStart(y, 13) == MonthStart(y, 12) + 31 == MonthStart(y, 11) + 61 == MonthStart(y, 10) + 92;
  }

  lemma DaysGrow(a: Civil, b: Civil)
    requires Valid(a) && Valid(b)
    requires a.year < b.year || (a.year == b.year && (a.month < b.month || (a.month == b.month && a.day < b.day)))
    ensures Days(a) < Days(b)
  {
    if a.year < b.year {
      YearsGrow(a.year, b.year);
      YearHasTwelveMonths(a.year);
      MonthsGrow(a.year, a.month, 13);
    } else if a.month < b.month {
      MonthsGrow(a.year, a.month, b.month);
    }
  }

  lemma FieldOrderIsTimeOrder(a: Civil, b: Civil)
    requires Valid(a) && Valid(b) && FieldsLess(Fields(a), Fields(b))
    ensures Instant(a) < Instant(b)
  {
    UnfoldLess(a, b);
    if a.year == b.year && a.month == b.month && a.day == b.day {
      assert Days(a) == Days(b);
    } else {
      DaysGrow(a, b);
    }
  }

  lemma UnfoldLess(a: Civil, b: Civil)
    ensures FieldsLess(Fields(a), Fields(b)) <==>
            a.year < b.year || (a.year == b.year && (a.month < b.month || (a.month == b.month &&
            (a.day < b.day || (a.day == b.day && (a.hour < b.hour || (a.hour == b.hour &&
            (a.minute < b.minute || (a.minute == b.minute && (a.second < b.second || (a.second == b.second &&
            a.nanos < b.nanos)))))))))))
  {
    var x, y := Fields(a), Fields(b);
    UnfoldTimeOfDay(a, b);
    assert x[2..][1..] == x[3..] && y[2..][1..] == y[3..];
    assert x[1..][1..] == x[2..] && y[1..][1..] == y[2..];
    assert FieldsLess(x[2..], y[2..]) <==> a.day < b.day || (a.day == b.day && FieldsLess(x[3..], y[3..]));
    assert FieldsLess(x[1..], y[1..]) <==> a.month < b.month || (a.month == b.month && FieldsLess(x[2..], y[2..]));
  }

  lemma UnfoldTimeOfDay(a: Civil, b: Civil)
    ensures FieldsLess(Fields(a)[3..], Fields(b)[3..]) <==>
            a.hour < b.hour || (a.hour == b.hour && (a.minute < b.minute || (a.minute == b.minute &&
            (a.second < b.second || (a.second == b.second && a.nanos < b.nanos)))))
  {
    var x, y := Fields(a), Fields(b);
    assert FieldsLess(x[6..], y[6..]) <==> a.nanos < b.nanos;
    assert x[5..][1..] == x[6..] && y[5..][1..] == y[6..];
    assert x[4..][1..] == x[5..] && y[4..][1..] == y[5..];
    assert x[3..][1..] == x[4..] && y[3..][1..] == y[4..];
    assert FieldsLess(x[5..], y[5..]) <==> a.second < b.second || (a.second == b.second && FieldsLess(x[6..], y[6..]));
    assert FieldsLess(x[4..], y[4..]) <==> a.minute < b.minute || (a.minute == b.minute && FieldsLess(x[5..], y[5..]));
  }

  lemma ShapesMatch(a: Civil, b: Civil)
    requires Valid(a) && Valid(b)
    ensures SameShape(Fields(a), Fields(b))
  {
    assert Pow10(4) == 10 * Pow10(3) == 100 * Pow10(2) == 1000 * Pow10(1) == 10000;
    assert Pow10(9) == 10 * Pow10(8) == 100 * Pow10(7) == 1000 * Pow10(6) == 10000 * Pow10(5) == 100000 * Pow10(4);
  }

  /** Lexicographic order of formatted timestamps is chronological order, for the years 0 to 9999. */
  lemma TextOrderIsTimeOrder(a: Civil, b: Civil)
    requires Valid(a) && Valid(b)
    ensures Lex.Less(Format(a), Format(b)) <==> Instant(a) < Instant(b)
    ensures Format(a) == Format(b) <==> Instant(a) == Instant(b)
  {
    ShapesMatch(a, b);
    ShapesMatch(b, a);
    LayoutOrder(Fields(a), Fields(b));
    LayoutOrder(Fields(b), Fields(a));
    UnfoldLess(a, b);
    UnfoldLess(b, a);
    if FieldsLess(Fields(a), Fields(b)) { FieldOrderIsTimeOrder(a, b); }
    if FieldsLess(Fields(b), Fields(a)) { FieldOrderIsTimeOrder(b, a); }
    Lex.Irreflexive(Format(a));
  }

  // ---- Reading a timestamp back ----

  /** A decimal number. */
  function Number(s: string): int {
    if s == "" then 0 else 10 * Number(s[..|s| - 1]) + (s[|s| - 1] as int - '0' as int)
  }

  /** Blocks of digits of given widths, each followed by a separator. */
  function Read(s: string, shape: seq<(nat, char)>): Option<seq<int>> {
    if shape == [] then (if s == "" then Some([]) else None)
    else
      var (w, after) := shape[0];
      if |s| <= w || s[w] != after then None
      else match Read(s[w + 1..], shape[1..])
           case None => None
           case Some(values) => Some([Number(s[..w])] + values)
  }

  /** 2006-01-02T15:04:05.000000000Z */
  const SHAPE: seq<(nat, char)> := [(4, '-'), (2, '-'), (2, 'T'), (2, ':'), (2, ':'), (2, '.'), (9, 'Z')]

  lemma {:induction false} NumberOfDigits(n: nat, w: nat)
    requires n < Pow10(w)
    ensures Number(Digits(n, w)) == n
  {
    if w > 0 {
      NumberOfDigits(n / 10, w - 1);
      assert Digits(n, w)[..w - 1] == Digits(n / 10, w - 1);
    }
  }

  function Values(fields: seq<Field>): seq<int> {
    seq(|fields|, i requires 0 <= i < |fields| => fields[i].value)
  }

  function ShapeOf(fields: seq<Field>): seq<(nat, char)> {
    seq(|fields|, i requires 0 <= i < |fields| => (fields[i].width, fields[i].after))
  }

  predicate FitWidths(fields: seq<Field>) {
    forall f :: f in fields ==> f.value < Pow10(f.width)
  }

  lemma FirstField(fields: seq<Field>)
    requires fields != []
    ensures ShapeOf(fields) == [(fields[0].width, fields[0].after)] + ShapeOf(fields[1..])
    ensures Values(fields) == [fields[0].value as int] + Values(fields[1..])
    ensures FitWidths(fields) ==> fields[0].value < Pow10(fields[0].width) && FitWidths(fields[1..])
  {
  }

  lemma ReadFirst(digits: string, rest: string, shape: seq<(nat, char)>)
    requires shape != [] && |digits| == shape[0].0
    ensures Read(digits + ([shape[0].1] + rest), shape) ==
            match Read(rest, shape[1..]) case None => None case Some(values) => Some([Number(digits)] + values)
  {
    var s := digits + ([shape[0].1] + rest);
    assert s[..|digits|] == digits && s[|digits| + 1..] == rest;
  }

  lemma {:induction false} LayoutReads(fields: seq<Field>)
    requires FitWidths(fields)
    ensures Read(Layout(fields), ShapeOf(fields)) == Some(Values(fields))
  {
    if fields == [] {
      assert ShapeOf(fields) == [] && Values(fields) == [];
    } else {
      FirstField(fields);
      NumberOfDigits(fields[0].value, fields[0].width);
      LayoutReads(fields[1..]);
      assert ShapeOf(fields)[1..] == ShapeOf(fields[1..]);
      ReadFirst(Digits(fields[0].value, fields[0].width), Layout(fields[1..]), ShapeOf(fields));
    }
  }

  /** A stored timestamp reads back to the time it was written from, to the nanosecond. */
  lemma ReadsBack(t: Civil)
    requires Valid(t)
    ensures var r := Read(Format(t), SHAPE);
            r.Some? && r.value == [t.year, t.month, t.day, t.hour, t.minute, t.second, t.nanos]
  {
    var x := Fields(t);
    ShapesMatch(t, t);
    LayoutReads(x);
    assert ShapeOf(x) == SHAPE && Values(x) == [t.year, t.month, t.day, t.hour, t.minute, t.second, t.nanos];
  }
}
