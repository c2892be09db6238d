/** days_from_civil (drivers/rtc/rtc.c) against the Gregorian calendar counted out year by year and
    month by month. */
module Calendar {
  import opened Words

  /** C's division, which truncates toward zero. */
  function CDiv(a: int, b: int): int
    requires b > 0
  {
    if a >= 0 then a / b else -((-a) / b)
  }

  datatype Date = Date(year: int, month: nat, day: nat)

  /** days_from_civil: int64_t year, uint32_t month and day. */
  function DaysFromCivil(t: Date): int {
    var year := t.year - if t.month <= 2 then 1 else 0;
    var era := CDiv(if year >= 0 then year else year - 399, 400);
    var yearOfEra := (year - era * 400) % TWO32;
    var shifted := (t.month + if t.month > 2 then -3 else 9) % TWO32;
    var dayOfYear := ((153 * shifted + 2) % TWO32 / 5 + t.day - 1) % TWO32;
    var dayOfEra := (yearOfEra * 365 + yearOfEra / 4 - yearOfEra / 100 + dayOfYear) % TWO32;
    era * 146097 + dayOfEra - 719468
  }

  // ---------- The calendar ----------

  predicate Leap(y: int) {
    y % 4 == 0 && (y % 100 != 0 || y % 400 == 0)
  }

  function DaysInMonth(y: int, m: nat): nat {
    if m == 2 then (if Leap(y) then 29 else 28)
    else if m == 4 || m == 6 || m == 9 || m == 11 then 30
    else 31
  }

  predicate ValidDate(t: Date) {
    1 <= t.month <= 12 && 1 <= t.day <= DaysInMonth(t.year, t.month)
  }

  function Next(t: Date): Date {
    if t.day < DaysInMonth(t.year, t.month) then Date(t.year, t.month, t.day + 1)
    else if t.month < 12 then Date(t.year, t.month + 1, 1)
    else Date(t.year + 1, 1, 1)
  }

  predicate Before(a: Date, b: Date) {
    a.year < b.year || (a.year == b.year && (a.month < b.month || (a.month == b.month && a.day < b.day)))
  }

  function YearLength(y: int): nat {
    if Leap(y) then 366 else 365
  }

  /** Days from 1970-01-01 to January 1 of year y, counted year by year. */
  function BeforeYear(y: int): int
    decreases if y < 1970 then 1970 - y else y - 1970
  {
    if y == 1970 then 0
    else if y > 1970 then BeforeYear(y - 1) + YearLength(y - 1)
    else BeforeYear(y + 1) - YearLength(y)
  }

  function BeforeMonth(y: int, m: nat): nat {
    if m <= 1 then 0 else BeforeMonth(y, m - 1) + DaysInMonth(y, m - 1)
  }

  /** The naive day count. */
  function DayNumber(t: Date): int {
    BeforeYear(t.year) + BeforeMonth(t.year, t.month) + t.day - 1
  }

  // ---------- They agree ----------

  /** The closed form without C's arithmetic: a March-based year split into 400-year eras. */
  function EraDays(y: int): int {
    y / 400 * 146097 + y % 400 * 365 + y % 400 / 4 - y % 400 / 100
  }

  function DayOfMarchYear(m: nat): int {
    (153 * (if m > 2 then m - 3 else m + 9) + 2) / 5
  }

  lemma FloorEra(y: int)
    ensures CDiv(if y >= 0 then y else y - 399, 400) == y / 400
  {
    if y < 0 {
      var q, r := y / 400, y % 400;
      assert y == 400 * q + r;
      assert -(y - 399) == 400 * (-q) + (399 - r);
    }
  }

  lemma Fits(x: int)
    requires 0 <= x < TWO32
    ensures x % TWO32 == x
  {
  }

  lemma YearOfEra(y: int)
    ensures y - y / 400 * 400 == y % 400 && 0 <= y % 400 < 400
  {
  }

  lemma {:induction false} ClosedForm(t: Date)
    requires ValidDate(t)
    ensures DaysFromCivil(t) ==
            EraDays(t.year - if t.month <= 2 then 1 else 0) + DayOfMarchYear(t.month) + t.day - 1 - 719468
  {
    assert 1 <= t.day <= 31;
    hide DaysInMonth, CDiv;
    var year := t.year - if t.month <= 2 then 1 else 0;
    FloorEra(year);
    YearOfEra(year);
    var e := year % 400;
    var shifted := if t.month > 2 then t.month - 3 else t.month + 9;
    Fits(e);
    Fits(shifted);
    Fits(153 * shifted + 2);
    assert DayOfMarchYear(t.month) == (153 * shifted + 2) / 5;
    var dayOfYear := DayOfMarchYear(t.month) + t.day - 1;
    Fits(dayOfYear);
    assert 0 <= e / 4 - e / 100 <= 100;
    Fits(e * 365 + e / 4 - e / 100 + dayOfYear);
  }

  lemma EraRemainder(y: int)
    ensures var q, r := y / 400, y % 400;
            if r == 0 then (y - 1) / 400 == q - 1 && (y - 1) % 400 == 399
            else (y - 1) / 400 == q && (y - 1) % 400 == r - 1
  {
    var q, r := y / 400, y % 400;
    assert y == 400 * q + r;
  }

  lemma Multiple4(k: int, r: int)
    ensures (4 * k + r) % 4 == r % 4
  {
  }

  lemma Multiple100(k: int, r: int)
    ensures (100 * k + r) % 100 == r % 100
  {
  }

  lemma LeapOfEra(y: int)
    ensures Leap(y) == Leap(y % 400)
  {
    var q, r := y / 400, y % 400;
    assert y == 400 * q + r;
    Multiple4(100 * q, r);
    Multiple100(4 * q, r);
    assert y % 400 == r % 400;
  }

  /** The March-based year before year y is one leap day longer exactly when y is a leap year. */
  lemma {:induction false} EraStep(y: int)
    ensures EraDays(y) == EraDays(y - 1) + YearLength(y)
  {
    EraRemainder(y);
    LeapOfEra(y);
    var r := y % 400;
    if r > 0 { Fours(r); }
  }

  lemma Fours(r: int)
    requires 0 < r < 400
    ensures r / 4 - (r - 1) / 4 == (if r % 4 == 0 then 1 else 0)
    ensures r / 100 - (r - 1) / 100 == (if r % 100 == 0 then 1 else 0)
  {
  }

  lemma {:induction false} JanuaryFirst(y: int)
    ensures DaysFromCivil(Date(y, 1, 1)) == BeforeYear(y)
    decreases if y < 1970 then 1970 - y else y - 1970
  {
    ClosedForm(Date(y, 1, 1));
    if y != 1970 { hide EraDays, YearLength, DaysFromCivil; }
    if y > 1970 {
      JanuaryFirst(y - 1);
      ClosedForm(Date(y - 1, 1, 1));
      EraStep(y - 1);
    } else if y < 1970 {
      JanuaryFirst(y + 1);
      ClosedForm(Date(y + 1, 1, 1));
      EraStep(y);
    }
  }

  /** days_from_civil is the naive Gregorian day count, for every integer year. */
  lemma {:induction false} EqualsNaiveCount(t: Date)
    requires ValidDate(t)
    ensures DaysFromCivil(t) == DayNumber(t)
  {
    JanuaryFirst(t.year);
    ClosedForm(t);
    ClosedForm(Date(t.year, 1, 1));
    EraStep(t.year);
    Months(t.year, t.month);
  }

  lemma Months(y: int, m: nat)
    requires 1 <= m <= 12
    ensures BeforeMonth(y, m) ==
            DayOfMarchYear(m) - DayOfMarchYear(1) + if m <= 2 then 0 else YearLength(y)
  {
    if m > 1 { Months(y, m - 1); }
  }

  lemma Epoch()
    ensures DaysFromCivil(Date(1970, 1, 1)) == 0
  {
    JanuaryFirst(1970);
  }

  /** One day later is one more, across month, leap-year, century and era boundaries. */
  lemma {:induction false} NextDay(t: Date)
    requires ValidDate(t)
    ensures ValidDate(Next(t)) && DaysFromCivil(Next(t)) == DaysFromCivil(t) + 1
  {
    EqualsNaiveCount(t);
    EqualsNaiveCount(Next(t));
    if t.month == 12 && t.day == 31 {
      Months(t.year, 12);
      assert BeforeYear(t.year + 1) == BeforeYear(t.year) + YearLength(t.year);
    }
  }

  lemma {:induction false} YearsGrow(a: int, b: int)
    requires a < b
    ensures BeforeYear(a) + YearLength(a) <= BeforeYear(b)
    decreases b - a
  {
    assert BeforeYear(b) == BeforeYear(b - 1) + YearLength(b - 1);
    if a < b - 1 { YearsGrow(a, b - 1); }
  }

  lemma {:induction false} MonthsGrow(y: int, a: nat, b: nat)
    requires 1 <= a < b <= 13
    ensures BeforeMonth(y, a) + DaysInMonth(y, a) <= BeforeMonth(y, b)
    ensures b == 13 ==> BeforeMonth(y, 13) == YearLength(y)
  {
    if a < b - 1 { MonthsGrow(y, a, b - 1); }
    if b == 13 { Months(y, 12); }
  }

  /** Earlier dates get smaller numbers, so no two valid dates share one. */
  lemma {:induction false} Monotone(a: Date, b: Date)
    requires ValidDate(a) && ValidDate(b)
    ensures DaysFromCivil(a) < DaysFromCivil(b) <==> Before(a, b)
    ensures DaysFromCivil(a) == DaysFromCivil(b) ==> a == b
  {
    EqualsNaiveCount(a);
    EqualsNaiveCount(b);
    if Before(a, b) { Earlier(a, b); }
    if Before(b, a) { Earlier(b, a); }
  }

  lemma {:induction false} Earlier(a: Date, b: Date)
    requires ValidDate(a) && ValidDate(b) && Before(a, b)
    ensures DayNumber(a) < DayNumber(b)
  {
    if a.year < b.year {
      YearsGrow(a.year, b.year);
      MonthsGrow(a.year, a.month, 13);
    } else if a.month < b.month {
      MonthsGrow(a.year, a.month, b.month);
    }
  }
}
