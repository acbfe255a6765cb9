/** The Gregorian calendar, day by day, and day numbers by closed formulas. */
module Calendar {
  import opened Powers

  /** Division as in C, towards zero. */
  function Div(x: int, y: int): int
    requires y > 0
  {
    if x >= 0 then x / y else -((-x) / y)
  }

  function Mod(x: int, y: int): int
    requires y > 0
  {
    x - y * Div(x, y)
  }

  datatype YearMonthDay = YearMonthDay(year: int, month: int, day: int)

  // ----- the calendar -----

  predicate IsLeap(year: int) {
    year % 4 == 0 && (year % 100 != 0 || year % 400 == 0)
  }

  function DaysIn(year: int, month: int): int {
    if month == 2 then (if IsLeap(year) then 29 else 28)
    else if month == 4 || month == 6 || month == 9 || month == 11 then 30
    else 31
  }

  predicate Valid(d: YearMonthDay) {
    1 <= d.month <= 12 && 1 <= d.day <= DaysIn(d.year, d.month)
  }

  function NextDay(d: YearMonthDay): YearMonthDay {
    if d.day < DaysIn(d.year, d.month) then d.(day := d.day + 1)
    else if d.month < 12 then YearMonthDay(d.year, d.month + 1, 1)
    else YearMonthDay(d.year + 1, 1, 1)
  }

  /** From the first of March of the year -4800 on. */
  predicate Covered(d: YearMonthDay) {
    d.year > -4800 || (d.year == -4800 && d.month >= 3)
  }

  // ----- the formulas -----

  function JulianDayNumber(year: int, month: int, day: int): int {
    var a := Div(14 - month, 12);
    var y := year + 4800 - a;
    var m := month + 12 * a - 3;
    day + Div(153 * m + 2, 5) + y * 365 + Div(y, 4) - Div(y, 100) + Div(y, 400) - 32045
  }

  function DateOf(julianDayNumber: int): YearMonthDay {
    var a := julianDayNumber + 32044;
    var b := Div(4 * a + 3, 146097);
    var c := a - Div(b * 146097, 4);
    var d := Div(4 * c + 3, 1461);
    var e := c - Div(1461 * d, 4);
    var m := Div(5 * e + 2, 153);
    YearMonthDay(b * 100 + d - 4800 + Div(m, 10), m + 3 - 12 * Div(m, 10), e - Div(153 * m + 2, 5) + 1)
  }

  function Number(d: YearMonthDay): int {
    JulianDayNumber(d.year, d.month, d.day)
  }

  // ----- counting from March -----

  /** The year counted from -4800 and begun in March, and the month counted from March. */
  function MarchYear(d: YearMonthDay): int {
    d.year + 4800 - if d.month < 3 then 1 else 0
  }

  function MarchMonth(d: YearMonthDay): int {
    d.month - 3 + if d.month < 3 then 12 else 0
  }

  /** The number of days since the first of March. */
  function MarchDay(d: YearMonthDay): int {
    (153 * MarchMonth(d) + 2) / 5 + d.day - 1
  }

  lemma CoveredYear(d: YearMonthDay)
    requires 1 <= d.month <= 12
    ensures Covered(d) <==> MarchYear(d) >= 0
  {
  }

  /** Days of whole centuries, of whole years since, and since the first of March. */
  lemma NumberParts(d: YearMonthDay)
    requires Valid(d) && Covered(d)
    ensures var y := MarchYear(d);
            y >= 0 && Number(d) + 32044 == (y / 100 * 146097) / 4 + (1461 * (y % 100)) / 4 + MarchDay(d)
  {
    CoveredYear(d);
    var y := MarchYear(d);
    var b, r := y / 100, y % 100;
    assert y == 100 * b + r;
    assert y / 4 == 25 * b + r / 4;
    assert y / 400 == b / 4;
    PlainDays(b, r);
  }

  /** The day of the year tells the month, and only a leap year has a 366th day, its last. */
  lemma MarchDayMonth(d: YearMonthDay)
    requires Valid(d)
    ensures 0 <= MarchDay(d) <= 365 && (MarchDay(d) == 365 ==> IsLeap(MarchYear(d) + 1))
    ensures (5 * MarchDay(d) + 2) / 153 == MarchMonth(d)
  {
  }

  lemma CenturyBack(b: int, c: int)
    requires b >= 0 && 0 <= c <= 36524 && (c == 36524 ==> b % 4 == 3)
    ensures (4 * ((b * 146097) / 4 + c) + 3) / 146097 == b
  {
    assert 4 * ((b * 146097) / 4) == b * 146097 - b % 4;
  }

  lemma YearBack(r: int, e: int)
    requires 0 <= r < 100 && 0 <= e <= 365 && (e == 365 ==> r % 4 == 3)
    ensures (4 * ((1461 * r) / 4 + e) + 3) / 1461 == r
  {
    assert 4 * ((1461 * r) / 4) == 1461 * r - r % 4;
  }

  lemma LeapNext(y: int)
    requires y >= 0 && IsLeap(y + 1)
    ensures y % 100 % 4 == 3 && (y % 100 == 99 ==> y / 100 % 4 == 3)
  {
    hide IsLeap;
    assert y == 100 * (y / 100) + y % 100;
    LeapParts(y / 100, y % 100);
  }

  lemma DateOfSteps(a: int, b: int, c: int, d: int, e: int, m: int)
    requires a >= 0 && b == (4 * a + 3) / 146097 && c == a - (b * 146097) / 4 >= 0
    requires d == (4 * c + 3) / 1461 && e == c - (1461 * d) / 4 >= 0 && m == (5 * e + 2) / 153
    ensures DateOf(a - 32044) ==
            YearMonthDay(b * 100 + d - 4800 + m / 10, m + 3 - 12 * (m / 10), e - (153 * m + 2) / 5 + 1)
  {
    hide Div;
    assert b >= 0 && d >= 0 && m >= 0;
    PlainDiv(4 * a + 3, 146097);
    PlainDiv(b * 146097, 4);
    PlainDiv(4 * c + 3, 1461);
    PlainDiv(1461 * d, 4);
    PlainDiv(5 * e + 2, 153);
    PlainDiv(153 * m + 2, 5);
    PlainDiv(m, 10);
  }

  lemma PlainDiv(x: int, y: int)
    requires x >= 0 && y > 0
    ensures Div(x, y) == x / y
  {
  }

  lemma MarchBack(d: YearMonthDay)
    requires Valid(d)
    ensures var m, y := MarchMonth(d), MarchYear(d);
            d == YearMonthDay(y - 4800 + m / 10, m + 3 - 12 * (m / 10), MarchDay(d) - (153 * m + 2) / 5 + 1)
  {
  }

  /** Reading a date off its number. */
  lemma DateOfNumber(d: YearMonthDay)
    requires Valid(d) && Covered(d)
    ensures DateOf(Number(d)) == d && Number(d) >= -32044
  {
    hide DateOf, Number, Valid, IsLeap, MarchDay, MarchMonth, MarchYear;
    var y := MarchYear(d);
    NumberParts(d);
    MarchDayMonth(d);
    MarchBack(d);
    var b, r, e := y / 100, y % 100, MarchDay(d);
    if e == 365 {
      LeapNext(y);
    }
    var c := (1461 * r) / 4 + e;
    CenturyBack(b, c);
    YearBack(r, e);
    DateOfSteps((b * 146097) / 4 + c, b, c, r, e, MarchMonth(d));
  }

  // ----- every number from the first on is a date -----

  lemma CenturySplit(a: int) returns (b: int, c: int)
    requires a >= 0
    ensures b == (4 * a + 3) / 146097 && c == a - (b * 146097) / 4 && b >= 0
    ensures 0 <= c <= 36524 && (c == 36524 ==> b % 4 == 3)
  {
    b := (4 * a + 3) / 146097;
    c := a - (b * 146097) / 4;
    assert 4 * ((b * 146097) / 4) == b * 146097 - b % 4;
  }

  lemma YearSplit(c: int) returns (r: int, e: int)
    requires 0 <= c <= 36524
    ensures r == (4 * c + 3) / 1461 && e == c - (1461 * r) / 4
    ensures 0 <= r < 100 && 0 <= e <= 365 && (e == 365 ==> r % 4 == 3) && (r == 99 && e == 365 ==> c == 36524)
  {
    r := (4 * c + 3) / 1461;
    e := c - (1461 * r) / 4;
    assert 4 * ((1461 * r) / 4) == 1461 * r - r % 4;
  }

  lemma LeapBack(b: int, r: int)
    requires b >= 0 && 0 <= r < 100 && r % 4 == 3 && (r == 99 ==> b % 4 == 3)
    ensures IsLeap(100 * b + r + 1)
  {
    var y := 100 * b + r + 1;
    assert y % 4 == (r + 1) % 4 == 0;
    if r == 99 {
      assert y == 400 * ((b + 1) / 4);
    } else {
      assert y % 100 == r + 1;
    }
  }

  lemma MonthSplit(e: int, y: int) returns (d: YearMonthDay)
    requires 0 <= e <= 365 && y >= 0 && (e == 365 ==> IsLeap(y + 1))
    ensures var m := (5 * e + 2) / 153;
            d == YearMonthDay(y - 4800 + m / 10, m + 3 - 12 * (m / 10), e - (153 * m + 2) / 5 + 1)
    ensures Valid(d) && Covered(d) && MarchYear(d) == y && MarchDay(d) == e
  {
    var m := (5 * e + 2) / 153;
    d := YearMonthDay(y - 4800 + m / 10, m + 3 - 12 * (m / 10), e - (153 * m + 2) / 5 + 1);
    LeapShift(y + 1);
  }

  lemma LeapShift(y: int)
    ensures IsLeap(y) <==> IsLeap(y - 4800)
  {
    Shift4(y);
    Shift100(y);
    Shift400(y);
  }

  lemma Shift4(y: int)
    ensures (y - 4800) % 4 == y % 4
  {
  }

  lemma Shift100(y: int)
    ensures (y - 4800) % 100 == y % 100
  {
  }

  lemma Shift400(y: int)
    ensures (y - 4800) % 400 == y % 400
  {
  }

  /** Numbering the date read off a number. */
  lemma NumberOfDate(n: int)
    requires n >= -32044
    ensures Valid(DateOf(n)) && Covered(DateOf(n)) && Number(DateOf(n)) == n
  {
    hide DateOf, Number, Valid, IsLeap, MarchDay, MarchYear, Covered;
    var a := n + 32044;
    var b, c := CenturySplit(a);
    var r, e := YearSplit(c);
    if e == 365 {
      LeapBack(b, r);
    }
    var y := 100 * b + r;
    var d := MonthSplit(e, y);
    DateOfSteps(a, b, c, r, e, (5 * e + 2) / 153);
    NumberParts(d);
    assert y / 100 == b && y % 100 == r;
  }

  // ----- the calendar and the numbers -----

  lemma MarchNext(d: YearMonthDay)
    requires Valid(d) && Covered(d)
    ensures var n := NextDay(d);
            && Valid(n) && Covered(n)
            && (if MarchYear(n) == MarchYear(d) then MarchDay(n) == MarchDay(d) + 1
                else (MarchYear(n) == MarchYear(d) + 1 && MarchDay(n) == 0
                      && MarchDay(d) == if IsLeap(n.year) then 365 else 364))
  {
  }

  /** The days up to the first of March of a year. */
  lemma YearDays(y: int)
    requires y >= 0
    ensures var f := (x: int) => (x / 100 * 146097) / 4 + (1461 * (x % 100)) / 4;
            f(y + 1) == f(y) + if IsLeap(y + 1) then 366 else 365
  {
    hide IsLeap;
    var b, r := y / 100, y % 100;
    assert y == 100 * b + r;
    PlainDays(b, r);
    LeapParts(b, r);
    if r == 99 {
      assert (y + 1) / 100 == b + 1 && (y + 1) % 100 == 0;
      PlainDays(b + 1, 0);
    } else {
      assert (y + 1) / 100 == b && (y + 1) % 100 == r + 1;
      PlainDays(b, r + 1);
    }
  }

  lemma PlainDays(b: int, r: int)
    requires b >= 0 && 0 <= r < 100
    ensures (b * 146097) / 4 == 36524 * b + b / 4 && (1461 * r) / 4 == 365 * r + r / 4
  {
  }

  lemma LeapParts(b: int, r: int)
    requires b >= 0 && 0 <= r < 100
    ensures IsLeap(100 * b + r + 1) <==> (r + 1) % 4 == 0 && (r == 99 ==> (b + 1) % 4 == 0)
  {
    var y := 100 * b + r + 1;
    var q, x := (r + 1) / 4, (r + 1) % 4;
    assert r + 1 == 4 * q + x && y == 4 * (25 * b + q) + x;
    DivMod(4, 25 * b + q, x);
    if r == 99 {
      var u, v := (b + 1) / 4, (b + 1) % 4;
      assert b + 1 == 4 * u + v && y == 100 * (b + 1) + 0 == 400 * u + 100 * v;
      DivMod(100, b + 1, 0);
      DivMod(400, u, 100 * v);
    } else {
      DivMod(100, b, r + 1);
    }
  }

  /** The next day of the calendar has the next number. */
  lemma NextNumber(d: YearMonthDay)
    requires Valid(d) && Covered(d)
    ensures Valid(NextDay(d)) && Covered(NextDay(d)) && Number(NextDay(d)) == Number(d) + 1
  {
    hide Number, Valid, IsLeap, MarchDay, MarchYear, Covered, NextDay;
    MarchNext(d);
    NumberParts(d);
    NumberParts(NextDay(d));
    if MarchYear(NextDay(d)) != MarchYear(d) {
      YearDays(MarchYear(d));
      MarchLeap(d, NextDay(d));
    }
  }

  lemma MarchLeap(d: YearMonthDay, n: YearMonthDay)
    requires MarchDay(n) == 0 && Valid(n) && MarchYear(n) == MarchYear(d) + 1
    ensures IsLeap(MarchYear(d) + 1) <==> IsLeap(n.year)
  {
    LeapShift(MarchYear(n));
  }

  /** Before the first of March of -4800 the formulas do not undo each other: such a date never comes back. */
  lemma Uncovered(d: YearMonthDay)
    requires Valid(d) && !Covered(d)
    ensures DateOf(Number(d)) != d
  {
    hide Valid, IsLeap, MarchDay, MarchYear;
    EarlyNumber(d);
    if Number(d) == -32044 {
      EarliestDate();
    } else {
      NegativeDate(Number(d));
      hide *;
      ValidDay(d);
    }
  }

  lemma ValidDay(d: YearMonthDay)
    requires Valid(d)
    ensures d.day >= 1
  {
  }

  /** The round trip works exactly for the dates from the first of March of -4800 on. */
  lemma DateRoundTrip(d: YearMonthDay)
    requires Valid(d)
    ensures DateOf(Number(d)) == d <==> Covered(d)
  {
    if Covered(d) {
      DateOfNumber(d);
    } else {
      Uncovered(d);
    }
  }

  lemma EarlyNumber(d: YearMonthDay)
    requires Valid(d) && !Covered(d)
    ensures Number(d) <= -32044
  {
  }

  lemma EarliestDate()
    ensures DateOf(-32044) == YearMonthDay(-4800, 3, 1)
  {
    DateOfSteps(0, 0, 0, 0, 0, 0);
  }

  lemma NegativeDate(n: int)
    requires n < -32044
    ensures DateOf(n).day <= 0
  {
  }
}
