/** Seconds since 1970 and the fields of UTC time. */
module UtcTime {
  import opened Calendar

  const SECONDS_PER_DAY := 86400

  datatype Tm = Tm(sec: int, min: int, hour: int, mday: int, mon: int, year: int, wday: int, yday: int)

  class Date {
    const julianDayNumber: int

    constructor (number: int)
      ensures julianDayNumber == number
    {
      julianDayNumber := number;
    }

    constructor Ymd(year: int, month: int, day: int)
      ensures julianDayNumber == JulianDayNumber(year, month, day)
    {
      julianDayNumber := JulianDayNumber(year, month, day);
    }

    function ToYearMonthDay(): YearMonthDay {
      DateOf(julianDayNumber)
    }

    function WeekDay(): int {
      Mod(julianDayNumber + 1, 7)
    }
  }

  function FillHMS(seconds: nat, utc: Tm): Tm {
    var minutes := seconds / 60;
    utc.(sec := seconds % 60, min := minutes % 60, hour := minutes / 60)
  }

  method ToUtcTime(secondsSinceEpoch: int, yday: bool) returns (utc: Tm)
    ensures utc == UtcFields(secondsSinceEpoch, yday)
  {
    hide DateOf, JulianDayNumber, Mod, Div;
    utc := Tm(0, 0, 0, 0, 0, 0, 0, 0);
    var seconds := Mod(secondsSinceEpoch, SECONDS_PER_DAY);
    var days := Div(secondsSinceEpoch, SECONDS_PER_DAY);
    FloorDay(secondsSinceEpoch);
    if seconds < 0 {
      seconds := seconds + SECONDS_PER_DAY;
      days := days - 1;
    }
    utc := FillHMS(seconds, utc);
    var date := new Date(days + JulianDayNumber(1970, 1, 1));
    var ymd := date.ToYearMonthDay();
    utc := utc.(year := ymd.year - 1900);
    utc := utc.(mon := ymd.month - 1);
    utc := utc.(mday := ymd.day);
    utc := utc.(wday := date.WeekDay());
    if yday {
      var startOfYear := new Date.Ymd(ymd.year, 1, 1);
      utc := utc.(yday := date.julianDayNumber - startOfYear.julianDayNumber);
    }
  }

  /** The day counted from 1970, and the second of that day. */
  ghost function DayOf(t: int): int {
    t / SECONDS_PER_DAY
  }

  ghost function SecondOf(t: int): nat {
    t % SECONDS_PER_DAY
  }

  ghost function UtcFields(t: int, yday: bool): Tm {
    var n := DayOf(t) + Epoch();
    var d := DateOf(n);
    var s := SecondOf(t);
    Tm(s % 60, s / 60 % 60, s / 3600, d.day, d.month - 1, d.year - 1900, Mod(n + 1, 7),
       if yday then n - JulianDayNumber(d.year, 1, 1) else 0)
  }

  ghost function Epoch(): int {
    JulianDayNumber(1970, 1, 1)
  }

  lemma EpochNumber()
    ensures Epoch() == 2440588
  {
  }

  /** Division towards zero, corrected for a negative remainder, rounds down. */
  lemma FloorDay(t: int)
    ensures var s, d := Mod(t, SECONDS_PER_DAY), Div(t, SECONDS_PER_DAY);
            (if s < 0 then s + SECONDS_PER_DAY else s) == SecondOf(t) && (if s < 0 then d - 1 else d) == DayOf(t)
  {
  }

  function FromUtcTime(year: int, month: int, day: int, hour: int, minute: int, seconds: int): int {
    var secondsInDay := hour * 3600 + minute * 60 + seconds;
    var days := JulianDayNumber(year, month, day) - JulianDayNumber(1970, 1, 1);
    days * SECONDS_PER_DAY + secondsInDay
  }

  function FromTm(utc: Tm): int {
    FromUtcTime(utc.year + 1900, utc.mon + 1, utc.mday, utc.hour, utc.min, utc.sec)
  }

  /** The first second whose date the formulas cover. */
  const FIRST_SECOND := (-32044 - 2440588) * SECONDS_PER_DAY

  /** The fields of a moment are in range and stand for it, before 1970 as well. */
  lemma UtcRoundTrip(t: int, yday: bool)
    requires t >= FIRST_SECOND
    ensures FromTm(UtcFields(t, yday)) == t
    ensures var u := UtcFields(t, yday);
            && 0 <= u.sec < 60 && 0 <= u.min < 60 && 0 <= u.hour < 24
            && Valid(YearMonthDay(u.year + 1900, u.mon + 1, u.mday))
  {
    hide DateOf, JulianDayNumber, Valid;
    EpochNumber();
    var n := DayOf(t) + Epoch();
    assert n >= -32044;
    NumberOfDate(n);
    var s := SecondOf(t);
    assert s == s / 3600 * 3600 + s / 60 % 60 * 60 + s % 60;
    assert t == DayOf(t) * SECONDS_PER_DAY + s;
  }

  /** Going the other way: a valid date and time of day comes back from its seconds. */
  lemma FieldsRoundTrip(d: YearMonthDay, hour: int, minute: int, second: int, yday: bool)
    requires Valid(d) && Covered(d) && 0 <= hour < 24 && 0 <= minute < 60 && 0 <= second < 60
    ensures var u := UtcFields(FromUtcTime(d.year, d.month, d.day, hour, minute, second), yday);
            && u.year + 1900 == d.year && u.mon + 1 == d.month && u.mday == d.day
            && u.hour == hour && u.min == minute && u.sec == second
  {
    hide DateOf, JulianDayNumber, Valid;
    DateOfNumber(d);
    var s := hour * 3600 + minute * 60 + second;
    var t := FromUtcTime(d.year, d.month, d.day, hour, minute, second);
    var days := Number(d) - Epoch();
    assert t == days * SECONDS_PER_DAY + s && 0 <= s < SECONDS_PER_DAY;
    assert DayOf(t) == days && SecondOf(t) == s;
  }

  /** The count begins on Thursday, 1 January 1970. */
  lemma EpochFields(yday: bool)
    ensures UtcFields(0, yday) == Tm(0, 0, 0, 1, 0, 70, 4, 0)
  {
    hide DateOf, JulianDayNumber;
    EpochNumber();
    DateOfNumber(YearMonthDay(1970, 1, 1));
    assert DayOf(0) == 0 && SecondOf(0) == 0;
  }

  /** Day number -1, a Sunday. */
  const FIRST_SUNDAY := -1 - 2440588

  /** Seven days make a week, counted from Thursday, 1 January 1970. The remainder is taken towards zero, so the field
      is the day of the week exactly from day number -1 on and on the Sundays before. */
  lemma WeekDayRight(t: int, yday: bool)
    ensures UtcFields(t, yday).wday == (4 + DayOf(t)) % 7 <==> DayOf(t) >= FIRST_SUNDAY || (4 + DayOf(t)) % 7 == 0
  {
    hide DateOf, JulianDayNumber;
    EpochNumber();
    assert (DayOf(t) + 2440588 + 1) % 7 == (4 + DayOf(t)) % 7;
  }

  /** A day later it is the next day of the week. */
  lemma NextWeekDay(t: int, yday: bool)
    requires DayOf(t) >= FIRST_SUNDAY
    ensures var u := UtcFields(t, yday);
            0 <= u.wday < 7 && UtcFields(t + SECONDS_PER_DAY, yday).wday == (u.wday + 1) % 7
  {
    hide DateOf, JulianDayNumber;
    assert DayOf(t + SECONDS_PER_DAY) == DayOf(t) + 1;
    WeekDayRight(t, yday);
    WeekDayRight(t + SECONDS_PER_DAY, yday);
  }

  /** The day of the year is filled in when asked for, and nothing else depends on that. */
  lemma YearDayAsked(t: int)
    ensures UtcFields(t, false) == UtcFields(t, true).(yday := 0)
  {
  }

  lemma Sixties(s: nat)
    ensures s / 3600 == s / 60 / 60
  {
  }

  lemma MinuteCarry(s: nat)
    ensures if s % 60 < 59 then (s + 1) / 60 == s / 60 && (s + 1) % 60 == s % 60 + 1
            else (s + 1) / 60 == s / 60 + 1 && (s + 1) % 60 == 0
  {
  }

  lemma SecondsCarry(s: nat)
    requires s + 1 < SECONDS_PER_DAY
    ensures var h, m, x := s / 3600, s / 60 % 60, s % 60;
            if x < 59 then (s + 1) / 3600 == h && (s + 1) / 60 % 60 == m && (s + 1) % 60 == x + 1
            else if m < 59 then (s + 1) / 3600 == h && (s + 1) / 60 % 60 == m + 1 && (s + 1) % 60 == 0
            else h < 23 && (s + 1) / 3600 == h + 1 && (s + 1) / 60 % 60 == 0 && (s + 1) % 60 == 0
  {
    Sixties(s);
    Sixties(s + 1);
    MinuteCarry(s);
    MinuteCarry(s / 60);
  }

  lemma DayCarry(t: int)
    ensures SecondOf(t) + 1 < SECONDS_PER_DAY ==> DayOf(t + 1) == DayOf(t) && SecondOf(t + 1) == SecondOf(t) + 1
    ensures SecondOf(t) + 1 == SECONDS_PER_DAY ==> DayOf(t + 1) == DayOf(t) + 1 && SecondOf(t + 1) == 0
  {
  }

  /** A second later the clock shows the next second, carrying into minutes and hours. */
  lemma NextSecond(t: int, yday: bool)
    requires SecondOf(t) < SECONDS_PER_DAY - 1
    ensures var u, v := UtcFields(t, yday), UtcFields(t + 1, yday);
            if u.sec < 59 then v == u.(sec := u.sec + 1)
            else if u.min < 59 then v == u.(sec := 0, min := u.min + 1)
            else u.hour < 23 && v == u.(sec := 0, min := 0, hour := u.hour + 1)
  {
    hide DateOf, JulianDayNumber, Mod, DayOf, SecondOf;
    SecondsCarry(SecondOf(t));
    DayCarry(t);
  }

  /** After the last second of a day comes midnight of the next day of the calendar. */
  lemma Midnight(t: int)
    requires t >= FIRST_SECOND && SecondOf(t) == SECONDS_PER_DAY - 1
    ensures var u, v := UtcFields(t, false), UtcFields(t + 1, false);
            && u.hour == 23 && u.min == 59 && u.sec == 59 && v.hour == 0 && v.min == 0 && v.sec == 0
            && YearMonthDay(v.year + 1900, v.mon + 1, v.mday) == NextDay(YearMonthDay(u.year + 1900, u.mon + 1, u.mday))
  {
    hide DateOf, JulianDayNumber, Valid, NextDay, Covered, Mod;
    DayCarry(t);
    EpochNumber();
    var n := DayOf(t) + Epoch();
    assert n >= -32044;
    hide DayOf, SecondOf;
    NumberOfDate(n);
    NextNumber(DateOf(n));
    DateOfNumber(NextDay(DateOf(n)));
  }

  /** The field for the day of the year counts up from 0 on the first of January. */
  lemma YearDay(t: int)
    requires t >= FIRST_SECOND && DateOf(DayOf(t) + Epoch()).year > -4800
    ensures var u := UtcFields(t, true);
            && 0 <= u.yday && (u.yday == 0 <==> u.mon == 0 && u.mday == 1)
            && (UtcFields(t + SECONDS_PER_DAY, true).year == u.year ==>
               UtcFields(t + SECONDS_PER_DAY, true).yday == u.yday + 1)
  {
    hide DateOf, JulianDayNumber;
    EpochNumber();
    var n := DayOf(t) + Epoch();
    assert n >= -32044;
    NumberOfDate(n);
    var d := DateOf(n);
    FirstOfYear(d);
    assert DayOf(t + SECONDS_PER_DAY) == DayOf(t) + 1;
  }

  lemma FirstOfYear(d: YearMonthDay)
    requires Valid(d) && d.year > -4800
    ensures var first := YearMonthDay(d.year, 1, 1);
            Number(d) >= Number(first) && (Number(d) == Number(first) <==> d == first)
  {
  }
}
