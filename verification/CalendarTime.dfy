/** gmtime_r and mktime, in the machine's 32-bit and 64-bit integers. */
module CalendarTime {
  import opened Calendar
  import opened Powers

  type Int64 = x: int | -0x8000_0000_0000_0000 <= x < 0x8000_0000_0000_0000

  const MAX_DAYS: int := 2000000000

  /** The years mktime looks at, either side of year 0. */
  const MAX_YEARS: int := 5800000

  /** A broken-down time. */
  class Tm {
    var sec: Int32
    var min: Int32
    var hour: Int32
    var mday: Int32
    var mon: Int32
    var year: Int32
    var wday: Int32
    var yday: Int32
    var isdst: Int32

    /** The day the fields name. */
    function Day(): int
      reads this
    {
      DaysFromCivil(year + 1900, mon + 1, mday)
    }

    /** The fields, every one in its range, are those of instant t. */
    ghost predicate Shows(t: int)
      reads this
    {
      && 0 <= sec < 60 && 0 <= min < 60 && 0 <= hour < 24 && IsDate(Date(year + 1900, mon + 1, mday))
      && t == Day() * 86400 + hour * 3600 + min * 60 + sec
      && 0 <= wday < 7 && (Day() + 4 - wday) % 7 == 0
      && yday == Day() - DaysFromCivil(year + 1900, 1, 1) && 0 <= yday < 366 && isdst == 0
    }

    /** The instant the fields mean, in range or not: months carry into years, and all below into days. */
    ghost function Meaning(): int
      reads this
    {
      FirstOfMonth() * 86400 + (mday - 1) * 86400 + hour * 3600 + min * 60 + sec
    }

    ghost function MeantYear(): int
      reads this
    {
      year + 1900 + FloorDiv(mon, 12)
    }

    ghost function FirstOfMonth(): int
      reads this
    {
      DaysFromCivil(MeantYear(), mon - FloorDiv(mon, 12) * 12 + 1, 1)
    }
  }

  /** How large the parts of a day number get. */
  lemma PartsInRange(z0: int)
    requires -MAX_DAYS <= z0 <= MAX_DAYS
    ensures var z := z0 + 719468; var era := EraOf(z, 146097); var doe := z - era * 146097; var yoe := YearOfEra(doe);
      && -13690 <= era <= 13700 && 0 <= doe < 146097 && 0 <= yoe < 400 && 0 <= doe - YearStart(yoe) < 366
  {
    EraIs(z0 + 719468, 146097);
    hide EraOf, YearOfEra, YearStart, IsLeap, CivilFromDays;
    CivilLocated(z0);
  }

  /** The year of the era and the day of the year. */
  method YearAndDay(doe: Int32) returns (yoe: Int32, doy: Int32)
    requires 0 <= doe < 146097
    ensures yoe == YearOfEra(doe) && doy == doe - YearStart(yoe)
  {
    YearOfDay(doe);
    hide IsLeap;
    yoe := (doe - doe / 1460 + doe / 36524 - doe / 146096) / 365;
    doy := doe - (365 * yoe + yoe / 4 - yoe / 100);
  }

  /** The era and the day of the era. */
  method EraAndDay(z: Int32) returns (era: Int32, doe: Int32)
    requires -MAX_DAYS <= z - 719468 <= MAX_DAYS
    ensures era == EraOf(z, 146097) && doe == z - era * 146097 && 0 <= doe < 146097 && -13690 <= era <= 13700
  {
    PartsInRange(z - 719468);
    hide YearOfEra, YearStart, Quot;
    var low: Int32 := if z >= 0 then z else z - 146096;
    era := Quot(low, 146097);
    var eraDays: Int32 := era * 146097;
    doe := z - eraDays;
  }

  /** The month and the day of the month. */
  method MonthAndDay(doy: Int32) returns (month: Int32, day: Int32)
    requires 0 <= doy < 366
    ensures var mp := (5 * doy + 2) / 153;
      && day == doy - MonthStart(mp) + 1 && month == if mp < 10 then mp + 3 else mp - 9
  {
    var mp: Int32 := (5 * doy + 2) / 153;
    day := doy - (153 * mp + 2) / 5 + 1;
    month := if mp < 10 then mp + 3 else mp - 9;
  }

  /** civil_from_days, no step of it outside 32 bits. */
  method Civil(z0: Int32) returns (year: Int32, month: Int32, day: Int32)
    requires -MAX_DAYS <= z0 <= MAX_DAYS
    ensures Date(year, month, day) == CivilFromDays(z0) && -MAX_YEARS < year < MAX_YEARS
  {
    hide YearOfEra, YearStart, MonthStart, EraOf, Quot;
    PartsInRange(z0);
    var z: Int32 := z0 + 719468;
    var era, doe := EraAndDay(z);
    var yoe, doy := YearAndDay(doe);
    var y: Int32 := yoe + era * 400;
    month, day := MonthAndDay(doy);
    year := y + (if month <= 2 then 1 else 0);
  }

  /** The era and the year of the era. */
  method EraAndYear(y: Int32) returns (era: Int32, yoe: Int32)
    requires -MAX_YEARS <= y + 1 && y <= MAX_YEARS
    ensures era == EraOf(y, 400) && yoe == y - era * 400 && 0 <= yoe < 400 && -14502 < era <= 14500
  {
    EraIs(y, 400);
    hide Quot;
    var low: Int32 := if y >= 0 then y else y - 399;
    era := Quot(low, 400);
    yoe := y - era * 400;
  }

  /** The day of a year that begins in March. */
  method DayOfYear(m: Int32, d: Int32) returns (doy: Int32)
    requires 1 <= m <= 12 && 1 <= d <= 31
    ensures doy == MonthStart(if m > 2 then m - 3 else m + 9) + d - 1 && 0 <= doy < 400
  {
    doy := (153 * (if m > 2 then m - 3 else m + 9) + 2) / 5 + d - 1;
  }

  /** days_from_civil, likewise. */
  method Days(y0: Int32, m: Int32, d: Int32) returns (days: Int32)
    requires -MAX_YEARS <= y0 <= MAX_YEARS && 1 <= m <= 12 && 1 <= d <= 31
    ensures days == DaysFromCivil(y0, m, d)
  {
    hide MonthStart, EraOf, Quot;
    var y: Int32 := y0 - (if m <= 2 then 1 else 0);
    var era, yoe := EraAndYear(y);
    var doy := DayOfYear(m, d);
    var doe: Int32 := yoe * 365 + yoe / 4 - yoe / 100 + doy;
    var eraDays: Int32 := era * 146097;
    var sum: Int32 := eraDays + doe;
    days := sum - 719468;
  }

  // ---- the day of the year ---------------------------------------------------------------------------------

  /** The first of January of a date's year, found from the date's place in its era. */
  lemma JanuaryFirst(d: Date, era: int, yoe: int, doy: int)
    requires Located(d, era, yoe, doy)
    ensures DaysFromCivil(d.year, 1, 1) == era * 146097 + YearStart(yoe) - 719468
      + if d.month <= 2 then 306 else 306 - YearLength(if yoe > 0 then yoe - 1 else 399)
  {
    hide YearStart, IsLeap, DaysFromCivil;
    var first := Date(d.year, 1, 1);
    if d.month <= 2 {
      DaysOfLocated(first, era, yoe, 306);
    } else if yoe > 0 {
      DaysOfLocated(first, era, yoe - 1, 306);
      YearAfter(yoe - 1);
    } else {
      DaysOfLocated(first, era - 1, 399, 306);
      YearAfter(399);
      YearParts(0, 0, 0);
    }
  }

  lemma DayOfCivilYear(d: Date)
    requires IsDate(d)
    ensures 0 <= DaysFromCivil(d.year, d.month, d.day) - DaysFromCivil(d.year, 1, 1) < 366
  {
    hide YearStart, IsLeap, DaysFromCivil;
    var era, yoe, doy := Locate(d);
    JanuaryFirst(d, era, yoe, doy);
    DaysOfLocated(d, era, yoe, doy);
  }

  // ---- the calls ---------------------------------------------------------------------------------------------

  /** gmtime_r */
  method GmtimeR(t: Int64, out: Tm) returns (ok: bool)
    modifies out
    ensures ok <==> -MAX_DAYS <= FloorDiv(t, 86400) <= MAX_DAYS
    ensures ok ==> out.Shows(t)
    ensures !ok ==> unchanged(out)
  {
    hide DaysFromCivil, CivilFromDays, IsLeap, Quot;
    var days64: Int64 := FloorDiv(t, 86400);
    if days64 > MAX_DAYS || days64 < -MAX_DAYS {
      return false;
    }
    var days: Int32 := days64;
    var rest: Int32 := t - days64 * 86400;
    WeekDay(days);
    hide FloorDiv, Rem, Tm.Shows, IsDate, MonthDays;
    out.hour := rest / 3600;
    out.min := rest % 3600 / 60;
    out.sec := rest % 60;
    out.wday := Rem(Rem(days + 4, 7) + 7, 7);
    var year, month, day := Civil(days);
    DaysOfCivil(days);
    DayOfCivilYear(Date(year, month, day));
    out.year := year - 1900;
    out.mon := month - 1;
    out.mday := day;
    var first := Days(year, 1, 1);
    out.yday := days - first;
    out.isdst := 0;
    ShowsDay(out, days, rest);
    return true;
  }

  /** Fields filled from a day and a second of it show the instant. */
  lemma ShowsDay(tm: Tm, days: int, rest: int)
    requires 0 <= rest < 86400 && Date(tm.year + 1900, tm.mon + 1, tm.mday) == CivilFromDays(days)
    requires tm.hour == rest / 3600 && tm.min == rest % 3600 / 60 && tm.sec == rest % 60 && tm.isdst == 0
    requires tm.wday == Rem(Rem(days + 4, 7) + 7, 7) && tm.yday == days - DaysFromCivil(tm.year + 1900, 1, 1)
    ensures tm.Shows(days * 86400 + rest)
  {
    hide DaysFromCivil, CivilFromDays, IsLeap, FloorDiv, Rem, MonthDays;
    TimeOfDay(rest);
    WeekDay(days);
    DaysOfCivil(days);
    DayOfCivilYear(CivilFromDays(days));
  }

  lemma TimeOfDay(rest: int)
    requires 0 <= rest < 86400
    ensures var h, m, s := rest / 3600, rest % 3600 / 60, rest % 60;
      0 <= h < 24 && 0 <= m < 60 && 0 <= s < 60 && rest == h * 3600 + m * 60 + s
  {
    var h, r := rest / 3600, rest % 3600;
    DivModUnique(rest, 60 * h + r / 60, 60, r % 60);
  }

  lemma WeekDay(days: int)
    ensures var w := Rem(Rem(days + 4, 7) + 7, 7); 0 <= w < 7 && (days + 4 - w) % 7 == 0
  {
  }

  /** What 32 bits hold of x. */
  function Wrapped(x: int): (r: Int32)
    ensures (r - x) % 0x1_0000_0000 == 0 && (-0x8000_0000 <= x < 0x8000_0000 ==> r == x)
  {
    (x + 0x8000_0000) % 0x1_0000_0000 - 0x8000_0000
  }

  /** The months in the whole years of `mon`: they fit 32 bits for all but the last eight months there are. */
  lemma WholeYearsFit(mon: Int32)
    ensures -0x8000_0000 <= FloorDiv(mon, 12) * 12 < 0x8000_0000 <==> mon >= -2147483640
  {
  }

  /** The earliest of all months is one of the eight. */
  lemma WholeYearsOverflow()
    ensures FloorDiv(-0x8000_0000, 12) * 12 == -2147483652
  {
  }

  /** Where they do not, the month of the year comes out right nevertheless, two wraps cancelling. */
  lemma MonthLeft(mon: Int32)
    ensures var left := mon - FloorDiv(mon, 12) * 12;
      0 <= left < 12 && Wrapped(mon - Wrapped(FloorDiv(mon, 12) * 12)) == left
  {
    hide Wrapped;
    var whole := FloorDiv(mon, 12) * 12;
    assert 0 <= mon - whole < 12;
    hide FloorDiv;
    var once := Wrapped(whole);
    WrapsCancel(mon - whole, once - whole, Wrapped(mon - once) - (mon - once));
  }

  lemma WrapsCancel(left: int, a: int, b: int)
    requires 0 <= left < 12 && a % 0x1_0000_0000 == 0 && b % 0x1_0000_0000 == 0
    requires -0x8000_0000 <= left - a + b < 0x8000_0000
    ensures a == b
  {
  }

  /** mktime: what the fields mean, and the fields put in order. */
  method Mktime(tm: Tm) returns (t: Int64, ok: bool)
    modifies tm
    ensures ok <==> old(-MAX_YEARS <= tm.MeantYear() <= MAX_YEARS
      && -MAX_DAYS <= FloorDiv(tm.Meaning(), 86400) <= MAX_DAYS)
    ensures ok ==> t == old(tm.Meaning()) && tm.Shows(t)
    ensures !ok ==> t == -1 && unchanged(tm)
  {
    hide DaysFromCivil, CivilFromDays, IsLeap, Quot, Wrapped;
    var year: Int64 := tm.year + 1900;
    var mon: Int32 := tm.mon;
    var years: Int32 := FloorDiv(mon, 12);
    year := year + years;
    MonthLeft(mon);
    var whole: Int32 := Wrapped(years * 12);
    mon := Wrapped(mon - whole);
    if year > MAX_YEARS || year < -MAX_YEARS {
      return -1, false;
    }
    var seconds: Int64 := tm.hour * 3600 + tm.min * 60 + tm.sec;
    var carry: Int64 := FloorDiv(seconds, 86400);
    var secondOfDay: Int64 := seconds - carry * 86400;
    var first := Days(year, mon + 1, 1);
    var days: Int64 := first + (tm.mday - 1) + carry;
    FloorUnique(days, secondOfDay);
    if days > MAX_DAYS || days < -MAX_DAYS {
      return -1, false;
    }
    t := days * 86400 + secondOfDay;
    ok := GmtimeR(t, tm);
  }

  lemma FloorUnique(days: int, rest: int)
    requires 0 <= rest < 86400
    ensures FloorDiv(days * 86400 + rest, 86400) == days
  {
    hide Quot;
  }

  // ---- the calls together -----------------------------------------------------------------------------------

  lemma YearInRange(z: int)
    requires -MAX_DAYS <= z <= MAX_DAYS
    ensures -MAX_YEARS < CivilFromDays(z).year < MAX_YEARS
  {
    PartsInRange(z);
    hide YearOfEra, YearStart, EraOf;
  }

  /** Fields in order mean the instant they show, and mktime's own bound on years lets them pass. */
  lemma ShownIsMeant(tm: Tm, t: int)
    requires tm.Shows(t) && -MAX_DAYS <= FloorDiv(t, 86400) <= MAX_DAYS
    ensures tm.Meaning() == t && -MAX_YEARS <= tm.MeantYear() <= MAX_YEARS
  {
    hide DaysFromCivil, CivilFromDays, IsLeap, FloorDiv;
    FloorUnique(tm.Day(), tm.hour * 3600 + tm.min * 60 + tm.sec);
    CivilOfDays(Date(tm.year + 1900, tm.mon + 1, tm.mday));
    YearInRange(tm.Day());
    NoCarry(tm.mon);
    SameYearStart(tm.year + 1900, tm.mon + 1, tm.mday);
  }

  lemma NoCarry(mon: int)
    requires 0 <= mon < 12
    ensures FloorDiv(mon, 12) == 0
  {
    hide Quot;
  }

  lemma SameYearStart(y: int, m: int, d: int)
    ensures DaysFromCivil(y, m, d) == DaysFromCivil(y, m, 1) + (d - 1)
  {
    hide EraOf;
  }

  /** mktime(gmtime_r(t)) == t for every instant gmtime_r takes. */
  method ThereAndBack(t: Int64, tm: Tm) returns (back: Int64, ok: bool)
    modifies tm
    ensures ok <==> -MAX_DAYS <= FloorDiv(t, 86400) <= MAX_DAYS
    ensures ok ==> back == t && tm.Shows(t)
  {
    hide FloorDiv, Tm.Shows, Tm.Meaning, Tm.MeantYear;
    back := -1;
    ok := GmtimeR(t, tm);
    if ok {
      ShownIsMeant(tm, t);
      back, ok := Mktime(tm);
    }
  }

  lemma OneTimeOfDay(h: int, m: int, s: int, h2: int, m2: int, s2: int)
    requires 0 <= s < 60 && 0 <= m < 60 && 0 <= s2 < 60 && 0 <= m2 < 60
    requires h * 3600 + m * 60 + s == h2 * 3600 + m2 * 60 + s2
    ensures h == h2 && m == m2 && s == s2
  {
    DivModUnique(h * 3600 + m * 60 + s, h * 60 + m, 60, s);
    DivModUnique(h2 * 3600 + m2 * 60 + s2, h2 * 60 + m2, 60, s2);
  }

  lemma OneWeekDay(day: int, w: int, w2: int)
    requires 0 <= w < 7 && 0 <= w2 < 7 && (day + 4 - w) % 7 == 0 && (day + 4 - w2) % 7 == 0
    ensures w == w2
  {
  }

  /** An instant is shown by one set of fields only. */
  lemma ShownOnce(a: Tm, b: Tm, t: int)
    requires a.Shows(t) && b.Shows(t)
    ensures a.sec == b.sec && a.min == b.min && a.hour == b.hour && a.mday == b.mday && a.mon == b.mon
    ensures a.year == b.year && a.wday == b.wday && a.yday == b.yday
  {
    hide DaysFromCivil, CivilFromDays, FloorDiv, IsDate;
    FloorUnique(a.Day(), a.hour * 3600 + a.min * 60 + a.sec);
    FloorUnique(b.Day(), b.hour * 3600 + b.min * 60 + b.sec);
    CivilOfDays(Date(a.year + 1900, a.mon + 1, a.mday));
    CivilOfDays(Date(b.year + 1900, b.mon + 1, b.mday));
    OneTimeOfDay(a.hour, a.min, a.sec, b.hour, b.min, b.sec);
    OneWeekDay(a.Day(), a.wday, b.wday);
  }

  /**
   * mktime turns down a year beyond its own bound even when the day of the month brings the instant back into range.
   */
  lemma YearBoundIsStricter(tm: Tm)
    requires tm.year == MAX_YEARS + 1 - 1900 && tm.mon == 0 && tm.mday == -200000000
    requires tm.hour == 0 && tm.min == 0 && tm.sec == 0
    ensures tm.MeantYear() > MAX_YEARS && -MAX_DAYS <= FloorDiv(tm.Meaning(), 86400) <= MAX_DAYS
  {
    NoCarry(0);
    FloorUnique(tm.FirstOfMonth() + tm.mday - 1, 0);
  }
}
