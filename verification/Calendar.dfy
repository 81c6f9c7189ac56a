/** Days since 1970 and Gregorian dates. */
module Calendar {
  import opened Powers

  type Int32 = x: int | -0x8000_0000 <= x < 0x8000_0000

  /** C's division: toward zero. */
  function Quot(a: int, b: int): int
    requires b != 0
  {
    if a >= 0 then a / b else -((-a) / b)
  }

  function Rem(a: int, b: int): int
    requires b != 0
  {
    a - Quot(a, b) * b
  }

  /** floor_div and floor_div64 */
  function FloorDiv(a: int, b: int): (q: int)
    requires b > 0
    ensures q * b <= a < q * b + b
  {
    var q := Quot(a, b);
    QuotIs(a, b);
    if Rem(a, b) != 0 && ((a < 0) != (b < 0)) then q - 1 else q
  }

  lemma QuotIs(a: int, b: int)
    requires b > 0
    ensures a >= 0 ==> Quot(a, b) * b <= a < Quot(a, b) * b + b
    ensures a < 0 ==> Quot(a, b) * b - b < a <= Quot(a, b) * b
    ensures (Quot(a, b) - 1) * b == Quot(a, b) * b - b
  {
    DivModIdentity(if a >= 0 then a else -a, b);
    var x := (-a) / b;
    assert (-x) * b == -(x * b);
    Distribute(Quot(a, b), -1, b);
  }

  // ---- the Gregorian calendar ---------------------------------------------------------------------

  datatype Date = Date(year: int, month: int, day: int)

  predicate IsLeap(y: int)
  {
    y % 4 == 0 && (y % 100 != 0 || y % 400 == 0)
  }

  function MonthDays(y: int, m: int): int
  {
    if m == 2 then (if IsLeap(y) then 29 else 28)
    else if m == 4 || m == 6 || m == 9 || m == 11 then 30 else 31
  }

  predicate IsDate(d: Date)
  {
    1 <= d.month <= 12 && 1 <= d.day <= MonthDays(d.year, d.month)
  }

  /** The day after. */
  function Next(d: Date): Date
  {
    if d.day < MonthDays(d.year, d.month) then Date(d.year, d.month, d.day + 1)
    else if d.month < 12 then Date(d.year, d.month + 1, 1)
    else Date(d.year + 1, 1, 1)
  }

  // ---- the algorithms ---------------------------------------------------------------------------------

  /** The days before year `yoe` of a 400-year era whose years begin in March. */
  function YearStart(yoe: int): int
  {
    365 * yoe + yoe / 4 - yoe / 100
  }

  /** The days before month mp of such a year, March being 0. */
  function MonthStart(mp: int): int
  {
    (153 * mp + 2) / 5
  }

  function YearOfEra(doe: int): int
  {
    (doe - doe / 1460 + doe / 36524 - doe / 146096) / 365
  }

  function EraOf(z: int, span: int): int
    requires span > 0
  {
    Quot(if z >= 0 then z else z - (span - 1), span)
  }

  /** The era is rounded down. */
  lemma EraIs(z: int, span: int)
    requires span > 0
    ensures 0 <= z - EraOf(z, span) * span < span
  {
    QuotIs(if z >= 0 then z else z - (span - 1), span);
  }

  lemma EraUnique(z: int, span: int, era: int)
    requires span > 0 && 0 <= z - era * span < span
    ensures EraOf(z, span) == era
  {
    EraIs(z, span);
    var e := EraOf(z, span);
    if e < era {
      MulMonotone(e + 1, era, span);
      Distribute(e, 1, span);
    } else if era < e {
      MulMonotone(era + 1, e, span);
      Distribute(era, 1, span);
    }
  }

  /** civil_from_days */
  function CivilFromDays(z0: int): Date
  {
    var z := z0 + 719468;
    var era := EraOf(z, 146097);
    var doe := z - era * 146097;
    var yoe := YearOfEra(doe);
    var y := yoe + era * 400;
    var doy := doe - YearStart(yoe);
    var mp := (5 * doy + 2) / 153;
    var day := doy - MonthStart(mp) + 1;
    var month := if mp < 10 then mp + 3 else mp - 9;
    Date(y + (if month <= 2 then 1 else 0), month, day)
  }

  /** days_from_civil */
  function DaysFromCivil(year: int, m: int, d: int): int
  {
    var y := year - (if m <= 2 then 1 else 0);
    var era := EraOf(y, 400);
    var yoe := y - era * 400;
    var doy := MonthStart(if m > 2 then m - 3 else m + 9) + d - 1;
    var doe := YearStart(yoe) + doy;
    era * 146097 + doe - 719468
  }

  // ---- years of an era ----------------------------------------------------------------------------------

  /** The length of such a year: its February is the next year's. */
  function YearLength(yoe: int): int
  {
    if IsLeap(yoe + 1) then 366 else 365
  }

  /** A year of an era as centuries, four-year spans and years. */
  lemma YearParts(c: int, q: int, r: int)
    requires 0 <= c < 4 && 0 <= q < 25 && 0 <= r < 4
    ensures var y := 100 * c + 4 * q + r;
      && y / 100 == c && y / 4 == 25 * c + q && YearStart(y) == 36524 * c + 1461 * q + 365 * r
      && (IsLeap(y + 1) <==> r == 3 && (q < 24 || c == 3))
  {
    var y := 100 * c + 4 * q + r;
    DivModUnique(y, c, 100, 4 * q + r);
    DivModUnique(y, 25 * c + q, 4, r);
    if r == 3 {
      DivModUnique(y + 1, 25 * c + q + 1, 4, 0);
      if q == 24 {
        DivModUnique(y + 1, c + 1, 100, 0);
      } else {
        DivModUnique(y + 1, c, 100, 4 * q + 4);
      }
    } else {
      DivModUnique(y + 1, 25 * c + q, 4, r + 1);
    }
  }

  /** The quotients the year formula uses. */
  lemma DayQuotients(c: int, q: int, r: int, doy: int)
    requires 0 <= c < 4 && 0 <= q < 25 && 0 <= r < 4
    requires 0 <= doy < if r == 3 && (q < 24 || c == 3) then 366 else 365
    ensures var doe := 36524 * c + 1461 * q + 365 * r + doy;
      && doe / 1460 == 25 * c + q + (if 24 * c + q + 365 * r + doy >= 1460 then 1 else 0)
      && doe / 36524 == c + (if doe == 146096 then 1 else 0)
      && doe / 146096 == (if doe == 146096 then 1 else 0)
  {
    var doe := 36524 * c + 1461 * q + 365 * r + doy;
    var x := 24 * c + q + 365 * r + doy;
    assert doe == (25 * c + q) * 1460 + x;
    if x >= 1460 {
      DivModUnique(doe, 25 * c + q + 1, 1460, x - 1460);
    } else {
      DivModUnique(doe, 25 * c + q, 1460, x);
    }
    if doe == 146096 {
      DivModUnique(doe, 4, 36524, 0);
    } else {
      DivModUnique(doe, c, 36524, 1461 * q + 365 * r + doy);
      DivModUnique(doe, 0, 146096, doe);
    }
  }

  lemma PartsOfYear(yoe: int) returns (c: int, q: int, r: int)
    requires 0 <= yoe < 400
    ensures 0 <= c < 4 && 0 <= q < 25 && 0 <= r < 4 && yoe == 100 * c + 4 * q + r
  {
    c, q, r := yoe / 100, yoe % 100 / 4, yoe % 4;
  }

  /** The formula finds the year a day of the era belongs to. */
  lemma YearFound(c: int, q: int, r: int, doy: int)
    requires 0 <= c < 4 && 0 <= q < 25 && 0 <= r < 4
    requires 0 <= doy < YearLength(100 * c + 4 * q + r)
    ensures var y := 100 * c + 4 * q + r; YearOfEra(YearStart(y) + doy) == y
  {
    hide YearStart, IsLeap, YearOfEra;
    YearParts(c, q, r);
    DayQuotients(c, q, r, doy);
    var y := 100 * c + 4 * q + r;
    var doe := 36524 * c + 1461 * q + 365 * r + doy;
    var t := if 24 * c + q + 365 * r + doy >= 1460 then 1 else 0;
    var eras := if doe == 146096 then 1 else 0;
    YearSum(c, q, r, doy, t, doe, 25 * c + q + t, c + eras, eras);
    YearQuotient(doe, 25 * c + q + t, c + eras, eras, y, doy - t);
  }

  lemma YearQuotient(doe: int, fours: int, centuries: int, eras: int, y: int, rest: int)
    requires doe / 1460 == fours && doe / 36524 == centuries && doe / 146096 == eras
    requires doe - fours + centuries - eras == y * 365 + rest && 0 <= rest < 365
    ensures YearOfEra(doe) == y
  {
    DivModUnique(doe - fours + centuries - eras, y, 365, rest);
  }

  /** What is left of the day once its quotients are taken off. */
  lemma YearSum(c: int, q: int, r: int, doy: int, t: int, doe: int, fours: int, centuries: int, eras: int)
    requires 0 <= c < 4 && 0 <= q < 25 && 0 <= r < 4 && 0 <= doy < (if r == 3 && (q < 24 || c == 3) then 366 else 365)
    requires t == if 24 * c + q + 365 * r + doy >= 1460 then 1 else 0
    requires doe == 36524 * c + 1461 * q + 365 * r + doy && fours == 25 * c + q + t && centuries == c + eras
    ensures doe - fours + centuries - eras == (100 * c + 4 * q + r) * 365 + (doy - t) && 0 <= doy - t < 365
  {
  }

  /** Every day of an era belongs to a year of it. */
  lemma DayParts(doe: int) returns (c: int, q: int, r: int, doy: int)
    requires 0 <= doe < 146097
    ensures 0 <= c < 4 && 0 <= q < 25 && 0 <= r < 4 && 0 <= doy < YearLength(100 * c + 4 * q + r)
    ensures doe == YearStart(100 * c + 4 * q + r) + doy
  {
    hide YearStart, IsLeap;
    c := if doe == 146096 then 3 else doe / 36524;
    var a := doe - 36524 * c;
    q := if a / 1461 == 25 then 24 else a / 1461;
    var b := a - 1461 * q;
    r := if b / 365 >= 4 then 3 else b / 365;
    doy := b - 365 * r;
    YearParts(c, q, r);
  }

  /** The year the formula finds is one of the era's 400, and the day is a day of it. */
  lemma YearOfDay(doe: int)
    requires 0 <= doe < 146097
    ensures 0 <= YearOfEra(doe) < 400 && 0 <= doe - YearStart(YearOfEra(doe)) < YearLength(YearOfEra(doe))
  {
    hide YearStart, IsLeap, YearOfEra, YearLength;
    var c, q, r, doy := DayParts(doe);
    YearFound(c, q, r, doy);
  }

  /** And it is found from any day of the year. */
  lemma DayOfYear(yoe: int, doy: int)
    requires 0 <= yoe < 400 && 0 <= doy < YearLength(yoe)
    ensures YearOfEra(YearStart(yoe) + doy) == yoe && 0 <= YearStart(yoe) + doy < 146097
  {
    hide YearStart, IsLeap, YearOfEra;
    var c, q, r := PartsOfYear(yoe);
    YearParts(c, q, r);
    YearFound(c, q, r, doy);
  }

  // ---- months ------------------------------------------------------------------------------------------------

  /** The month of such a year a civil month is, and back. */
  function MarchBased(m: int): int
  {
    if m > 2 then m - 3 else m + 9
  }

  function CivilMonth(mp: int): int
  {
    if mp < 10 then mp + 3 else mp - 9
  }

  /** The lengths of the months the formula gives; February takes what is left of the year. */
  lemma MonthLengths(y: int, mp: int)
    requires 0 <= mp < 12
    ensures var m := CivilMonth(mp);
      && 1 <= m <= 12 && MarchBased(m) == mp
      && (mp < 11 ==> MonthStart(mp + 1) - MonthStart(mp) == MonthDays(y, m))
      && (mp == 11 ==> MonthStart(mp) + MonthDays(y, m) == if IsLeap(y) then 366 else 365)
  {
    hide IsLeap;
  }

  /** The formula finds the month of a day. */
  lemma MonthFound(mp: int, day: int)
    requires 0 <= mp < 12 && 0 <= day < (if mp < 11 then MonthStart(mp + 1) - MonthStart(mp) else 29)
    ensures (5 * (MonthStart(mp) + day) + 2) / 153 == mp
  {
  }

  /** Every day of such a year is in a month of it. */
  lemma DayInMonth(doy: int, y: int)
    requires 0 <= doy < if IsLeap(y) then 366 else 365
    ensures var mp := (5 * doy + 2) / 153; var day := doy - MonthStart(mp) + 1;
      0 <= mp < 12 && 1 <= day <= MonthDays(y, CivilMonth(mp))
  {
    hide IsLeap;
    var mp := (5 * doy + 2) / 153;
    MonthLengths(y, mp);
  }

  // ---- days and dates are the same thing ---------------------------------------------------------------------

  /** The leap years of an era are those of the calendar. */
  lemma LeapInEra(yoe: int, era: int)
    ensures IsLeap(yoe + era * 400) == IsLeap(yoe)
  {
    hide IsLeap;
    SameRest(yoe, era, 400);
    SameRest(yoe, 4 * era, 100);
    SameRest(yoe, 100 * era, 4);
    LeapRest(yoe, yoe + era * 400);
  }

  lemma SameRest(x: int, e: int, k: int)
    requires k > 0
    ensures (x + e * k) % k == x % k
  {
    DivModIdentity(x, k);
    Distribute(x / k, e, k);
    DivModUnique(x + e * k, x / k + e, k, x % k);
  }

  lemma LeapRest(y: int, y2: int)
    requires y % 4 == y2 % 4 && y % 100 == y2 % 100 && y % 400 == y2 % 400
    ensures IsLeap(y) == IsLeap(y2)
  {
  }

  /** A date as an era, a year of it and a day of that year. */
  ghost predicate Located(d: Date, era: int, yoe: int, doy: int)
  {
    && 0 <= yoe < 400 && 0 <= doy < YearLength(yoe) && IsDate(d)
    && d.year == yoe + era * 400 + (if d.month <= 2 then 1 else 0)
    && doy == MonthStart(MarchBased(d.month)) + d.day - 1
  }

  /** The date the algorithm gives is one, and lies where the day does. */
  lemma CivilLocated(z0: int)
    ensures var z := z0 + 719468; var era := EraOf(z, 146097); var doe := z - era * 146097;
      var yoe := YearOfEra(doe); Located(CivilFromDays(z0), era, yoe, doe - YearStart(yoe))
  {
    hide YearOfEra, YearStart, IsLeap, MonthStart, EraOf;
    var z := z0 + 719468;
    EraIs(z, 146097);
    var era := EraOf(z, 146097);
    var doe := z - era * 146097;
    YearOfDay(doe);
    var yoe := YearOfEra(doe);
    var doy := doe - YearStart(yoe);
    DayInMonth(doy, yoe + 1);
    MonthLengths(yoe + 1, (5 * doy + 2) / 153);
    LeapInEra(yoe + 1, era);
    SameMonth(yoe + 1, yoe + era * 400 + 1, CivilMonth((5 * doy + 2) / 153), yoe + era * 400);
  }

  lemma SameMonth(y: int, y2: int, m: int, other: int)
    requires IsLeap(y) == IsLeap(y2)
    ensures MonthDays(y, m) == MonthDays(y2, m) && (m != 2 ==> MonthDays(other, m) == MonthDays(y, m))
  {
    hide IsLeap;
  }

  /** The day number of a located date. */
  lemma DaysOfLocated(d: Date, era: int, yoe: int, doy: int)
    requires Located(d, era, yoe, doy)
    ensures DaysFromCivil(d.year, d.month, d.day) == era * 146097 + YearStart(yoe) + doy - 719468
  {
    hide YearStart, IsLeap, MonthStart, EraOf;
    EraUnique(yoe + era * 400, 400, era);
  }

  /** Every date can be located. */
  lemma Locate(d: Date) returns (era: int, yoe: int, doy: int)
    requires IsDate(d)
    ensures Located(d, era, yoe, doy)
  {
    hide YearStart, IsLeap, EraOf, MonthStart, MonthDays, YearLength;
    var y := d.year - (if d.month <= 2 then 1 else 0);
    era := EraOf(y, 400);
    EraIs(y, 400);
    yoe := y - era * 400;
    var mp := MarchBased(d.month);
    doy := MonthStart(mp) + d.day - 1;
    LeapInEra(yoe + 1, era);
    SameMonth(yoe + 1, y + 1, d.month, d.year);
    YearEnd(mp, d.day, yoe);
  }

  /** A day of a month is a day of its year. */
  lemma YearEnd(mp: int, day: int, yoe: int)
    requires 0 <= mp < 12 && 1 <= day <= MonthDays(yoe + 1, CivilMonth(mp))
    ensures 0 <= MonthStart(mp) + day - 1 < YearLength(yoe)
  {
    hide IsLeap;
    MonthLengths(yoe + 1, mp);
  }

  /** What days_from_civil gives, civil_from_days takes back: for every day number there is. */
  lemma DaysOfCivil(z: int)
    ensures var d := CivilFromDays(z); IsDate(d) && DaysFromCivil(d.year, d.month, d.day) == z
  {
    hide CivilFromDays, DaysFromCivil, YearOfEra, YearStart, EraOf, YearLength;
    CivilLocated(z);
    var n := z + 719468;
    var era := EraOf(n, 146097);
    var yoe := YearOfEra(n - era * 146097);
    DaysOfLocated(CivilFromDays(z), era, yoe, n - era * 146097 - YearStart(yoe));
  }

  /** And for every date there is. */
  lemma CivilOfDays(d: Date)
    requires IsDate(d)
    ensures CivilFromDays(DaysFromCivil(d.year, d.month, d.day)) == d
  {
    hide IsLeap, YearOfEra, YearStart, EraOf, YearLength, MonthStart, DaysFromCivil, MonthDays;
    var era, yoe, doy := Locate(d);
    DaysOfLocated(d, era, yoe, doy);
    DayOfYear(yoe, doy);
    EraUnique(era * 146097 + YearStart(yoe) + doy, 146097, era);
    InMonth(d.month, d.day, d.year);
  }

  /** The month of a date is found from the day of the year. */
  lemma InMonth(m: int, day: int, y: int)
    requires IsDate(Date(y, m, day))
    ensures var doy := MonthStart(MarchBased(m)) + day - 1;
      (5 * doy + 2) / 153 == MarchBased(m) && CivilMonth(MarchBased(m)) == m
  {
    hide IsLeap;
    MonthLengths(y, MarchBased(m));
    MonthFound(MarchBased(m), day - 1);
  }

  /** The day after has the number after. */
  lemma NextDay(d: Date)
    requires IsDate(d)
    ensures IsDate(Next(d))
    ensures var e := Next(d); DaysFromCivil(e.year, e.month, e.day) == DaysFromCivil(d.year, d.month, d.day) + 1
  {
    hide IsLeap, YearStart, EraOf, MonthStart, DaysFromCivil;
    var era, yoe, doy := Locate(d);
    DaysOfLocated(d, era, yoe, doy);
    var e := Next(d);
    if doy + 1 < YearLength(yoe) {
      NextInYear(d, era, yoe, doy);
      DaysOfLocated(e, era, yoe, doy + 1);
    } else {
      NextYear(d, era, yoe, doy);
      if yoe < 399 {
        DaysOfLocated(e, era, yoe + 1, 0);
      } else {
        DaysOfLocated(e, era + 1, 0, 0);
        YearParts(0, 0, 0);
      }
      YearAfter(yoe);
    }
  }

  lemma NextInYear(d: Date, era: int, yoe: int, doy: int)
    requires Located(d, era, yoe, doy) && doy + 1 < YearLength(yoe)
    ensures Located(Next(d), era, yoe, doy + 1)
  {
    hide IsLeap;
    LeapInEra(yoe + 1, era);
    MonthLengths(d.year, MarchBased(d.month));
  }

  /** The last day of such a year is the last of February. */
  lemma NextYear(d: Date, era: int, yoe: int, doy: int)
    requires Located(d, era, yoe, doy) && doy + 1 == YearLength(yoe)
    ensures if yoe < 399 then Located(Next(d), era, yoe + 1, 0) else Located(Next(d), era + 1, 0, 0)
  {
    hide IsLeap;
    LeapInEra(yoe + 1, era);
    MonthLengths(d.year, MarchBased(d.month));
  }

  lemma YearAfter(yoe: int)
    requires 0 <= yoe < 400
    ensures YearStart(yoe) + YearLength(yoe) == if yoe < 399 then YearStart(yoe + 1) else 146097
  {
    hide IsLeap, YearStart;
    var c, q, r := PartsOfYear(yoe);
    YearParts(c, q, r);
    if r < 3 {
      YearParts(c, q, r + 1);
    } else if q < 24 {
      YearParts(c, q + 1, 0);
    } else if c < 3 {
      YearParts(c + 1, 0, 0);
    }
  }

  lemma Epoch()
    ensures DaysFromCivil(1970, 1, 1) == 0 && CivilFromDays(0) == Date(1970, 1, 1)
  {
    assert DaysFromCivil(1970, 1, 1) == 0;
    hide DaysFromCivil, CivilFromDays;
    CivilOfDays(Date(1970, 1, 1));
  }

  /** The algorithm steps through the Gregorian calendar a day at a time, from 1970-01-01 as day 0. */
  lemma Successor(z: int)
    ensures CivilFromDays(z + 1) == Next(CivilFromDays(z)) && CivilFromDays(0) == Date(1970, 1, 1)
  {
    Epoch();
    hide CivilFromDays, DaysFromCivil, Next, IsDate;
    var d := CivilFromDays(z);
    DaysOfCivil(z);
    NextDay(d);
    CivilOfDays(Next(d));
  }
}
