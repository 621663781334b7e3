/**
 Utc::from_unix (src/logging.rs) against the Gregorian calendar of section 3.2.1 of ISO 8601:2004,
 counted year by year and month by month.
 */
module Calendar {

  // ----- The calendar

  predicate IsLeap(y: nat) { y % 4 == 0 && (y % 100 != 0 || y % 400 == 0) }

  function DaysInYear(y: nat): nat { if IsLeap(y) then 366 else 365 }

  function DaysInMonth(y: nat, m: nat): nat
    requires 1 <= m <= 12
  {
    if m == 2 then (if IsLeap(y) then 29 else 28)
    else if m == 4 || m == 6 || m == 9 || m == 11 then 30
    else 31
  }

  function DaysBeforeYear(y: nat): nat {
    if y == 0 then 0 else DaysBeforeYear(y - 1) + DaysInYear(y - 1)
  }

  function DaysBeforeMonth(y: nat, m: nat): nat
    requires 1 <= m <= 12
  {
    if m == 1 then 0 else DaysBeforeMonth(y, m - 1) + DaysInMonth(y, m - 1)
  }

  datatype Utc = Utc(year: nat, month: nat, day: nat, hour: nat, minute: nat, second: nat) {
    predicate Valid() {
      && 1 <= month <= 12 && 1 <= day <= DaysInMonth(year, month)
      && hour < 24 && minute < 60 && second < 60
    }

    /** Days from 0000-01-01. */
    function DayNumber(): nat
      requires Valid()
    {
      DaysBeforeYear(year) + DaysBeforeMonth(year, month) + day - 1
    }

    function SecondOfDay(): nat { 3600 * hour + 60 * minute + second }
  }

  const EPOCH := Utc(1970, 1, 1, 0, 0, 0)
  const EPOCH_DAYS: nat := 719_528

  lemma {:induction false} DaysBeforeYearClosed(y: nat)
    ensures DaysBeforeYear(y) == 365 * y + (y + 3) / 4 - (y + 99) / 100 + (y + 399) / 400
  {
    if y > 0 {
      DaysBeforeYearClosed(y - 1);
      LeapDayCounts(y - 1);
    }
  }

  lemma FourthYears(y: nat)
    ensures (y + 4) / 4 == (y + 3) / 4 + if y % 4 == 0 then 1 else 0
  {
  }

  lemma Centuries(y: nat)
    ensures (y + 100) / 100 == (y + 99) / 100 + if y % 100 == 0 then 1 else 0
  {
  }

  lemma Eras(y: nat)
    ensures (y + 400) / 400 == (y + 399) / 400 + if y % 400 == 0 then 1 else 0
  {
  }

  lemma EraIsCentury(y: nat)
    ensures y % 400 == 0 ==> y % 100 == 0
    ensures y % 100 == 0 ==> y % 4 == 0
  {
    assert y % 400 == 0 ==> y == 100 * (4 * (y / 400));
    assert y % 100 == 0 ==> y == 4 * (25 * (y / 100));
  }

  /** One more year moves each count by one exactly at its multiples. */
  lemma LeapDayCounts(y: nat)
    ensures DaysInYear(y) == 365 + ((y + 4) / 4 - (y + 3) / 4) - ((y + 100) / 100 - (y + 99) / 100)
                             + ((y + 400) / 400 - (y + 399) / 400)
  {
    FourthYears(y);
    Centuries(y);
    Eras(y);
    EraIsCentury(y);
  }

  lemma EpochIsDay719528()
    ensures EPOCH.Valid() && EPOCH.DayNumber() == EPOCH_DAYS
  {
    DaysBeforeYearClosed(1970);
  }

  lemma MonthStarts(y: nat)
    ensures DaysBeforeMonth(y, 2) == 31
    ensures var l := if IsLeap(y) then 1 else 0;
            && DaysBeforeMonth(y, 3) == 59 + l && DaysBeforeMonth(y, 4) == 90 + l
            && DaysBeforeMonth(y, 5) == 120 + l && DaysBeforeMonth(y, 6) == 151 + l
            && DaysBeforeMonth(y, 7) == 181 + l && DaysBeforeMonth(y, 8) == 212 + l
            && DaysBeforeMonth(y, 9) == 243 + l && DaysBeforeMonth(y, 10) == 273 + l
            && DaysBeforeMonth(y, 11) == 304 + l && DaysBeforeMonth(y, 12) == 334 + l
  {
    assert DaysBeforeMonth(y, 3) == DaysBeforeMonth(y, 2) + DaysInMonth(y, 2);
    assert DaysBeforeMonth(y, 4) == DaysBeforeMonth(y, 3) + 31;
    assert DaysBeforeMonth(y, 5) == DaysBeforeMonth(y, 4) + 30;
    assert DaysBeforeMonth(y, 6) == DaysBeforeMonth(y, 5) + 31;
    assert DaysBeforeMonth(y, 7) == DaysBeforeMonth(y, 6) + 30;
    assert DaysBeforeMonth(y, 8) == DaysBeforeMonth(y, 7) + 31;
    assert DaysBeforeMonth(y, 9) == DaysBeforeMonth(y, 8) + 31;
    assert DaysBeforeMonth(y, 10) == DaysBeforeMonth(y, 9) + 30;
    assert DaysBeforeMonth(y, 11) == DaysBeforeMonth(y, 10) + 31;
    assert DaysBeforeMonth(y, 12) == DaysBeforeMonth(y, 11) + 30;
  }

  // ----- Order

  predicate DateBefore(a: Utc, b: Utc) {
    a.year < b.year || (a.year == b.year && (a.month < b.month || (a.month == b.month && a.day < b.day)))
  }

  predicate Before(a: Utc, b: Utc) {
    DateBefore(a, b) || (a.year == b.year && a.month == b.month && a.day == b.day && a.SecondOfDay() < b.SecondOfDay())
  }

  lemma {:induction false} YearsAddUp(a: nat, b: nat)
    requires a < b
    ensures DaysBeforeYear(a) + DaysInYear(a) <= DaysBeforeYear(b)
    decreases b
  {
    if a + 1 < b {
      YearsAddUp(a, b - 1);
    }
  }

  lemma {:induction false} MonthsAddUp(y: nat, a: nat, b: nat)
    requires 1 <= a < b <= 12
    ensures DaysBeforeMonth(y, a) + DaysInMonth(y, a) <= DaysBeforeMonth(y, b)
    decreases b
  {
    if a + 1 < b {
      MonthsAddUp(y, a, b - 1);
    }
  }

  lemma DateFitsItsYear(a: Utc)
    requires a.Valid()
    ensures DaysBeforeMonth(a.year, a.month) + a.day <= DaysInYear(a.year)
  {
    MonthStarts(a.year);
    if a.month < 12 {
      MonthsAddUp(a.year, a.month, 12);
    }
  }

  lemma EarlierDateHasFewerDays(a: Utc, b: Utc)
    requires a.Valid() && b.Valid() && DateBefore(a, b)
    ensures a.DayNumber() < b.DayNumber()
  {
    DateFitsItsYear(a);
    if a.year < b.year {
      YearsAddUp(a.year, b.year);
    } else if a.month < b.month {
      MonthsAddUp(a.year, a.month, b.month);
    }
  }

  // ----- The conversion

  /** Days from March 1 of year 0 to March 1 of year `y`. */
  function MarchStart(y: nat): nat { 365 * y + y / 4 - y / 100 + y / 400 }

  lemma MarchStartIsACount(y: nat)
    ensures MarchStart(y) + 60 == DaysBeforeYear(y) + DaysBeforeMonth(y, 3)
  {
    DaysBeforeYearClosed(y + 1);
    MonthStarts(y);
    assert (y + 4) / 4 == y / 4 + 1 && (y + 100) / 100 == y / 100 + 1 && (y + 400) / 400 == y / 400 + 1;
  }

  /** A day of the 400-year era as century, four-year block, year and day of year. */
  datatype EraDay = EraDay(c: nat, q: nat, s: nat, t: nat) {
    predicate Valid() {
      && c <= 3 && q <= 24 && s <= 3
      && t <= 365 && (t == 365 ==> s == 3 && (q < 24 || c == 3))
    }

    function Doe(): nat { 36_524 * c + 1_461 * q + 365 * s + t }

    function Yoe(): nat { 100 * c + 4 * q + s }
  }

  function Split(doe: nat): (e: EraDay)
    requires doe <= 146_096
    ensures e.Valid() && e.Doe() == doe
  {
    var c := if doe / 36_524 < 3 then doe / 36_524 else 3;
    var d := doe - 36_524 * c;
    var q := d / 1_461;
    var y := d - 1_461 * q;
    var s := if y / 365 < 3 then y / 365 else 3;
    EraDay(c, q, s, y - 365 * s)
  }

  lemma CenturyOfEra(e: EraDay)
    requires e.Valid()
    ensures e.Doe() / 36_524 - e.Doe() / 146_096 == e.c
  {
    var d := 1_461 * e.q + 365 * e.s + e.t;
    assert d <= 36_524 && (d == 36_524 ==> e.c == 3);
    if d == 36_524 {
      assert e.Doe() == 146_096;
    } else {
      assert e.Doe() / 36_524 == e.c && e.Doe() < 146_096;
    }
  }

  /** The correction terms count exactly the leap days before the day. */
  lemma YearOfEra(e: EraDay)
    requires e.Valid()
    ensures var doe := e.Doe();
            && doe / 1_460 <= doe + doe / 36_524
            && doe / 146_096 <= doe - doe / 1_460 + doe / 36_524
            && (doe - doe / 1_460 + doe / 36_524 - doe / 146_096) / 365 == e.Yoe()
  {
    var doe := e.Doe();
    var r := 24 * e.c + e.q + 365 * e.s + e.t;
    assert doe == 1_460 * (25 * e.c + e.q) + r;
    var over := if r >= 1_460 then 1 else 0;
    assert doe / 1_460 == 25 * e.c + e.q + over;
    CenturyOfEra(e);
    assert doe - doe / 1_460 + doe / 36_524 - doe / 146_096 == 365 * e.Yoe() + (e.t - over);
    assert 0 <= e.t - over <= 364;
  }

  lemma DayOfYear(e: EraDay)
    requires e.Valid()
    ensures var yoe := e.Yoe();
            yoe <= 399 && 365 * yoe + yoe / 4 - yoe / 100 + e.t == e.Doe()
  {
    assert e.Yoe() / 4 == 25 * e.c + e.q;
    assert e.Yoe() / 100 == e.c;
  }

  lemma EraParts(doe: nat)
    requires doe <= 146_096
    ensures doe / 1_460 <= doe + doe / 36_524 && doe / 146_096 <= doe - doe / 1_460 + doe / 36_524
    ensures var yoe := (doe - doe / 1_460 + doe / 36_524 - doe / 146_096) / 365;
            && yoe == Split(doe).Yoe() <= 399
            && doe - (365 * yoe + yoe / 4 - yoe / 100) == Split(doe).t
  {
    hide Split;
    YearOfEra(Split(doe));
    DayOfYear(Split(doe));
  }

  lemma DayOfEra(z: nat)
    ensures 0 <= z - z / 146_097 * 146_097 <= 146_096
  {
  }

  /** The year that began last March 1, and the days since, of a day counted from 0000-03-01. */
  function MarchDate(z: nat): (r: (nat, nat))
    ensures r.1 <= 365 && z == MarchStart(r.0) + r.1
    ensures r.1 == 365 ==> IsLeap(r.0 + 1)
  {
    var era := z / 146_097;
    DayOfEra(z);
    var doe: nat := z - era * 146_097;
    InEra(z, era, doe)
  }

  /** The same within one era of 400 years. */
  function InEra(z: nat, era: nat, doe: nat): (r: (nat, nat))
    requires doe <= 146_096 && z == era * 146_097 + doe
    ensures r.1 <= 365 && z == MarchStart(r.0) + r.1
    ensures r.1 == 365 ==> IsLeap(r.0 + 1)
  {
    EraParts(doe);
    var yoe: nat := (doe - doe / 1_460 + doe / 36_524 - doe / 146_096) / 365;
    var doy: nat := doe - (365 * yoe + yoe / 4 - yoe / 100);
    EraDayIsTheDay(era, doe, yoe, doy);
    (era * 400 + yoe, doy)
  }

  lemma EraDayIsTheDay(era: nat, doe: nat, yoe: nat, doy: nat)
    requires doe <= 146_096 && yoe == Split(doe).Yoe() && doy == Split(doe).t
    ensures doy <= 365 && era * 146_097 + doe == MarchStart(era * 400 + yoe) + doy
    ensures doy == 365 ==> IsLeap(era * 400 + yoe + 1)
  {
    hide Split;
    var e := Split(doe);
    DayOfYear(e);
    EraStart(era, yoe);
    if doy == 365 {
      LeapAfter(era, e);
    }
  }

  lemma MonthIndex(doy: nat)
    requires doy <= 365
    ensures var mp := (5 * doy + 2) / 153; mp <= 11 && (153 * mp + 2) / 5 <= doy && doy - (153 * mp + 2) / 5 <= 30
  {
  }

  /** Seconds since the epoch to a civil date and time; every difference is taken on naturals. */
  function FromUnix(secs: nat): (u: Utc)
    ensures 1 <= u.month <= 12 && 1 <= u.day <= 31
  {
    var hour := secs % 86_400 / 3_600;
    var minute := secs % 3_600 / 60;
    var second := secs % 60;
    var (y, doy) := MarchDate(secs / 86_400 + 719_468);
    MonthIndex(doy);
    var mp := (5 * doy + 2) / 153;
    var day: nat := doy - (153 * mp + 2) / 5 + 1;
    var month: nat := if mp < 10 then mp + 3 else mp - 9;
    var year := y + if month <= 2 then 1 else 0;
    Utc(year, month, day, hour, minute, second)
  }

  lemma EraStart(era: nat, yoe: nat)
    requires yoe <= 399
    ensures MarchStart(era * 400 + yoe) == era * 146_097 + 365 * yoe + yoe / 4 - yoe / 100
  {
    var y := era * 400 + yoe;
    assert y / 4 == era * 100 + yoe / 4 && y / 100 == era * 4 + yoe / 100 && y / 400 == era;
  }

  lemma LeapAfter(era: nat, e: EraDay)
    requires e.Valid() && e.t == 365
    ensures IsLeap(era * 400 + e.Yoe() + 1)
  {
    var y := era * 400 + e.Yoe() + 1;
    assert y == 4 * (era * 100 + 25 * e.c + e.q + 1);
    if e.q == 24 {
      assert y == 400 * (era + 1);
    } else {
      assert y == 100 * (4 * era + e.c) + 4 * (e.q + 1);
    }
  }

  /** Month lengths from March on, as the month formula lays them out. */
  lemma MonthFromMarch(y: nat, doy: nat, mp: nat)
    requires doy <= 365 && mp == (5 * doy + 2) / 153 && (doy == 365 ==> IsLeap(y + 1))
    ensures mp <= 11 && (153 * mp + 2) / 5 <= doy
    ensures var day := doy - (153 * mp + 2) / 5 + 1;
            if mp < 10
            then day <= DaysInMonth(y, mp + 3) && DaysBeforeMonth(y, mp + 3) == DaysBeforeMonth(y, 3) + (153 * mp + 2) / 5
            else day <= DaysInMonth(y + 1, mp - 9) && DaysBeforeMonth(y, 3) + (153 * mp + 2) / 5 == DaysInYear(y) + DaysBeforeMonth(y + 1, mp - 9)
  {
    MonthStarts(y);
    MonthStarts(y + 1);
    assert mp <= 11;
    if mp == 0 || mp == 1 || mp == 2 || mp == 3 {
    } else if mp == 4 || mp == 5 || mp == 6 || mp == 7 {
    } else if mp == 8 || mp == 9 || mp == 10 || mp == 11 {
    }
  }

  lemma CivilDay(y: nat, doy: nat, u: Utc)
    requires doy <= 365 && (doy == 365 ==> IsLeap(y + 1))
    requires var mp := (5 * doy + 2) / 153;
             && (153 * mp + 2) / 5 <= doy && u.day == doy - (153 * mp + 2) / 5 + 1
             && u.month == (if mp < 10 then mp + 3 else mp - 9)
             && u.year == y + (if mp < 10 then 0 else 1)
             && u.hour < 24 && u.minute < 60 && u.second < 60
    ensures u.Valid() && u.DayNumber() == MarchStart(y) + 60 + doy
  {
    hide MarchStart, DaysBeforeMonth, DaysInMonth;
    MonthFromMarch(y, doy, (5 * doy + 2) / 153);
    MarchStartIsACount(y);
  }

  /** For every second since the epoch: a valid date and time, the right day, the right second. */
  lemma FromUnixIsTheDate(secs: nat)
    ensures var u := FromUnix(secs);
            && u.Valid()
            && u.DayNumber() == EPOCH.DayNumber() + secs / 86_400
            && u.SecondOfDay() == secs % 86_400
  {
    EpochIsDay719528();
    hide MarchDate, MarchStart, IsLeap, DaysBeforeYear, DaysBeforeMonth, DaysInMonth;
    var (y, doy) := MarchDate(secs / 86_400 + 719_468);
    MonthIndex(doy);
    TimeOfDay(secs);
    CivilDay(y, doy, FromUnix(secs));
  }

  lemma TimeOfDay(secs: nat)
    ensures var u := FromUnix(secs);
            u.hour < 24 && u.minute < 60 && u.second < 60 && u.SecondOfDay() == secs % 86_400
  {
    hide MarchDate;
    SmallerUnits(secs);
    var r := secs % 86_400;
    assert r == 3_600 * (r / 3_600) + r % 3_600;
    assert r % 3_600 == 60 * (r % 3_600 / 60) + r % 3_600 % 60;
  }

  lemma WholeHours(x: nat, r: nat)
    ensures (3_600 * x + r) % 3_600 == r % 3_600
  {
  }

  lemma WholeMinutes(x: nat, r: nat)
    ensures (60 * x + r) % 60 == r % 60
  {
  }

  lemma SmallerUnits(secs: nat)
    ensures secs % 3_600 == secs % 86_400 % 3_600 && secs % 60 == secs % 86_400 % 3_600 % 60
  {
    WholeHours(24 * (secs / 86_400), secs % 86_400);
    WholeMinutes(60 * (secs / 3_600), secs % 3_600);
  }

  /** Later seconds never give an earlier date and time; they give a strictly later one. */
  lemma LaterIsLater(a: nat, b: nat)
    requires a < b
    ensures Before(FromUnix(a), FromUnix(b))
  {
    hide FromUnix;
    FromUnixIsTheDate(a);
    FromUnixIsTheDate(b);
    var x, y := FromUnix(a), FromUnix(b);
    if DateBefore(y, x) {
      EarlierDateHasFewerDays(y, x);
    } else if !DateBefore(x, y) {
      assert a / 86_400 == b / 86_400;
    }
  }

  /** No other valid date and time is the same second. */
  lemma OnlyThatDate(secs: nat, u: Utc)
    requires u.Valid() && u.DayNumber() == EPOCH.DayNumber() + secs / 86_400 && u.SecondOfDay() == secs % 86_400
    ensures u == FromUnix(secs)
  {
    FromUnixIsTheDate(secs);
    var v := FromUnix(secs);
    if DateBefore(u, v) {
      EarlierDateHasFewerDays(u, v);
    } else if DateBefore(v, u) {
      EarlierDateHasFewerDays(v, u);
    }
  }

  /** Nothing overflows 64 bits: the largest second still has a year far below. */
  lemma FitsSixtyFourBits(secs: nat)
    requires secs < 0x1_0000_0000_0000_0000
    ensures secs / 86_400 + 719_468 < 0x1_0000_0000_0000_0000 && FromUnix(secs).year < 600_000_000_000
  {
    var (y, doy) := MarchDate(secs / 86_400 + 719_468);
  }
}
