/** The proleptic Gregorian calendar, twice: as a naive day-by-day calendar, and as the
    era / day-of-era / year-of-era arithmetic of `epoch_to_parts` and `days_since_epoch`. */
module Calendar {

  const TWO64: nat := 0x1_0000_0000_0000_0000
  const SECONDS_PER_DAY: nat := 86_400

  /** What a `u64` holds after an addition, subtraction or multiplication in a release build. */
  function Wrap(x: int): (r: nat) {
    x % TWO64
  }

  datatype Date = Date(year: nat, month: nat, day: nat)

  datatype Parts = Parts(date: Date, hour: nat, minute: nat, second: nat)

  // ---------- the naive calendar (RFC 3339, section 5.7 and Appendix C) ----------

  predicate IsLeap(y: nat) {
    y % 4 == 0 && (y % 100 != 0 || y % 400 == 0)
  }

  function DaysInMonth(y: nat, m: nat): nat {
    if m == 2 then (if IsLeap(y) then 29 else 28)
    else if m == 4 || m == 6 || m == 9 || m == 11 then 30
    else 31
  }

  predicate ValidDate(d: Date) {
    1 <= d.month <= 12 && 1 <= d.day <= DaysInMonth(d.year, d.month)
  }

  predicate ValidParts(p: Parts) {
    ValidDate(p.date) && p.hour < 24 && p.minute < 60 && p.second < 60
  }

  function NextDay(d: Date): Date {
    if d.day < DaysInMonth(d.year, d.month) then Date(d.year, d.month, d.day + 1)
    else if d.month < 12 then Date(d.year, d.month + 1, 1)
    else Date(d.year + 1, 1, 1)
  }

  /** The date reached by stepping one day at a time, `n` times, from 1970-01-01. */
  function DateOfDay(n: nat): Date {
    if n == 0 then Date(1970, 1, 1) else NextDay(DateOfDay(n - 1))
  }

  predicate DateLess(a: Date, b: Date) {
    || a.year < b.year
    || (a.year == b.year && (a.month < b.month || (a.month == b.month && a.day < b.day)))
  }

  // ---------- the arithmetic of the source ----------

  /** The date part of `epoch_to_parts`. Every local is a `nat`, so no subtraction goes below zero. */
  function CivilFromDays(days: nat): Date {
    var z: nat := days + 719_468;
    var era: nat := z / 146_097;
    var doe: nat := z - era * 146_097;
    CivilInEra(era, doe)
  }

  function CivilInEra(era: nat, doe: nat): Date
    requires doe < 146_097
  {
    var yoe: nat := (doe - doe / 1460 + doe / 36_524 - doe / 146_096) / 365;
    var y: nat := yoe + era * 400;
    YearDayBounds(doe);
    var doy: nat := doe - (365 * yoe + yoe / 4 - yoe / 100);
    var mp: nat := (5 * doy + 2) / 153;
    var d: nat := doy - (153 * mp + 2) / 5 + 1;
    var mo: nat := if mp < 10 then mp + 3 else mp - 9;
    Date(if mo <= 2 then y + 1 else y, mo, d)
  }

  function EpochToParts(secs: nat): Parts {
    var mins := secs / 60;
    var hours := mins / 60;
    Parts(CivilFromDays(hours / 24), hours % 24, mins % 60, secs % 60)
  }

  /** `days_since_epoch` (also `days_since_epoch_local`) in wrapping 64-bit arithmetic. */
  function DaysSinceEpoch(year: nat, month: nat, d: nat): nat {
    var y := if month <= 2 then Wrap(year - 1) else year;
    var mo := if month <= 2 then month + 9 else month - 3;
    var doy := Wrap(Wrap(153 * mo + 2) / 5 + d - 1);
    DaysFromEra(y, doy)
  }

  /** The last three lines of `days_since_epoch`. */
  function DaysFromEra(y: nat, doy: nat): nat {
    var era := y / 400;
    var yoe := y - era * 400;
    var doe := Wrap(yoe * 365 + yoe / 4 - yoe / 100 + doy);
    Wrap(era * 146_097 + doe - 719_468)
  }

  // ---------- the day number without wrap-around ----------

  /** Day of a year that starts on 1 March. */
  function MarchDay(month: nat, d: nat): int {
    (153 * (if month <= 2 then month + 9 else month - 3) + 2) / 5 + d - 1
  }

  function MarchYear(d: Date): int {
    if d.month <= 2 then d.year - 1 else d.year
  }

  /** Days before 1 March of year `y`, counted from 1 March of year 0. */
  function DaysToMarch(y: int): int {
    365 * y + y / 4 - y / 100 + y / 400
  }

  function Ordinal(d: Date): int {
    DaysToMarch(MarchYear(d)) + MarchDay(d.month, d.day) - 719_468
  }

  // ---------- inside one 400-year era ----------

  function YearOfEra(doe: nat): int {
    (doe - doe / 1460 + doe / 36_524 - doe / 146_096) / 365
  }

  /** Days of an era that lie before its year `yoe`. */
  function DaysBeforeYear(yoe: nat): int {
    365 * yoe + yoe / 4 - yoe / 100
  }

  /** Last day number of the March year `yoe`: 365 when its February has 29 days. */
  function LastDay(yoe: nat): nat {
    if IsLeap(yoe + 1) then 365 else 364
  }

  /** Centuries, four-year groups and years determine the year of era. */
  lemma YearOfEraByGroups(c: nat, q: nat, r: nat, doy: nat)
    requires c < 4 && q < 25 && r < 4
    requires doy <= 364 || (doy == 365 && r == 3 && (q < 24 || c == 3))
    ensures var yoe := 100 * c + 4 * q + r;
            DaysBeforeYear(yoe) + doy == 36_524 * c + 1461 * q + 365 * r + doy
            && YearOfEra(36_524 * c + 1461 * q + 365 * r + doy) == yoe
  {
    var yoe := 100 * c + 4 * q + r;
    assert yoe / 100 == c && yoe / 4 == 25 * c + q;
    var doe := 36_524 * c + 1461 * q + 365 * r + doy;
    var carry := 24 * c + q + 365 * r + doy;
    assert doe == 1460 * (25 * c + q) + carry;
    assert doe / 1460 == 25 * c + q + carry / 1460;
    var leapEnd := if doe == 146_096 then 1 else 0;
    assert doe / 36_524 == c + leapEnd && doe / 146_096 == leapEnd;
    assert 0 <= doy - carry / 1460 < 365;
    assert doe - doe / 1460 + doe / 36_524 - doe / 146_096 == 365 * yoe + (doy - carry / 1460);
  }

  lemma YearOfEraInverts(yoe: nat, doy: nat)
    requires yoe < 400 && doy <= LastDay(yoe)
    ensures DaysBeforeYear(yoe) + doy < 146_097
    ensures YearOfEra(DaysBeforeYear(yoe) + doy) == yoe
  {
    var c, q, r := yoe / 100, yoe % 100 / 4, yoe % 4;
    assert yoe == 100 * c + 4 * q + r;
    YearOfEraByGroups(c, q, r, doy);
  }

  /** Every day of an era belongs to exactly the year that the formula names. */
  lemma YearDayBounds(doe: nat)
    requires doe < 146_097
    ensures 0 <= YearOfEra(doe) < 400
    ensures 0 <= doe - DaysBeforeYear(YearOfEra(doe)) <= 365
  {
    var c := if doe / 36_524 < 3 then doe / 36_524 else 3;
    var x := doe - 36_524 * c;
    var q := x / 1461;
    var w := x - 1461 * q;
    var r := if w / 365 < 3 then w / 365 else 3;
    YearOfEraByGroups(c, q, r, w - 365 * r);
  }

  // ---------- the arithmetic against the naive calendar ----------

  lemma MarchDayInverts(month: nat, d: nat)
    requires 1 <= month <= 12 && 1 <= d <= 31
    requires d <= 30 || month in {1, 3, 5, 7, 8, 10, 12}
    ensures var doy := MarchDay(month, d);
            && 0 <= doy <= 366
            && var mp := (5 * doy + 2) / 153;
            && doy - (153 * mp + 2) / 5 + 1 == d
            && (if mp < 10 then mp + 3 else mp - 9) == month
  {
    var mp := if month <= 2 then month + 9 else month - 3;
    assert 0 <= mp < 12;
    assert (5 * MarchDay(month, d) + 2) / 153 == mp;
  }

  lemma LeapPeriod(y: nat)
    ensures IsLeap(y % 400 + 1) == IsLeap(y + 1)
  {
    AddEras(y % 400 + 1, y / 400);
    assert y + 1 == 400 * (y / 400) + (y % 400 + 1);
  }

  lemma AddEras(r: nat, k: nat)
    ensures (400 * k + r) % 4 == r % 4 && (400 * k + r) % 100 == r % 100 && (400 * k + r) % 400 == r % 400
  {
    AddFours(r, 100 * k);
    AddHundreds(r, 4 * k);
    AddFourHundreds(r, k);
  }

  lemma AddFours(r: nat, k: nat)
    ensures (4 * k + r) % 4 == r % 4
  {
  }

  lemma AddHundreds(r: nat, k: nat)
    ensures (100 * k + r) % 100 == r % 100
  {
  }

  lemma AddFourHundreds(r: nat, k: nat)
    ensures (400 * k + r) % 400 == r % 400
  {
  }

  /** The last day of February closes a March year. */
  lemma MarchDayWithinYear(d: Date)
    requires ValidDate(d) && d.year >= 1
    ensures 0 <= MarchDay(d.month, d.day) <= LastDay(MarchYear(d) % 400)
  {
    MarchDayInverts(d.month, d.day);
    if d.month == 2 {
      LeapPeriod(d.year - 1);
    } else {
      MarchDayBelow(d.month, d.day);
    }
  }

  lemma MarchDayBelow(month: nat, d: nat)
    requires 1 <= month <= 12 && month != 2 && 1 <= d <= 31
    ensures MarchDay(month, d) <= 364
  {
  }

  lemma OrdinalByEra(d: Date)
    requires ValidDate(d) && d.year >= 1
    ensures var y := MarchYear(d); var doe := DaysBeforeYear(y % 400) + MarchDay(d.month, d.day);
            && 0 <= doe < 146_097
            && Ordinal(d) + 719_468 == y / 400 * 146_097 + doe
  {
    MarchDayWithinYear(d);
    var y := MarchYear(d);
    var era, yoe := y / 400, y % 400;
    YearOfEraInverts(yoe, MarchDay(d.month, d.day));
    assert y == 400 * era + yoe;
    assert y / 4 == 100 * era + yoe / 4 && y / 100 == 4 * era + yoe / 100;
  }

  lemma QuotientStep(y: nat, k: nat)
    requires k in {4, 100, 400}
    ensures (y + 1) / k == y / k + (if (y + 1) % k == 0 then 1 else 0)
  {
    if k == 4 {
      assert (y + 1) / 4 == y / 4 + (if (y + 1) % 4 == 0 then 1 else 0);
    } else if k == 100 {
      assert (y + 1) / 100 == y / 100 + (if (y + 1) % 100 == 0 then 1 else 0);
    }
  }

  lemma DaysInMarchYear(y: nat)
    ensures DaysToMarch(y + 1) == DaysToMarch(y) + (if IsLeap(y + 1) then 366 else 365)
  {
    QuotientStep(y, 4);
    QuotientStep(y, 100);
    QuotientStep(y, 400);
    assert (y + 1) % 400 == 0 ==> (y + 1) % 100 == 0;
    assert (y + 1) % 100 == 0 ==> (y + 1) % 4 == 0;
  }

  lemma MonthEnd(y: nat, m: nat)
    requires 1 <= m < 12 && m != 2
    ensures MarchDay(m + 1, 1) == MarchDay(m, DaysInMonth(y, m)) + 1
  {
  }

  lemma OrdinalAfterFebruary(y: nat, d: nat)
    requires y >= 1 && d == DaysInMonth(y, 2)
    ensures Ordinal(Date(y, 3, 1)) == Ordinal(Date(y, 2, d)) + 1
  {
    DaysInMarchYear(y - 1);
    assert MarchDay(2, d) == 336 + d && MarchDay(3, 1) == 0;
  }

  lemma OrdinalAfterYear(y: nat)
    requires y >= 1
    ensures Ordinal(Date(y + 1, 1, 1)) == Ordinal(Date(y, 12, 31)) + 1
  {
    assert MarchDay(12, 31) == 305 && MarchDay(1, 1) == 306;
  }

  lemma OrdinalWithinMonth(y: nat, m: nat, d: nat)
    requires y >= 1 && 1 <= m <= 12
    ensures Ordinal(Date(y, m, d + 1)) == Ordinal(Date(y, m, d)) + 1
  {
    assert MarchDay(m, d + 1) == MarchDay(m, d) + 1;
  }

  lemma OrdinalAfterMonth(y: nat, m: nat)
    requires y >= 1 && 1 <= m < 12 && m != 2
    ensures Ordinal(Date(y, m + 1, 1)) == Ordinal(Date(y, m, DaysInMonth(y, m))) + 1
  {
    MonthEnd(y, m);
  }

  lemma OrdinalOfNextDay(d: Date)
    requires ValidDate(d) && d.year >= 1
    ensures ValidDate(NextDay(d)) && Ordinal(NextDay(d)) == Ordinal(d) + 1
  {
    if d.day < DaysInMonth(d.year, d.month) {
      OrdinalWithinMonth(d.year, d.month, d.day);
    } else if d.month == 2 {
      OrdinalAfterFebruary(d.year, d.day);
    } else if d.month < 12 {
      OrdinalAfterMonth(d.year, d.month);
    } else {
      OrdinalAfterYear(d.year);
    }
  }

  /** What `epoch_to_parts` computes once era, day of era, year of era and day of year are known. */
  lemma CivilFromEra(days: nat, era: nat, doe: nat, yoe: nat, doy: nat)
    requires days + 719_468 == era * 146_097 + doe && doe < 146_097
    requires YearOfEra(doe) == yoe && doe == DaysBeforeYear(yoe) + doy
    ensures var mp := (5 * doy + 2) / 153;
            var mo := if mp < 10 then mp + 3 else mp - 9;
            CivilFromDays(days) ==
            Date(yoe + era * 400 + (if mo <= 2 then 1 else 0), mo, doy - (153 * mp + 2) / 5 + 1)
  {
    SplitByEra(days, era, doe);
    CivilByYear(era, doe, yoe, doy);
  }

  lemma SplitByEra(days: nat, era: nat, doe: nat)
    requires days + 719_468 == era * 146_097 + doe && doe < 146_097
    ensures CivilFromDays(days) == CivilInEra(era, doe)
  {
    DivideByEra(era, doe);
  }

  lemma CivilByYear(era: nat, doe: nat, yoe: nat, doy: nat)
    requires doe < 146_097 && YearOfEra(doe) == yoe && doe == DaysBeforeYear(yoe) + doy
    ensures var mp := (5 * doy + 2) / 153;
            var mo := if mp < 10 then mp + 3 else mp - 9;
            CivilInEra(era, doe) ==
            Date(yoe + era * 400 + (if mo <= 2 then 1 else 0), mo, doy - (153 * mp + 2) / 5 + 1)
  {
  }

  lemma DivideByEra(era: nat, doe: nat)
    requires doe < 146_097
    ensures (era * 146_097 + doe) / 146_097 == era
  {
  }

  /** `epoch_to_parts` undoes the day number of every date on or after 1970-01-01. */
  lemma CivilFromOrdinal(d: Date)
    requires ValidDate(d) && d.year >= 1 && Ordinal(d) >= 0
    ensures CivilFromDays(Ordinal(d)) == d
  {
    OrdinalByEra(d);
    MarchDayWithinYear(d);
    MarchDayInverts(d.month, d.day);
    CivilFromMarch(Ordinal(d), MarchYear(d), MarchDay(d.month, d.day), d);
  }

  lemma CivilFromMarch(n: nat, y: nat, doy: nat, d: Date)
    requires doy <= LastDay(y % 400)
    requires n + 719_468 == y / 400 * 146_097 + DaysBeforeYear(y % 400) + doy
    requires y == MarchYear(d)
    requires var mp := (5 * doy + 2) / 153;
             doy - (153 * mp + 2) / 5 + 1 == d.day && (if mp < 10 then mp + 3 else mp - 9) == d.month
    ensures CivilFromDays(n) == d
  {
    YearOfEraInverts(y % 400, doy);
    CivilFromEra(n, y / 400, DaysBeforeYear(y % 400) + doy, y % 400, doy);
    assert y % 400 + y / 400 * 400 == y;
  }

  lemma {:induction false} DateOfDayOrdinal(n: nat)
    ensures var d := DateOfDay(n); ValidDate(d) && d.year >= 1970 && Ordinal(d) == n
  {
    if n > 0 {
      DateOfDayOrdinal(n - 1);
      OrdinalOfNextDay(DateOfDay(n - 1));
    }
  }

  /** Refinement: the arithmetic names the date that stepping `n` days reaches, for every `n`. */
  lemma CivilFromDaysRefinesStepping(n: nat)
    ensures CivilFromDays(n) == DateOfDay(n)
  {
    DateOfDayOrdinal(n);
    CivilFromOrdinal(DateOfDay(n));
  }

  /** Every valid date from 1970 on is reached by stepping. */
  lemma OrdinalNonNegative(d: Date)
    requires ValidDate(d) && d.year >= 1970
    ensures Ordinal(d) >= 0
  {
    MarchDayInverts(d.month, d.day);
  }

  lemma YearFits(d: Date)
    requires ValidDate(d) && d.year >= 1970 && Ordinal(d) < TWO64 - 719_468
    ensures d.year < TWO64
  {
    MarchDayInverts(d.month, d.day);
    var y := MarchYear(d);
    assert y / 4 >= y / 100;
  }

  /** The wrapping 64-bit arithmetic gives the exact day number whenever that number fits. */
  lemma DaysSinceEpochIsOrdinal(d: Date)
    requires ValidDate(d) && d.year >= 1970 && Ordinal(d) < TWO64 - 719_468
    ensures DaysSinceEpoch(d.year, d.month, d.day) == Ordinal(d)
  {
    OrdinalByEra(d);
    OrdinalNonNegative(d);
    MarchDayWithinYear(d);
    YearFits(d);
    MarchDayExact(d.month, d.day);
    WrapIdentity(d.year - 1);
    EraArithmetic(MarchYear(d), MarchDay(d.month, d.day), Ordinal(d));
  }

  lemma WrapIdentity(x: int)
    requires 0 <= x < TWO64
    ensures Wrap(x) == x
  {
  }

  lemma MarchDayExact(month: nat, d: nat)
    requires 1 <= month <= 12 && 1 <= d <= 31
    ensures Wrap(Wrap(153 * (if month <= 2 then month + 9 else month - 3) + 2) / 5 + d - 1) == MarchDay(month, d)
  {
    WrapIdentity(153 * (if month <= 2 then month + 9 else month - 3) + 2);
    WrapIdentity(MarchDay(month, d));
  }

  lemma EraArithmetic(y: nat, doy: nat, n: nat)
    requires doy <= 366 && n < TWO64
    requires n + 719_468 == y / 400 * 146_097 + DaysBeforeYear(y % 400) + doy
    ensures DaysFromEra(y, doy) == n
  {
    assert y - y / 400 * 400 == y % 400;
    WrapIdentity(DaysBeforeYear(y % 400) + doy);
    WrapIdentity(n);
  }

  /** Calendar bijection, one way: a date number survives printing and reading back. */
  lemma DaysRoundTrip(n: nat)
    requires n < TWO64 - 719_468
    ensures var d := CivilFromDays(n);
            ValidDate(d) && d.year >= 1970 && DaysSinceEpoch(d.year, d.month, d.day) == n
  {
    CivilFromDaysRefinesStepping(n);
    DateOfDayOrdinal(n);
    DaysSinceEpochIsOrdinal(DateOfDay(n));
  }

  /** Calendar bijection, the other way: so does every valid date whose day number fits 64 bits. */
  lemma DateRoundTrip(d: Date)
    requires ValidDate(d) && d.year >= 1970 && Ordinal(d) < TWO64 - 719_468
    ensures CivilFromDays(DaysSinceEpoch(d.year, d.month, d.day)) == d
  {
    OrdinalNonNegative(d);
    DaysSinceEpochIsOrdinal(d);
    CivilFromOrdinal(d);
  }

  // ---------- order ----------

  lemma DateOfDayValid(n: nat)
    ensures ValidDate(DateOfDay(n)) && DateOfDay(n).year >= 1970
  {
    DateOfDayOrdinal(n);
  }

  lemma {:induction false} DateOfDayMonotone(m: nat, n: nat)
    requires m < n
    ensures DateLess(DateOfDay(m), DateOfDay(n))
  {
    DateOfDayValid(n - 1);
    if m < n - 1 {
      DateOfDayMonotone(m, n - 1);
    }
  }

  predicate PartsLess(a: Parts, b: Parts) {
    || DateLess(a.date, b.date)
    || (a.date == b.date &&
        (a.hour < b.hour ||
         (a.hour == b.hour && (a.minute < b.minute || (a.minute == b.minute && a.second < b.second)))))
  }

  function PartsSeconds(p: Parts, days: nat): nat {
    days * SECONDS_PER_DAY + p.hour * 3600 + p.minute * 60 + p.second
  }

  /** Every part is in range, and the parts add back up to the second count. */
  lemma EpochToPartsSound(secs: nat)
    ensures var p := EpochToParts(secs);
            ValidParts(p) && p.date == DateOfDay(secs / SECONDS_PER_DAY) && p.date.year >= 1970
            && PartsSeconds(p, secs / SECONDS_PER_DAY) == secs
  {
    SplitSeconds(secs);
    CivilFromDaysRefinesStepping(secs / SECONDS_PER_DAY);
    DateOfDayValid(secs / SECONDS_PER_DAY);
  }

  lemma SplitSeconds(secs: nat)
    ensures var mins := secs / 60; var hours := mins / 60; var days := hours / 24;
            && days == secs / SECONDS_PER_DAY
            && days * SECONDS_PER_DAY + hours % 24 * 3600 + mins % 60 * 60 + secs % 60 == secs
  {
    var mins := secs / 60;
    var hours := mins / 60;
    var days := hours / 24;
    assert secs == 60 * mins + secs % 60;
    assert mins == 60 * hours + mins % 60;
    assert hours == 24 * days + hours % 24;
    var rest := hours % 24 * 3600 + mins % 60 * 60 + secs % 60;
    assert secs == SECONDS_PER_DAY * days + rest && rest < SECONDS_PER_DAY;
  }

  lemma SameDayMonotone(p: Parts, q: Parts, day: nat, a: nat, b: nat)
    requires a < b && a / SECONDS_PER_DAY == day == b / SECONDS_PER_DAY
    requires p == EpochToParts(a) && q == EpochToParts(b)
    ensures PartsLess(p, q)
  {
    EpochToPartsSound(a);
    EpochToPartsSound(b);
    SecondsOrder(p, q, day);
  }

  lemma SecondsOrder(p: Parts, q: Parts, day: nat)
    requires p.date == q.date && p.minute < 60 && q.minute < 60 && p.second < 60 && q.second < 60
    requires PartsSeconds(p, day) < PartsSeconds(q, day)
    ensures PartsLess(p, q)
  {
  }

  lemma EpochToPartsMonotone(a: nat, b: nat)
    requires a < b
    ensures PartsLess(EpochToParts(a), EpochToParts(b))
  {
    var m, n := a / SECONDS_PER_DAY, b / SECONDS_PER_DAY;
    if m < n {
      EpochToPartsSound(a);
      EpochToPartsSound(b);
      DateOfDayMonotone(m, n);
    } else {
      SameDayMonotone(EpochToParts(a), EpochToParts(b), m, a, b);
    }
  }
}
