/**
 Day counts to civil dates to RFC 3339 timestamps.

 The calendar they are held against is counted day by day: `NextDay` knows only the lengths of the
 months and the leap rule, and `DayNumber` adds up whole years, whole months and days. The arithmetic
 by eras of 400 years is what is proved to agree with it.
 */
module Calendar {
  import opened Decimal
  import opened Wrappers

  // ── The calendar ───────────────────────────────────────────────────────────

  datatype Date = Date(y: int, m: int, d: int)

  predicate IsLeap(y: int) {
    y % 4 == 0 && (y % 100 != 0 || y % 400 == 0)
  }

  function DaysInMonth(y: int, m: int): int {
    if m == 2 then (if IsLeap(y) then 29 else 28)
    else if m == 4 || m == 6 || m == 9 || m == 11 then 30
    else 31
  }

  predicate ValidDate(t: Date) {
    1 <= t.m <= 12 && 1 <= t.d <= DaysInMonth(t.y, t.m)
  }

  function NextDay(t: Date): Date {
    if t.d < DaysInMonth(t.y, t.m) then t.(d := t.d + 1)
    else if t.m < 12 then Date(t.y, t.m + 1, 1)
    else Date(t.y + 1, 1, 1)
  }

  function DaysBeforeMonth(y: int, m: int): int {
    if m <= 1 then 0 else DaysBeforeMonth(y, m - 1) + DaysInMonth(y, m - 1)
  }

  /** Days from the first of the year 1 to the first of the year `y`. */
  function DaysBeforeYear(y: int): int {
    365 * (y - 1) + (y - 1) / 4 - (y - 1) / 100 + (y - 1) / 400
  }

  /** Days from 1970-01-01. */
  function DayNumber(t: Date): int {
    DaysBeforeYear(t.y) + DaysBeforeMonth(t.y, t.m) + t.d - 1 - 719162
  }

  // ── The conversion ─────────────────────────────────────────────────────────

  /** Division that truncates towards zero. */
  function Quot(a: int, b: int): int
    requires b > 0
  {
    if a >= 0 then a / b else -((-a) / b)
  }

  function Era(z: int): int {
    Quot(if z >= 0 then z else z - 146096, 146097)
  }

  function YearOfEra(doe: int): int {
    Quot(doe - Quot(doe, 1460) + Quot(doe, 36524) - Quot(doe, 146096), 365)
  }

  function CivilFromDays(days: int): Date {
    var z := days + 719468;
    var era := Era(z);
    var doe := z - era * 146097;
    var yoe := YearOfEra(doe);
    var y := yoe + era * 400;
    var doy := doe - (365 * yoe + Quot(yoe, 4) - Quot(yoe, 100));
    var mp := Quot(5 * doy + 2, 153);
    var d := doy - Quot(153 * mp + 2, 5) + 1;
    var m := if mp < 10 then mp + 3 else mp - 9;
    Date(if m <= 2 then y + 1 else y, m, d)
  }

  // ── Eras, years of an era, days of a year ──────────────────────────────────

  lemma EraFloors(z: int)
    ensures Era(z) == z / 146097
    ensures 0 <= z - Era(z) * 146097 < 146097
  {
  }

  /** Days of an era before its year `k`, years being counted from March. */
  function BeforeYearOfEra(k: int): int {
    365 * k + k / 4 - k / 100
  }

  /** Day `g` of four-year cycle `f` of century `c` of an era falls in this year of its cycle. */
  function YearOfCycle(g: int): int {
    if g < 365 then 0 else if g < 730 then 1 else if g < 1095 then 2 else 3
  }

  predicate CycleDay(c: int, f: int, g: int) {
    0 <= c <= 3 && 0 <= f <= 24 && 0 <= g <= 1460 && 1461 * f + g <= 36523
  }

  lemma BeforeYearAt(c: int, f: int, h: int)
    requires 0 <= c <= 3 && 0 <= f <= 24 && 0 <= h <= 3
    ensures BeforeYearOfEra(100 * c + 4 * f + h) == 36524 * c + 1461 * f + 365 * h
  {
    var k := 100 * c + 4 * f + h;
    assert k / 4 == 25 * c + f;
    assert k / 100 == c;
  }

  lemma YearAt(c: int, f: int, g: int)
    requires CycleDay(c, f, g)
    ensures YearOfEra(36524 * c + 1461 * f + g) == 100 * c + 4 * f + YearOfCycle(g)
  {
    var doe := 36524 * c + 1461 * f + g;
    var over := if 24 * c + f + g >= 1460 then 1 else 0;
    assert doe / 1460 == 25 * c + f + over;
    assert doe / 36524 == c;
    assert doe / 146096 == 0;
    var left := g - 365 * YearOfCycle(g) - over;
    assert 0 <= left < 365;
    var x := 365 * (100 * c + 4 * f + YearOfCycle(g)) + left;
    assert doe - doe / 1460 + doe / 36524 - doe / 146096 == x;
    assert x / 365 == 100 * c + 4 * f + YearOfCycle(g);
  }

  /** A day of an era but its last, by century, four-year cycle and day of the cycle. */
  lemma CycleOf(doe: int) returns (c: int, f: int, g: int)
    requires 0 <= doe < 146096
    ensures CycleDay(c, f, g) && doe == 36524 * c + 1461 * f + g
  {
    c := doe / 36524;
    var r := doe % 36524;
    assert doe == 36524 * c + r;
    f, g := r / 1461, r % 1461;
    assert r == 1461 * f + g;
  }

  /** The year of the era is the one whose days the day falls among. */
  lemma YearFound(doe: int)
    requires 0 <= doe < 146097
    ensures var k := YearOfEra(doe);
      && 0 <= k <= 399 && BeforeYearOfEra(k) <= doe
      && doe < BeforeYearOfEra(k + 1) + (if k == 399 then 1 else 0)
  {
    LastYearEnds();
    if doe == 146096 {
      assert YearOfEra(doe) == 399 && BeforeYearOfEra(399) <= doe;
    } else {
      hide YearOfEra, BeforeYearOfEra;
      var c, f, g := CycleOf(doe);
      YearAt(c, f, g);
      var h := YearOfCycle(g);
      BeforeYearAt(c, f, h);
      if h < 3 {
        BeforeYearAt(c, f, h + 1);
      } else if f < 24 {
        BeforeYearAt(c, f + 1, 0);
      } else if c < 3 {
        BeforeYearAt(c + 1, 0, 0);
      }
    }
  }

  lemma LastYearEnds()
    ensures BeforeYearOfEra(400) == 146096
  {
  }

  function MonthOf(doy: int): int {
    Quot(5 * doy + 2, 153)
  }

  function BeforeMonthFromMarch(mp: int): int {
    Quot(153 * mp + 2, 5)
  }

  lemma MonthFound(doy: int)
    requires 0 <= doy <= 365
    ensures 0 <= MonthOf(doy) <= 11
    ensures BeforeMonthFromMarch(MonthOf(doy)) <= doy < BeforeMonthFromMarch(MonthOf(doy) + 1)
    ensures MonthOf(doy) == 11 <==> doy >= 337
  {
  }

  // ── The date is the day ────────────────────────────────────────────────────

  lemma MonthSums(y: int, mp: int)
    requires 0 <= mp <= 10
    ensures DaysBeforeMonth(y, 1) == 0 && DaysBeforeMonth(y, 2) == 31
    ensures DaysBeforeMonth(y, mp + 3) == BeforeMonthFromMarch(mp) + (if IsLeap(y) then 60 else 59)
  {
    var b := if IsLeap(y) then 60 else 59;
    assert DaysBeforeMonth(y, 1) == 0;
    assert DaysBeforeMonth(y, 2) == 31;
    assert DaysBeforeMonth(y, 3) == b;
    assert DaysBeforeMonth(y, 4) == b + 31;
    assert DaysBeforeMonth(y, 5) == b + 61;
    assert DaysBeforeMonth(y, 6) == b + 92;
    assert DaysBeforeMonth(y, 7) == b + 122;
    assert DaysBeforeMonth(y, 8) == b + 153;
    assert DaysBeforeMonth(y, 9) == b + 184;
    assert DaysBeforeMonth(y, 10) == b + 214;
    assert DaysBeforeMonth(y, 11) == b + 245;
    assert DaysBeforeMonth(y, 12) == b + 275;
    assert DaysBeforeMonth(y, 13) == b + 306;
  }

  /** Days before the March-based year `k` of an era, from the first of the year 1. */
  lemma MarchYear(era: int, k: int)
    requires 0 <= k <= 399
    ensures var y := k + era * 400;
      && DaysBeforeYear(y + 1) == BeforeYearOfEra(k) + 146097 * era
      && DaysBeforeYear(y) + (if IsLeap(y) then 366 else 365) == DaysBeforeYear(y + 1)
  {
    var y := k + era * 400;
    assert y / 4 == k / 4 + 100 * era && y / 100 == k / 100 + 4 * era && y / 400 == era;
    YearLength(y);
  }

  lemma YearLength(y: int)
    ensures DaysBeforeYear(y) + (if IsLeap(y) then 366 else 365) == DaysBeforeYear(y + 1)
  {
    Carries(y, 4);
    Carries(y, 100);
    Carries(y, 400);
    Multiples(y);
    assert y + 1 - 1 == y;
  }

  lemma Multiples(y: int)
    ensures y % 400 == 0 ==> y % 100 == 0
    ensures y % 100 == 0 ==> y % 4 == 0
  {
    if y % 400 == 0 {
      Remainder(y, 4 * (y / 400), 0, 100);
    }
    if y % 100 == 0 {
      Remainder(y, 25 * (y / 100), 0, 4);
    }
  }

  /** Division by the lengths of the leap cycles, from its result. */
  lemma Remainder(y: int, q: int, r: int, n: int)
    requires n == 4 || n == 100 || n == 400
    requires y == n * q + r && 0 <= r < n
    ensures y / n == q && y % n == r
  {
  }

  lemma Carries(y: int, n: int)
    requires n == 4 || n == 100 || n == 400
    ensures y / n == (y - 1) / n + if y % n == 0 then 1 else 0
  {
  }

  /** The parts the conversion goes through. */
  datatype Parts = Parts(era: int, yoe: int, doy: int, mp: int)

  function PartsOf(days: int): Parts {
    var z := days + 719468;
    var doe := z - Era(z) * 146097;
    var yoe := YearOfEra(doe);
    var doy := doe - (365 * yoe + Quot(yoe, 4) - Quot(yoe, 100));
    Parts(Era(z), yoe, doy, MonthOf(doy))
  }

  function DateOf(p: Parts): Date {
    var d := p.doy - BeforeMonthFromMarch(p.mp) + 1;
    var m := if p.mp < 10 then p.mp + 3 else p.mp - 9;
    Date((if m <= 2 then p.yoe + p.era * 400 + 1 else p.yoe + p.era * 400), m, d)
  }

  lemma PartsMakeDate(days: int)
    ensures CivilFromDays(days) == DateOf(PartsOf(days))
  {
    hide Era, YearOfEra, Quot;
  }

  lemma PartsFound(days: int)
    ensures var p := PartsOf(days);
      && 0 <= p.yoe <= 399 && 0 <= p.doy <= 365 && p.mp == MonthOf(p.doy)
      && days + 719468 == 146097 * p.era + BeforeYearOfEra(p.yoe) + p.doy
      && (p.doy == 365 ==> IsLeap(p.yoe + p.era * 400 + 1))
  {
    hide Era, YearOfEra, Quot, BeforeYearOfEra, IsLeap, MonthOf;
    var z := days + 719468;
    EraFloors(z);
    var doe := z - Era(z) * 146097;
    YearFound(doe);
    LeapEnd(Era(z), YearOfEra(doe));
    QuotOfYear(YearOfEra(doe));
  }

  lemma QuotOfYear(k: int)
    requires 0 <= k
    ensures 365 * k + Quot(k, 4) - Quot(k, 100) == BeforeYearOfEra(k)
  {
  }

  /** A March-based year has a 366th day just when the February that ends it has a 29th. */
  lemma LeapEnd(era: int, k: int)
    requires 0 <= k <= 399
    ensures BeforeYearOfEra(k + 1) + (if k == 399 then 1 else 0) - BeforeYearOfEra(k)
      == if IsLeap(k + era * 400 + 1) then 366 else 365
  {
    var y := k + 1;
    ShiftedEra(y, era, 4);
    ShiftedEra(y, era, 100);
    ShiftedEra(y, era, 400);
    assert k + era * 400 + 1 == y + era * 400;
    Carries(y, 4);
    Carries(y, 100);
    Multiples(y);
    assert y == 400 <==> y % 400 == 0;
  }

  lemma ShiftedEra(y: int, era: int, n: int)
    requires n == 4 || n == 100 || n == 400
    ensures (y + era * 400) % n == y % n
  {
    Remainder(y + era * 400, y / n + (400 / n) * era, y % n, n);
  }

  /** For every day count the date is a valid one, and counting its days gives the count back. */
  lemma CivilIsTheDay(days: int)
    ensures ValidDate(CivilFromDays(days)) && DayNumber(CivilFromDays(days)) == days
  {
    hide CivilFromDays, PartsOf, DateOf, ValidDate, DayNumber, MonthOf, IsLeap, BeforeYearOfEra;
    PartsMakeDate(days);
    PartsFound(days);
    PartsAreTheDay(PartsOf(days), days);
  }

  lemma PartsAreTheDay(p: Parts, days: int)
    requires 0 <= p.yoe <= 399 && 0 <= p.doy <= 365 && p.mp == MonthOf(p.doy)
    requires days + 719468 == 146097 * p.era + BeforeYearOfEra(p.yoe) + p.doy
    requires p.doy == 365 ==> IsLeap(p.yoe + p.era * 400 + 1)
    ensures ValidDate(DateOf(p)) && DayNumber(DateOf(p)) == days
  {
    var y := p.yoe + p.era * 400;
    MonthFound(p.doy);
    MarchYear(p.era, p.yoe);
    MonthSums(y, if p.mp < 10 then p.mp else 0);
    MonthSums(y + 1, 0);
    MonthLengths(p.mp);
    hide MonthOf, DaysBeforeMonth, DaysBeforeYear, IsLeap, BeforeYearOfEra;
  }

  lemma MonthLengths(mp: int)
    requires 0 <= mp <= 11
    ensures var m := if mp < 10 then mp + 3 else mp - 9;
      forall y :: BeforeMonthFromMarch(mp + 1) - BeforeMonthFromMarch(mp) == if m == 2 then 30 else DaysInMonth(y, m)
    ensures BeforeMonthFromMarch(10) == 306 && BeforeMonthFromMarch(11) == 337
  {
  }

  // ── One date for one day ───────────────────────────────────────────────────

  predicate Before(t: Date, u: Date) {
    t.y < u.y || (t.y == u.y && (t.m < u.m || (t.m == u.m && t.d < u.d)))
  }

  lemma {:induction false} MonthsGrow(y: int, m: int, n: int)
    requires 1 <= m < n
    ensures DaysBeforeMonth(y, m) + DaysInMonth(y, m) <= DaysBeforeMonth(y, n)
    decreases n
  {
    if m < n - 1 {
      MonthsGrow(y, m, n - 1);
    }
  }

  lemma {:induction false} YearsGrow(y: int, x: int)
    requires y < x
    ensures DaysBeforeYear(y + 1) <= DaysBeforeYear(x)
    decreases x - y
  {
    if y + 1 < x {
      YearsGrow(y, x - 1);
      YearLength(x - 1);
    }
  }

  lemma WithinYear(t: Date)
    requires ValidDate(t)
    ensures 0 <= DaysBeforeMonth(t.y, t.m) + t.d - 1 < (if IsLeap(t.y) then 366 else 365)
  {
    MonthSums(t.y, 10);
    MonthsGrow(t.y, t.m, 13);
    if t.m > 1 {
      MonthsGrow(t.y, 1, t.m);
    }
  }

  /** Later dates have larger counts. */
  lemma LaterCountsMore(t: Date, u: Date)
    requires ValidDate(t) && ValidDate(u) && Before(t, u)
    ensures DayNumber(t) < DayNumber(u)
  {
    if t.y < u.y {
      WithinYear(t);
      WithinYear(u);
      YearLength(t.y);
      YearsGrow(t.y, u.y);
    } else if t.m < u.m {
      MonthsGrow(t.y, t.m, u.m);
    }
  }

  /** Counting a valid date's days and converting back gives the date. */
  lemma DayIsTheCivil(t: Date)
    requires ValidDate(t)
    ensures CivilFromDays(DayNumber(t)) == t
  {
    hide CivilFromDays, DayNumber, ValidDate;
    var u := CivilFromDays(DayNumber(t));
    CivilIsTheDay(DayNumber(t));
    if u != t {
      assert Before(u, t) || Before(t, u);
      if Before(u, t) {
        LaterCountsMore(u, t);
      } else {
        LaterCountsMore(t, u);
      }
    }
  }

  lemma NextCountsOne(t: Date)
    requires ValidDate(t)
    ensures ValidDate(NextDay(t)) && DayNumber(NextDay(t)) == DayNumber(t) + 1
  {
    if t.d == DaysInMonth(t.y, t.m) && t.m == 12 {
      MonthSums(t.y, 9);
      MonthSums(t.y + 1, 0);
      YearLength(t.y);
    }
    hide DaysBeforeYear, IsLeap;
  }

  /** The next day count is the next day. */
  lemma CivilSteps(days: int)
    ensures CivilFromDays(days + 1) == NextDay(CivilFromDays(days))
  {
    hide CivilFromDays, DayNumber, NextDay, ValidDate;
    CivilIsTheDay(days);
    NextCountsOne(CivilFromDays(days));
    DayIsTheCivil(NextDay(CivilFromDays(days)));
  }

  lemma EpochIsZero()
    ensures CivilFromDays(0) == Date(1970, 1, 1)
  {
  }

  lemma CivilOrders(a: int, b: int)
    requires a < b
    ensures Before(CivilFromDays(a), CivilFromDays(b))
  {
    hide CivilFromDays, DayNumber, ValidDate;
    CivilIsTheDay(a);
    CivilIsTheDay(b);
    var t, u := CivilFromDays(a), CivilFromDays(b);
    if !Before(t, u) && t != u {
      LaterCountsMore(u, t);
    }
  }

  // ── Timestamps ─────────────────────────────────────────────────────────────

  /** Decimal digits, with zeros in front up to `width`. */
  function Padded(n: nat, width: nat): string {
    var s := ShowNat(n);
    if |s| < width then seq(width - |s|, _ => '0') + s else s
  }

  function Clock(rem: nat): string {
    Padded(rem / 3600, 2) + (":" + (Padded(rem % 3600 / 60, 2) + (":" + (Padded(rem % 60, 2) + "Z"))))
  }

  function MonthDay(t: Date): string
    requires ValidDate(t)
  {
    "-" + (Padded(t.m, 2) + ("-" + (Padded(t.d, 2) + "T")))
  }

  /** `YYYY-MM-DDThh:mm:ssZ` for seconds since the epoch. */
  function Rfc3339FromSecs(secs: nat): string {
    CivilIsTheDay(secs / 86400);
    FromEpoch(secs / 86400);
    var t := CivilFromDays(secs / 86400);
    Padded(t.y, 4) + (MonthDay(t) + Clock(secs % 86400))
  }

  lemma FromEpoch(days: nat)
    ensures CivilFromDays(days).y >= 1970
  {
    EpochIsZero();
    hide CivilFromDays;
    if days > 0 {
      CivilOrders(0, days);
    }
  }

  /** Two digits. */
  function Two(n: nat): string
    requires n < 100
  {
    ['0' + (n / 10) as char, '0' + (n % 10) as char]
  }

  lemma PaddedTwo(n: nat)
    requires n < 100
    ensures Padded(n, 2) == Two(n)
  {
    if n >= 10 {
      assert ShowNat(n / 10) == ['0' + (n / 10) as char];
    }
  }

  lemma PaddedFour(y: nat)
    requires 1000 <= y <= 9999
    ensures Padded(y, 4) == Two(y / 100) + Two(y % 100)
  {
    assert ShowNat(y / 1000) == ['0' + (y / 1000) as char];
    assert y / 10 / 10 / 10 == y / 1000 && y / 10 / 10 == y / 100;
    assert ShowNat(y / 100) == ['0' + (y / 1000) as char] + ['0' + (y / 100 % 10) as char];
    assert ShowNat(y / 10) == ShowNat(y / 100) + ['0' + (y / 10 % 10) as char];
    assert ShowNat(y) == ShowNat(y / 10) + ['0' + (y % 10) as char];
    assert y % 100 / 10 == y / 10 % 10 && y % 100 % 10 == y % 10;
  }

  // ── What a timestamp says ──────────────────────────────────────────────────

  /** `n` in two digits. */
  predicate Figures(s: string, n: nat) {
    n < 100 && s == ["0123456789"[n / 10], "0123456789"[n % 10]]
  }

  /** The parts of a timestamp, in order, each in its digits. */
  predicate Written(s: string, year: string, month: string, day: string, hour: string, minute: string, second: string) {
    s == year + "-" + month + "-" + day + "T" + hour + ":" + minute + ":" + second + "Z"
  }

  lemma TwoFigures(n: nat)
    requires n < 100
    ensures Figures(Padded(n, 2), n)
  {
    PaddedTwo(n);
    DigitChar(n / 10);
    DigitChar(n % 10);
  }

  lemma YearWritten(y: nat)
    requires y >= 1000
    ensures Digits(Padded(y, 4)) == Some(y) && |Padded(y, 4)| >= 4
  {
    AtLeastFour(y);
    DigitsShown(y);
  }

  lemma AtLeastFour(y: nat)
    requires y >= 1000
    ensures |ShowNat(y)| >= 4
  {
    assert |ShowNat(y / 1000)| >= 1;
    assert y / 10 / 10 / 10 == y / 1000;
    assert |ShowNat(y / 10 / 10)| >= 2;
    assert |ShowNat(y / 10)| >= 3;
  }

  /** The text is that date and that clock, each part in its digits. */
  ghost predicate Says(s: string, t: Date, hh: nat, mm: nat, ss: nat) {
    exists year, month, day, hour, minute, second ::
      && Written(s, year, month, day, hour, minute, second)
      && t.y >= 0 && t.m >= 0 && t.d >= 0
      && |year| >= 4 && Digits(year) == Some(t.y) && Figures(month, t.m) && Figures(day, t.d)
      && Figures(hour, hh) && Figures(minute, mm) && Figures(second, ss)
  }

  lemma SaysSo(t: Date, hh: nat, mm: nat, ss: nat)
    requires t.y >= 1000 && 1 <= t.m <= 12 && 1 <= t.d <= 31 && hh < 100 && mm < 100 && ss < 100
    ensures Says(Padded(t.y, 4) + (("-" + (Padded(t.m, 2) + ("-" + (Padded(t.d, 2) + "T"))))
                 + (Padded(hh, 2) + (":" + (Padded(mm, 2) + (":" + (Padded(ss, 2) + "Z")))))), t, hh, mm, ss)
  {
    hide Padded, Figures, Written, Digits;
    YearWritten(t.y);
    TwoFigures(t.m);
    TwoFigures(t.d);
    TwoFigures(hh);
    TwoFigures(mm);
    TwoFigures(ss);
    PartsJoined(Padded(t.y, 4), Padded(t.m, 2), Padded(t.d, 2), Padded(hh, 2), Padded(mm, 2), Padded(ss, 2));
  }

  lemma ClockText(rem: nat)
    requires rem < 86400
    ensures Clock(rem) == Padded(rem / 3600, 2)
      + (":" + (Padded(rem % 3600 / 60, 2) + (":" + (Padded(rem % 60, 2) + "Z"))))
  {
  }

  /**
   A timestamp reads back: its date is valid, its clock is one of a day, and the days from 1970-01-01
   to that date with the hours, minutes and seconds make up the seconds it was made from.
   */
  lemma Rfc3339Reads(secs: nat) returns (t: Date, hh: nat, mm: nat, ss: nat)
    ensures ValidDate(t) && t.y >= 1970 && hh < 24 && mm < 60 && ss < 60
    ensures 86400 * DayNumber(t) + 3600 * hh + 60 * mm + ss == secs
    ensures Says(Rfc3339FromSecs(secs), t, hh, mm, ss)
  {
    hide CivilFromDays, Padded, Says, Clock, DayNumber;
    var days, rem := secs / 86400, secs % 86400;
    CivilIsTheDay(days);
    FromEpoch(days);
    t, hh, mm, ss := CivilFromDays(days), rem / 3600, rem % 3600 / 60, rem % 60;
    ClockAddsUp(rem);
    MonthDayLimits(t);
    ClockText(rem);
    SaysSo(t, hh, mm, ss);
  }

  lemma MonthDayLimits(t: Date)
    requires ValidDate(t)
    ensures 1 <= t.m <= 12 && 1 <= t.d <= 31
  {
  }

  lemma ClockAddsUp(rem: nat)
    requires rem < 86400
    ensures rem / 3600 < 24 && rem % 3600 / 60 < 60 && rem % 60 < 60
    ensures 3600 * (rem / 3600) + 60 * (rem % 3600 / 60) + rem % 60 == rem
  {
    var h, r := rem / 3600, rem % 3600;
    assert rem == 3600 * h + r;
    assert r == 60 * (r / 60) + r % 60;
    assert rem == 60 * (60 * h + r / 60) + r % 60;
  }

  lemma PartsJoined(year: string, month: string, day: string, hour: string, minute: string, second: string)
    ensures Written(year + (("-" + (month + ("-" + (day + "T")))) + (hour + (":" + (minute + (":" + (second + "Z")))))),
                    year, month, day, hour, minute, second)
  {
  }

  // ── Text order ─────────────────────────────────────────────────────────────

  /** Character by character. */
  predicate Less(s: string, t: string) {
    if t == "" then false
    else if s == "" then true
    else s[0] < t[0] || (s[0] == t[0] && Less(s[1..], t[1..]))
  }

  lemma {:induction false} LessFirst(a: string, b: string, x: string, y: string)
    requires |a| == |b| && Less(a, b)
    ensures Less(a + x, b + y)
  {
    if a[0] == b[0] {
      assert (a + x)[1..] == a[1..] + x && (b + y)[1..] == b[1..] + y;
      LessFirst(a[1..], b[1..], x, y);
    }
  }

  lemma {:induction false} LessThen(a: string, x: string, y: string)
    requires Less(x, y)
    ensures Less(a + x, a + y)
  {
    if a == "" {
      assert a + x == x && a + y == y;
    } else {
      assert (a + x)[1..] == a[1..] + x && (a + y)[1..] == a[1..] + y;
      LessThen(a[1..], x, y);
    }
  }

  lemma TwoLess(m: nat, n: nat)
    requires m < n < 100
    ensures Less(Two(m), Two(n))
  {
    assert m / 10 < n / 10 || (m / 10 == n / 10 && m % 10 < n % 10);
    assert Less(Two(m)[1..], Two(n)[1..]) <==> m % 10 < n % 10 by {
      assert Two(m)[1..] == ['0' + (m % 10) as char] && Two(n)[1..] == ['0' + (n % 10) as char];
    }
  }

  /** One field: a smaller number, or the same and less after it. */
  lemma FieldLess(before: string, m: nat, n: nat, x: string, y: string)
    requires m < 100 && n < 100 && (m < n || (m == n && Less(x, y)))
    ensures Less(before + (Padded(m, 2) + x), before + (Padded(n, 2) + y))
  {
    PaddedTwo(m);
    PaddedTwo(n);
    if m < n {
      TwoLess(m, n);
      LessFirst(Two(m), Two(n), x, y);
    } else {
      LessThen(Two(m), x, y);
    }
    LessThen(before, Padded(m, 2) + x, Padded(n, 2) + y);
  }

  lemma ClockLess(r: nat, q: nat)
    requires r < q < 86400
    ensures Less(Clock(r), Clock(q))
  {
    hide Less, Padded;
    var (h, m, s) := (r / 3600, r % 3600 / 60, r % 60);
    var (h', m', s') := (q / 3600, q % 3600 / 60, q % 60);
    assert r == 3600 * h + 60 * m + s && q == 3600 * h' + 60 * m' + s';
    assert h < h' || (h == h' && (m < m' || (m == m' && s < s')));
    var seconds, seconds' := Padded(s, 2) + "Z", Padded(s', 2) + "Z";
    if h == h' && m == m' {
      FieldLess(":", s, s', "Z", "Z");
    }
    if h == h' {
      FieldLess(":", m, m', ":" + seconds, ":" + seconds');
    }
    var rest, rest' := ":" + (Padded(m, 2) + (":" + seconds)), ":" + (Padded(m', 2) + (":" + seconds'));
    FieldLess("", h, h', rest, rest');
    assert "" + (Padded(h, 2) + rest) == Padded(h, 2) + rest;
    assert "" + (Padded(h', 2) + rest') == Padded(h', 2) + rest';
  }

  lemma MonthDayLess(t: Date, u: Date, x: string, y: string)
    requires ValidDate(t) && ValidDate(u)
    requires t.m < u.m || (t.m == u.m && (t.d < u.d || (t.d == u.d && Less(x, y))))
    ensures Less(MonthDay(t) + x, MonthDay(u) + y)
  {
    hide Less, Padded;
    if t.m == u.m {
      if t.d == u.d {
        LessThen("T", x, y);
      }
      FieldLess("-", t.d, u.d, "T" + x, "T" + y);
    }
    FieldLess("-", t.m, u.m, "-" + (Padded(t.d, 2) + ("T" + x)), "-" + (Padded(u.d, 2) + ("T" + y)));
    MonthDayThen(t, x);
    MonthDayThen(u, y);
  }

  lemma MonthDayThen(t: Date, x: string)
    requires ValidDate(t)
    ensures MonthDay(t) + x == "-" + (Padded(t.m, 2) + ("-" + (Padded(t.d, 2) + ("T" + x))))
  {
    hide Padded;
  }

  lemma YearLess(y: nat, z: nat, x: string, w: string)
    requires 1000 <= y <= 9999 && 1000 <= z <= 9999 && (y < z || (y == z && Less(x, w)))
    ensures Less(Padded(y, 4) + x, Padded(z, 4) + w)
  {
    PaddedFour(y);
    PaddedFour(z);
    if y == z {
      LessThen(Padded(y, 4), x, w);
    } else {
      if y / 100 < z / 100 {
        TwoLess(y / 100, z / 100);
        LessFirst(Two(y / 100), Two(z / 100), Two(y % 100), Two(z % 100));
      } else {
        TwoLess(y % 100, z % 100);
        LessThen(Two(y / 100), Two(y % 100), Two(z % 100));
      }
      LessFirst(Padded(y, 4), Padded(z, 4), x, w);
    }
  }

  /** Up to the end of the year 9999, later is greater as text. */
  lemma LaterIsGreater(s: nat, t: nat)
    requires s < t && CivilFromDays(t / 86400).y <= 9999
    ensures Less(Rfc3339FromSecs(s), Rfc3339FromSecs(t))
  {
    hide CivilFromDays, Less, Padded, Clock, MonthDay;
    var a, b := s / 86400, t / 86400;
    CivilIsTheDay(a);
    CivilIsTheDay(b);
    FromEpoch(a);
    FromEpoch(b);
    var x, y := CivilFromDays(a), CivilFromDays(b);
    var u, v := Clock(s % 86400), Clock(t % 86400);
    assert s == 86400 * a + s % 86400 && t == 86400 * b + t % 86400;
    if a < b {
      CivilOrders(a, b);
    } else {
      ClockLess(s % 86400, t % 86400);
    }
    if x.y == y.y {
      MonthDayLess(x, y, u, v);
    }
    YearLess(x.y, y.y, MonthDay(x) + u, MonthDay(y) + v);
  }

  const LAST_OF_9999 := 253402300799

  lemma EndOf9999()
    ensures CivilFromDays(LAST_OF_9999 / 86400) == Date(9999, 12, 31)
    ensures CivilFromDays((LAST_OF_9999 + 1) / 86400) == Date(10000, 1, 1)
  {
    hide CivilFromDays;
    MonthSums(9999, 9);
    assert DayNumber(Date(9999, 12, 31)) == LAST_OF_9999 / 86400;
    hide DayNumber, DaysBeforeMonth;
    DayIsTheCivil(Date(9999, 12, 31));
    CivilSteps(LAST_OF_9999 / 86400);
  }

  /** Timestamps up to `bound` are ordered as text exactly when `bound` falls in the year 9999 or before. */
  lemma OrderedExactly(bound: nat)
    ensures (forall s: nat, t: nat :: s < t <= bound ==> Less(Rfc3339FromSecs(s), Rfc3339FromSecs(t)))
      <==> CivilFromDays(bound / 86400).y <= 9999
  {
    hide CivilFromDays, Rfc3339FromSecs, Less;
    EndOf9999();
    if CivilFromDays(bound / 86400).y <= 9999 {
      forall s: nat, t: nat | s < t <= bound
        ensures Less(Rfc3339FromSecs(s), Rfc3339FromSecs(t))
      {
        if t / 86400 < bound / 86400 {
          CivilOrders(t / 86400, bound / 86400);
        }
        LaterIsGreater(s, t);
      }
    } else {
      if bound / 86400 < LAST_OF_9999 / 86400 {
        CivilOrders(bound / 86400, LAST_OF_9999 / 86400);
      }
      TenThousandIsLess();
      assert LAST_OF_9999 + 1 <= bound;
    }
  }

  /** The first second of the year 10000 comes before the last of 9999 as text. */
  lemma TenThousandIsLess()
    ensures !Less(Rfc3339FromSecs(LAST_OF_9999), Rfc3339FromSecs(LAST_OF_9999 + 1))
  {
    hide CivilFromDays, Clock, MonthDay;
    EndOf9999();
    PaddedFour(9999);
    TenThousandBegins();
    assert Rfc3339FromSecs(LAST_OF_9999)[0] == Padded(9999, 4)[0] == '9';
    assert Rfc3339FromSecs(LAST_OF_9999 + 1)[0] == Padded(10000, 4)[0] == '1';
  }

  lemma TenThousandBegins()
    ensures Padded(10000, 4) != "" && Padded(10000, 4)[0] == '1'
  {
    assert ShowNat(1) == "1";
    assert ShowNat(10) == ShowNat(1) + "0";
    assert ShowNat(100) == ShowNat(10) + "0";
    assert ShowNat(1000) == ShowNat(100) + "0";
    assert ShowNat(10000) == ShowNat(1000) + "0";
  }

  // ── One timestamp for one second ───────────────────────────────────────────

  lemma TwoInjective(m: nat, n: nat)
    requires m < 100 && n < 100 && Two(m) == Two(n)
    ensures m == n
  {
    assert Two(m)[0] == Two(n)[0] && Two(m)[1] == Two(n)[1];
    assert m == 10 * (m / 10) + m % 10 && n == 10 * (n / 10) + n % 10;
  }

  lemma FieldSame(before: string, m: nat, n: nat, x: string, y: string)
    requires m < 100 && n < 100 && before + (Padded(m, 2) + x) == before + (Padded(n, 2) + y)
    ensures m == n && x == y
  {
    PaddedTwo(m);
    PaddedTwo(n);
    hide Padded;
    var s, t := before + (Two(m) + x), before + (Two(n) + y);
    assert s[|before|..|before| + 2] == Two(m) && t[|before|..|before| + 2] == Two(n);
    assert s[|before| + 2..] == x && t[|before| + 2..] == y;
    TwoInjective(m, n);
  }

  lemma ClockSame(r: nat, q: nat)
    requires r < 86400 && q < 86400 && Clock(r) == Clock(q)
    ensures r == q
  {
    hide Padded;
    var (h, m, s) := (r / 3600, r % 3600 / 60, r % 60);
    var (h', m', s') := (q / 3600, q % 3600 / 60, q % 60);
    assert r == 3600 * h + 60 * m + s && q == 3600 * h' + 60 * m' + s';
    var rest := (m: nat, s: nat) => ":" + (Padded(m, 2) + (":" + (Padded(s, 2) + "Z")));
    assert "" + (Padded(h, 2) + rest(m, s)) == Clock(r);
    assert "" + (Padded(h', 2) + rest(m', s')) == Clock(q);
    FieldSame("", h, h', rest(m, s), rest(m', s'));
    FieldSame(":", m, m', ":" + (Padded(s, 2) + "Z"), ":" + (Padded(s', 2) + "Z"));
    FieldSame(":", s, s', "Z", "Z");
  }

  lemma TailLength(t: Date, rem: nat)
    requires ValidDate(t) && rem < 86400
    ensures |MonthDay(t) + Clock(rem)| == 16
  {
    PaddedTwo(t.m);
    PaddedTwo(t.d);
    PaddedTwo(rem / 3600);
    PaddedTwo(rem % 3600 / 60);
    PaddedTwo(rem % 60);
    hide Padded;
  }

  lemma YearDigits(y: nat)
    requires y >= 1000
    ensures Padded(y, 4) == ShowNat(y)
  {
    assert y / 10 / 10 / 10 >= 1;
    assert |ShowNat(y / 10 / 10 / 10)| >= 1;
    assert |ShowNat(y / 10 / 10)| >= 2;
    assert |ShowNat(y / 10)| >= 3;
  }

  lemma MonthDaySame(t: Date, u: Date, x: string, y: string)
    requires ValidDate(t) && ValidDate(u) && MonthDay(t) + x == MonthDay(u) + y
    ensures t.m == u.m && t.d == u.d && x == y
  {
    hide Padded;
    MonthDayThen(t, x);
    MonthDayThen(u, y);
    FieldSame("-", t.m, u.m, "-" + (Padded(t.d, 2) + ("T" + x)), "-" + (Padded(u.d, 2) + ("T" + y)));
    FieldSame("-", t.d, u.d, "T" + x, "T" + y);
    assert ("T" + x)[1..] == x && ("T" + y)[1..] == y;
  }

  /** No two seconds share a timestamp. */
  lemma Rfc3339Injective(s: nat, t: nat)
    requires Rfc3339FromSecs(s) == Rfc3339FromSecs(t)
    ensures s == t
  {
    hide CivilFromDays, Padded, Clock, MonthDay;
    CivilIsTheDay(s / 86400);
    CivilIsTheDay(t / 86400);
    FromEpoch(s / 86400);
    FromEpoch(t / 86400);
    var x, y := CivilFromDays(s / 86400), CivilFromDays(t / 86400);
    var tail, tail' := MonthDay(x) + Clock(s % 86400), MonthDay(y) + Clock(t % 86400);
    TailLength(x, s % 86400);
    TailLength(y, t % 86400);
    SplitSame(Padded(x.y, 4), tail, Padded(y.y, 4), tail');
    YearDigits(x.y);
    YearDigits(y.y);
    DigitsShown(x.y);
    DigitsShown(y.y);
    MonthDaySame(x, y, Clock(s % 86400), Clock(t % 86400));
    ClockSame(s % 86400, t % 86400);
    assert x == y;
    assert s == 86400 * (s / 86400) + s % 86400 && t == 86400 * (t / 86400) + t % 86400;
  }

  lemma SplitSame(a: string, x: string, b: string, y: string)
    requires a + x == b + y && |x| == |y|
    ensures a == b && x == y
  {
    assert |a| == |b|;
    assert (a + x)[..|a|] == a && (b + y)[..|b|] == b;
    assert (a + x)[|a|..] == x && (b + y)[|b|..] == y;
  }
}
