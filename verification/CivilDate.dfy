/** Day numbers of the proleptic Gregorian calendar: the constant-time formulas of the time parser
    and the time printer against plain counting of days. */
module CivilDate {

  datatype Date = Date(y: int, m: int, d: int)

  // ----- The calendar (RFC 3339, section 5.7 and appendix C) -----

  predicate IsLeap(y: int) { y % 4 == 0 && (y % 100 != 0 || y % 400 == 0) }

  function DaysInMonth(y: int, m: int): int
    requires 1 <= m <= 12
  {
    if m == 2 then (if IsLeap(y) then 29 else 28)
    else if m == 4 || m == 6 || m == 9 || m == 11 then 30
    else 31
  }

  function DaysInYear(y: int): int { if IsLeap(y) then 366 else 365 }

  predicate ValidDate(c: Date) {
    1 <= c.m <= 12 && 1 <= c.d <= DaysInMonth(c.y, c.m)
  }

  /** Days from 1970-01-01 to the first day of year `y`, counted year by year. */
  function YearStart(y: int): int
    decreases if y < 1970 then 1970 - y else y - 1970
  {
    if y == 1970 then 0
    else if y > 1970 then YearStart(y - 1) + DaysInYear(y - 1)
    else YearStart(y + 1) - DaysInYear(y)
  }

  /** Days from the first day of the year to the first day of month `m`, counted month by month. */
  function MonthStart(y: int, m: int): int
    requires 1 <= m <= 12
    decreases m
  {
    if m == 1 then 0 else MonthStart(y, m - 1) + DaysInMonth(y, m - 1)
  }

  /** The day number by plain counting. */
  function CountDays(c: Date): int
    requires 1 <= c.m <= 12
  {
    YearStart(c.y) + MonthStart(c.y, c.m) + c.d - 1
  }

  // ----- The parser's formula -----

  /** Rust's division of integers, which truncates toward zero. */
  function TruncDiv(a: int, b: int): int
    requires b > 0
  {
    if a >= 0 then a / b else -Quotient(-a, b)
  }

  function Quotient(a: int, b: int): int
    requires a >= 0 && b > 0
  {
    a / b
  }

  function DaysFromCivil(c: Date): int {
    var z := if c.m > 2 then c.y else c.y - 1;
    var era := TruncDiv(if z >= 0 then z else z - 399, 400);
    var yoe := z - era * 400;
    var mAdj := if c.m > 2 then c.m - 3 else c.m + 9;
    var doy := TruncDiv(153 * mAdj + 2, 5) + c.d - 1;
    var doe := yoe * 365 + TruncDiv(yoe, 4) - TruncDiv(yoe, 100) + doy;
    era * 146097 + doe - 719468
  }

  // ----- The printer's formula -----

  function CivilFromDays(days: int): Date {
    var z := days + 719468;
    var era := TruncDiv(if z >= 0 then z else z - 146096, 146097);
    var doe := z - era * 146097;
    var yoe := TruncDiv(doe - TruncDiv(doe, 1460) + TruncDiv(doe, 36524) - TruncDiv(doe, 146096), 365);
    var y := yoe + era * 400;
    var doy := doe - (365 * yoe + TruncDiv(yoe, 4) - TruncDiv(yoe, 100));
    var mp := TruncDiv(5 * doy + 2, 153);
    var d := doy - TruncDiv(153 * mp + 2, 5) + 1;
    var m := if mp < 10 then mp + 3 else mp - 9;
    Date(if m <= 2 then y + 1 else y, m, d)
  }

  // ----- The parser's formula counts days -----

  /** Days before March 1 of year `z`, up to a constant. */
  function MarchDays(z: int): int { 365 * z + z / 4 - z / 100 + z / 400 }

  lemma MarchDaysOfEra(era: int, yoe: int)
    requires 0 <= yoe < 400
    ensures MarchDays(400 * era + yoe) == era * 146097 + yoe * 365 + yoe / 4 - yoe / 100
  {
    var z := 400 * era + yoe;
    assert z / 4 == 100 * era + yoe / 4;
    assert z / 100 == 4 * era + yoe / 100;
    assert z / 400 == era;
  }

  lemma EraForm(z: int)
    ensures var era := TruncDiv(if z >= 0 then z else z - 399, 400);
            var yoe := z - era * 400;
            && era == z / 400 && 0 <= yoe < 400
            && era * 146097 + yoe * 365 + yoe / 4 - yoe / 100 == MarchDays(z)
  {
    MarchDaysOfEra(z / 400, z % 400);
  }

  lemma ClosedForm(c: Date)
    requires 1 <= c.m <= 12
    ensures var z := if c.m > 2 then c.y else c.y - 1;
            var mAdj := if c.m > 2 then c.m - 3 else c.m + 9;
            DaysFromCivil(c) == MarchDays(z) + (153 * mAdj + 2) / 5 + c.d - 1 - 719468
  {
    EraForm(if c.m > 2 then c.y else c.y - 1);
  }

  lemma YearStep(z: int)
    ensures MarchDays(z + 1) - MarchDays(z) == DaysInYear(z + 1)
  {
    assert (z + 1) / 4 - z / 4 == if (z + 1) % 4 == 0 then 1 else 0;
    assert (z + 1) / 100 - z / 100 == if (z + 1) % 100 == 0 then 1 else 0;
    assert (z + 1) / 400 - z / 400 == if (z + 1) % 400 == 0 then 1 else 0;
    assert (z + 1) % 400 == 0 ==> (z + 1) % 100 == 0;
    assert (z + 1) % 100 == 0 ==> (z + 1) % 4 == 0;
  }

  lemma {:induction false} YearStartClosed(y: int)
    ensures YearStart(y) == MarchDays(y - 1) + 306 - 719468
    decreases if y < 1970 then 1970 - y else y - 1970
  {
    if y > 1970 {
      YearStartClosed(y - 1);
      YearStep(y - 2);
    } else if y < 1970 {
      YearStartClosed(y + 1);
      YearStep(y - 1);
    }
  }

  /** Unrolls the month table. */
  lemma MonthTable(y: int, m: int)
    requires 1 <= m <= 12
    ensures MonthStart(y, m) ==
            [0, 31, 59, 90, 120, 151, 181, 212, 243, 273, 304, 334][m - 1] + if m > 2 && IsLeap(y) then 1 else 0
  {
    assert MonthStart(y, 3) == 59 + if IsLeap(y) then 1 else 0;
    assert MonthStart(y, 5) == MonthStart(y, 3) + 61;
    assert MonthStart(y, 7) == MonthStart(y, 5) + 61;
    assert MonthStart(y, 9) == MonthStart(y, 7) + 62;
    assert MonthStart(y, 11) == MonthStart(y, 9) + 61;
  }

  /** The parser's constant-time formula is the plain count of days, for every year. */
  lemma DaysFromCivilCounts(c: Date)
    requires 1 <= c.m <= 12
    ensures DaysFromCivil(c) == CountDays(c)
  {
    ClosedForm(c);
    YearStartClosed(c.y);
    MonthTable(c.y, c.m);
    YearStep(c.y - 1);
  }

  // ----- Order -----

  predicate Before(a: Date, b: Date) {
    a.y < b.y || (a.y == b.y && (a.m < b.m || (a.m == b.m && a.d < b.d)))
  }

  lemma MonthEnd(c: Date)
    requires ValidDate(c)
    ensures 0 <= MonthStart(c.y, c.m) + c.d - 1 < DaysInYear(c.y)
    ensures c.m < 12 ==> MonthStart(c.y, c.m) + c.d - 1 < MonthStart(c.y, c.m + 1)
  {
    MonthTable(c.y, c.m);
  }

  lemma {:induction false} MonthsIncrease(y: int, m: int, n: int)
    requires 1 <= m <= n <= 12
    ensures MonthStart(y, m) <= MonthStart(y, n)
    decreases n - m
  {
    if m < n {
      MonthsIncrease(y, m, n - 1);
    }
  }

  lemma {:induction false} YearsIncrease(y: int, x: int)
    requires y <= x
    ensures YearStart(y) <= YearStart(x)
    decreases x - y
  {
    if y < x {
      YearsIncrease(y, x - 1);
      YearStartClosed(x);
      YearStartClosed(x - 1);
      YearStep(x - 2);
    }
  }

  /** Day numbers grow strictly with the date, so the order of dates and of day numbers agree. */
  lemma DaysFromCivilMonotone(a: Date, b: Date)
    requires ValidDate(a) && ValidDate(b)
    ensures Before(a, b) <==> DaysFromCivil(a) < DaysFromCivil(b)
    ensures a == b <==> DaysFromCivil(a) == DaysFromCivil(b)
  {
    if Before(a, b) {
      BeforeIsLess(a, b);
    } else if a != b {
      BeforeIsLess(b, a);
    }
  }

  lemma NextYear(y: int)
    ensures YearStart(y + 1) == YearStart(y) + DaysInYear(y)
  {
    YearStartClosed(y);
    YearStartClosed(y + 1);
    YearStep(y - 1);
  }

  lemma BeforeIsLess(a: Date, b: Date)
    requires ValidDate(a) && ValidDate(b) && Before(a, b)
    ensures DaysFromCivil(a) < DaysFromCivil(b)
  {
    DaysFromCivilCounts(a);
    DaysFromCivilCounts(b);
    if a.y < b.y { EarlierYear(a, b); } else { SameYear(a, b); }
  }

  lemma EarlierYear(a: Date, b: Date)
    requires ValidDate(a) && ValidDate(b) && a.y < b.y
    ensures CountDays(a) < CountDays(b)
  {
    MonthEnd(a);
    MonthEnd(b);
    YearsIncrease(a.y + 1, b.y);
    NextYear(a.y);
  }

  lemma SameYear(a: Date, b: Date)
    requires ValidDate(a) && ValidDate(b) && a.y == b.y && Before(a, b)
    ensures CountDays(a) < CountDays(b)
  {
    MonthEnd(a);
    if a.m < b.m { MonthsIncrease(a.y, a.m + 1, b.m); }
  }

  // ----- The printer's formula inverts the parser's -----

  /** Splits a day of the era into centuries, groups of four years, and the rest. */
  lemma SplitEra(doe: int) returns (cent: int, quad: int, rest: int)
    requires 0 <= doe < 146097
    ensures doe == 36524 * cent + 1461 * quad + rest
    ensures 0 <= cent <= 3 && 0 <= quad <= 24 && 0 <= rest <= 1460
    ensures cent < 3 && quad == 24 ==> rest < 1460
  {
    cent := if doe == 146096 then 3 else doe / 36524;
    quad := (doe - 36524 * cent) / 1461;
    rest := doe - 36524 * cent - 1461 * quad;
  }

  /** The corrections in the printer's formula cancel the leap days exactly. */
  lemma YearOfEra(doe: int, cent: int, quad: int, rest: int)
    requires 0 <= doe < 146097 && doe == 36524 * cent + 1461 * quad + rest
    requires 0 <= cent <= 3 && 0 <= quad <= 24 && 0 <= rest <= 1460
    requires cent < 3 && quad == 24 ==> rest < 1460
    ensures (doe - doe / 1460 + doe / 36524 - doe / 146096) / 365 ==
            100 * cent + 4 * quad + (if rest == 1460 then 3 else rest / 365)
  {
    var extra := if 24 * cent + quad + rest >= 1460 then 1 else 0;
    assert doe / 1460 == 25 * cent + quad + extra by {
      assert doe == 1460 * (25 * cent + quad) + 24 * cent + quad + rest;
    }
    assert doe / 36524 - doe / 146096 == cent;
    var yr := if rest == 1460 then 3 else rest / 365;
    assert 365 * yr <= rest - extra < 365 * (yr + 1);
    assert doe - doe / 1460 + doe / 36524 - doe / 146096 == 365 * (100 * cent + 4 * quad) + rest - extra;
  }

  function Yoe(doe: int): int { (doe - doe / 1460 + doe / 36524 - doe / 146096) / 365 }

  function Doy(doe: int): int { doe - (365 * Yoe(doe) + Yoe(doe) / 4 - Yoe(doe) / 100) }

  function Month(doy: int): int {
    var mp := (5 * doy + 2) / 153;
    if mp < 10 then mp + 3 else mp - 9
  }

  function Day(doy: int): int {
    var mp := (5 * doy + 2) / 153;
    doy - (153 * mp + 2) / 5 + 1
  }

  /** The year of an era and the day within that year. */
  lemma DayOfYear(doe: int)
    requires 0 <= doe < 146097
    ensures 0 <= Yoe(doe) < 400 && 0 <= Doy(doe) < DaysInYear(Yoe(doe) + 1)
  {
    var cent, quad, rest := SplitEra(doe);
    YearOfEra(doe, cent, quad, rest);
    var yr := if rest == 1460 then 3 else rest / 365;
    var yoe := 100 * cent + 4 * quad + yr;
    assert yoe / 4 == 25 * cent + quad && yoe / 100 == cent;
    assert doe - (365 * yoe + yoe / 4 - yoe / 100) == rest - 365 * yr;
    if rest == 1460 {
      assert yoe + 1 == 4 * (25 * cent + quad + 1);
      assert (yoe + 1) % 4 == 0;
      if quad == 24 {
        assert yoe + 1 == 400;
      } else {
        assert yoe + 1 == 100 * cent + 4 * (quad + 1);
        assert (yoe + 1) % 100 == 4 * (quad + 1);
      }
    }
  }

  /** The month formula finds the month and day of a day counted from March 1. */
  lemma MonthOfDay(y: int, doy: int)
    requires 0 <= doy < DaysInYear(y + 1)
    ensures var m := Month(doy);
            var c := Date(if m <= 2 then y + 1 else y, m, Day(doy));
            ValidDate(c) && (153 * (if m > 2 then m - 3 else m + 9) + 2) / 5 + c.d - 1 == doy
  {
    var mp := (5 * doy + 2) / 153;
    assert 0 <= mp <= 11;
    assert (153 * mp + 2) / 5 <= doy && (mp < 11 ==> doy < (153 * (mp + 1) + 2) / 5);
  }

  lemma YoeForm(doe: int)
    requires 0 <= doe < 146097
    ensures TruncDiv(doe - TruncDiv(doe, 1460) + TruncDiv(doe, 36524) - TruncDiv(doe, 146096), 365) == Yoe(doe)
  {
    assert doe - doe / 1460 + doe / 36524 - doe / 146096 >= 0;
  }

  lemma DoyForm(doe: int, yoe: int)
    requires 0 <= yoe
    ensures doe - (365 * yoe + TruncDiv(yoe, 4) - TruncDiv(yoe, 100)) == doe - (365 * yoe + yoe / 4 - yoe / 100)
  {
  }

  lemma MonthForm(doy: int)
    requires 0 <= doy
    ensures var mp := TruncDiv(5 * doy + 2, 153);
            && doy - TruncDiv(153 * mp + 2, 5) + 1 == Day(doy) && (if mp < 10 then mp + 3 else mp - 9) == Month(doy)
  {
  }

  lemma EraOfDay(z: int)
    requires z >= 0
    ensures TruncDiv(if z >= 0 then z else z - 146096, 146097) == z / 146097
    ensures z - z / 146097 * 146097 == z % 146097
  {
  }

  /** The printer's formula, step by step. */
  lemma CivilSteps(days: int, z: int, era: int, doe: int, yoe: int, doy: int, d: int, m: int)
    requires z >= 0 && 0 <= doe < 146097 && 0 <= yoe && 0 <= doy
    requires z == days + 719468 && era == TruncDiv(if z >= 0 then z else z - 146096, 146097)
    requires doe == z - era * 146097
    requires yoe == TruncDiv(doe - TruncDiv(doe, 1460) + TruncDiv(doe, 36524) - TruncDiv(doe, 146096), 365)
    requires doy == doe - (365 * yoe + TruncDiv(yoe, 4) - TruncDiv(yoe, 100))
    requires var mp := TruncDiv(5 * doy + 2, 153);
             d == doy - TruncDiv(153 * mp + 2, 5) + 1 && m == if mp < 10 then mp + 3 else mp - 9
    ensures CivilFromDays(days) == Date(if m <= 2 then yoe + era * 400 + 1 else yoe + era * 400, m, d)
  {
  }

  lemma CivilForm(days: int)
    requires days >= -719468
    ensures var z := days + 719468;
            var era, doe := z / 146097, z % 146097;
            var y, m := Yoe(doe) + era * 400, Month(Doy(doe));
            CivilFromDays(days) == Date(if m <= 2 then y + 1 else y, m, Day(Doy(doe)))
  {
    var z := days + 719468;
    var era, doe := z / 146097, z % 146097;
    DayOfYear(doe);
    EraOfDay(z);
    YoeForm(doe);
    DoyForm(doe, Yoe(doe));
    MonthForm(Doy(doe));
    CivilSteps(days, z, era, doe, Yoe(doe), Doy(doe), Day(Doy(doe)), Month(Doy(doe)));
  }

  lemma Mod4(x: int)
    ensures (x + 400) % 4 == x % 4
  {
    assert (x + 400) / 4 == x / 4 + 100;
  }

  lemma Mod100(x: int)
    ensures (x + 400) % 100 == x % 100
  {
    assert (x + 400) / 100 == x / 100 + 4;
  }

  lemma Mod400(x: int)
    ensures (x + 400) % 400 == x % 400
  {
    assert (x + 400) / 400 == x / 400 + 1;
  }

  lemma LeapStep(x: int)
    ensures IsLeap(x + 400) <==> IsLeap(x)
  {
    Mod4(x);
    Mod100(x);
    Mod400(x);
  }

  lemma {:induction false} LeapPeriod(y: int, era: nat)
    ensures IsLeap(y + era * 400) <==> IsLeap(y)
    decreases era
  {
    if era > 0 {
      LeapPeriod(y, era - 1);
      LeapStep(y + (era - 1) * 400);
    }
  }

  ghost predicate MarchForm(c: Date, y: int, doy: int) {
    && 1 <= c.m <= 12
    && (if c.m > 2 then c.y else c.y - 1) == y
    && (153 * (if c.m > 2 then c.m - 3 else c.m + 9) + 2) / 5 + c.d - 1 == doy
  }

  lemma CivilShape(era: nat, doe: int, days: int)
    requires 0 <= doe < 146097 && days == era * 146097 + doe - 719468
    ensures var c := CivilFromDays(days);
            ValidDate(c) && MarchForm(c, Yoe(doe) + era * 400, Doy(doe)) && c.y >= 0
  {
    var z := days + 719468;
    assert era == z / 146097 && doe == z % 146097;
    DayOfYear(doe);
    LeapPeriod(Yoe(doe) + 1, era);
    assert Yoe(doe) + era * 400 + 1 == (Yoe(doe) + 1) + era * 400;
    MonthOfDay(Yoe(doe) + era * 400, Doy(doe));
    CivilForm(days);
  }

  lemma Assemble(c: Date, era: int, yoe: int, doy: int)
    requires 0 <= yoe < 400 && MarchForm(c, yoe + era * 400, doy)
    ensures DaysFromCivil(c) == era * 146097 + yoe * 365 + yoe / 4 - yoe / 100 + doy - 719468
  {
    ClosedForm(c);
    MarchDaysOfEra(era, yoe);
    assert yoe + era * 400 == 400 * era + yoe;
  }

  /** From any day of year 0 on, the printer's formula yields a real calendar date, and the parser's
      formula takes that date back to the same day. */
  lemma CivilFromDaysInverts(days: int)
    requires days >= -719468
    ensures ValidDate(CivilFromDays(days)) && DaysFromCivil(CivilFromDays(days)) == days
    ensures CivilFromDays(days).y >= 0
  {
    var z := days + 719468;
    var era, doe := z / 146097, z % 146097;
    CivilShape(era, doe, days);
    DayOfYear(doe);
    Assemble(CivilFromDays(days), era, Yoe(doe), Doy(doe));
  }

  /** In the other direction, every real date from year 0 on (March 1 onward) is restored. */
  lemma DaysFromCivilInverts(c: Date)
    requires ValidDate(c) && DaysFromCivil(c) >= -719468
    ensures CivilFromDays(DaysFromCivil(c)) == c
  {
    CivilFromDaysInverts(DaysFromCivil(c));
    DaysFromCivilMonotone(c, CivilFromDays(DaysFromCivil(c)));
  }

  /** The day number of a valid date from 1970 on is not negative. */
  lemma FromEpoch(c: Date)
    requires ValidDate(c)
    ensures c.y >= 1970 <==> DaysFromCivil(c) >= 0
  {
    assert DaysFromCivil(Date(1970, 1, 1)) == 0;
    DaysFromCivilMonotone(c, Date(1970, 1, 1));
  }
}
