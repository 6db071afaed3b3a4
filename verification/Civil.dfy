/** The civil-date arithmetic behind registry timestamps, for every integer year. */
module Civil {
  import opened Arith

  // ---- Truncating arithmetic, as in Rust ----

  /** The quotient is truncated toward zero. */
  function TruncDiv(a: int, b: int): int
    requires b > 0
  {
    if a >= 0 then a / b else -((-a) / b)
  }

  function TruncRem(a: int, b: int): int
    requires b > 0
  {
    a - b * TruncDiv(a, b)
  }

  predicate IsLeapYear(y: int) {
    (TruncRem(y, 4) == 0 && TruncRem(y, 100) != 0) || TruncRem(y, 400) == 0
  }

  function DaysInMonth(y: int, m: int): int {
    match m
    case 1 => 31 case 3 => 31 case 5 => 31 case 7 => 31 case 8 => 31 case 10 => 31 case 12 => 31
    case 4 => 30 case 6 => 30 case 9 => 30 case 11 => 30
    case 2 => if IsLeapYear(y) then 29 else 28
    case _ => 0
  }

  function DaysFromCivil(y: int, m: int, d: int): int {
    var y := if m <= 2 then y - 1 else y;
    var era := TruncDiv(if y >= 0 then y else y - 399, 400);
    var yoe := y - era * 400;
    var mp := TruncRem(m + 9, 12);
    var doy := TruncDiv(153 * mp + 2, 5) + d - 1;
    var doe := yoe * 365 + TruncDiv(yoe, 4) - TruncDiv(yoe, 100) + doy;
    era * 146097 + doe - 719468
  }

  datatype Date = Date(y: int, m: int, d: int)

  predicate Exists(t: Date) {
    1 <= t.m <= 12 && 1 <= t.d <= DaysInMonth(t.y, t.m)
  }

  function DayNumber(t: Date): int {
    DaysFromCivil(t.y, t.m, t.d)
  }

  /** The formatter's half: the date a day number falls on (Euclidean division here). */
  function CivilFromDays(days: int): Date {
    var z := days + 719468;
    var era := z / 146097;
    var doe := z % 146097;
    var yoe := (doe - doe / 1460 + doe / 36524 - doe / 146096) / 365;
    var y := yoe + era * 400;
    var doy := doe - (365 * yoe + yoe / 4 - yoe / 100);
    var mp := (5 * doy + 2) / 153;
    var d := doy - (153 * mp + 2) / 5 + 1;
    var m := if mp < 10 then mp + 3 else mp - 9;
    Date(if m <= 2 then y + 1 else y, m, d)
  }

  // ---- The reference: a calendar that turns one page a day ----

  function NextDay(t: Date): Date {
    if t.d < DaysInMonth(t.y, t.m) then Date(t.y, t.m, t.d + 1)
    else if t.m < 12 then Date(t.y, t.m + 1, 1)
    else Date(t.y + 1, 1, 1)
  }

  function PrevDay(t: Date): Date {
    if t.d > 1 then Date(t.y, t.m, t.d - 1)
    else if t.m > 1 then Date(t.y, t.m - 1, DaysInMonth(t.y, t.m - 1))
    else Date(t.y - 1, 12, 31)
  }

  const EPOCH := Date(1970, 1, 1)

  /** The page shown `k` days after, or before, 1970-01-01. */
  function Page(k: int): Date
    decreases if k < 0 then -k else k
  {
    if k == 0 then EPOCH
    else if k > 0 then NextDay(Page(k - 1))
    else PrevDay(Page(k + 1))
  }

  // ---- Eras, years of an era, days of a year ----

  lemma Leap(y: int)
    ensures IsLeapYear(y) <==> (y % 4 == 0 && y % 100 != 0) || y % 400 == 0
  {
    assert TruncRem(y, 4) == 0 <==> y % 4 == 0;
    assert TruncRem(y, 100) == 0 <==> y % 100 == 0;
    assert TruncRem(y, 400) == 0 <==> y % 400 == 0;
  }

  /** The era is the floor of the quotient, for negative years too. */
  lemma EraIsFloor(y: int)
    ensures TruncDiv(if y >= 0 then y else y - 399, 400) == y / 400
  {
  }

  /** Day of the era on which year `yoe` of the era (counted from March) starts. */
  function YearStart(yoe: int): int {
    365 * yoe + yoe / 4 - yoe / 100
  }

  /** Day of the March-based year on which month `mp` (March is 0) starts. */
  function MonthStart(mp: int): int {
    (153 * mp + 2) / 5
  }

  /** A year from March holds 29 February exactly if the civil year it ends in is a leap year. */
  predicate LongYear(yoe: int) {
    (yoe + 1) % 4 == 0 && ((yoe + 1) % 100 != 0 || (yoe + 1) % 400 == 0)
  }

  /** A date as era, year of era, month from March and day of year from March. */
  datatype Split = Split(era: int, yoe: int, mp: int, doy: int)

  function SplitOf(t: Date): Split {
    var y := if t.m <= 2 then t.y - 1 else t.y;
    var mp := if t.m > 2 then t.m - 3 else t.m + 9;
    Split(y / 400, y % 400, mp, MonthStart(mp) + t.d - 1)
  }

  predicate InRange(x: Split) {
    && 0 <= x.yoe < 400 && 0 <= x.mp <= 11
    && MonthStart(x.mp) <= x.doy <= 365
    && (x.mp < 11 ==> x.doy < MonthStart(x.mp + 1))
    && (x.doy == 365 ==> LongYear(x.yoe))
  }

  /** The algorithm computes exactly this from the split. */
  lemma DayNumberOfSplit(t: Date)
    requires 1 <= t.m <= 12
    ensures var x := SplitOf(t); DayNumber(t) == x.era * 146097 + YearStart(x.yoe) + x.doy - 719468
  {
    var y := if t.m <= 2 then t.y - 1 else t.y;
    EraIsFloor(y);
    assert y - (y / 400) * 400 == y % 400;
  }

  lemma WholeEras(e: int, r: int)
    ensures (400 * e + r) % 4 == r % 4
    ensures (400 * e + r) % 100 == r % 100
    ensures (400 * e + r) % 400 == r % 400
  {
    DivModUnique(400 * e + r, 100 * e + r / 4, r % 4, 4);
    DivModUnique(400 * e + r, 4 * e + r / 100, r % 100, 100);
    DivModUnique(400 * e + r, e + r / 400, r % 400, 400);
  }

  lemma LeapOfYoe(y: int)
    ensures IsLeapYear(y + 1) <==> LongYear(y % 400)
  {
    hide IsLeapYear;
    Leap(y + 1);
    WholeEras(y / 400, y % 400 + 1);
    assert y + 1 == 400 * (y / 400) + (y % 400 + 1);
  }

  lemma SplitInRange(t: Date)
    requires 1 <= t.m <= 12
    ensures Exists(t) <==> InRange(SplitOf(t))
  {
    var y := if t.m <= 2 then t.y - 1 else t.y;
    LeapOfYoe(y);
  }

  // ---- Recovering the year of the era ----

  /** Days, four-year groups and centuries within an era. */
  lemma YearOfEra(c: int, q: int, r: int, e: int)
    requires 0 <= c <= 3 && 0 <= q <= 24 && 0 <= r <= 3 && 0 <= e <= 365
    requires e == 365 ==> r == 3 && (q < 24 || c == 3)
    ensures var doe := 36524 * c + 1461 * q + 365 * r + e;
            (doe - doe / 1460 + doe / 36524 - doe / 146096) / 365 == 100 * c + 4 * q + r
  {
    var doe := 36524 * c + 1461 * q + 365 * r + e;
    assert 0 <= doe <= 146096;
    assert doe / 36524 - doe / 146096 == c;
    var w := 24 * c + q + 365 * r + e;
    assert doe == 1460 * (25 * c + q) + w && 0 <= w < 2 * 1460;
    var b := if w >= 1460 then 1 else 0;
    assert doe / 1460 == 25 * c + q + b;
    assert doe - doe / 1460 + c == 365 * (100 * c + 4 * q + r) + (e - b);
    assert 0 <= e - b < 365;
  }

  lemma YearStartParts(c: int, q: int, r: int)
    requires 0 <= c <= 3 && 0 <= q <= 24 && 0 <= r <= 3
    ensures YearStart(100 * c + 4 * q + r) == 36524 * c + 1461 * q + 365 * r
    ensures LongYear(100 * c + 4 * q + r) <==> r == 3 && (q < 24 || c == 3)
  {
    var yoe := 100 * c + 4 * q + r;
    assert yoe / 4 == 25 * c + q && yoe / 100 == c;
    assert (yoe + 1) % 4 == (r + 1) % 4;
    assert yoe + 1 == 100 * c + (4 * q + r + 1);
  }

  /** Within an era, year and day of year determine the day and are determined by it. */
  lemma YearFromDay(yoe: int, doy: int)
    requires 0 <= yoe < 400 && 0 <= doy <= 365 && (doy == 365 ==> LongYear(yoe))
    ensures var doe := YearStart(yoe) + doy;
            0 <= doe < 146097 && (doe - doe / 1460 + doe / 36524 - doe / 146096) / 365 == yoe
  {
    var c, q, r := yoe / 100, yoe % 100 / 4, yoe % 4;
    assert yoe == 100 * c + 4 * q + r;
    YearStartParts(c, q, r);
    YearOfEra(c, q, r, doy);
  }

  lemma DayHasYear(doe: int)
    requires 0 <= doe < 146097
    ensures var yoe := (doe - doe / 1460 + doe / 36524 - doe / 146096) / 365;
            var doy := doe - YearStart(yoe);
            0 <= yoe < 400 && 0 <= doy <= 365 && (doy == 365 ==> LongYear(yoe))
  {
    var c := if doe / 36524 == 4 then 3 else doe / 36524;
    var d1 := doe - 36524 * c;
    var q := if d1 / 1461 == 25 then 24 else d1 / 1461;
    var d2 := d1 - 1461 * q;
    var r := if d2 / 365 == 4 then 3 else d2 / 365;
    var e := d2 - 365 * r;
    YearStartParts(c, q, r);
    YearOfEra(c, q, r, e);
  }

  lemma MonthFromDay(mp: int, doy: int)
    requires 0 <= mp <= 11 && MonthStart(mp) <= doy <= 365 && (mp < 11 ==> doy < MonthStart(mp + 1))
    ensures (5 * doy + 2) / 153 == mp
  {
    if mp == 0 {} else if mp == 1 {} else if mp == 2 {} else if mp == 3 {} else if mp == 4 {} else if mp == 5 {}
    else if mp == 6 {} else if mp == 7 {} else if mp == 8 {} else if mp == 9 {} else if mp == 10 {} else {}
  }

  lemma DayHasMonth(doy: int)
    requires 0 <= doy <= 365
    ensures var mp := (5 * doy + 2) / 153;
            0 <= mp <= 11 && MonthStart(mp) <= doy && (mp < 11 ==> doy < MonthStart(mp + 1))
  {
  }

  // ---- The two halves are inverse ----

  lemma CivilOfSplit(x: Split)
    requires InRange(x)
    ensures var t := CivilFromDays(x.era * 146097 + YearStart(x.yoe) + x.doy - 719468);
            SplitOf(t) == x && 1 <= t.m <= 12
  {
    hide LongYear, CivilFromDays, YearStart;
    var days := x.era * 146097 + YearStart(x.yoe) + x.doy - 719468;
    YearFromDay(x.yoe, x.doy);
    DivModUnique(days + 719468, x.era, YearStart(x.yoe) + x.doy, 146097);
    MonthFromDay(x.mp, x.doy);
    CivilParts(days, x);
    DivModUnique(x.yoe + x.era * 400, x.era, x.yoe, 400);
  }

  /** What the formatter computes, given the parts it recovers. */
  lemma CivilParts(days: int, x: Split)
    requires var z := days + 719468; z / 146097 == x.era && z % 146097 == YearStart(x.yoe) + x.doy
    requires var doe := YearStart(x.yoe) + x.doy; (doe - doe / 1460 + doe / 36524 - doe / 146096) / 365 == x.yoe
    requires (5 * x.doy + 2) / 153 == x.mp && 0 <= x.mp <= 11
    ensures CivilFromDays(days)
         == Date(x.yoe + x.era * 400 + (if x.mp < 10 then 0 else 1),
                 if x.mp < 10 then x.mp + 3 else x.mp - 9,
                 x.doy - MonthStart(x.mp) + 1)
  {
  }

  lemma SplitDeterminesDate(s: Date, t: Date)
    requires 1 <= s.m <= 12 && 1 <= t.m <= 12 && SplitOf(s) == SplitOf(t)
    ensures s == t
  {
    var ys := if s.m <= 2 then s.y - 1 else s.y;
    var yt := if t.m <= 2 then t.y - 1 else t.y;
    assert ys == 400 * (ys / 400) + ys % 400;
    assert yt == 400 * (yt / 400) + yt % 400;
  }

  lemma CivilIsRealDate(days: int)
    ensures Exists(CivilFromDays(days))
    ensures DayNumber(CivilFromDays(days)) == days
  {
    hide CivilFromDays, SplitOf, DayNumber, Exists, YearStart, MonthStart, LongYear;
    var z := days + 719468;
    DayHasYear(z % 146097);
    var doe := z % 146097;
    var yoe := (doe - doe / 1460 + doe / 36524 - doe / 146096) / 365;
    var doy := doe - YearStart(yoe);
    DayHasMonth(doy);
    var x := Split(z / 146097, yoe, (5 * doy + 2) / 153, doy);
    CivilOfSplit(x);
    var t := CivilFromDays(days);
    SplitInRange(t);
    DayNumberOfSplit(t);
  }

  lemma CivilInvertsDayNumber(t: Date)
    requires Exists(t)
    ensures CivilFromDays(DayNumber(t)) == t
  {
    hide CivilFromDays, SplitOf, DayNumber, YearStart, InRange;
    SplitInRange(t);
    DayNumberOfSplit(t);
    CivilOfSplit(SplitOf(t));
    CivilIsRealDate(DayNumber(t));
    SplitDeterminesDate(CivilFromDays(DayNumber(t)), t);
  }

  // ---- Day by day ----

  lemma YearLength(yoe: int)
    requires 0 <= yoe < 400
    ensures YearStart(yoe) + 365 + (if LongYear(yoe) then 1 else 0) == if yoe == 399 then 146097 else YearStart(yoe + 1)
  {
    var c, q, r := yoe / 100, yoe % 100 / 4, yoe % 4;
    assert yoe == 100 * c + 4 * q + r;
    hide YearStart, LongYear;
    YearStartParts(c, q, r);
    if r < 3 {
      YearStartParts(c, q, r + 1);
    } else if q < 24 {
      YearStartParts(c, q + 1, 0);
    } else if c < 3 {
      YearStartParts(c + 1, 0, 0);
    }
  }

  /** 1 March follows the last of February, across eras too. */
  lemma MarchFollowsFebruary(y: int)
    ensures DayNumber(Date(y, 3, 1)) == DayNumber(Date(y, 2, DaysInMonth(y, 2))) + 1
  {
    hide YearStart, LongYear, IsLeapYear;
    var feb := Date(y, 2, DaysInMonth(y, 2));
    DayNumberOfSplit(feb);
    DayNumberOfSplit(Date(y, 3, 1));
    LeapOfYoe(y - 1);
    var e, r := (y - 1) / 400, (y - 1) % 400;
    YearLength(r);
    YearStartZero();
    if r == 399 {
      DivModUnique(y, e + 1, 0, 400);
    } else {
      DivModUnique(y, e, r + 1, 400);
    }
  }

  lemma YearStartZero()
    ensures YearStart(0) == 0
  {
  }

  lemma NextDayIsOneMore(t: Date)
    requires Exists(t)
    ensures Exists(NextDay(t)) && DayNumber(NextDay(t)) == DayNumber(t) + 1
  {
    hide DayNumber, YearStart, IsLeapYear;
    if t.d == DaysInMonth(t.y, t.m) && t.m == 2 {
      MarchFollowsFebruary(t.y);
    } else {
      DayNumberOfSplit(t);
      DayNumberOfSplit(NextDay(t));
    }
  }

  lemma PrevDayIsOneLess(t: Date)
    requires Exists(t)
    ensures Exists(PrevDay(t)) && NextDay(PrevDay(t)) == t && DayNumber(PrevDay(t)) == DayNumber(t) - 1
  {
    hide DayNumber;
    NextDayIsOneMore(PrevDay(t));
  }

  /** The algorithm agrees with the day-at-a-time calendar on every page, and every date has a page. */
  lemma {:induction false} PageNumber(k: int)
    ensures Exists(Page(k)) && DayNumber(Page(k)) == k
    decreases if k < 0 then -k else k
  {
    hide Exists, NextDay, PrevDay;
    if k > 0 {
      PageNumber(k - 1);
      hide DayNumber;
      NextDayIsOneMore(Page(k - 1));
    } else if k < 0 {
      PageNumber(k + 1);
      hide DayNumber;
      PrevDayIsOneLess(Page(k + 1));
    } else {
      EpochExists();
    }
  }

  lemma EpochExists()
    ensures Exists(EPOCH) && DayNumber(EPOCH) == 0
  {
  }

  lemma DaysFromCivilCountsPages(t: Date)
    requires Exists(t)
    ensures Page(DaysFromCivil(t.y, t.m, t.d)) == t
    ensures forall k :: Page(k) == t ==> k == DaysFromCivil(t.y, t.m, t.d)
  {
    hide Exists, CivilFromDays, Page;
    PageNumber(DayNumber(t));
    CivilInvertsDayNumber(t);
    CivilInvertsDayNumber(Page(DayNumber(t)));
    forall k | Page(k) == t ensures k == DayNumber(t) {
      PageNumber(k);
    }
  }

  // ---- Order ----

  predicate Before(s: Date, t: Date) {
    s.y < t.y || (s.y == t.y && (s.m < t.m || (s.m == t.m && s.d < t.d)))
  }

  function MonthFirst(k: int): Date {
    Date(k / 12, k % 12 + 1, 1)
  }

  lemma DayOfMonth(t: Date)
    ensures DayNumber(t) == DayNumber(t.(d := 1)) + t.d - 1
  {
  }

  lemma NextMonth(k: int)
    ensures var t := MonthFirst(k);
            DayNumber(MonthFirst(k + 1)) == DayNumber(t) + DaysInMonth(t.y, t.m) && DaysInMonth(t.y, t.m) >= 28
  {
    var t := MonthFirst(k);
    var last := t.(d := DaysInMonth(t.y, t.m));
    hide DayNumber, IsLeapYear;
    DayOfMonth(last);
    NextDayIsOneMore(last);
    assert NextDay(last) == MonthFirst(k + 1);
  }

  lemma {:induction false} MonthsIncrease(i: int, j: int)
    requires i < j
    ensures var t := MonthFirst(i); DayNumber(t) + DaysInMonth(t.y, t.m) <= DayNumber(MonthFirst(j))
    decreases j - i
  {
    hide DayNumber, DaysInMonth, MonthFirst;
    if i + 1 < j {
      MonthsIncrease(i, j - 1);
      NextMonth(j - 1);
    } else {
      NextMonth(i);
    }
  }

  /** Later dates have larger day numbers, and only they. */
  lemma DayNumberIsMonotone(s: Date, t: Date)
    requires Exists(s) && Exists(t)
    ensures Before(s, t) <==> DayNumber(s) < DayNumber(t)
  {
    if Before(s, t) {
      EarlierIsSmaller(s, t);
    } else if s != t {
      EarlierIsSmaller(t, s);
    }
  }

  lemma EarlierIsSmaller(s: Date, t: Date)
    requires Exists(s) && Exists(t) && Before(s, t)
    ensures DayNumber(s) < DayNumber(t)
  {
    hide DayNumber, IsLeapYear;
    DayOfMonth(s);
    DayOfMonth(t);
    var i, j := 12 * s.y + s.m - 1, 12 * t.y + t.m - 1;
    assert MonthFirst(i) == s.(d := 1) && MonthFirst(j) == t.(d := 1);
    if i < j {
      MonthsIncrease(i, j);
    }
  }
}
