/**
 The clock's calendar (desktop/apps/clock.c): days since 1970-01-01 as a date, against the Gregorian
 calendar's own rule of what day comes after which.
 */
module Civil {
  import opened Arithmetic

  datatype Date = Date(year: int, month: int, day: int)

  // ----- the calendar -----

  predicate Leap(y: int)
  {
    y % 4 == 0 && (y % 100 != 0 || y % 400 == 0)
  }

  function DaysIn(y: int, m: int): int
  {
    if m == 2 then if Leap(y) then 29 else 28
    else if m == 4 || m == 6 || m == 9 || m == 11 then 30
    else 31
  }

  predicate IsDate(t: Date)
  {
    1 <= t.month <= 12 && 1 <= t.day <= DaysIn(t.year, t.month)
  }

  function Next(t: Date): Date
  {
    if t.day < DaysIn(t.year, t.month) then Date(t.year, t.month, t.day + 1)
    else if t.month < 12 then Date(t.year, t.month + 1, 1)
    else Date(t.year + 1, 1, 1)
  }

  /** The date n days after the first of January 1970. */
  function Calendar(n: nat): Date
  {
    if n == 0 then Date(1970, 1, 1) else Next(Calendar(n - 1))
  }

  // ----- the clock's arithmetic -----

  const ERA := 146097 // days in 400 years

  /** The year of the era, with years starting in March, of the era's day. */
  function YearOfEra(doe: nat): int
  {
    (doe - doe / 1460 + doe / 36524 - doe / 146096) / 365
  }

  /** The era's day on which its year y starts. */
  function YearStart(y: int): int
  {
    365 * y + y / 4 - y / 100
  }

  function MonthPart(doy: int): int
  {
    (5 * doy + 2) / 153
  }

  /** The date of day doy of year yoe of the era. */
  function DateOf(era: int, yoe: int, doy: int): Date
  {
    var mp := MonthPart(doy);
    var day := doy - (153 * mp + 2) / 5 + 1;
    var month := if mp < 10 then mp + 3 else mp - 9;
    Date(yoe + era * 400 + (if month <= 2 then 1 else 0), month, day)
  }

  function Civil(days: nat): Date
  {
    var z := days + 719468;
    var era := z / ERA;
    var doe := z - era * ERA;
    var yoe := YearOfEra(doe);
    DateOf(era, yoe, doe - YearStart(yoe))
  }

  // ----- the proof -----

  /** A day of the era as centuries, four-year cycles, years and days. */
  lemma YearParts(doe: nat) returns (c: nat, q: nat, k: nat, s: nat)
    requires doe < ERA - 1
    ensures c < 4 && q < 25 && k < 4 && doe == 36524 * c + 1461 * q + s
    ensures 365 * k <= s < (if k < 3 then 365 * (k + 1) else if q < 24 then 1461 else 1460)
    ensures YearOfEra(doe) == 100 * c + 4 * q + k
  {
    c := doe / 36524;
    var r := doe - 36524 * c;
    q := r / 1461;
    s := r - 1461 * q;
    k := if s < 365 then 0 else if s < 730 then 1 else if s < 1095 then 2 else 3;
    var e := if 24 * c + q + s >= 1460 then 1 else 0;
    LeapDays(doe, c, q, s, e);
    var x := 36500 * c + 1460 * q + s - e;
    assert 365 * (100 * c + 4 * q + k) <= x < 365 * (100 * c + 4 * q + k + 1);
    YearIn(doe, x, 100 * c + 4 * q + k);
  }

  lemma LeapDays(doe: nat, c: nat, q: nat, s: nat, e: nat)
    requires c < 4 && q < 25 && s < 1461 && doe == 36524 * c + 1461 * q + s && 1461 * q + s < 36524
    requires e == if 24 * c + q + s >= 1460 then 1 else 0
    ensures doe - doe / 1460 + doe / 36524 - doe / 146096 == 36500 * c + 1460 * q + s - e
  {
    assert 1460 * (25 * c + q + e) <= doe < 1460 * (25 * c + q + e + 1);
    assert doe / 1460 == 25 * c + q + e;
    assert 36524 * c <= doe < 36524 * (c + 1);
    assert doe / 36524 == c;
    assert doe / 146096 == 0;
  }

  lemma YearIn(doe: nat, x: int, y: int)
    requires x == doe - doe / 1460 + doe / 36524 - doe / 146096 && 365 * y <= x < 365 * (y + 1)
    ensures YearOfEra(doe) == y
  {
  }

  lemma YearStartIs(c: nat, q: nat, k: nat)
    requires q < 25 && k < 4
    ensures YearStart(100 * c + 4 * q + k) == 36524 * c + 1461 * q + 365 * k
  {
    var y := 100 * c + 4 * q + k;
    assert 4 * (25 * c + q) <= y < 4 * (25 * c + q + 1);
    assert 100 * c <= y < 100 * (c + 1);
  }

  /** Where year y of the era ends: the last one has the era's own leap day. */
  function YearEnd(y: int): int
  {
    if y == 399 then ERA else YearStart(y + 1)
  }

  predicate InYear(y: int, doe: int)
  {
    0 <= y < 400 && YearStart(y) <= doe < YearEnd(y)
  }

  lemma LastDay()
    ensures YearOfEra(ERA - 1) == 399 && YearStart(399) <= ERA - 1
  {
  }

  lemma YearsInOrder(y: int)
    requires 0 <= y < 399
    ensures YearStart(y + 1) < YearEnd(y + 1) && YearStart(y + 1) < ERA
  {
    YearLength(0, y + 1);
    var c := (y + 1) / 100;
    YearStartIs(c, (y + 1 - 100 * c) / 4, (y + 1) % 4);
  }

  lemma YearIs(doe: nat)
    requires doe < ERA
    ensures InYear(YearOfEra(doe), doe)
  {
    hide YearOfEra, YearStart;
    if doe == ERA - 1 {
      LastDay();
    } else {
      var c, q, k, s := YearParts(doe);
      YearStartIs(c, q, k);
      if k < 3 {
        YearStartIs(c, q, k + 1);
      } else if q < 24 {
        YearStartIs(c, q + 1, 0);
      } else {
        YearStartIs(c + 1, 0, 0);
      }
    }
  }

  lemma YearUnique(y: int, y': int, doe: int)
    requires InYear(y, doe) && InYear(y', doe)
    ensures y == y'
  {
  }

  /** A day within its March year, and the next one, when that is in the year too. */
  lemma SameYear(era: int, yoe: int, doy: int)
    requires 0 <= doy < 365 && (doy == 364 ==> Leap(yoe + 1 + 400 * era))
    ensures IsDate(DateOf(era, yoe, doy)) && IsDate(DateOf(era, yoe, doy + 1))
    ensures DateOf(era, yoe, doy + 1) == Next(DateOf(era, yoe, doy))
  {
  }

  lemma EraLeap(era: int, y: int)
    ensures Leap(y + 400 * era) <==> Leap(y)
  {
    Cycle(y, 100 * era, 4);
    Cycle(y, 4 * era, 100);
    Cycle(y, era, 400);
  }

  lemma Cycle(y: int, k: int, m: int)
    requires m > 0
    ensures (y + k * m) % m == y % m
  {
    DivModAdd(y, k, m);
  }

  /** A March year has 366 days when its February has 29. */
  lemma YearLength(era: int, y: int)
    requires 0 <= y < 400
    ensures YearEnd(y) - YearStart(y) == if Leap(y + 1 + 400 * era) then 366 else 365
  {
    EraLeap(era, y + 1);
  }

  /** The last day of a March year, and the first of the next. */
  lemma NextYear(era: int, yoe: int, era': int, yoe': int, doy: int)
    requires yoe' + 400 * era' == yoe + 400 * era + 1
    requires doy == if Leap(yoe + 1 + 400 * era) then 365 else 364
    ensures IsDate(DateOf(era, yoe, doy))
    ensures DateOf(era', yoe', 0) == Next(DateOf(era, yoe, doy))
  {
  }

  /** The date of a day of an era. */
  function EraDate(era: int, doe: nat): Date
  {
    DateOf(era, YearOfEra(doe), doe - YearStart(YearOfEra(doe)))
  }

  /** A day of an era and the next. */
  lemma EraStep(era: int, doe: nat)
    requires doe < ERA
    ensures IsDate(EraDate(era, doe))
    ensures Next(EraDate(era, doe)) == if doe == ERA - 1 then EraDate(era + 1, 0) else EraDate(era, doe + 1)
  {
    hide YearOfEra, YearStart, DateOf, Next, IsDate, Leap;
    var yoe := YearOfEra(doe);
    YearIs(doe);
    YearLength(era, yoe);
    FirstOfEra();
    if yoe < 399 {
      YearsInOrder(yoe);
    }
    if doe + 1 < YearEnd(yoe) {
      YearIs(doe + 1);
      YearUnique(yoe, YearOfEra(doe + 1), doe + 1);
      SameYear(era, yoe, doe - YearStart(yoe));
    } else if yoe == 399 {
      NextYear(era, yoe, era + 1, 0, doe - YearStart(yoe));
    } else {
      YearIs(doe + 1);
      YearUnique(yoe + 1, YearOfEra(doe + 1), doe + 1);
      NextYear(era, yoe, era, yoe + 1, doe - YearStart(yoe));
    }
  }

  lemma FirstOfEra()
    ensures YearOfEra(0) == 0 && YearStart(0) == 0
  {
  }

  lemma EraOf(z: nat)
    ensures var era, doe := z / ERA, z - z / ERA * ERA;
            && 0 <= doe < ERA
            && (z + 1) / ERA == (if doe == ERA - 1 then era + 1 else era)
            && z + 1 - (z + 1) / ERA * ERA == (if doe == ERA - 1 then 0 else doe + 1)
  {
  }

  /** The clock starts at the right day, and each day is followed by the calendar's next. */
  lemma CivilSteps(days: nat)
    ensures Civil(0) == Date(1970, 1, 1)
    ensures IsDate(Civil(days)) && Civil(days + 1) == Next(Civil(days))
  {
    hide *;
    EraOf(days + 719468);
    CivilIs(days);
    CivilIs(days + 1);
    EraStep((days + 719468) / ERA, days + 719468 - (days + 719468) / ERA * ERA);
    First();
  }

  lemma CivilIs(days: nat)
    ensures var z := days + 719468; z - z / ERA * ERA >= 0 && Civil(days) == EraDate(z / ERA, z - z / ERA * ERA)
  {
    hide DateOf, YearOfEra, YearStart;
  }

  lemma First()
    ensures Civil(0) == Date(1970, 1, 1)
  {
  }

  /** So it is the calendar. */
  lemma {:induction false} CivilIsCalendar(days: nat)
    ensures Civil(days) == Calendar(days)
  {
    hide Civil, Next;
    if days == 0 {
      First();
    } else {
      CivilIsCalendar(days - 1);
      CivilSteps(days - 1);
    }
  }

  /** Later days have later dates. */
  function Rank(t: Date): int
  {
    t.year * 400 + t.month * 32 + t.day
  }

  lemma NextLater(t: Date)
    requires IsDate(t)
    ensures IsDate(Next(t)) && Rank(t) < Rank(Next(t))
  {
  }

  lemma {:induction false} CivilLater(a: nat, b: nat)
    requires a < b
    ensures Rank(Civil(a)) < Rank(Civil(b))
    decreases b
  {
    hide *;
    CivilSteps(b - 1);
    NextLater(Civil(b - 1));
    if a < b - 1 {
      CivilLater(a, b - 1);
    }
  }

  /** No two days have the same date. */
  lemma CivilInjective(a: nat, b: nat)
    requires Civil(a) == Civil(b)
    ensures a == b
  {
    hide *;
    if a < b {
      CivilLater(a, b);
    } else if b < a {
      CivilLater(b, a);
    }
  }

  function Previous(t: Date): Date
  {
    if t.day > 1 then Date(t.year, t.month, t.day - 1)
    else if t.month > 1 then Date(t.year, t.month - 1, DaysIn(t.year, t.month - 1))
    else Date(t.year - 1, 12, 31)
  }

  lemma PreviousIs(t: Date)
    requires IsDate(t)
    ensures IsDate(Previous(t)) && Next(Previous(t)) == t && Rank(Previous(t)) < Rank(t)
  {
  }

  /** Every date from 1970 on is some day's. */
  lemma {:induction false} CivilOnto(t: Date) returns (days: nat)
    requires IsDate(t) && t.year >= 1970
    ensures Civil(days) == t
    decreases Rank(t)
  {
    hide Civil, Next;
    First();
    if t == Date(1970, 1, 1) {
      days := 0;
    } else {
      PreviousIs(t);
      var before := CivilOnto(Previous(t));
      CivilSteps(before);
      days := before + 1;
    }
  }
}
