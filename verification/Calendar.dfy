/** Days since 1970-01-01: the arithmetic the RTC driver uses, against counting years and months. */
module Calendar {
  import opened Bytes

  /** C's division, which truncates towards zero. */
  function TruncDiv(a: int, b: int): int
    requires b > 0
  {
    if a >= 0 then a / b else -((-a) / b)
  }

  /** `doy`: the day counted from the first of March, in `unsigned` arithmetic. */
  function DayOfYear(m: u32, d: u32): u32 {
    var shifted: u32 := (m + if m > 2 then WORD - 3 else 9) % WORD;
    ((153 * shifted + 2) % WORD / 5 + d - 1) % WORD
  }

  /** `doe`: the day within a cycle of four hundred years. */
  function DayOfEra(yoe: u32, doy: u32): u32 {
    (yoe * 365 + yoe / 4 - yoe / 100 + doy) % WORD
  }

  /** `days_from_civil`.  Everything declared `unsigned` is reduced modulo 2^32 as C does. */
  function DaysFromCivil(year: int, m: u32, d: u32): int {
    var y: int := year - if m <= 2 then 1 else 0;
    var era := TruncDiv(if y >= 0 then y else y - 399, 400);
    era * 146097 + DayOfEra((y - era * 400) % WORD, DayOfYear(m, d)) - 719468
  }

  // ---- counting ----

  predicate IsLeap(y: int) {
    y % 4 == 0 && (y % 100 != 0 || y % 400 == 0)
  }

  function LeapDay(y: int): nat {
    if IsLeap(y) then 1 else 0
  }

  function YearLength(y: int): nat {
    365 + LeapDay(y)
  }

  function MonthLength(y: int, m: nat): nat
    requires 1 <= m <= 12
  {
    if m == 2 then 28 + LeapDay(y)
    else if m == 4 || m == 6 || m == 9 || m == 11 then 30
    else 31
  }

  /** Days from 1970-01-01 to the first of January of a year, one year at a time. */
  function YearStart(y: int): int
    decreases if y < 1970 then 1970 - y else y - 1970
  {
    if y == 1970 then 0
    else if y > 1970 then YearStart(y - 1) + YearLength(y - 1)
    else YearStart(y + 1) - YearLength(y)
  }

  /** Days from the first of January to the first of a month. */
  function MonthStart(y: int, m: nat): nat
    requires 1 <= m <= 12
  {
    if m == 1 then 0 else MonthStart(y, m - 1) + MonthLength(y, m - 1)
  }

  datatype Date = Date(y: int, m: nat, d: nat)

  predicate Valid(t: Date) {
    1 <= t.m <= 12 && 1 <= t.d <= MonthLength(t.y, t.m)
  }

  function Count(t: Date): int
    requires Valid(t)
  {
    YearStart(t.y) + MonthStart(t.y, t.m) + t.d - 1
  }

  // ---- the two agree ----

  /** The closed form for the first of March, from which the algorithm counts. */
  function MarchFirst(y: int): int {
    y / 400 * 146097 + (y % 400 * 365 + y % 400 / 4 - y % 400 / 100) - 719468
  }

  lemma YearStartStep(y: int)
    ensures YearStart(y + 1) == YearStart(y) + YearLength(y)
  {
  }

  lemma MarchStep(y: int)
    ensures MarchFirst(y + 1) == MarchFirst(y) + 365 + LeapDay(y + 1)
  {
    var e, r := y / 400, y % 400;
    assert y == 400 * e + r;
    LeapByCycle(y + 1, if r == 399 then e + 1 else e, if r == 399 then 0 else r + 1);
    if r == 399 {
      assert (y + 1) / 400 == e + 1 && (y + 1) % 400 == 0;
    } else {
      assert (y + 1) / 400 == e && (y + 1) % 400 == r + 1;
      QuotientSteps(r);
    }
  }

  /** Leap years repeat every four hundred years. */
  lemma LeapByCycle(y: int, e: int, r: nat)
    requires y == 400 * e + r && r < 400
    ensures IsLeap(y) <==> r % 4 == 0 && (r % 100 != 0 || r == 0)
  {
    Mod4(100 * e, r);
    Mod100(4 * e, r);
    Mod400(e, r);
  }

  lemma Mod4(q: int, r: nat)
    ensures (4 * q + r) % 4 == r % 4
  {
  }

  lemma Mod100(q: int, r: nat)
    ensures (100 * q + r) % 100 == r % 100
  {
  }

  lemma Mod400(q: int, r: nat)
    ensures (400 * q + r) % 400 == r % 400
  {
  }

  lemma QuotientSteps(r: nat)
    ensures (r + 1) / 4 == r / 4 + if (r + 1) % 4 == 0 then 1 else 0
    ensures (r + 1) / 100 == r / 100 + if (r + 1) % 100 == 0 then 1 else 0
    ensures (r + 1) % 100 == 0 ==> (r + 1) % 4 == 0
  {
  }

  lemma {:induction false} YearStartIsClosed(y: int)
    ensures YearStart(y) + 59 + LeapDay(y) == MarchFirst(y)
    decreases if y < 1970 then 1970 - y else y - 1970
  {
    hide MarchFirst, IsLeap;
    if y == 1970 {
      Epoch();
    } else if y > 1970 {
      YearStartIsClosed(y - 1);
      MarchStep(y - 1);
    } else {
      YearStartIsClosed(y + 1);
      MarchStep(y);
    }
  }

  lemma Epoch()
    ensures MarchFirst(1970) == 59 && LeapDay(1970) == 0
  {
  }

  /** Truncation after the -399 is floor division, for negative years too. */
  lemma EraIsFloor(y: int)
    ensures TruncDiv(if y >= 0 then y else y - 399, 400) == y / 400
  {
  }

  lemma MonthStartIsClosed(y: int, m: nat)
    requires 1 <= m <= 12
    ensures MonthStart(y, m) == if m <= 2 then 31 * (m - 1) else 59 + LeapDay(y) + (153 * (m - 3) + 2) / 5
  {
    hide IsLeap;
    assert MonthStart(y, 1) == 0;
    assert MonthStart(y, 2) == 31;
    assert m >= 3 ==> MonthStart(y, 3) == 59 + LeapDay(y);
    assert m >= 5 ==> MonthStart(y, 5) == 120 + LeapDay(y);
    assert m >= 7 ==> MonthStart(y, 7) == 181 + LeapDay(y);
    assert m >= 9 ==> MonthStart(y, 9) == 243 + LeapDay(y);
    assert m >= 11 ==> MonthStart(y, 11) == 304 + LeapDay(y);
  }

  /** Days from the first of March to the first of a month, months counted from March. */
  function FromMarch(m: nat): nat
    requires 1 <= m <= 12
  {
    (153 * (if m > 2 then m - 3 else m + 9) + 2) / 5
  }

  /** For real months and days no unsigned step wraps. */
  lemma DayOfYearFits(m: nat, d: nat)
    requires 1 <= m <= 12 && 1 <= d <= 31
    ensures DayOfYear(m, d) == FromMarch(m) + d - 1 <= 367
  {
    var shifted := if m > 2 then m - 3 else m + 9;
    assert (m + if m > 2 then WORD - 3 else 9) % WORD == shifted;
    assert (153 * shifted + 2) % WORD == 153 * shifted + 2;
  }

  lemma DayOfEraFits(r: nat, doy: nat)
    requires r < 400 && doy <= 367
    ensures DayOfEra(r, doy) == r * 365 + r / 4 - r / 100 + doy
  {
  }

  lemma DaysIsMarchBased(year: int, m: nat, d: nat)
    requires 1 <= m <= 12 && 1 <= d <= 31
    ensures DaysFromCivil(year, m, d) == MarchFirst(year - if m <= 2 then 1 else 0) + FromMarch(m) + d - 1
  {
    hide TruncDiv, DayOfYear, DayOfEra, FromMarch;
    var y := year - if m <= 2 then 1 else 0;
    EraIsFloor(y);
    DayOfYearFits(m, d);
    var e, r := y / 400, y % 400;
    assert y - e * 400 == r && r % WORD == r;
    DayOfEraFits(r, DayOfYear(m, d));
  }

  /** For every Gregorian date in any year the arithmetic is the count. */
  lemma DaysIsCount(t: Date)
    requires Valid(t)
    ensures DaysFromCivil(t.y, t.m, t.d) == Count(t)
  {
    hide YearStart, MonthStart, IsLeap, DaysFromCivil, MarchFirst;
    DaysIsMarchBased(t.y, t.m, t.d);
    MonthStartIsClosed(t.y, t.m);
    YearStartIsClosed(t.y);
    if t.m <= 2 {
      YearStartIsClosed(t.y - 1);
      YearStartStep(t.y - 1);
    }
  }

  // ---- what follows ----

  /** The day after. */
  function Next(t: Date): Date
    requires Valid(t)
  {
    if t.d < MonthLength(t.y, t.m) then Date(t.y, t.m, t.d + 1)
    else if t.m < 12 then Date(t.y, t.m + 1, 1)
    else Date(t.y + 1, 1, 1)
  }

  lemma DecemberEnds(y: int)
    ensures MonthStart(y, 12) + 31 == YearLength(y)
  {
    MonthStartIsClosed(y, 12);
  }

  /** Zero at the epoch, and one more for each following day. */
  lemma GrowsByOne(t: Date)
    requires Valid(t)
    ensures Valid(Next(t)) && DaysFromCivil(Next(t).y, Next(t).m, Next(t).d) == DaysFromCivil(t.y, t.m, t.d) + 1
    ensures DaysFromCivil(1970, 1, 1) == 0
  {
    hide DaysFromCivil, IsLeap;
    DaysIsCount(t);
    DaysIsCount(Next(t));
    DaysIsCount(Date(1970, 1, 1));
    DecemberEnds(t.y);
    YearStartStep(t.y);
  }

  predicate Earlier(a: Date, b: Date) {
    a.y < b.y || (a.y == b.y && (a.m < b.m || (a.m == b.m && a.d < b.d)))
  }

  lemma {:induction false} YearsGrow(y: int, z: int)
    requires y < z
    ensures YearStart(y) + YearLength(y) <= YearStart(z)
    decreases z - y
  {
    YearStartStep(z - 1);
    if y == z - 1 {
    } else {
      YearsGrow(y, z - 1);
    }
  }

  lemma {:induction false} MonthsGrow(y: int, m: nat, n: nat)
    requires 1 <= m < n <= 12
    ensures MonthStart(y, m) + MonthLength(y, m) <= MonthStart(y, n)
    decreases n
  {
    if m == n - 1 {
    } else {
      MonthsGrow(y, m, n - 1);
    }
  }

  lemma WithinYear(t: Date)
    requires Valid(t)
    ensures 0 <= Count(t) - YearStart(t.y) < YearLength(t.y)
  {
    hide IsLeap;
    DecemberEnds(t.y);
    if t.m < 12 {
      MonthsGrow(t.y, t.m, 12);
    }
  }

  lemma EarlierIsSmaller(a: Date, b: Date)
    requires Valid(a) && Valid(b) && Earlier(a, b)
    ensures DaysFromCivil(a.y, a.m, a.d) < DaysFromCivil(b.y, b.m, b.d)
  {
    hide DaysFromCivil, IsLeap, YearStart, MonthStart;
    DaysIsCount(a);
    DaysIsCount(b);
    WithinYear(a);
    WithinYear(b);
    if a.y < b.y {
      YearsGrow(a.y, b.y);
    } else if a.m < b.m {
      MonthsGrow(a.y, a.m, b.m);
    }
  }

  /** No two dates share a day number, and the order of day numbers is the order of dates. */
  lemma DaysInjective(a: Date, b: Date)
    requires Valid(a) && Valid(b)
    ensures DaysFromCivil(a.y, a.m, a.d) == DaysFromCivil(b.y, b.m, b.d) <==> a == b
    ensures DaysFromCivil(a.y, a.m, a.d) < DaysFromCivil(b.y, b.m, b.d) <==> Earlier(a, b)
  {
    hide DaysFromCivil;
    if Earlier(a, b) {
      EarlierIsSmaller(a, b);
    } else if Earlier(b, a) {
      EarlierIsSmaller(b, a);
    }
  }
}
