/**
Day counts and dates: the closed formula of `days_to_ymd` against the calendar
stepped one day at a time.
*/
module Calendar {

  datatype Date = Date(year: nat, month: nat, day: nat)

  // ---- the calendar, by its rules ----

  predicate Leap(y: nat) { y % 4 == 0 && (y % 100 != 0 || y % 400 == 0) }

  function MonthLength(y: nat, m: nat): nat {
    if m == 2 then (if Leap(y) then 29 else 28)
    else if m in {4, 6, 9, 11} then 30
    else 31
  }

  predicate ValidDate(d: Date) {
    1 <= d.month <= 12 && 1 <= d.day <= MonthLength(d.year, d.month)
  }

  function NextDay(d: Date): Date {
    if d.day < MonthLength(d.year, d.month) then d.(day := d.day + 1)
    else if d.month < 12 then Date(d.year, d.month + 1, 1)
    else Date(d.year + 1, 1, 1)
  }

  const EPOCH := Date(1970, 1, 1)

  /** The date `n` days after the first of January 1970. */
  function Stepped(n: nat): Date {
    if n == 0 then EPOCH else NextDay(Stepped(n - 1))
  }

  // ---- the formula ----

  /** Year of the 400-year era from the day of the era. */
  function YearOfEra(doe: nat): int {
    (doe - doe / 1460 + doe / 36524 - doe / 146096) / 365
  }

  /** Days from the start of the era to the start of its year `y`, years starting in March. */
  function EraStart(y: int): int { 365 * y + y / 4 - y / 100 }

  /** Days from the first of March to the start of month `mp`, March being 0. */
  function MonthStart(mp: int): int { (153 * mp + 2) / 5 }

  function DaysToYmd(days: nat): (d: Date)
    ensures 1 <= d.month <= 12 && 1 <= d.day
  {
    var z := days + 719468;
    var era := z / 146097;
    var doe := z % 146097;
    YearOfEraIs(doe);
    var yoe := YearOfEra(doe);
    var y := yoe + era * 400;
    var doy := doe - EraStart(yoe);
    MonthIs(doy);
    var mp := (5 * doy + 2) / 153;
    var d := doy - MonthStart(mp) + 1;
    var m := if mp < 10 then mp + 3 else mp - 9;
    Date(if m <= 2 then y + 1 else y, m, d)
  }

  // ---- the formula picks the right year and month ----

  /** A quotient is found from any product and remainder. */
  lemma {:induction false} Quotient(n: int, k: int, q: int, r: int)
    requires k in {4, 100, 400, 365, 1460, 36524, 146096, 146097}
    requires n == k * q + r && 0 <= r < k
    ensures n / k == q && n % k == r
  {
  }

  /** Days split into centuries, four-year cycles and the rest. */
  lemma {:induction false} YearOfEraParts(c: nat, q: nat, s: nat)
    requires c < 4 && q < 25 && s <= 1460 && (c < 3 && q == 24 ==> s < 1460)
    ensures YearOfEra(36524 * c + 1461 * q + s) == 100 * c + 4 * q + if s == 1460 then 3 else s / 365
  {
    var doe := 36524 * c + 1461 * q + s;
    var t := if s == 1460 then 3 else s / 365;
    var f := if 24 * c + q + s < 1460 then 0 else 1;
    Quotient(doe, 1460, 25 * c + q + f, 24 * c + q + s - 1460 * f);
    if doe == 146096 {
      assert c == 3 && q == 24 && s == 1460;
    } else {
      Quotient(doe, 36524, c, 1461 * q + s);
      Quotient(doe, 146096, 0, doe);
    }
    assert doe / 36524 - doe / 146096 == c;
    Quotient(365 * (100 * c + 4 * q) + (s - f), 365, 100 * c + 4 * q + t, s - f - 365 * t);
  }

  lemma {:induction false} EraStartParts(c: nat, q: nat, t: nat)
    requires q < 25 && t < 4
    ensures EraStart(100 * c + 4 * q + t) == 36524 * c + 1461 * q + 365 * t
  {
    var y := 100 * c + 4 * q + t;
    Quotient(y, 4, 25 * c + q, t);
    Quotient(y, 100, c, 4 * q + t);
  }

  /** The year found is the one whose span holds the day. */
  lemma {:induction false} YearOfEraIs(doe: nat)
    requires doe < 146097
    ensures var y := YearOfEra(doe);
            && 0 <= y < 400
            && EraStart(y) <= doe
            && (doe < EraStart(y + 1) || (y == 399 && doe == 146096))
  {
    hide YearOfEra, EraStart;
    var c := if doe == 146096 then 3 else doe / 36524;
    var r := doe - 36524 * c;
    var q, s := r / 1461, r % 1461;
    var t := if s == 1460 then 3 else s / 365;
    YearOfEraParts(c, q, s);
    EraStartParts(c, q, t);
    if t < 3 {
      EraStartParts(c, q, t + 1);
    } else if q < 24 {
      EraStartParts(c, q + 1, 0);
    } else {
      EraStartParts(c + 1, 0, 0);
    }
  }

  lemma {:induction false} MonthIs(doy: int)
    requires 0 <= doy < 366
    ensures var mp := (5 * doy + 2) / 153;
            0 <= mp < 12 && MonthStart(mp) <= doy && (doy < MonthStart(mp + 1) || mp == 11)
  {
  }

  lemma {:induction false} EraStartGrows(a: int, b: int)
    requires a < b
    ensures EraStart(a) + 365 <= EraStart(b)
    decreases b - a
  {
    EraStartNext(b - 1);
    if a + 1 < b {
      EraStartGrows(a, b - 1);
    }
  }

  lemma {:induction false} EraStartNext(y: int)
    ensures EraStart(y) + 365 <= EraStart(y + 1)
  {
    DivNext(y, 4);
    DivNext(y, 100);
    Multiples(y + 1);
  }

  // ---- the inverse ----

  function MarchYear(d: Date): int { if d.month <= 2 then d.year - 1 else d.year }

  function MarchMonth(d: Date): int { if d.month <= 2 then d.month + 9 else d.month - 3 }

  function YearStart(y: int): int { 365 * y + y / 4 - y / 100 + y / 400 }

  /** Days since 1970-01-01 of a date, before it negative. */
  function DaysFromCivil(d: Date): int {
    YearStart(MarchYear(d)) + MonthStart(MarchMonth(d)) + d.day - 1 - 719468
  }

  lemma {:induction false} YearStartEra(e: int, k: int)
    requires 0 <= k < 400
    ensures YearStart(400 * e + k) == 146097 * e + EraStart(k)
  {
    var y := 400 * e + k;
    Quotient(y, 4, 100 * e + k / 4, k % 4);
    Quotient(y, 100, 4 * e + k / 100, k % 100);
    Quotient(y, 400, e, k);
  }

  lemma {:induction false} DivNext(y: int, k: int)
    requires k in {4, 100, 400}
    ensures (y + 1) / k == y / k + if (y + 1) % k == 0 then 1 else 0
  {
    var q, r := y / k, y % k;
    if r + 1 < k {
      Quotient(y + 1, k, q, r + 1);
    } else {
      Quotient(y + 1, k, q + 1, 0);
    }
  }

  lemma {:induction false} Multiples(n: int)
    ensures n % 100 == 0 ==> n % 4 == 0
    ensures n % 400 == 0 ==> n % 100 == 0
  {
    if n % 100 == 0 {
      Quotient(n, 4, 25 * (n / 100), 0);
    }
    if n % 400 == 0 {
      Quotient(n, 100, 4 * (n / 400), 0);
    }
  }

  lemma {:induction false} YearStartNext(y: int)
    requires y >= -1
    ensures YearStart(y + 1) == YearStart(y) + 365 + if Leap(y + 1) then 1 else 0
  {
    DivNext(y, 4);
    DivNext(y, 100);
    DivNext(y, 400);
    Multiples(y + 1);
  }

  /** Stepping a day adds one day. */
  lemma {:induction false} NextDayCounts(d: Date)
    requires ValidDate(d)
    ensures ValidDate(NextDay(d)) && DaysFromCivil(NextDay(d)) == DaysFromCivil(d) + 1
  {
    hide YearStart, Leap;
    if d.month == 2 && d.day == MonthLength(d.year, d.month) {
      YearStartNext(d.year - 1);
    }
  }

  /** The day of the March-based year, and that it stays inside the year. */
  lemma {:induction false} DayOfYearFits(d: Date)
    requires ValidDate(d)
    ensures var doy := MonthStart(MarchMonth(d)) + d.day - 1;
            && 0 <= doy < 365 + (if Leap(MarchYear(d) + 1) then 1 else 0)
            && (5 * doy + 2) / 153 == MarchMonth(d)
  {
    hide Leap;
  }

  /** Back and forth: a valid date from the epoch on is found again from its day count. */
  lemma {:induction false} CivilRoundTrip(d: Date)
    requires ValidDate(d) && DaysFromCivil(d) >= 0
    ensures DaysToYmd(DaysFromCivil(d)) == d
  {
    hide YearOfEra, EraStart, YearStart, MonthStart, Leap, MonthLength;
    var y := MarchYear(d);
    var doy := MonthStart(MarchMonth(d)) + d.day - 1;
    var e, k := y / 400, y % 400;
    assert y == 400 * e + k;
    DayOfYearFits(d);
    YearStartEra(e, k);
    YearStartNext(y);
    var doe := EraStart(k) + doy;
    EraBounds(k, doy, y);
    var z := DaysFromCivil(d) + 719468;
    assert z == 146097 * e + doe;
    assert z / 146097 == e && z % 146097 == doe;
    YearOfEraIs(doe);
    var found := YearOfEra(doe);
    if found < k {
      EraStartGrows(found, k);
      if found + 1 < k {
        EraStartGrows(found + 1, k);
      }
    } else if k < found {
      if k + 1 < found {
        EraStartGrows(k + 1, found);
      }
    }
    assert found == k;
  }

  lemma {:induction false} EraBounds(k: int, doy: int, y: int)
    requires 0 <= k < 400 && y >= -1 && y % 400 == k && 0 <= doy < 365 + (if Leap(y + 1) then 1 else 0)
    ensures 0 <= EraStart(k) && EraStart(k) + doy < 146097
    ensures EraStart(k) + doy < EraStart(k + 1) || (k == 399 && EraStart(k) + doy == 146096)
  {
    var e := y / 400;
    assert y == 400 * e + k;
    YearStartEra(e, k);
    YearStartNext(y);
    if k < 399 {
      YearStartEra(e, k + 1);
      assert EraStart(399) + 365 == 146096;
      if k + 1 < 399 {
        EraStartGrows(k + 1, 399);
      }
    }
    if k > 0 {
      assert EraStart(0) == 0;
      EraStartGrows(0, k);
    }
  }

  /** Forth and back: the date found has the day count asked for. */
  lemma {:induction false} YmdRoundTrip(n: nat)
    ensures ValidDate(DaysToYmd(n)) && DaysFromCivil(DaysToYmd(n)) == n
  {
    SteppedIsYmd(n);
  }

  /** The formula is the calendar stepped day by day, for every day count. */
  lemma {:induction false} SteppedIsYmd(n: nat)
    ensures Stepped(n) == DaysToYmd(n)
    ensures ValidDate(DaysToYmd(n)) && DaysFromCivil(DaysToYmd(n)) == n
  {
    hide DaysToYmd, NextDay, ValidDate, DaysFromCivil;
    if n == 0 {
      EpochIsZero();
      CivilRoundTrip(EPOCH);
    } else {
      SteppedIsYmd(n - 1);
      NextDayCounts(Stepped(n - 1));
      CivilRoundTrip(Stepped(n));
    }
  }

  lemma {:induction false} EpochIsZero()
    ensures ValidDate(EPOCH) && DaysFromCivil(EPOCH) == 0
  {
  }

  // ---- order ----

  predicate Before(a: Date, b: Date) {
    a.year < b.year || (a.year == b.year && (a.month < b.month || (a.month == b.month && a.day < b.day)))
  }

  /** More days, later date. */
  lemma {:induction false} YmdIncreases(a: nat, b: nat)
    requires a < b
    ensures Before(DaysToYmd(a), DaysToYmd(b))
    decreases b
  {
    hide DaysToYmd, DaysFromCivil, MonthLength;
    SteppedIsYmd(b);
    SteppedIsYmd(b - 1);
    if a < b - 1 {
      YmdIncreases(a, b - 1);
    }
  }

  // ---- timestamps ----

  datatype Stamp = Stamp(date: Date, hour: nat, minute: nat, second: nat)

  const TWO64: nat := 0x1_0000_0000_0000_0000

  /** `ts as u64`. */
  function AsU64(ts: int): nat
    requires -0x8000_0000_0000_0000 <= ts < 0x8000_0000_0000_0000
  {
    if ts < 0 then ts + TWO64 else ts
  }

  /** The fields `format_timestamp` prints. */
  function Fields(ts: int): Stamp
    requires -0x8000_0000_0000_0000 <= ts < 0x8000_0000_0000_0000
  {
    var secs := AsU64(ts);
    var rem := secs % 86400;
    Stamp(DaysToYmd(secs / 86400), rem / 3600, rem % 3600 / 60, rem % 60)
  }

  function Seconds(s: Stamp): int {
    86400 * DaysFromCivil(s.date) + 3600 * s.hour + 60 * s.minute + s.second
  }

  /** The printed fields are a valid UTC time, and give the timestamp back exactly when it is not negative. */
  lemma {:induction false} FieldsRecover(ts: int)
    requires -0x8000_0000_0000_0000 <= ts < 0x8000_0000_0000_0000
    ensures var f := Fields(ts);
            && ValidDate(f.date) && f.hour < 24 && f.minute < 60 && f.second < 60
            && Seconds(f) == AsU64(ts)
            && (Seconds(f) == ts <==> ts >= 0)
  {
    hide DaysToYmd, DaysFromCivil, ValidDate;
    YmdRoundTrip(AsU64(ts) / 86400);
    var rem := AsU64(ts) % 86400;
    assert rem == 3600 * (rem / 3600) + rem % 3600;
    assert rem % 3600 == 60 * (rem % 3600 / 60) + rem % 3600 % 60;
    assert rem % 3600 % 60 == rem % 60;
  }

  /** A second before the epoch is printed as the last second of the 64-bit range. */
  lemma {:induction false} NegativeIsFarFuture()
    ensures Seconds(Fields(-1)) == 0xFFFF_FFFF_FFFF_FFFF
  {
    hide Fields, Seconds;
    FieldsRecover(-1);
  }
}
