/** Days to dates, and timestamps as text (src/templates.rs). */
module Calendar {
  import opened Text

  datatype Date = Date(year: nat, month: nat, day: nat)

  // ----- The proleptic Gregorian calendar, as in Appendix C of RFC 3339 -----

  predicate LeapYear(y: nat) {
    y % 4 == 0 && (y % 100 != 0 || y % 400 == 0)
  }

  function DaysInMonth(y: nat, m: nat): nat {
    if m == 2 then (if LeapYear(y) then 29 else 28)
    else if m == 4 || m == 6 || m == 9 || m == 11 then 30
    else 31
  }

  predicate ValidDate(d: Date) {
    1 <= d.month <= 12 && 1 <= d.day <= DaysInMonth(d.year, d.month)
  }

  function NextDay(d: Date): Date {
    if d.day < DaysInMonth(d.year, d.month) then Date(d.year, d.month, d.day + 1)
    else if d.month < 12 then Date(d.year, d.month + 1, 1)
    else Date(d.year + 1, 1, 1)
  }

  /** The date n days after 1970-01-01. */
  function CalendarDate(n: nat): Date {
    if n == 0 then Date(1970, 1, 1) else NextDay(CalendarDate(n - 1))
  }

  // ----- days_to_ymd -----

  /** Year of the era; years begin in March. Every intermediate result is unsigned. */
  function YearOfEra(doe: nat): nat
    requires doe < 146097
  {
    var a: nat := doe - doe / 1460;
    var b: nat := a + doe / 36524;
    var c: nat := b - doe / 146096;
    c / 365
  }

  /** Days of an era before its k-th year. */
  function YearStart(k: nat): (r: nat)
  {
    365 * k + k / 4 - k / 100
  }

  function MonthStart(mp: nat): nat {
    (153 * mp + 2) / 5
  }

  /** `days_to_ymd`; the types say that no subtraction goes below zero. */
  function DaysToYmd(days: nat): Date
  {
    var z := days + 719468;
    var era := z / 146097;
    var doe: nat := z - era * 146097;
    YearOfEraBounds(doe);
    var yoe := YearOfEra(doe);
    var y := yoe + era * 400;
    var doy: nat := doe - (365 * yoe + yoe / 4 - yoe / 100);
    var mp := (5 * doy + 2) / 153;
    var d: nat := doy - (153 * mp + 2) / 5 + 1;
    var m: nat := if mp < 10 then mp + 3 else mp - 9;
    Date(if m <= 2 then y + 1 else y, m, d)
  }

  /** The length of the year of the era k: a day more if the February in it is a leap month. */
  predicate LongYear(k: nat) {
    (k + 1) % 4 == 0 && ((k + 1) % 100 != 0 || (k + 1) % 400 == 0)
  }

  function YearLength(k: nat): nat {
    if LongYear(k) then 366 else 365
  }

  /** The formula finds the year: its start is not after the day, and the next start is. */
  lemma YearOfEraBounds(doe: nat)
    requires doe < 146097
    ensures YearOfEra(doe) < 400
    ensures YearStart(YearOfEra(doe)) <= doe
    ensures doe < YearStart(YearOfEra(doe)) + YearLength(YearOfEra(doe))
  {
    // doe is r days into the q-th four-year span of century c
    var c := if doe / 36524 < 3 then doe / 36524 else 3;
    var rem := doe - 36524 * c;
    var q := rem / 1461;
    var r := rem - 1461 * q;
    var year := if r / 365 < 3 then r / 365 else 3;
    YearFormula(doe, c, q, r, year);
    YearSpan(c, q, r, year);
  }

  lemma YearSpan(c: nat, q: nat, r: nat, year: nat)
    requires c <= 3 && q <= 24 && r <= 1460 && (c < 3 ==> 1461 * q + r < 36524)
    requires year == if r / 365 < 3 then r / 365 else 3
    ensures var k := 100 * c + 4 * q + year;
      k < 400 && YearStart(k) == 36524 * c + 1461 * q + 365 * year
      && 365 * year <= r < 365 * year + YearLength(k)
  {
    var k := 100 * c + 4 * q + year;
    assert k / 4 == 25 * c + q && k / 100 == c;
    if year == 3 {
      assert (k + 1) % 4 == 0;
      if q < 24 {
        assert (k + 1) % 100 == 4 * q + 4;
      } else {
        assert k + 1 == 100 * (c + 1);
      }
    }
  }

  lemma YearFormula(doe: nat, c: nat, q: nat, r: nat, year: nat)
    requires c <= 3 && q <= 24 && r <= 1460 && doe == 36524 * c + 1461 * q + r < 146097
    requires year == if r / 365 < 3 then r / 365 else 3
    requires c < 3 ==> 1461 * q + r < 36524
    ensures YearOfEra(doe) == 100 * c + 4 * q + year
  {
    var carry := if 24 * c + q + r >= 1460 then 1 else 0;
    assert doe == 1460 * (25 * c + q + carry) + (24 * c + q + r - 1460 * carry);
    assert doe / 1460 == 25 * c + q + carry;
    var last := if doe == 146096 then 1 else 0;
    assert doe / 36524 == c + last;
    assert doe / 146096 == last;
    var days := 36500 * c + 1460 * q + r - carry;
    assert YearOfEra(doe) == days / 365;
    assert days == 365 * (100 * c + 4 * q) + (r - carry);
    assert (r - carry) / 365 == year;
  }

  /** The month formula: month mp holds the days from its start to the next. */
  lemma MonthBounds(doy: nat)
    requires doy <= 365
    ensures var mp := (5 * doy + 2) / 153;
      mp <= 11 && MonthStart(mp) <= doy && (mp < 11 ==> doy < MonthStart(mp + 1))
  {
  }

  // ----- The date of the next day is the next date -----

  lemma QuotientNext(k: nat, d: nat)
    requires d == 4 || d == 100
    ensures (k + 1) / d == k / d + if (k + 1) % d == 0 then 1 else 0
  {
  }

  lemma YearStartNext(k: nat)
    requires k < 400
    ensures YearStart(k + 1) + (if k == 399 then 1 else 0) == YearStart(k) + YearLength(k)
  {
    QuotientNext(k, 4);
    QuotientNext(k, 100);
    assert (k + 1) % 100 == 0 ==> (k + 1) % 4 == 0;
    assert (k + 1) % 400 == 0 <==> k == 399;
  }

  lemma YearStartMonotone(j: nat, k: nat)
    requires j <= k
    ensures YearStart(j) + 364 * (k - j) <= YearStart(k)
  {
  }

  lemma YearsDisjoint(j: nat, k: nat)
    requires j < 400 && k < 400
    ensures j < k ==> YearStart(j) + YearLength(j) <= YearStart(k)
  {
    YearStartNext(j);
    YearStartMonotone(if j < k then j + 1 else k, k);
  }

  /** The year of the era is the only one with the day in it. */
  lemma YearOfEraUnique(doe: nat, k: nat)
    requires doe < 146097 && k < 400
    requires YearStart(k) <= doe < YearStart(k) + YearLength(k)
    ensures YearOfEra(doe) == k
  {
    var yoe := YearOfEra(doe);
    YearOfEraBounds(doe);
    YearsDisjoint(k, yoe);
    YearsDisjoint(yoe, k);
  }

  /** The date of a day of a year that begins in March. */
  function MarchDate(y: nat, doy: nat): Date
    requires doy <= 365
  {
    MonthBounds(doy);
    var mp := (5 * doy + 2) / 153;
    var m: nat := if mp < 10 then mp + 3 else mp - 9;
    Date(if m <= 2 then y + 1 else y, m, doy - MonthStart(mp) + 1)
  }

  /** Day `days` is day `doy` of year k of the era. */
  predicate InYear(days: nat, era: nat, k: nat, doy: nat) {
    k < 400 && doy < YearLength(k) && days + 719468 == era * 146097 + YearStart(k) + doy
  }

  /** `days_to_ymd` by way of the March-based year. */
  lemma DaysToMarch(days: nat, era: nat, k: nat, doy: nat)
    requires InYear(days, era, k, doy)
    ensures doy <= 365 && DaysToYmd(days) == MarchDate(k + era * 400, doy)
  {
    YearInEra(k, doy);
    var doe := YearStart(k) + doy;
    EraOf(days + 719468, era, doe);
    YearOfEraUnique(doe, k);
    YmdOfEra(days, era, doe);
  }

  lemma EraOf(z: nat, era: nat, doe: nat)
    requires doe < 146097 && z == era * 146097 + doe
    ensures z / 146097 == era && z - era * 146097 == doe
  {
  }

  lemma YmdOfEra(days: nat, era: nat, doe: nat)
    requires doe < 146097 && (days + 719468) / 146097 == era && days + 719468 - era * 146097 == doe
    ensures var k := YearOfEra(doe);
      0 <= doe - YearStart(k) <= 365 && DaysToYmd(days) == MarchDate(k + era * 400, doe - YearStart(k))
  {
    YearOfEraBounds(doe);
    MonthBounds(doe - YearStart(YearOfEra(doe)));
  }

  function MonthNumber(mp: nat): nat
    requires mp <= 11
  {
    if mp < 10 then mp + 3 else mp - 9
  }

  lemma MonthLength(y: nat, mp: nat)
    requires mp < 11
    ensures MonthStart(mp + 1) - MonthStart(mp) == DaysInMonth(y, MonthNumber(mp))
  {
    MonthLengths();
  }

  lemma MonthIs(doy: nat, mp: nat)
    requires doy <= 365 && mp <= 11 && MonthStart(mp) <= doy && (mp < 11 ==> doy < MonthStart(mp + 1))
    ensures (5 * doy + 2) / 153 == mp
  {
  }

  lemma DateOfMonth(y: nat, doy: nat, mp: nat)
    requires doy <= 365 && mp <= 11 && MonthStart(mp) <= doy && (mp < 11 ==> doy < MonthStart(mp + 1))
    ensures var m := MonthNumber(mp);
      MarchDate(y, doy) == Date(if m <= 2 then y + 1 else y, m, doy - MonthStart(mp) + 1)
  {
    MonthIs(doy, mp);
  }

  lemma MarchStep(y: nat, doy: nat)
    requires doy + 1 < (if LeapYear(y + 1) then 366 else 365)
    ensures NextDay(MarchDate(y, doy)) == MarchDate(y, doy + 1)
    ensures ValidDate(MarchDate(y, doy))
  {
    MonthBounds(doy);
    var mp := (5 * doy + 2) / 153;
    var m := MonthNumber(mp);
    DateOfMonth(y, doy, mp);
    if mp < 11 { MonthLength(if m <= 2 then y + 1 else y, mp); }
    MonthLengths();
    if mp < 11 && doy + 1 == MonthStart(mp + 1) {
      DateOfMonth(y, doy + 1, mp + 1);
    } else {
      DateOfMonth(y, doy + 1, mp);
    }
  }

  lemma MarchEnd(y: nat)
    ensures var last := if LeapYear(y + 1) then 365 else 364;
      NextDay(MarchDate(y, last)) == MarchDate(y + 1, 0) && ValidDate(MarchDate(y, last))
  {
  }

  lemma MonthLengths()
    ensures MonthStart(0) == 0 && MonthStart(1) == 31 && MonthStart(2) == 61 && MonthStart(3) == 92
    ensures MonthStart(4) == 122 && MonthStart(5) == 153 && MonthStart(6) == 184 && MonthStart(7) == 214
    ensures MonthStart(8) == 245 && MonthStart(9) == 275 && MonthStart(10) == 306 && MonthStart(11) == 337
  {
  }

  lemma LeapAgain(y: nat)
    ensures LeapYear(y + 400) <==> LeapYear(y)
  {
    assert (y + 400) % 4 == y % 4;
    assert (y + 400) % 100 == y % 100;
    assert (y + 400) % 400 == y % 400;
  }

  lemma {:induction false} LeapPeriod(y: nat, era: nat)
    ensures LeapYear(y + era * 400) <==> LeapYear(y)
  {
    if era > 0 {
      LeapPeriod(y, era - 1);
      LeapAgain(y + (era - 1) * 400);
    }
  }

  /** A year of the era is long exactly when the calendar year of its February is a leap year. */
  lemma LongIsLeap(era: nat, k: nat)
    ensures LongYear(k) <==> LeapYear(k + era * 400 + 1)
  {
    LeapPeriod(k + 1, era);
  }

  lemma YearInEra(k: nat, doy: nat)
    requires k < 400 && doy < YearLength(k)
    ensures YearStart(k) + doy < 146097
  {
    YearStartNext(k);
    YearStartMonotone(k + 1, 400);
  }

  lemma EpochDate()
    ensures DaysToYmd(0) == Date(1970, 1, 1)
  {
    DaysToMarch(0, 4, 369, 306);
  }

  // The step from one day to the next is proved of any conversion f that goes by way of March-based years h.

  ghost predicate ViaMarch(f: nat -> Date, h: (nat, nat) -> Date) {
    forall days: nat, era: nat, k: nat, doy: nat :: InYear(days, era, k, doy) ==> f(days) == h(k + era * 400, doy)
  }

  /** Within a year of March-based years the dates follow each other, and so they do at its end. */
  predicate StepsAt(h: (nat, nat) -> Date, y: nat, doy: nat) {
    var length := if LeapYear(y + 1) then 366 else 365;
    doy < length ==> ValidDate(h(y, doy)) && NextDay(h(y, doy)) == if doy + 1 < length then h(y, doy + 1) else h(y + 1, 0)
  }

  predicate Successive(f: nat -> Date, k: nat) {
    f(k + 1) == NextDay(f(k)) && ValidDate(f(k))
  }

  lemma FindYear(days: nat) returns (era: nat, k: nat, doy: nat)
    ensures InYear(days, era, k, doy)
  {
    var z := days + 719468;
    era := z / 146097;
    YearOfEraBounds(z % 146097);
    k := YearOfEra(z % 146097);
    doy := z % 146097 - YearStart(k);
  }

  /** The day after is the next of the year, or the first of the next year, or of the next era. */
  lemma DayAfter(days: nat, era: nat, k: nat, doy: nat)
    requires InYear(days, era, k, doy)
    ensures if doy + 1 < YearLength(k) then InYear(days + 1, era, k, doy + 1)
            else if k < 399 then InYear(days + 1, era, k + 1, 0)
            else InYear(days + 1, era + 1, 0, 0)
  {
    YearStartNext(k);
    assert YearStart(400) == 146096 && YearStart(0) == 0;
  }

  lemma SuccessorBy(f: nat -> Date, h: (nat, nat) -> Date, days: nat)
    requires ViaMarch(f, h) && forall y: nat, doy: nat :: StepsAt(h, y, doy)
    ensures Successive(f, days)
  {
    var era, k, doy := FindYear(days);
    DayAfter(days, era, k, doy);
    LongIsLeap(era, k);
    assert StepsAt(h, k + era * 400, doy);
    assert k == 399 ==> k + era * 400 + 1 == 0 + (era + 1) * 400;
  }

  lemma {:induction false} FollowsCalendar(f: nat -> Date, n: nat)
    requires f(0) == Date(1970, 1, 1) && forall k :: Successive(f, k)
    ensures f(n) == CalendarDate(n) && ValidDate(f(n))
  {
    assert Successive(f, n);
    if n > 0 {
      FollowsCalendar(f, n - 1);
      assert Successive(f, n - 1);
    }
  }

  lemma MarchFollows(y: nat, doy: nat)
    requires doy < (if LeapYear(y + 1) then 366 else 365)
    ensures ValidDate(MarchDate(y, doy))
    ensures NextDay(MarchDate(y, doy)) ==
            if doy + 1 < (if LeapYear(y + 1) then 366 else 365) then MarchDate(y, doy + 1) else MarchDate(y + 1, 0)
  {
    if doy + 1 < (if LeapYear(y + 1) then 366 else 365) {
      MarchStep(y, doy);
    } else {
      MarchEnd(y);
    }
  }

  /** The date of the next day is the calendar successor. */
  lemma SuccessorDate(days: nat)
    ensures Successive(DaysToYmd, days)
  {
    var h := (y: nat, doy: nat) => if doy <= 365 then MarchDate(y, doy) else Date(0, 0, 0);
    forall d: nat, era: nat, k: nat, doy: nat | InYear(d, era, k, doy) ensures DaysToYmd(d) == h(k + era * 400, doy) {
      DaysToMarch(d, era, k, doy);
    }
    forall y: nat, doy: nat ensures StepsAt(h, y, doy) {
      if doy < (if LeapYear(y + 1) then 366 else 365) { MarchFollows(y, doy); }
    }
    SuccessorBy(DaysToYmd, h, days);
  }

  /** `days_to_ymd` is the calendar: the date it gives for n is the n-th after 1970-01-01. */
  lemma DaysToYmdIsCalendar(n: nat)
    ensures DaysToYmd(n) == CalendarDate(n) && ValidDate(DaysToYmd(n))
  {
    EpochDate();
    forall k ensures Successive(DaysToYmd, k) {
      SuccessorDate(k);
    }
    FollowsCalendar(DaysToYmd, n);
  }

  // ----- Timestamps -----

  function Padded(n: nat, width: nat): string {
    Pad(Print(n, 10), width)
  }

  function DateText(d: Date): string {
    Padded(d.year, 4) + "-" + Padded(d.month, 2) + "-" + Padded(d.day, 2)
  }

  function ClockText(t: nat): string {
    Padded(t / 3600, 2) + ":" + Padded(t % 3600 / 60, 2) + ":" + Padded(t % 60, 2)
  }

  /** `now_utc`, for the seconds since the epoch. */
  function UtcText(secs: nat): string {
    DateText(DaysToYmd(secs / 86400)) + "T" + ClockText(secs % 86400) + "Z"
  }

  predicate DateBefore(a: Date, b: Date) {
    a.year < b.year
    || (a.year == b.year && (a.month < b.month || (a.month == b.month && a.day < b.day)))
  }

  lemma {:induction false} LaterDays(m: nat, n: nat)
    requires m < n
    ensures DateBefore(CalendarDate(m), CalendarDate(n))
    decreases n
  {
    if m < n - 1 { LaterDays(m, n - 1); }
  }

  /** Numbers of one width compare as their texts. */
  lemma PaddedOrder(m: nat, n: nat, width: nat)
    requires m < n && |Padded(m, width)| == |Padded(n, width)|
    ensures Lt(Padded(m, width), Padded(n, width))
  {
    PrintValue(m, 10);
    PrintValue(n, 10);
    PadValue(Print(m, 10), width, 10);
    PadValue(Print(n, 10), width, 10);
    DecimalDigits(Padded(m, width));
    DecimalDigits(Padded(n, width));
    DigitsOrder(Padded(m, width), Padded(n, width));
  }

  lemma LastDigit(s: string) returns (d: nat)
    requires s != [] && AllDecimal(s)
    ensures d <= 9 && d == DigitValue(s[|s| - 1])
    ensures Value(s, 10) == 10 * Value(s[..|s| - 1], 10) + d
  {
    d := DigitValue(s[|s| - 1]);
  }

  lemma DigitOrder(c: char, d: char)
    requires '0' <= c <= '9' && '0' <= d <= '9'
    ensures DigitValue(c) == DigitValue(d) ==> c == d
    ensures DigitValue(c) < DigitValue(d) ==> c < d
  {
  }

  lemma SplitDigits(x: nat, d: nat, y: nat, e: nat)
    requires d <= 9 && e <= 9
    ensures 10 * x + d == 10 * y + e ==> x == y && d == e
    ensures 10 * x + d < 10 * y + e ==> x < y || (x == y && d < e)
  {
  }

  /** Among decimal texts of one length the smaller value is the smaller text. */
  lemma {:induction false} DigitsOrder(a: string, b: string)
    requires |a| == |b| && AllDecimal(a) && AllDecimal(b) && Value(a, 10) < Value(b, 10)
    ensures Lt(a, b)
    decreases |a|
  {
    var n := |a| - 1;
    var a', b' := a[..n], b[..n];
    assert a == a' + [a[n]] && b == b' + [b[n]];
    var d := LastDigit(a);
    var e := LastDigit(b);
    SplitDigits(Value(a', 10), d, Value(b', 10), e);
    DigitOrder(a[n], b[n]);
    if Value(a', 10) < Value(b', 10) {
      DigitsOrder(a', b');
      LtBeforeSuffix(a', b', [a[n]], [b[n]]);
    } else {
      ValueDetermines(a', b');
      LtAfterPrefix(a', [a[n]], [b[n]]);
    }
  }

  predicate AllDecimal(s: string) {
    forall i :: 0 <= i < |s| ==> '0' <= s[i] <= '9'
  }

  lemma SameParts(a: string, b: string)
    requires |a| == |b| > 0 && a[..|a| - 1] == b[..|b| - 1] && a[|a| - 1] == b[|b| - 1]
    ensures a == b
  {
    assert a == a[..|a| - 1] + [a[|a| - 1]] && b == b[..|b| - 1] + [b[|b| - 1]];
  }

  lemma SameLastDigit(a: string, b: string)
    requires a != [] && b != [] && AllDecimal(a) && AllDecimal(b) && Value(a, 10) == Value(b, 10)
    ensures a[|a| - 1] == b[|b| - 1] && Value(a[..|a| - 1], 10) == Value(b[..|b| - 1], 10)
  {
    var d := LastDigit(a);
    var e := LastDigit(b);
    SplitDigits(Value(a[..|a| - 1], 10), d, Value(b[..|b| - 1], 10), e);
    DigitOrder(a[|a| - 1], b[|b| - 1]);
  }

  lemma {:induction false} ValueDetermines(a: string, b: string)
    requires |a| == |b| && AllDecimal(a) && AllDecimal(b) && Value(a, 10) == Value(b, 10)
    ensures a == b
    decreases |a|
  {
    if a != [] {
      SameLastDigit(a, b);
      ValueDetermines(a[..|a| - 1], b[..|b| - 1]);
      SameParts(a, b);
    }
  }

  lemma DecimalDigits(s: string)
    requires AllDigits(s, 10)
    ensures AllDecimal(s)
  {
    forall i | 0 <= i < |s| ensures '0' <= s[i] <= '9' { assert DigitValue(s[i]) < 10; }
  }

  lemma PaddedWidth(n: nat, width: nat)
    requires (width == 2 && n < 100) || (width == 4 && n < 10000)
    ensures |Padded(n, width)| == width
  {
    assert n < 10 || |Print(n / 10, 10)| <= width - 1 by {
      if n >= 10 && n / 10 >= 10 { assert n / 10 / 10 >= 10 || |Print(n / 10 / 10, 10)| == 1; }
    }
  }

  lemma DateWidth(d: Date)
    requires ValidDate(d) && d.year < 10000
    ensures |DateText(d)| == 10
  {
    PaddedWidth(d.year, 4);
    PaddedWidth(d.month, 2);
    PaddedWidth(d.day, 2);
  }

  lemma ClockWidth(t: nat)
    requires t < 86400
    ensures |ClockText(t)| == 8
  {
    PaddedWidth(t / 3600, 2);
    PaddedWidth(t % 3600 / 60, 2);
    PaddedWidth(t % 60, 2);
  }

  /** Three fields of fixed width compare as their texts. */
  lemma FieldsOrder(a1: nat, a2: nat, a3: nat, b1: nat, b2: nat, b3: nat, width: nat, sep: string)
    requires |Padded(a1, width)| == |Padded(b1, width)|
    requires a2 < 100 && a3 < 100 && b2 < 100 && b3 < 100
    requires a1 < b1 || (a1 == b1 && (a2 < b2 || (a2 == b2 && a3 < b3)))
    ensures Lt(Padded(a1, width) + sep + Padded(a2, 2) + sep + Padded(a3, 2),
               Padded(b1, width) + sep + Padded(b2, 2) + sep + Padded(b3, 2))
  {
    PaddedWidth(a2, 2);
    PaddedWidth(b2, 2);
    PaddedWidth(a3, 2);
    PaddedWidth(b3, 2);
    var p1, q1 := Padded(a1, width), Padded(b1, width);
    var p2, q2 := Padded(a2, 2), Padded(b2, 2);
    var p3, q3 := Padded(a3, 2), Padded(b3, 2);
    assert p1 + sep + p2 + sep + p3 == p1 + (sep + (p2 + (sep + p3)));
    assert q1 + sep + q2 + sep + q3 == q1 + (sep + (q2 + (sep + q3)));
    if a1 < b1 {
      PaddedOrder(a1, b1, width);
      LtBeforeSuffix(p1, q1, sep + (p2 + (sep + p3)), sep + (q2 + (sep + q3)));
    } else {
      if a2 < b2 {
        PaddedOrder(a2, b2, 2);
        LtBeforeSuffix(p2, q2, sep + p3, sep + q3);
      } else {
        PaddedOrder(a3, b3, 2);
        LtAfterPrefix(sep, p3, q3);
        LtAfterPrefix(p2, sep + p3, sep + q3);
      }
      LtAfterPrefix(sep, p2 + (sep + p3), q2 + (sep + q3));
      LtAfterPrefix(p1, sep + (p2 + (sep + p3)), sep + (q2 + (sep + q3)));
    }
  }

  /** The last day of year 9999. */
  const LAST_DAY: nat := 2932896

  lemma LastDayDate()
    ensures DaysToYmd(LAST_DAY) == Date(9999, 12, 31)
  {
    DaysToMarch(LAST_DAY, 24, 399, 305);
  }

  lemma YearFits(days: nat)
    requires days <= LAST_DAY
    ensures DaysToYmd(days).year < 10000
  {
    LastDayDate();
    if days < LAST_DAY {
      LaterDays(days, LAST_DAY);
      DaysToYmdIsCalendar(days);
      DaysToYmdIsCalendar(LAST_DAY);
    }
  }

  /** A timestamp before the year 10000 has 20 characters (sections 5.1 and 5.6 of RFC 3339). */
  lemma UtcTextWidth(secs: nat)
    requires secs < 253402300800
    ensures |UtcText(secs)| == 20
  {
    DaysToYmdIsCalendar(secs / 86400);
    YearFits(secs / 86400);
    DateWidth(DaysToYmd(secs / 86400));
    ClockWidth(secs % 86400);
  }

  lemma DateTextOrder(a: Date, b: Date)
    requires ValidDate(a) && ValidDate(b) && a.year < 10000 && b.year < 10000 && DateBefore(a, b)
    ensures Lt(DateText(a), DateText(b))
  {
    PaddedWidth(a.year, 4);
    PaddedWidth(b.year, 4);
    FieldsOrder(a.year, a.month, a.day, b.year, b.month, b.day, 4, "-");
  }

  lemma ClockFields(s: nat, t: nat)
    requires s < t
    ensures var h, i := s / 3600, t / 3600;
            var m, n := s % 3600 / 60, t % 3600 / 60;
      h < i || (h == i && (m < n || (m == n && s % 60 < t % 60)))
  {
    QuotientOrder(s, t, 3600);
    if s / 3600 == t / 3600 { QuotientOrder(s % 3600, t % 3600, 60); }
    SecondOfHour(s);
    SecondOfHour(t);
  }

  lemma QuotientOrder(s: nat, t: nat, d: nat)
    requires s < t && (d == 60 || d == 3600)
    ensures s / d < t / d || (s / d == t / d && s % d < t % d)
  {
  }

  lemma SecondOfHour(s: nat)
    ensures s % 3600 % 60 == s % 60
  {
    assert s == 60 * (60 * (s / 3600)) + s % 3600;
  }

  lemma ClockTextOrder(s: nat, t: nat)
    requires s < t < 86400
    ensures Lt(ClockText(s), ClockText(t))
  {
    ClockFields(s, t);
    PaddedWidth(s / 3600, 2);
    PaddedWidth(t / 3600, 2);
    FieldsOrder(s / 3600, s % 3600 / 60, s % 60, t / 3600, t % 3600 / 60, t % 60, 2, ":");
  }

  function StampText(d: Date, t: nat): string {
    DateText(d) + "T" + ClockText(t) + "Z"
  }

  lemma UtcIsStamp(secs: nat)
    requires secs < 253402300800
    ensures var d := CalendarDate(secs / 86400);
      UtcText(secs) == StampText(d, secs % 86400) && ValidDate(d) && d.year < 10000
  {
    DaysToYmdIsCalendar(secs / 86400);
    YearFits(secs / 86400);
  }

  lemma StampTextOrder(s: nat, t: nat)
    requires s < t
    requires ValidDate(CalendarDate(s / 86400)) && CalendarDate(s / 86400).year < 10000
    requires ValidDate(CalendarDate(t / 86400)) && CalendarDate(t / 86400).year < 10000
    ensures Lt(StampText(CalendarDate(s / 86400), s % 86400), StampText(CalendarDate(t / 86400), t % 86400))
  {
    if s / 86400 < t / 86400 { LaterDays(s / 86400, t / 86400); }
    StampOrder(CalendarDate(s / 86400), CalendarDate(t / 86400), s % 86400, t % 86400);
  }

  /** Timestamps sort as the moments they stand for. */
  lemma UtcTextOrder(s: nat, t: nat)
    requires s < t < 253402300800
    ensures Lt(UtcText(s), UtcText(t))
  {
    UtcIsStamp(s);
    UtcIsStamp(t);
    StampTextOrder(s, t);
  }

  lemma StampOrder(a: Date, b: Date, s: nat, t: nat)
    requires ValidDate(a) && ValidDate(b) && a.year < 10000 && b.year < 10000 && s < 86400 && t < 86400
    requires DateBefore(a, b) || (a == b && s < t)
    ensures Lt(StampText(a, s), StampText(b, t))
  {
    var x, y := "T" + (ClockText(s) + "Z"), "T" + (ClockText(t) + "Z");
    assert DateText(a) + "T" + ClockText(s) + "Z" == DateText(a) + x;
    assert DateText(b) + "T" + ClockText(t) + "Z" == DateText(b) + y;
    DateWidth(a);
    DateWidth(b);
    if DateBefore(a, b) {
      DateTextOrder(a, b);
      LtBeforeSuffix(DateText(a), DateText(b), x, y);
    } else {
      ClockWidth(s);
      ClockWidth(t);
      ClockTextOrder(s, t);
      LtBeforeSuffix(ClockText(s), ClockText(t), "Z", "Z");
      LtAfterPrefix("T", ClockText(s) + "Z", ClockText(t) + "Z");
      LtAfterPrefix(DateText(a), x, y);
    }
  }

  // ----- The fields of a timestamp -----

  predicate ReadsAs(t: string, n: nat) {
    AllDigits(t, 10) && Value(t, 10) == n
  }

  /** The text between two positions is the number. */
  predicate Reads(t: string, from: nat, to: nat, n: nat)
    requires from <= to <= |t|
  {
    ReadsAs(t[from..to], n)
  }

  lemma PaddedReads(n: nat, width: nat)
    ensures ReadsAs(Padded(n, width), n)
  {
    PrintValue(n, 10);
    PadValue(Print(n, 10), width, 10);
  }

  lemma SixFields(y: string, m: string, d: string, h: string, i: string, s: string)
    requires |y| == 4 && |m| == |d| == |h| == |i| == |s| == 2
    ensures var t := y + "-" + m + "-" + d + "T" + (h + ":" + i + ":" + s) + "Z";
      && |t| == 20 && t[4] == t[7] == '-' && t[10] == 'T' && t[13] == t[16] == ':' && t[19] == 'Z'
      && t[0..4] == y && t[5..7] == m && t[8..10] == d && t[11..13] == h && t[14..16] == i && t[17..19] == s
  {
  }

  lemma ClockOf(secs: nat)
    ensures var c := secs % 86400;
      c / 3600 == secs / 3600 % 24 && c % 3600 / 60 == secs / 60 % 60 && c % 60 == secs % 60
      && c / 3600 < 100 && c % 3600 / 60 < 100 && c % 60 < 100
  {
    var c, days := secs % 86400, secs / 86400;
    WithinDay(secs, days, c, 3600, 24);
    WithinDay(secs, days, c, 60, 1440);
    HourAndMinute(c);
    MinutesOfDay(days, c / 60);
    assert secs / 3600 % 24 == c / 3600;
  }

  lemma WithinDay(secs: nat, days: nat, c: nat, d: nat, perDay: nat)
    requires secs == 86400 * days + c && ((d == 3600 && perDay == 24) || (d == 60 && perDay == 1440))
    ensures secs / d == perDay * days + c / d && secs % d == c % d
  {
  }

  lemma HourAndMinute(c: nat)
    ensures c / 60 % 60 == c % 3600 / 60
  {
    assert c / 60 == 60 * (c / 3600) + c % 3600 / 60;
  }

  lemma MinutesOfDay(days: nat, m: nat)
    ensures (1440 * days + m) % 60 == m % 60
  {
    assert 1440 * days + m == 60 * (24 * days + m / 60) + m % 60;
  }

  /** A timestamp before the year 10000 has the date, the hour, the minute and the second in their places. */
  lemma UtcTextFields(secs: nat)
    requires secs < 253402300800
    ensures var t, d := UtcText(secs), CalendarDate(secs / 86400);
      && |t| == 20 && t[4] == t[7] == '-' && t[10] == 'T' && t[13] == t[16] == ':' && t[19] == 'Z'
      && Reads(t, 0, 4, d.year) && Reads(t, 5, 7, d.month) && Reads(t, 8, 10, d.day)
      && Reads(t, 11, 13, secs / 3600 % 24) && Reads(t, 14, 16, secs / 60 % 60) && Reads(t, 17, 19, secs % 60)
  {
    var d, c := CalendarDate(secs / 86400), secs % 86400;
    UtcIsStamp(secs);
    ClockOf(secs);
    FieldWidths(d, c);
    FieldsRead(d, c);
    SixFields(Padded(d.year, 4), Padded(d.month, 2), Padded(d.day, 2), Padded(c / 3600, 2), Padded(c % 3600 / 60, 2),
              Padded(c % 60, 2));
  }

  lemma FieldWidths(d: Date, c: nat)
    requires ValidDate(d) && d.year < 10000 && c < 86400
    ensures |Padded(d.year, 4)| == 4 && |Padded(d.month, 2)| == |Padded(d.day, 2)| == 2
    ensures |Padded(c / 3600, 2)| == |Padded(c % 3600 / 60, 2)| == |Padded(c % 60, 2)| == 2
  {
    PaddedWidth(d.year, 4);
    PaddedWidth(d.month, 2);
    PaddedWidth(d.day, 2);
    PaddedWidth(c / 3600, 2);
    PaddedWidth(c % 3600 / 60, 2);
    PaddedWidth(c % 60, 2);
  }

  lemma FieldsRead(d: Date, c: nat)
    ensures ReadsAs(Padded(d.year, 4), d.year) && ReadsAs(Padded(d.month, 2), d.month)
    ensures ReadsAs(Padded(d.day, 2), d.day) && ReadsAs(Padded(c / 3600, 2), c / 3600)
    ensures ReadsAs(Padded(c % 3600 / 60, 2), c % 3600 / 60) && ReadsAs(Padded(c % 60, 2), c % 60)
  {
    PaddedReads(d.year, 4);
    PaddedReads(d.month, 2);
    PaddedReads(d.day, 2);
    PaddedReads(c / 3600, 2);
    PaddedReads(c % 3600 / 60, 2);
    PaddedReads(c % 60, 2);
  }
}
