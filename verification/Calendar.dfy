/**
 The SigV4 timestamp formatter: `format_datetime` converts Unix seconds to a civil date with
 integer division only, then prints it. The date part is proved equal to a calendar that is
 counted one day at a time from 1970-01-01; the printed form is proved to be a fixed-width,
 order-preserving and invertible encoding exactly for the timestamps before year 10000.
 */
module Calendar {
  import opened Lex

  datatype Date = Date(year: int, month: int, day: int)

  // ---------- The reference: the Gregorian calendar, one day at a time ----------

  predicate IsLeap(year: int) {
    year % 4 == 0 && (year % 100 != 0 || year % 400 == 0)
  }

  function DaysInMonth(year: int, month: int): int {
    if month == 2 then (if IsLeap(year) then 29 else 28)
    else if month in {4, 6, 9, 11} then 30
    else 31
  }

  predicate Valid(d: Date) {
    1 <= d.month <= 12 && 1 <= d.day <= DaysInMonth(d.year, d.month)
  }

  function NextDay(d: Date): Date {
    if d.day < DaysInMonth(d.year, d.month) then d.(day := d.day + 1)
    else if d.month < 12 then Date(d.year, d.month + 1, 1)
    else Date(d.year + 1, 1, 1)
  }

  /** The date `n` days after 1970-01-01, by counting. */
  function CountedDate(n: nat): (d: Date)
    ensures Valid(d) && d.year >= 1970
  {
    if n == 0 then Date(1970, 1, 1) else NextDay(CountedDate(n - 1))
  }

  // ---------- The source: division-only conversion ----------

  function YearOfEra(doe: nat): int {
    (doe - doe / 1460 + doe / 36524 - doe / 146096) / 365
  }

  /** Days since the epoch to civil date. The source also has a branch for negative `z`, which an
      unsigned day count never reaches. */
  function CivilFromDays(days: nat): Date {
    var z := days + 719468;
    var era := z / 146097;
    var doe := z - era * 146097;
    var yoe := YearOfEra(doe);
    var y := yoe + era * 400;
    var doy := doe - (365 * yoe + yoe / 4 - yoe / 100);
    var mp := (5 * doy + 2) / 153;
    var d := doy - (153 * mp + 2) / 5 + 1;
    var m := if mp < 10 then mp + 3 else mp - 9;
    Date(if m <= 2 then y + 1 else y, m, d)
  }

  // ---------- The inverse: counting days in years that start on March 1 ----------

  function MarchYear(d: Date): int { if d.month <= 2 then d.year - 1 else d.year }

  function MarchMonth(d: Date): int { if d.month > 2 then d.month - 3 else d.month + 9 }

  function DayOfMarchYear(d: Date): int { (153 * MarchMonth(d) + 2) / 5 + d.day - 1 }

  function DaysFromCivil(d: Date): int {
    var y := MarchYear(d);
    365 * y + y / 4 - y / 100 + y / 400 + DayOfMarchYear(d) - 719468
  }

  lemma DayOfMarchYearBounds(d: Date)
    requires Valid(d)
    ensures 0 <= DayOfMarchYear(d) <= 365
    ensures DayOfMarchYear(d) == 365 ==> IsLeap(MarchYear(d) + 1)
    ensures (5 * DayOfMarchYear(d) + 2) / 153 == MarchMonth(d)
  {
    assert MarchMonth(d) in {0, 1, 2, 3, 4, 5, 6, 7, 8, 9, 10, 11};
  }

  /** The correction terms recover the year of the era exactly: `doe` is day `doy` of year
      `100c + 4q + r`. */
  lemma YearOfEraCorrect(c: int, q: int, r: int, doy: int)
    requires 0 <= c <= 3 && 0 <= q <= 24 && 0 <= r <= 3 && 0 <= doy <= 365
    requires doy == 365 ==> r == 3 && (q != 24 || c == 3)
    ensures YearOfEra(36524 * c + 1461 * q + 365 * r + doy) == 100 * c + 4 * q + r
  {
    var doe := 36524 * c + 1461 * q + 365 * r + doy;
    var t := if 24 * c + q + 365 * r + doy >= 1460 then 1 else 0;
    assert doe / 1460 == 25 * c + q + t;
    var last := if doe == 146096 then 1 else 0;
    assert doe / 146096 == last;
    assert doe / 36524 == c + last;
  }

  lemma YearSplit(yoe: int, doy: int)
    requires 0 <= yoe < 400 && 0 <= doy <= 365
    requires doy == 365 ==> IsLeap(yoe + 1)
    ensures 0 <= 365 * yoe + yoe / 4 - yoe / 100 + doy < 146097
    ensures YearOfEra(365 * yoe + yoe / 4 - yoe / 100 + doy) == yoe
  {
    var c, q, r := yoe / 100, yoe % 100 / 4, yoe % 4;
    assert yoe == 100 * c + 4 * q + r;
    assert yoe / 4 == 25 * c + q;
    if doy == 365 {
      assert (yoe + 1) % 4 == 0;
      assert q == 24 ==> (yoe + 1) == 100 * (c + 1);
    }
    YearOfEraCorrect(c, q, r, doy);
  }

  /** Adding whole eras shifts the quotients and leaves the leap rule alone. */
  lemma EraShift(e: int, r: int)
    ensures (400 * e + r) / 4 == 100 * e + r / 4
    ensures (400 * e + r) / 100 == 4 * e + r / 100
    ensures IsLeap(400 * e + r) == IsLeap(r)
  {
    assert 400 * e + r == 4 * (100 * e + r / 4) + r % 4;
    assert 400 * e + r == 100 * (4 * e + r / 100) + r % 100;
    assert 400 * e + r == 400 * (e + r / 400) + r % 400;
  }

  lemma EraSplit(y: int)
    requires y >= 0
    ensures 365 * y + y / 4 - y / 100 + y / 400
         == 146097 * (y / 400) + 365 * (y % 400) + y % 400 / 4 - y % 400 / 100
    ensures IsLeap(y + 1) == IsLeap(y % 400 + 1)
  {
    var e, r := y / 400, y % 400;
    assert y == 400 * e + r;
    EraShift(e, r);
    EraShift(e, r + 1);
  }

  /** One run of the conversion, on day `doy` (in month `mp`) of year `yoe` of an era. */
  lemma CivilAt(days: nat, era: int, yoe: int, doy: int, mp: int)
    requires 0 <= 365 * yoe + yoe / 4 - yoe / 100 + doy < 146097
    requires days + 719468 == 146097 * era + 365 * yoe + yoe / 4 - yoe / 100 + doy
    requires YearOfEra(365 * yoe + yoe / 4 - yoe / 100 + doy) == yoe
    requires (5 * doy + 2) / 153 == mp
    ensures CivilFromDays(days)
         == var m := if mp < 10 then mp + 3 else mp - 9;
            var y := yoe + era * 400;
            Date(if m <= 2 then y + 1 else y, m, doy - (153 * mp + 2) / 5 + 1)
  {
    var doe := 365 * yoe + yoe / 4 - yoe / 100 + doy;
    assert (days + 719468) / 146097 == era;
    assert (days + 719468) - era * 146097 == doe;
  }

  /** The conversion undoes `DaysFromCivil` on every valid date since 1970. */
  lemma CivilInvertsDays(d: Date)
    requires Valid(d) && d.year >= 1970
    ensures DaysFromCivil(d) >= 0
    ensures CivilFromDays(DaysFromCivil(d)) == d
  {
    var y, doy := MarchYear(d), DayOfMarchYear(d);
    EpochBounds(d);
    DayOfMarchYearBounds(d);
    EraSplit(y);
    YearSplit(y % 400, doy);
    CivilAt(DaysFromCivil(d), y / 400, y % 400, doy, MarchMonth(d));
  }

  lemma EpochBounds(d: Date)
    requires Valid(d) && d.year >= 1970
    ensures DaysFromCivil(d) >= 0
  {
    var y := MarchYear(d);
    assert y >= 1970 ==> 365 * y + y / 4 - y / 100 + y / 400 >= 719468;
  }

  lemma NextDayCounts(d: Date)
    requires Valid(d)
    ensures DaysFromCivil(NextDay(d)) == DaysFromCivil(d) + 1
  {
    if d.day == DaysInMonth(d.year, d.month) {
      if d.month == 2 { LeapStep(d.year - 1); }
    }
  }

  lemma LeapStep(y: int)
    ensures (y + 1) / 4 - (y + 1) / 100 + (y + 1) / 400
         == y / 4 - y / 100 + y / 400 + (if IsLeap(y + 1) then 1 else 0)
  {
    assert (y + 1) / 4 == y / 4 + (if (y + 1) % 4 == 0 then 1 else 0);
    assert (y + 1) / 100 == y / 100 + (if (y + 1) % 100 == 0 then 1 else 0);
    assert (y + 1) / 400 == y / 400 + (if (y + 1) % 400 == 0 then 1 else 0);
  }

  lemma CountedDateStep(n: nat, before: Date)
    requires n > 0 && before == CountedDate(n - 1)
    ensures DaysFromCivil(CountedDate(n)) == DaysFromCivil(before) + 1
  {
    NextDayCounts(before);
  }

  lemma {:induction false} CountedDateDays(n: nat)
    ensures DaysFromCivil(CountedDate(n)) == n
  {
    if n > 0 {
      CountedDateDays(n - 1);
      CountedDateStep(n, CountedDate(n - 1));
    }
  }

  /** The division-only conversion agrees with the day-by-day calendar on every day, and the
      inverse formula gives the day number back. */
  lemma CivilIsCountedDate(n: nat)
    ensures CivilFromDays(n) == CountedDate(n)
    ensures DaysFromCivil(CivilFromDays(n)) == n
  {
    CountedDateDays(n);
    CivilInvertsDays(CountedDate(n));
  }

  predicate Before(a: Date, b: Date) {
    a.year < b.year || (a.year == b.year && (a.month < b.month || (a.month == b.month && a.day < b.day)))
  }

  lemma {:induction false} CountedDateMonotone(m: nat, n: nat)
    requires m < n
    ensures Before(CountedDate(m), CountedDate(n))
    decreases n
  {
    if m < n - 1 { CountedDateMonotone(m, n - 1); }
  }

  lemma CountedYearSplit(n: nat, k: nat)
    requires CountedDate(k).month == CountedDate(k).day == 1
    ensures CountedDate(n).year < CountedDate(k).year <==> n < k
  {
    if n < k { CountedDateMonotone(n, k); }
    if n > k { CountedDateMonotone(k, n); }
  }

  lemma YearStart(d: Date, k: int)
    requires d.year >= 1970 && d.month == d.day == 1 && k == DaysFromCivil(d)
    ensures k >= 0 && CountedDate(k) == d
  {
    CivilInvertsDays(d);
    CivilIsCountedDate(k);
  }

  lemma YearsBefore(d: Date, k: int, n: nat)
    requires d.year >= 1970 && d.month == d.day == 1 && k == DaysFromCivil(d)
    ensures CivilFromDays(n).year < d.year <==> n < k
  {
    YearStart(d, k);
    CountedYearSplit(n, k);
    assert CivilFromDays(n) == CountedDate(n) by { CivilIsCountedDate(n); }
  }

  /** Dates before year 10000 are exactly the first 2,932,897 days. */
  lemma FourDigitYears(n: nat)
    ensures CivilFromDays(n).year < 10000 <==> n < 2932897
  {
    YearsBefore(Date(10000, 1, 1), 2932897, n);
  }

  // ---------- Printing ----------

  function Digit(n: int): char
    requires 0 <= n < 10
  { '0' + n as char }

  function Decimal(n: nat): (s: string)
    ensures |s| >= 1
  {
    if n < 10 then [Digit(n)] else Decimal(n / 10) + [Digit(n % 10)]
  }

  function Zeros(n: nat): string { seq(n, _ => '0') }

  /** `{:0width}` formatting: zero-padded on the left, never truncated. */
  function Pad(width: nat, n: nat): string {
    var s := Decimal(n);
    if |s| < width then Zeros(width - |s|) + s else s
  }

  function DateString(d: Date): string
    requires d.year >= 0 && d.month >= 0 && d.day >= 0
  {
    Pad(4, d.year) + Pad(2, d.month) + Pad(2, d.day)
  }

  function TimeString(secsOfDay: nat): string {
    Pad(2, secsOfDay / 3600) + Pad(2, secsOfDay % 3600 / 60) + Pad(2, secsOfDay % 60)
  }

  /** The pair `("YYYYMMDDTHHMMSSZ", "YYYYMMDD")`. */
  function FormatDatetime(unixSecs: nat): (string, string) {
    CivilIsCountedDate(unixSecs / 86400);
    var date := DateString(CivilFromDays(unixSecs / 86400));
    (date + "T" + TimeString(unixSecs % 86400) + "Z", date)
  }

  // ---------- Padded numbers ----------

  function Pow10(k: nat): nat { if k == 0 then 1 else 10 * Pow10(k - 1) }

  lemma PadStep(width: nat, n: nat)
    requires width >= 2
    ensures Pad(width, n) == Pad(width - 1, n / 10) + [Digit(n % 10)]
  {
    if n >= 10 {
      var s := Decimal(n / 10);
      if |s| < width - 1 {
        assert Zeros(width - 1 - |s|) + s + [Digit(n % 10)] == Zeros(width - 1 - |s|) + (s + [Digit(n % 10)]);
      }
    } else {
      assert Zeros(width - 1) == Zeros(width - 2) + ['0'];
      assert n / 10 == 0;
    }
  }

  lemma {:induction false} PadWidth(width: nat, n: nat)
    requires width >= 1
    ensures |Pad(width, n)| >= width
    ensures |Pad(width, n)| == width <==> n < Pow10(width)
    decreases width
  {
    if width >= 2 {
      PadStep(width, n);
      PadWidth(width - 1, n / 10);
      assert n < 10 * Pow10(width - 1) <==> n / 10 < Pow10(width - 1);
    } else {
      assert Pow10(1) == 10 by { assert Pow10(0) == 1; }
      if n >= 10 { assert |Decimal(n / 10)| >= 1; }
    }
  }

  /** Fixed-width decimals compare as strings the way the numbers compare. */
  lemma {:induction false} PadOrder(width: nat, m: nat, n: nat)
    requires width >= 1 && m < Pow10(width) && n < Pow10(width)
    ensures StrLe(Pad(width, m), Pad(width, n)) <==> m <= n
    ensures Pad(width, m) == Pad(width, n) <==> m == n
    decreases width
  {
    if width >= 2 {
      PadStep(width, m);
      PadStep(width, n);
      PadOrder(width - 1, m / 10, n / 10);
      PadWidth(width - 1, m / 10);
      PadWidth(width - 1, n / 10);
      DigitOrder(m % 10, n % 10);
      StrConcat(Pad(width - 1, m / 10), Pad(width - 1, n / 10), [Digit(m % 10)], [Digit(n % 10)]);
    } else {
      assert Pow10(0) == 1;
      DigitOrder(m, n);
    }
  }

  lemma DigitOrder(m: int, n: int)
    requires 0 <= m < 10 && 0 <= n < 10
    ensures StrLe([Digit(m)], [Digit(n)]) <==> m <= n
    ensures [Digit(m)] == [Digit(n)] <==> m == n
  {
    var a, b := Codes([Digit(m)]), Codes([Digit(n)]);
    assert a[0] == 48 + m && b[0] == 48 + n;
    assert a[1..] == [] && b[1..] == [];
    assert LexLe([], []);
    assert [Digit(m)][0] as int == 48 + m && [Digit(n)][0] as int == 48 + n;
  }

  // ---------- Reading a datetime back ----------

  function ParseDigits(s: string): int {
    if s == [] then 0 else 10 * ParseDigits(s[..|s| - 1]) + (s[|s| - 1] as int - 48)
  }

  function ParseDate(s: string): Date
    requires |s| == 8
  {
    Date(ParseDigits(s[..4]), ParseDigits(s[4..6]), ParseDigits(s[6..]))
  }

  function ParseTime(s: string): int
    requires |s| == 6
  {
    ParseDigits(s[..2]) * 3600 + ParseDigits(s[2..4]) * 60 + ParseDigits(s[4..])
  }

  function ParseDatetime(s: string): int
    requires |s| == 16
  {
    DaysFromCivil(ParseDate(s[..8])) * 86400 + ParseTime(s[9..15])
  }

  lemma {:induction false} ParsePad(width: nat, n: nat)
    requires width >= 1 && n < Pow10(width)
    ensures ParseDigits(Pad(width, n)) == n
    decreases width
  {
    if width >= 2 {
      PadStep(width, n);
      ParsePad(width - 1, n / 10);
      var s := Pad(width, n);
      assert s[..|s| - 1] == Pad(width - 1, n / 10);
    } else {
      assert Pow10(0) == 1;
      assert Pad(1, n) == [Digit(n)];
      assert ParseDigits([]) == 0;
    }
  }

  // ---------- The printed form ----------

  const YEAR_10000 := 253402300800

  lemma DateStringWidth(d: Date)
    requires Valid(d) && d.year >= 0
    ensures |DateString(d)| >= 8
    ensures |DateString(d)| == 8 <==> d.year < 10000
  {
    PadWidth(4, d.year);
    PadWidth(2, d.month);
    PadWidth(2, d.day);
  }

  lemma TimeStringWidth(t: nat)
    requires t < 86400
    ensures |TimeString(t)| == 6
  {
    PadWidth(2, t / 3600);
    PadWidth(2, t % 3600 / 60);
    PadWidth(2, t % 60);
  }

  /** The date is a prefix of the datetime, and the widths are 16 and 8 exactly before year 10000. */
  lemma FormatWidths(unixSecs: nat)
    ensures var (datetime, date) := FormatDatetime(unixSecs);
            && date <= datetime
            && (|datetime| == 16 <==> unixSecs < YEAR_10000)
            && (|date| == 8 <==> unixSecs < YEAR_10000)
  {
    var n := unixSecs / 86400;
    CivilIsCountedDate(n);
    DateStringWidth(CivilFromDays(n));
    TimeStringWidth(unixSecs % 86400);
    FourDigitYears(n);
  }

  lemma ParseDateString(d: Date)
    requires Valid(d) && 0 <= d.year < 10000
    ensures |DateString(d)| == 8 && ParseDate(DateString(d)) == d
  {
    PadWidth(4, d.year); PadWidth(2, d.month); PadWidth(2, d.day);
    var s := DateString(d);
    assert s[..4] == Pad(4, d.year) && s[4..6] == Pad(2, d.month) && s[6..] == Pad(2, d.day);
    ParsePad(4, d.year); ParsePad(2, d.month); ParsePad(2, d.day);
  }

  lemma ParseTimeString(t: nat)
    requires t < 86400
    ensures |TimeString(t)| == 6 && ParseTime(TimeString(t)) == t
  {
    var h, m, s := t / 3600, t % 3600 / 60, t % 60;
    assert t == 3600 * h + 60 * m + s;
    PadWidth(2, h); PadWidth(2, m); PadWidth(2, s);
    var u := TimeString(t);
    assert u[..2] == Pad(2, h) && u[2..4] == Pad(2, m) && u[4..] == Pad(2, s);
    ParsePad(2, h); ParsePad(2, m); ParsePad(2, s);
  }

  /** Before year 10000 the datetime string determines the timestamp. */
  lemma ParseInvertsFormat(unixSecs: nat)
    requires unixSecs < YEAR_10000
    ensures |FormatDatetime(unixSecs).0| == 16
    ensures ParseDatetime(FormatDatetime(unixSecs).0) == unixSecs
    ensures FormatDatetime(unixSecs).0[8] == 'T' && FormatDatetime(unixSecs).0[15] == 'Z'
    ensures FormatDatetime(unixSecs).1 == FormatDatetime(unixSecs).0[..8]
  {
    var n, t := unixSecs / 86400, unixSecs % 86400;
    CivilIsCountedDate(n);
    FourDigitYears(n);
    var date, time := DateString(CivilFromDays(n)), TimeString(t);
    ParseDateString(CivilFromDays(n));
    ParseTimeString(t);
    var s := date + "T" + time + "Z";
    assert s[..8] == date && s[9..15] == time;
  }

  lemma DateStringOrder(a: Date, b: Date)
    requires Valid(a) && Valid(b) && 0 <= a.year < 10000 && 0 <= b.year < 10000
    ensures StrLe(DateString(a), DateString(b)) <==> a == b || Before(a, b)
    ensures DateString(a) == DateString(b) <==> a == b
  {
    PadOrder(4, a.year, b.year); PadOrder(2, a.month, b.month); PadOrder(2, a.day, b.day);
    PadWidth(4, a.year); PadWidth(4, b.year); PadWidth(2, a.month); PadWidth(2, b.month);
    StrConcat(Pad(4, a.year), Pad(4, b.year), Pad(2, a.month), Pad(2, b.month));
    StrConcat(Pad(4, a.year) + Pad(2, a.month), Pad(4, b.year) + Pad(2, b.month), Pad(2, a.day), Pad(2, b.day));
  }

  lemma TimeFields(h: nat, m: nat, s: nat, h': nat, m': nat, s': nat)
    requires h < 24 && m < 60 && s < 60 && h' < 24 && m' < 60 && s' < 60
    ensures var a, b := Pad(2, h) + Pad(2, m) + Pad(2, s), Pad(2, h') + Pad(2, m') + Pad(2, s');
            && (StrLe(a, b) <==> h < h' || (h == h' && (m < m' || (m == m' && s <= s'))))
            && (a == b <==> h == h' && m == m' && s == s')
  {
    PadOrder(2, h, h'); PadOrder(2, m, m'); PadOrder(2, s, s');
    PadWidth(2, h); PadWidth(2, h'); PadWidth(2, m); PadWidth(2, m');
    StrConcat(Pad(2, h), Pad(2, h'), Pad(2, m), Pad(2, m'));
    StrConcat(Pad(2, h) + Pad(2, m), Pad(2, h') + Pad(2, m'), Pad(2, s), Pad(2, s'));
  }

  lemma TimeStringOrder(a: nat, b: nat)
    requires a < 86400 && b < 86400
    ensures StrLe(TimeString(a), TimeString(b)) <==> a <= b
    ensures TimeString(a) == TimeString(b) <==> a == b
  {
    var h, m, s := a / 3600, a % 3600 / 60, a % 60;
    var h', m', s' := b / 3600, b % 3600 / 60, b % 60;
    assert a == 3600 * h + 60 * m + s && b == 3600 * h' + 60 * m' + s';
    TimeFields(h, m, s, h', m', s');
  }

  lemma SuffixOrder(s: string, t: string)
    requires |s| == |t|
    ensures StrLe("T" + (s + "Z"), "T" + (t + "Z")) <==> StrLe(s, t)
    ensures "T" + (s + "Z") == "T" + (t + "Z") <==> s == t
  {
    StrConcat(s, t, "Z", "Z");
    LexReflexive(Codes("Z"));
    LexReflexive(Codes(s));
    StrConcat("T", "T", s + "Z", t + "Z");
  }

  lemma DatetimeStringOrder(p: string, q: string, s: string, t: string)
    requires |p| == |q| && |s| == |t|
    ensures StrLess(p + "T" + s + "Z", q + "T" + t + "Z")
       <==> if p == q then StrLess(s, t) else StrLess(p, q)
  {
    var u, v := "T" + (s + "Z"), "T" + (t + "Z");
    assert p + "T" + s + "Z" == p + u && q + "T" + t + "Z" == q + v;
    SuffixOrder(s, t);
    StrConcat(p, q, u, v);
  }

  lemma DayOrder(m: nat, n: nat)
    requires m < 2932897 && n < 2932897
    ensures var p, q := CivilFromDays(m), CivilFromDays(n);
            && Valid(p) && Valid(q) && 0 <= p.year < 10000 && 0 <= q.year < 10000
            && |DateString(p)| == |DateString(q)| == 8
            && (StrLess(DateString(p), DateString(q)) <==> m < n)
            && (DateString(p) == DateString(q) <==> m == n)
  {
    CivilIsCountedDate(m);
    CivilIsCountedDate(n);
    FourDigitYears(m);
    FourDigitYears(n);
    var p, q := CountedDate(m), CountedDate(n);
    DateStringOrder(p, q);
    DateStringWidth(p);
    DateStringWidth(q);
    if m < n { CountedDateMonotone(m, n); }
    if n < m { CountedDateMonotone(n, m); }
  }

  /** Before year 10000 string order of the datetimes is time order. */
  lemma FormatPreservesOrder(a: nat, b: nat)
    requires a < YEAR_10000 && b < YEAR_10000
    ensures StrLess(FormatDatetime(a).0, FormatDatetime(b).0) <==> a < b
  {
    var m, n, i, j := a / 86400, b / 86400, a % 86400, b % 86400;
    DayOrder(m, n);
    TimeStringOrder(i, j);
    TimeStringWidth(i);
    TimeStringWidth(j);
    DatetimeStringOrder(DateString(CivilFromDays(m)), DateString(CivilFromDays(n)), TimeString(i), TimeString(j));
  }
}
