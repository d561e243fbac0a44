/**
 * Python's `datetime.datetime.strptime(text, '%Y-%m-%d %H:%M')` and the
 * ordering of the resulting datetimes.
 *
 * CPython turns the layout into the regular expression
 *   (?P<Y>\d\d\d\d)-(?P<m>1[0-2]|0[1-9]|[1-9])-(?P<d>3[0-1]|[1-2]\d|0[1-9]|[1-9]| [1-9])\s+(?P<H>2[0-3]|[0-1]\d|\d):(?P<M>[0-5]\d|\d)
 * which must match the whole text, and then builds a datetime, which rejects
 * year 0 and a day past the end of its month. Every rejection is a
 * `ValueError`, which the model reports as `None`.
 */
module DateTimes {
  import opened Wrappers
  import opened PyText

  /** A datetime with zero seconds, as the layout yields. */
  datatype DateTime = DateTime(year: nat, month: nat, day: nat, hour: nat, minute: nat)

  predicate IsLeapYear(y: nat) {
    y % 4 == 0 && (y % 100 != 0 || y % 400 == 0)
  }

  /** Days in month m of year y, proleptic Gregorian calendar. */
  function DaysInMonth(y: nat, m: nat): (r: nat)
    requires 1 <= m <= 12
    ensures 28 <= r <= 31
    ensures r == 29 <==> m == 2 && IsLeapYear(y)
  {
    if m == 2 then (if IsLeapYear(y) then 29 else 28)
    else if m == 4 || m == 6 || m == 9 || m == 11 then 30
    else 31
  }

  /** A datetime Python can represent (MINYEAR 1 to MAXYEAR 9999). */
  predicate Valid(dt: DateTime) {
    && 1 <= dt.year <= 9999
    && 1 <= dt.month <= 12
    && 1 <= dt.day <= DaysInMonth(dt.year, dt.month)
    && dt.hour <= 23
    && dt.minute <= 59
  }

  /** Python's `a < b` on datetimes: comparison of (year, month, day, hour, minute). */
  predicate Before(a: DateTime, b: DateTime) {
    || a.year < b.year
    || (a.year == b.year && a.month < b.month)
    || (a.year == b.year && a.month == b.month && a.day < b.day)
    || (a.year == b.year && a.month == b.month && a.day == b.day && a.hour < b.hour)
    || (a.year == b.year && a.month == b.month && a.day == b.day && a.hour == b.hour && a.minute < b.minute)
  }

  // ---------------------------------------------------------------------
  // Elapsed time: the reference against which Before is checked.

  function DaysInYear(y: nat): nat {
    if IsLeapYear(y) then 366 else 365
  }

  /** Days in the years 1 .. y-1. */
  function DaysBeforeYear(y: nat): nat {
    if y <= 1 then 0 else DaysBeforeYear(y - 1) + DaysInYear(y - 1)
  }

  /** Days in months 1 .. m-1 of year y. */
  function DaysBeforeMonth(y: nat, m: nat): nat
    requires 1 <= m <= 12
  {
    (match m
     case 1 => 0 case 2 => 31 case 3 => 59 case 4 => 90 case 5 => 120 case 6 => 151
     case 7 => 181 case 8 => 212 case 9 => 243 case 10 => 273 case 11 => 304 case _ => 334)
    + (if m > 2 && IsLeapYear(y) then 1 else 0)
  }

  /** Day number, 1 for 0001-01-01 (Python's `toordinal`). */
  function Ordinal(dt: DateTime): nat
    requires Valid(dt)
  {
    DaysBeforeYear(dt.year) + DaysBeforeMonth(dt.year, dt.month) + dt.day
  }

  /** Minutes elapsed since 0000-12-31 00:00, the day before 0001-01-01:
      Ordinal counts 0001-01-01 as day 1. */
  function Minutes(dt: DateTime): nat
    requires Valid(dt)
  {
    (Ordinal(dt) * 24 + dt.hour) * 60 + dt.minute
  }

  lemma DayOfYearInRange(dt: DateTime)
    requires Valid(dt)
    ensures DaysBeforeYear(dt.year) < Ordinal(dt) <= DaysBeforeYear(dt.year) + DaysInYear(dt.year)
  {
  }

  lemma {:induction false} YearsFollowEachOther(y1: nat, y2: nat)
    requires 1 <= y1 < y2
    ensures DaysBeforeYear(y1) + DaysInYear(y1) <= DaysBeforeYear(y2)
  {
    if y1 + 1 < y2 {
      YearsFollowEachOther(y1, y2 - 1);
    }
  }

  lemma MonthsFollowEachOther(y: nat, m1: nat, m2: nat)
    requires 1 <= m1 < m2 <= 12
    ensures DaysBeforeMonth(y, m1) + DaysInMonth(y, m1) <= DaysBeforeMonth(y, m2)
  {
  }

  lemma EarlierMinutes(a: DateTime, b: DateTime)
    requires Valid(a) && Valid(b) && Before(a, b)
    ensures Minutes(a) < Minutes(b)
  {
    if a.year < b.year {
      DayOfYearInRange(a);
      DayOfYearInRange(b);
      YearsFollowEachOther(a.year, b.year);
    } else if a.month < b.month {
      MonthsFollowEachOther(a.year, a.month, b.month);
    }
  }

  /** Python's lexicographic comparison is the order of elapsed time. */
  lemma BeforeIsElapsedTime(a: DateTime, b: DateTime)
    requires Valid(a) && Valid(b)
    ensures Before(a, b) <==> Minutes(a) < Minutes(b)
  {
    if Before(a, b) {
      EarlierMinutes(a, b);
    } else if a != b {
      EarlierMinutes(b, a);
    }
  }

  // ---------------------------------------------------------------------
  // Parsing.

  /** Length of the leading run of ASCII digits. */
  function DigitRun(s: string): (n: nat)
    ensures n <= |s| && (n == |s| || !IsDigit(s[n]))
    ensures forall i :: 0 <= i < n ==> IsDigit(s[i])
  {
    if s != [] && IsDigit(s[0]) then 1 + DigitRun(s[1..]) else 0
  }

  /** Length of the leading run of whitespace (the regular expression `\s*`). */
  function SpaceRun(s: string): (n: nat)
    ensures n <= |s| && (n == |s| || !IsSpace(s[n]))
    ensures AllSpace(s[..n])
  {
    if s != [] && IsSpace(s[0]) then 1 + SpaceRun(s[1..]) else 0
  }

  function DigitValue(c: char): nat {
    if IsDigit(c) then (c as int - '0' as int) else 0
  }

  /** Decimal value of a digit string, most significant digit first. */
  function DigitsValue(s: string): nat {
    if s == [] then 0 else DigitsValue(s[..|s| - 1]) * 10 + DigitValue(s[|s| - 1])
  }

  function Pow10(n: nat): nat {
    if n == 0 then 1 else 10 * Pow10(n - 1)
  }

  lemma {:induction false} DigitsValueBound(s: string)
    ensures DigitsValue(s) < Pow10(|s|)
  {
    if s != [] {
      DigitsValueBound(s[..|s| - 1]);
    }
  }

  /** A field of one or two digits that is the whole leading digit run of s,
      with value in lo..hi: the value and what follows it. The alternatives
      of the m, H and M groups are exactly these ranges, and each group is
      followed by a non-digit or by the end of the text. */
  function Number(s: string, lo: nat, hi: nat): (r: Option<(nat, string)>)
    ensures r.Some? ==> lo <= r.value.0 <= hi
  {
    var n := DigitRun(s);
    if 1 <= n <= 2 && lo <= DigitsValue(s[..n]) <= hi then Some((DigitsValue(s[..n]), s[n..]))
    else None
  }

  /** The d group: 1..31 in one or two digits, or a space and one digit 1..9. */
  function Day(s: string): (r: Option<(nat, string)>)
    ensures r.Some? ==> 1 <= r.value.0 <= 31
  {
    if |s| >= 2 && s[0] == ' ' && '1' <= s[1] <= '9' then Some((DigitValue(s[1]), s[2..]))
    else Number(s, 1, 31)
  }

  /** `datetime.strptime(s, '%Y-%m-%d %H:%M')`, `None` for a `ValueError`.
      The Y group is exactly four digits followed by `-`. */
  function Parse(s: string): (r: Option<DateTime>)
    ensures r.Some? ==> Valid(r.value)
  {
    if |s| < 5 || DigitRun(s) < 4 || s[4] != '-' then None
    else
      DigitsValueBound(s[..4]);
      ParseMonth(DigitsValue(s[..4]), s[5..])
  }

  /** The m group and the `-` after it. */
  function ParseMonth(year: nat, s: string): (r: Option<DateTime>)
    requires year <= 9999
    ensures r.Some? ==> Valid(r.value)
  {
    match Number(s, 1, 12)
    case None => None
    case Some((month, rest)) =>
      if rest == [] || rest[0] != '-' then None else ParseDay(year, month, rest[1..])
  }

  /** The d group and the `\s+` after it. */
  function ParseDay(year: nat, month: nat, s: string): (r: Option<DateTime>)
    requires year <= 9999 && 1 <= month <= 12
    ensures r.Some? ==> Valid(r.value)
  {
    match Day(s)
    case None => None
    case Some((day, rest)) =>
      var w := SpaceRun(rest);
      if w == 0 then None else ParseHour(year, month, day, rest[w..])
  }

  /** The H group and the `:` after it. */
  function ParseHour(year: nat, month: nat, day: nat, s: string): (r: Option<DateTime>)
    requires year <= 9999 && 1 <= month <= 12 && 1 <= day
    ensures r.Some? ==> Valid(r.value)
  {
    match Number(s, 0, 23)
    case None => None
    case Some((hour, rest)) =>
      if rest == [] || rest[0] != ':' then None else ParseMinute(year, month, day, hour, rest[1..])
  }

  /** The M group, which must end the text, and the checks `datetime` makes. */
  function ParseMinute(year: nat, month: nat, day: nat, hour: nat, s: string): (r: Option<DateTime>)
    requires year <= 9999 && 1 <= month <= 12 && 1 <= day && hour <= 23
    ensures r.Some? ==> Valid(r.value)
  {
    match Number(s, 0, 59)
    case None => None
    case Some((minute, rest)) =>
      if rest != [] || year < 1 || day > DaysInMonth(year, month) then None
      else Some(DateTime(year, month, day, hour, minute))
  }

  // ---------------------------------------------------------------------
  // The zero-padded layout, and the round trips between it and Parse.

  function DigitChar(d: nat): (c: char)
    requires d < 10
    ensures IsDigit(c) && DigitValue(c) == d
  {
    ('0' as int + d) as char
  }

  /** n in exactly `width` decimal digits, padded with leading zeros. */
  function Pad(n: nat, width: nat): (r: string)
    ensures |r| == width && AllDigits(r)
  {
    if width == 0 then [] else Pad(n / 10, width - 1) + [DigitChar(n % 10)]
  }

  /** `dt.strftime('%Y-%m-%d %H:%M')`. */
  function Format(dt: DateTime): string {
    Layout(Pad(dt.year, 4), Pad(dt.month, 2), Pad(dt.day, 2), " ", Pad(dt.hour, 2), Pad(dt.minute, 2))
  }

  /** Text in the zero-padded layout `YYYY-MM-DD HH:MM`, one space between date and time. */
  predicate ZeroPadded(s: string) {
    && |s| == 16
    && s[4] == '-' && s[7] == '-' && s[10] == ' ' && s[13] == ':'
    && forall i :: 0 <= i < 16 && i !in {4, 7, 10, 13} ==> IsDigit(s[i])
  }

  lemma {:induction false} PadValue(n: nat, width: nat)
    requires n < Pow10(width)
    ensures DigitsValue(Pad(n, width)) == n
  {
    if width > 0 {
      PadValue(n / 10, width - 1);
      var p := Pad(n, width);
      assert p[..|p| - 1] == Pad(n / 10, width - 1);
    }
  }

  lemma {:induction false} PadDigits(d: string)
    requires AllDigits(d)
    ensures Pad(DigitsValue(d), |d|) == d
  {
    if d != [] {
      var n := |d| - 1;
      var v := DigitsValue(d);
      assert v / 10 == DigitsValue(d[..n]) && v % 10 == DigitValue(d[n]);
      PadDigits(d[..n]);
      assert d == d[..n] + [d[n]];
    }
  }

  lemma {:induction false} DigitRunOf(d: string, rest: string)
    requires AllDigits(d)
    requires rest == [] || !IsDigit(rest[0])
    ensures DigitRun(d + rest) == |d|
  {
    if d != [] {
      assert (d + rest)[1..] == d[1..] + rest;
      DigitRunOf(d[1..], rest);
    }
  }

  predicate AllDigits(d: string) {
    forall i :: 0 <= i < |d| ==> IsDigit(d[i])
  }

  /** A one- or two-digit run followed by a non-digit is read as a Number
      exactly when its value is in range. */
  lemma NumberOf(d: string, rest: string, lo: nat, hi: nat)
    requires 1 <= |d| <= 2 && AllDigits(d)
    requires rest == [] || !IsDigit(rest[0])
    ensures Number(d + rest, lo, hi) == if lo <= DigitsValue(d) <= hi then Some((DigitsValue(d), rest)) else None
  {
    DigitRunOf(d, rest);
    assert (d + rest)[..|d|] == d && (d + rest)[|d|..] == rest;
  }

  lemma YearStage(y: string, rest: string)
    requires |y| == 4 && AllDigits(y)
    ensures DigitsValue(y) <= 9999
    ensures Parse(y + "-" + rest) == ParseMonth(DigitsValue(y), rest)
  {
    DigitsValueBound(y);
    var s := y + "-" + rest;
    DigitRunOf(y, "-" + rest);
    assert s == y + ("-" + rest);
    assert s[..4] == y && s[5..] == rest;
  }

  lemma MonthStage(year: nat, mo: string, rest: string)
    requires year <= 9999 && 1 <= |mo| <= 2 && AllDigits(mo)
    ensures ParseMonth(year, mo + "-" + rest)
         == if 1 <= DigitsValue(mo) <= 12 then ParseDay(year, DigitsValue(mo), rest) else None
  {
    assert mo + "-" + rest == mo + ("-" + rest);
    NumberOf(mo, "-" + rest, 1, 12);
    assert ("-" + rest)[1..] == rest;
  }

  lemma HourStage(year: nat, month: nat, day: nat, h: string, rest: string)
    requires year <= 9999 && 1 <= month <= 12 && 1 <= day
    requires 1 <= |h| <= 2 && AllDigits(h)
    ensures ParseHour(year, month, day, h + ":" + rest)
         == if DigitsValue(h) <= 23 then ParseMinute(year, month, day, DigitsValue(h), rest) else None
  {
    assert h + ":" + rest == h + (":" + rest);
    NumberOf(h, ":" + rest, 0, 23);
    assert (":" + rest)[1..] == rest;
  }

  lemma MinuteStage(year: nat, month: nat, day: nat, hour: nat, mi: string)
    requires year <= 9999 && 1 <= month <= 12 && 1 <= day && hour <= 23
    requires 1 <= |mi| <= 2 && AllDigits(mi)
    ensures ParseMinute(year, month, day, hour, mi)
         == if DigitsValue(mi) <= 59 && 1 <= year && day <= DaysInMonth(year, month)
            then Some(DateTime(year, month, day, hour, DigitsValue(mi))) else None
  {
    NumberOf(mi, [], 0, 59);
    assert mi + [] == mi;
  }

  /** What `datetime(...)` makes of the fields strptime matched: the
      datetime, or a `ValueError` (None) when it is not representable. */
  function Checked(dt: DateTime): Option<DateTime> {
    if Valid(dt) then Some(dt) else None
  }

  /** A month, hour or minute field: one or two ASCII digits. */
  predicate Field(x: string) {
    1 <= |x| <= 2 && AllDigits(x)
  }

  /** A day field: one or two digits, or a space and one digit 1..9, the
      alternative ` [1-9]` of the d group. DigitsValue reads the space as 0. */
  predicate DayField(x: string) {
    Field(x) || (|x| == 2 && x[0] == ' ' && '1' <= x[1] <= '9')
  }

  /** The separator `\s+` between date and time. */
  predicate Gap(w: string) {
    w != [] && AllSpace(w)
  }

  /** Fields of the shapes the regular expression accepts. */
  predicate LayoutFields(y: string, mo: string, d: string, w: string, h: string, mi: string) {
    |y| == 4 && AllDigits(y) && Field(mo) && DayField(d) && Gap(w) && Field(h) && Field(mi)
  }

  /** The text `Y-M-D<w>H:M` the fields make. */
  function Layout(y: string, mo: string, d: string, w: string, h: string, mi: string): string {
    y + "-" + mo + "-" + d + w + h + ":" + mi
  }

  /** The datetime that the fields denote. */
  function FieldsValue(y: string, mo: string, d: string, h: string, mi: string): DateTime {
    DateTime(DigitsValue(y), DigitsValue(mo), DigitsValue(d), DigitsValue(h), DigitsValue(mi))
  }

  /** Text in the layout parses exactly when its fields make a representable
      datetime, and then to that datetime; any whitespace run separates date
      and time. Out-of-range fields, day 29 of February in a common year, day
      31 of a 30-day month and year 0 are all rejected. */
  lemma ParseFields(y: string, mo: string, d: string, w: string, h: string, mi: string)
    requires LayoutFields(y, mo, d, w, h, mi)
    ensures Parse(Layout(y, mo, d, w, h, mi)) == Checked(FieldsValue(y, mo, d, h, mi))
  {
    ParseNestedFields(y, mo, d, w, h, mi, FieldsValue(y, mo, d, h, mi));
  }

  lemma ParseNestedFields(y: string, mo: string, d: string, w: string, h: string, mi: string, v: DateTime)
    requires LayoutFields(y, mo, d, w, h, mi)
    requires v == FieldsValue(y, mo, d, h, mi)
    ensures Parse(Layout(y, mo, d, w, h, mi)) == Checked(v)
  {
    if Valid(v) {
      DayRead(v, d, w, h, mi);
      DateRead(v, y, mo, d + (w + (h + ":" + mi)));
    } else {
      FieldsRejected(y, mo, d, w, h, mi, v);
    }
    Reassociate(y, mo, d, w, h, mi, Checked(v));
  }

  lemma FieldsRejected(y: string, mo: string, d: string, w: string, h: string, mi: string, v: DateTime)
    requires LayoutFields(y, mo, d, w, h, mi)
    requires v == FieldsValue(y, mo, d, h, mi) && !Valid(v)
    ensures Parse(y + "-" + (mo + "-" + (d + (w + (h + ":" + mi))))) == None
  {
    var p := Parse(y + "-" + (mo + "-" + (d + (w + (h + ":" + mi)))));
    if p.Some? {
      DateBack(p.value, y, mo, d + (w + (h + ":" + mi)));
      DayTimeBack(p.value, p.value.year, p.value.month, d, w, h, mi);
      assert false;
    }
  }

  lemma Reassociate(y: string, mo: string, d: string, w: string, h: string, mi: string, r: Option<DateTime>)
    requires Parse(y + "-" + (mo + "-" + (d + (w + (h + ":" + mi))))) == r
    ensures Parse(Layout(y, mo, d, w, h, mi)) == r
  {
    assert Layout(y, mo, d, w, h, mi) == y + "-" + (mo + "-" + (d + (w + (h + ":" + mi)))) by {
      FieldsAssoc(y, mo, d, w, h, mi);
    }
  }

  lemma FieldsAssoc(y: string, mo: string, d: string, w: string, h: string, mi: string)
    ensures Layout(y, mo, d, w, h, mi) == y + "-" + (mo + "-" + (d + (w + (h + ":" + mi))))
  {
  }

  /** What parses is exactly the text in the layout whose fields make a
      representable datetime. Anything else, such as a `T` between date and
      time, a trailing space or the empty text, is a `ValueError`. */
  lemma ParseIsLayout(s: string, dt: DateTime)
    ensures Parse(s) == Some(dt) <==>
      exists y, mo, d, w, h, mi ::
        LayoutFields(y, mo, d, w, h, mi) && s == Layout(y, mo, d, w, h, mi)
        && Checked(FieldsValue(y, mo, d, h, mi)) == Some(dt)
  {
    if Parse(s) == Some(dt) {
      var y, mo, d, w, h, mi := ParsedFields(s);
      assert LayoutFields(y, mo, d, w, h, mi) && s == Layout(y, mo, d, w, h, mi);
    } else if exists y, mo, d, w, h, mi ::
        LayoutFields(y, mo, d, w, h, mi) && s == Layout(y, mo, d, w, h, mi)
        && Checked(FieldsValue(y, mo, d, h, mi)) == Some(dt) {
      var y, mo, d, w, h, mi :|
        LayoutFields(y, mo, d, w, h, mi) && s == Layout(y, mo, d, w, h, mi)
        && Checked(FieldsValue(y, mo, d, h, mi)) == Some(dt);
      ParseFields(y, mo, d, w, h, mi);
      assert false;
    }
  }

  /** The fields of a text that parses. */
  lemma ParsedFields(s: string) returns (y: string, mo: string, d: string, w: string, h: string, mi: string)
    requires Parse(s).Some?
    ensures LayoutFields(y, mo, d, w, h, mi) && s == Layout(y, mo, d, w, h, mi)
    ensures Parse(s) == Some(FieldsValue(y, mo, d, h, mi))
  {
    var t, u, v, x;
    y, t := YearSplit(s);
    mo, u := MonthSplit(DigitsValue(y), t);
    d, w, v := DaySplit(DigitsValue(y), DigitsValue(mo), u);
    h, x := HourSplit(DigitsValue(y), DigitsValue(mo), DigitsValue(d), v);
    MinuteSplit(DigitsValue(y), DigitsValue(mo), DigitsValue(d), DigitsValue(h), x);
    mi := x;
    Compose(s, y, t, mo, u, d, w, v, h, x);
  }

  lemma Compose(s: string, y: string, t: string, mo: string, u: string, d: string, w: string, v: string, h: string, x: string)
    requires s == y + "-" + t && t == mo + "-" + u && u == d + w + v && v == h + ":" + x
    ensures s == Layout(y, mo, d, w, h, x)
  {
  }

  lemma YearSplit(s: string) returns (y: string, t: string)
    requires Parse(s).Some?
    ensures |y| == 4 && AllDigits(y) && s == y + "-" + t
    ensures DigitsValue(y) <= 9999 && Parse(s) == ParseMonth(DigitsValue(y), t)
  {
    y, t := s[..4], s[5..];
    DigitPrefix(s, 4);
    SliceAt(s, 4, '-');
    DigitsValueBound(y);
  }

  lemma MonthSplit(year: nat, t: string) returns (mo: string, u: string)
    requires year <= 9999 && ParseMonth(year, t).Some?
    ensures Field(mo) && 1 <= DigitsValue(mo) <= 12 && t == mo + "-" + u
    ensures ParseMonth(year, t) == ParseDay(year, DigitsValue(mo), u)
  {
    var rest;
    mo, rest := NumberSplit(t, 1, 12);
    MonthStep(year, t, DigitsValue(mo), rest);
    u := rest[1..];
    Glue(t, mo, rest, '-', u);
  }

  /** ParseMonth once the m group has been read. */
  lemma MonthStep(year: nat, t: string, month: nat, rest: string)
    requires year <= 9999 && Number(t, 1, 12) == Some((month, rest))
    ensures ParseMonth(year, t) == if rest == [] || rest[0] != '-' then None else ParseDay(year, month, rest[1..])
  {
  }

  lemma DaySplit(year: nat, month: nat, u: string) returns (d: string, w: string, v: string)
    requires year <= 9999 && 1 <= month <= 12 && ParseDay(year, month, u).Some?
    ensures DayField(d) && Gap(w) && 1 <= DigitsValue(d) <= 31 && u == d + w + v
    ensures ParseDay(year, month, u) == ParseHour(year, month, DigitsValue(d), v)
  {
    var rest;
    d, rest := DayGroupSplit(u);
    var n := SpaceRun(rest);
    DayStep(year, month, u, DigitsValue(d), rest);
    w, v := rest[..n], rest[n..];
    GlueRun(u, d, rest, n);
  }

  /** ParseDay once the d group has been read. */
  lemma DayStep(year: nat, month: nat, u: string, day: nat, rest: string)
    requires year <= 9999 && 1 <= month <= 12 && Day(u) == Some((day, rest))
    ensures ParseDay(year, month, u) == if SpaceRun(rest) == 0 then None else ParseHour(year, month, day, rest[SpaceRun(rest)..])
  {
  }

  /** The text the d group matched, and what follows it. */
  lemma DayGroupSplit(u: string) returns (d: string, rest: string)
    requires Day(u).Some?
    ensures DayField(d) && u == d + rest && Day(u) == Some((DigitsValue(d), rest))
  {
    if |u| >= 2 && u[0] == ' ' && '1' <= u[1] <= '9' {
      d, rest := u[..2], u[2..];
      SpacedDayValue(d);
      assert u == d + rest;
    } else {
      d, rest := NumberSplit(u, 1, 31);
    }
  }

  lemma HourSplit(year: nat, month: nat, day: nat, v: string) returns (h: string, x: string)
    requires year <= 9999 && 1 <= month <= 12 && 1 <= day && ParseHour(year, month, day, v).Some?
    ensures Field(h) && DigitsValue(h) <= 23 && v == h + ":" + x
    ensures ParseHour(year, month, day, v) == ParseMinute(year, month, day, DigitsValue(h), x)
  {
    var rest;
    h, rest := NumberSplit(v, 0, 23);
    x := rest[1..];
    Glue(v, h, rest, ':', x);
  }

  lemma MinuteSplit(year: nat, month: nat, day: nat, hour: nat, x: string)
    requires year <= 9999 && 1 <= month <= 12 && 1 <= day && hour <= 23
    requires ParseMinute(year, month, day, hour, x).Some?
    ensures Field(x) && ParseMinute(year, month, day, hour, x) == Some(DateTime(year, month, day, hour, DigitsValue(x)))
  {
    var m, rest := NumberSplit(x, 0, 59);
    assert x == m;
  }

  /** The digits a Number read, and what follows them. */
  lemma NumberSplit(s: string, lo: nat, hi: nat) returns (x: string, rest: string)
    requires Number(s, lo, hi).Some?
    ensures Field(x) && s == x + rest && Number(s, lo, hi) == Some((DigitsValue(x), rest))
  {
    var n := DigitRun(s);
    x, rest := s[..n], s[n..];
    DigitPrefix(s, n);
    assert s == x + rest;
  }

  /** A prefix of the leading digit run is all digits. */
  lemma DigitPrefix(s: string, k: nat)
    requires k <= DigitRun(s)
    ensures AllDigits(s[..k])
  {
    assert forall i :: 0 <= i < k ==> s[..k][i] == s[i];
  }

  /** A text read as a field, a separator character and the rest. */
  lemma Glue(t: string, x: string, rest: string, c: char, u: string)
    requires t == x + rest && rest != [] && rest[0] == c && u == rest[1..]
    ensures t == x + [c] + u
  {
    assert rest == [c] + u;
  }

  /** A text read as a field, a run of n characters and the rest. */
  lemma GlueRun(u: string, d: string, rest: string, n: nat)
    requires u == d + rest && n <= |rest|
    ensures u == d + rest[..n] + rest[n..]
  {
    assert rest == rest[..n] + rest[n..];
  }

  /** A text around one of its characters. */
  lemma SliceAt(s: string, k: nat, c: char)
    requires k < |s| && s[k] == c
    ensures s == s[..k] + [c] + s[k + 1..]
  {
    assert s == s[..k] + s[k..] && s[k..] == [c] + s[k + 1..];
  }

  /** A day written as a space and one digit has that digit's value. */
  lemma SpacedDayValue(d: string)
    requires |d| == 2 && d[0] == ' '
    ensures DigitsValue(d) == DigitValue(d[1])
  {
    assert d[..1] == [' '] && [' '][..0] == [];
  }

  /** A whitespace run followed by a non-space is the whole `\s*` run. */
  lemma {:induction false} SpaceRunOf(w: string, rest: string)
    requires AllSpace(w)
    requires rest == [] || !IsSpace(rest[0])
    ensures SpaceRun(w + rest) == |w| && (w + rest)[|w|..] == rest
  {
    if w != [] {
      assert (w + rest)[1..] == w[1..] + rest;
      SpaceRunOf(w[1..], rest);
    }
  }

  // Reading forward: the fields of a representable datetime parse to it.

  /** Year and month fields of dt, followed by text that ParseDay reads as dt. */
  lemma DateRead(dt: DateTime, y: string, mo: string, rest: string)
    requires Valid(dt)
    requires |y| == 4 && AllDigits(y) && DigitsValue(y) == dt.year
    requires Field(mo) && DigitsValue(mo) == dt.month
    requires ParseDay(dt.year, dt.month, rest) == Some(dt)
    ensures Parse(y + "-" + (mo + "-" + rest)) == Some(dt)
  {
    MonthStage(dt.year, mo, rest);
    YearStage(y, mo + "-" + rest);
  }

  /** The fields `D<w>H:M` of dt are read back as dt. */
  lemma DayRead(dt: DateTime, d: string, w: string, h: string, mi: string)
    requires Valid(dt)
    requires DayField(d) && DigitsValue(d) == dt.day && Gap(w)
    requires Field(h) && DigitsValue(h) == dt.hour
    requires Field(mi) && DigitsValue(mi) == dt.minute
    ensures ParseDay(dt.year, dt.month, d + (w + (h + ":" + mi))) == Some(dt)
  {
    assert (h + ":" + mi)[0] == h[0];
    DayStage(dt.year, dt.month, d, w, h + ":" + mi);
    TimeRead(dt, h, mi);
  }

  /** The d group, then the `\s+` after it. */
  lemma DayStage(year: nat, month: nat, d: string, w: string, rest: string)
    requires year <= 9999 && 1 <= month <= 12 && DayField(d) && Gap(w)
    requires rest == [] || !IsSpace(rest[0])
    ensures ParseDay(year, month, d + (w + rest))
         == if 1 <= DigitsValue(d) <= 31 then ParseHour(year, month, DigitsValue(d), rest) else None
  {
    var t := w + rest;
    SpaceRunOf(w, rest);
    if d[0] == ' ' {
      SpacedDayValue(d);
      var u := d + t;
      assert u[0] == ' ' && u[1] == d[1] && u[2..] == t;
    } else {
      assert t[0] == w[0] && (d + t)[0] == d[0];
      NumberOf(d, t, 1, 31);
    }
  }

  /** The time fields `H:M` of dt are read back as dt. */
  lemma TimeRead(dt: DateTime, h: string, mi: string)
    requires Valid(dt)
    requires Field(h) && DigitsValue(h) == dt.hour
    requires Field(mi) && DigitsValue(mi) == dt.minute
    ensures ParseHour(dt.year, dt.month, dt.day, h + ":" + mi) == Some(dt)
  {
    HourStage(dt.year, dt.month, dt.day, h, mi);
    MinuteStage(dt.year, dt.month, dt.day, dt.hour, mi);
  }

  // Reading backward: what Parse returns for the fields is their values.

  lemma DateBack(dt: DateTime, y: string, mo: string, rest: string)
    requires |y| == 4 && AllDigits(y) && Field(mo)
    requires Parse(y + "-" + (mo + "-" + rest)) == Some(dt)
    ensures dt.year == DigitsValue(y) && dt.month == DigitsValue(mo)
    ensures dt.year <= 9999 && 1 <= dt.month <= 12 && ParseDay(dt.year, dt.month, rest) == Some(dt)
  {
    YearStage(y, mo + "-" + rest);
    MonthStage(DigitsValue(y), mo, rest);
    assert ParseDay(DigitsValue(y), DigitsValue(mo), rest) == Some(dt);
  }

  lemma DayTimeBack(dt: DateTime, year: nat, month: nat, d: string, w: string, h: string, mi: string)
    requires year <= 9999 && 1 <= month <= 12 && DayField(d) && Gap(w) && Field(h) && Field(mi)
    requires ParseDay(year, month, d + (w + (h + ":" + mi))) == Some(dt)
    ensures dt == DateTime(year, month, DigitsValue(d), DigitsValue(h), DigitsValue(mi))
  {
    var t := h + ":" + mi;
    assert !IsSpace(t[0]) by { assert t[0] == h[0] && IsDigit(h[0]); }
    DayBack(dt, year, month, d, w, t);
    assert ParseHour(year, month, DigitsValue(d), t) == Some(dt);
    TimeBack(dt, year, month, DigitsValue(d), h, mi);
  }

  lemma TimeBack(dt: DateTime, year: nat, month: nat, day: nat, h: string, mi: string)
    requires year <= 9999 && 1 <= month <= 12 && 1 <= day && Field(h) && Field(mi)
    requires ParseHour(year, month, day, h + ":" + mi) == Some(dt)
    ensures dt == DateTime(year, month, day, DigitsValue(h), DigitsValue(mi))
  {
    HourBack(dt, year, month, day, h, mi);
    MinuteBack(dt, year, month, day, DigitsValue(h), mi);
  }

  lemma DayBack(dt: DateTime, year: nat, month: nat, d: string, w: string, rest: string)
    requires year <= 9999 && 1 <= month <= 12 && DayField(d) && Gap(w)
    requires rest == [] || !IsSpace(rest[0])
    requires ParseDay(year, month, d + (w + rest)) == Some(dt)
    ensures 1 <= DigitsValue(d) <= 31 && ParseHour(year, month, DigitsValue(d), rest) == Some(dt)
  {
    DayStage(year, month, d, w, rest);
  }

  lemma HourBack(dt: DateTime, year: nat, month: nat, day: nat, h: string, rest: string)
    requires year <= 9999 && 1 <= month <= 12 && 1 <= day && Field(h)
    requires ParseHour(year, month, day, h + ":" + rest) == Some(dt)
    ensures DigitsValue(h) <= 23 && ParseMinute(year, month, day, DigitsValue(h), rest) == Some(dt)
  {
    HourStage(year, month, day, h, rest);
  }

  lemma MinuteBack(dt: DateTime, year: nat, month: nat, day: nat, hour: nat, mi: string)
    requires year <= 9999 && 1 <= month <= 12 && 1 <= day && hour <= 23 && Field(mi)
    requires ParseMinute(year, month, day, hour, mi) == Some(dt)
    ensures dt == DateTime(year, month, day, hour, DigitsValue(mi))
  {
    MinuteStage(year, month, day, hour, mi);
  }

  /** Every datetime Python can represent survives formatting and parsing. */
  lemma ParseFormat(dt: DateTime)
    requires Valid(dt)
    ensures Parse(Format(dt)) == Some(dt)
  {
    PadValue(dt.year, 4);
    PadValue(dt.month, 2);
    PadValue(dt.day, 2);
    PadValue(dt.hour, 2);
    PadValue(dt.minute, 2);
    ParseFields(Pad(dt.year, 4), Pad(dt.month, 2), Pad(dt.day, 2), " ", Pad(dt.hour, 2), Pad(dt.minute, 2));
  }

  /** A zero-padded text that parses is given back by formatting the result. */
  lemma FormatParse(s: string)
    requires ZeroPadded(s) && Parse(s).Some?
    ensures Format(Parse(s).value) == s
  {
    var y, mo, d, h, mi := s[..4], s[5..7], s[8..10], s[11..13], s[14..];
    ZeroPaddedFields(s);
    ParseFields(y, mo, d, " ", h, mi);
    PadDigits(y);
    PadDigits(mo);
    PadDigits(d);
    PadDigits(h);
    PadDigits(mi);
  }

  /** The fields of a zero-padded text. */
  lemma ZeroPaddedFields(s: string)
    requires ZeroPadded(s)
    ensures AllDigits(s[..4]) && AllDigits(s[5..7]) && AllDigits(s[8..10]) && AllDigits(s[11..13]) && AllDigits(s[14..])
    ensures s == Layout(s[..4], s[5..7], s[8..10], " ", s[11..13], s[14..])
  {
    var y, mo, d, h, mi := s[..4], s[5..7], s[8..10], s[11..13], s[14..];
    assert forall i :: 0 <= i < 4 ==> y[i] == s[i];
    assert forall i :: 0 <= i < 2 ==> mo[i] == s[5 + i] && d[i] == s[8 + i] && h[i] == s[11 + i] && mi[i] == s[14 + i];
  }
}
