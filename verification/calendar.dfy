/** Proleptic Gregorian dates (ISO 8601, as java.time has them: year 0 exists and
    negative years are astronomical), UTC instants truncated to the second, and
    `LocalDate.parse(text, DateTimeFormatter.ofPattern("d. MMMM u", Locale.GERMAN))`. */
module Calendar {
  import opened Wrappers
  import opened Text

  datatype Date = Date(year: int, month: int, day: int)

  /** A UTC instant at whole-second precision: a calendar date and the second of that day. */
  datatype Instant = Instant(date: Date, second: int)

  /** The range of `ChronoField.YEAR`. */
  const MinYear: int := -999_999_999
  const MaxYear: int := 999_999_999

  /** `LocalTime.MAX` truncated to seconds is 23:59:59. */
  const LastSecondOfDay: int := 86399

  predicate IsLeap(y: int) {
    y % 4 == 0 && (y % 100 != 0 || y % 400 == 0)
  }

  function MonthLength(y: int, m: int): (n: int)
    requires 1 <= m <= 12
    ensures 28 <= n <= 31
  {
    if m == 2 then (if IsLeap(y) then 29 else 28)
    else if m == 4 || m == 6 || m == 9 || m == 11 then 30
    else 31
  }

  predicate ValidDate(d: Date) {
    && MinYear <= d.year <= MaxYear
    && 1 <= d.month <= 12
    && 1 <= d.day <= MonthLength(d.year, d.month)
  }

  /** `atStartOfDay().toInstant(ZoneOffset.UTC)`. */
  function StartOfDay(d: Date): Instant {
    Instant(d, 0)
  }

  /** `atTime(LocalTime.MAX).toInstant(ZoneOffset.UTC).truncatedTo(SECONDS)`. */
  function EndOfDay(d: Date): Instant {
    Instant(d, LastSecondOfDay)
  }

  /** Chronological order of dates: by year, then month, then day. */
  predicate DateBefore(a: Date, b: Date) {
    || a.year < b.year
    || (a.year == b.year && a.month < b.month)
    || (a.year == b.year && a.month == b.month && a.day < b.day)
  }

  /** Chronological order of instants (reflexive). */
  predicate InstantLe(a: Instant, b: Instant) {
    DateBefore(a.date, b.date) || (a.date == b.date && a.second <= b.second)
  }

  // ---------------------------------------------------------------------------
  // German month names (`MMMM` in Locale.GERMAN, and the month alternation of the patterns)
  // ---------------------------------------------------------------------------

  function MonthName(m: int): (name: string)
    requires 1 <= m <= 12
    ensures 3 <= |name| <= 9
  {
    match m
    case 1 => "Januar"
    case 2 => "Februar"
    case 3 => "März"
    case 4 => "April"
    case 5 => "Mai"
    case 6 => "Juni"
    case 7 => "Juli"
    case 8 => "August"
    case 9 => "September"
    case 10 => "Oktober"
    case 11 => "November"
    case _ => "Dezember"
  }

  /** No month name is a prefix of another, so at most one can start a text. */
  lemma MonthNamesExclusive(s: string, k: int, m: int)
    requires 1 <= k <= 12 && 1 <= m <= 12 && k != m
    requires MonthName(k) <= s
    ensures !(MonthName(m) <= s)
  {
    var a, b := MonthName(k), MonthName(m);
    var i := if a[0] != b[0] then 0 else if a[1] != b[1] then 1 else 2;
    assert a[i] != b[i];
    assert s[i] == a[i];
  }

  function MonthNameFrom(s: string, m: int): (r: Option<int>)
    requires 1 <= m <= 13
    ensures r.Some? ==> m <= r.value <= 12 && MonthName(r.value) <= s
    ensures r.None? ==> forall k :: m <= k <= 12 ==> !(MonthName(k) <= s)
    decreases 13 - m
  {
    if m == 13 then None
    else if MonthName(m) <= s then Some(m)
    else MonthNameFrom(s, m + 1)
  }

  /** The month whose German name starts `s`, if any. */
  function MonthNameAt(s: string): (r: Option<int>)
    ensures r.Some? ==> 1 <= r.value <= 12 && MonthName(r.value) <= s
    ensures r.None? ==> forall k :: 1 <= k <= 12 ==> !(MonthName(k) <= s)
  {
    MonthNameFrom(s, 1)
  }

  lemma MonthNameAtOf(s: string, m: int)
    requires 1 <= m <= 12 && MonthName(m) <= s
    ensures MonthNameAt(s) == Some(m)
  {
    var r := MonthNameAt(s);
    if r.Some? && r.value != m {
      MonthNamesExclusive(s, r.value, m);
    }
  }

  lemma MonthNameAtName(m: int, rest: string)
    requires 1 <= m <= 12
    ensures MonthNameAt(MonthName(m) + rest) == Some(m)
  {
    assert MonthName(m) <= MonthName(m) + rest;
    MonthNameAtOf(MonthName(m) + rest, m);
  }

  // ---------------------------------------------------------------------------
  // Strict parsing of "d. MMMM u"
  // ---------------------------------------------------------------------------

  /** Widest numeral `d` and `u` accept (`appendValue(field, 1, 19, SignStyle.NORMAL)`). */
  const MaxNumeralWidth: nat := 19

  /** The digit loop of a numeric field: reads digits while fewer than 19 have been
      read, accumulating `value * 10 + digit`; yields the value and the digit count. */
  function ScanDigits(s: string, value: nat, count: nat): (r: (nat, nat))
    requires count <= MaxNumeralWidth
    ensures count <= r.1 <= MaxNumeralWidth && r.1 - count <= |s|
    decreases |s|
  {
    if count < MaxNumeralWidth && |s| > 0 && IsDigit(s[0]) then
      ScanDigits(s[1..], value * 10 + DigitValue(s[0]), count + 1)
    else (value, count)
  }

  /** Scanning a run of digits that ends the field continues the numeral already read. */
  lemma {:induction false} ScanDigitsOf(p: string, a: string, b: string, count: nat)
    requires AllDigits(p) && AllDigits(a) && count + |a| <= MaxNumeralWidth
    requires |b| == 0 || !IsDigit(b[0])
    ensures ScanDigits(a + b, DigitsValue(p), count) == (DigitsValue(p + a), count + |a|)
    decreases |a|
  {
    if |a| == 0 {
      assert a + b == b && p + a == p;
    } else {
      var q := p + [a[0]];
      assert q[..|q| - 1] == p;
      assert (a + b)[1..] == a[1..] + b;
      assert q + a[1..] == p + a;
      ScanDigitsOf(q, a[1..], b, count + 1);
    }
  }

  /** A numeric field of a strict formatter: an optional minus sign (a plus sign is
      refused), then 1 to 19 digits taken greedily; a negative zero is refused.
      Yields the value and the number of characters consumed. */
  function ParseNumeral(s: string): (r: Option<(int, nat)>)
    ensures r.Some? ==> 1 <= r.value.1 <= |s|
  {
    var neg := |s| > 0 && s[0] == '-';
    var digits := if neg then s[1..] else s;
    var (v, n) := ScanDigits(digits, 0, 0);
    if n == 0 then None
    else if neg && v == 0 then None
    else Some((if neg then 0 - v else v, if neg then n + 1 else n))
  }

  lemma ParseNumeralDigits(d: string, rest: string)
    requires AllDigits(d) && 1 <= |d| <= MaxNumeralWidth
    requires |rest| == 0 || !IsDigit(rest[0])
    ensures ParseNumeral(d + rest) == Some((DigitsValue(d), |d|))
  {
    assert DigitsValue([]) == 0 && [] + d == d;
    ScanDigitsOf([], d, rest, 0);
  }

  /** The parser reads back every year that `toString` writes, within the year range. */
  lemma ParseNumeralFormatInt(y: int)
    requires MinYear <= y <= MaxYear
    ensures ParseNumeral(FormatInt(y)) == Some((y, |FormatInt(y)|))
  {
    var a := if y < 0 then -y else y;
    FormatNatLength(a, 9);
    if y < 0 {
      ParseNumeralDigits(FormatNat(a), []);
      assert FormatInt(y)[1..] == FormatNat(a) + [];
    } else {
      assert FormatNat(a) + [] == FormatNat(a);
      ParseNumeralDigits(FormatNat(a), []);
    }
  }

  /** A minus sign written in front of a non-negative number: refused for zero. */
  lemma ParseNumeralMinus(c: nat)
    requires c <= MaxYear
    ensures ParseNumeral("-" + FormatNat(c)) ==
              if c == 0 then None else Some((0 - c, 1 + |FormatNat(c)|))
  {
    FormatNatLength(c, 9);
    ParseNumeralDigits(FormatNat(c), []);
    assert ("-" + FormatNat(c))[1..] == FormatNat(c) + [];
  }

  /** How java.time's SMART resolver turns year, month and day-of-month fields into
      a date: the year must be in range and the day in 1..31; a day past the end of
      the month becomes the month's last day. */
  function ResolveDate(y: int, m: int, d: int): (r: Option<Date>)
    requires 1 <= m <= 12
    ensures r.Some? <==> MinYear <= y <= MaxYear && 1 <= d <= 31
    ensures r.Some? ==> ValidDate(r.value) && r.value.year == y && r.value.month == m
    ensures r.Some? && d <= MonthLength(y, m) ==> r.value.day == d
    ensures r.Some? && d > MonthLength(y, m) ==> r.value.day == MonthLength(y, m)
  {
    if MinYear <= y <= MaxYear && 1 <= d <= 31 then
      Some(Date(y, m, Min(d, MonthLength(y, m))))
    else None
  }

  /** `LocalDate.parse(s, ofPattern("d. MMMM u", Locale.GERMAN))`: a day numeral, the
      literal ". ", a full German month name, a space, a year numeral, and nothing
      after it ("unparsed text found" otherwise). */
  function ParseGermanDate(s: string): (r: Option<Date>)
    ensures r.Some? ==> ValidDate(r.value)
  {
    var day :- ParseNumeral(s);
    ParseMonthAndYear(s[day.1..], day.0)
  }

  function ParseMonthAndYear(t: string, day: int): (r: Option<Date>)
    ensures r.Some? ==> ValidDate(r.value)
  {
    if !(". " <= t) then None
    else
      var month :- MonthNameAt(t[2..]);
      ParseYear(t[2 + |MonthName(month)|..], month, day)
  }

  function ParseYear(u: string, month: int, day: int): (r: Option<Date>)
    requires 1 <= month <= 12
    ensures r.Some? ==> ValidDate(r.value)
  {
    if !(" " <= u) then None
    else
      var year :- ParseNumeral(u[1..]);
      if year.1 != |u| - 1 then None
      else ResolveDate(year.0, month, day)
  }

  lemma ParseYearOf(yt: string, m: int, day: int)
    requires 1 <= m <= 12
    ensures var p := ParseNumeral(yt);
            ParseYear(" " + yt, m, day) ==
              if p.Some? && p.value.1 == |yt| then ResolveDate(p.value.0, m, day) else None
  {
    assert (" " + yt)[1..] == yt;
  }

  lemma ParseMonthAndYearOf(m: int, u: string, day: int)
    requires 1 <= m <= 12
    ensures ParseMonthAndYear(". " + MonthName(m) + u, day) == ParseYear(u, m, day)
  {
    var t := ". " + MonthName(m) + u;
    assert t[2..] == MonthName(m) + u;
    MonthNameAtName(m, u);
    assert t[2 + |MonthName(m)|..] == u;
  }

  /** After a day numeral, parsing goes on with the text that follows it. */
  lemma ParseGermanDateDay(dd: string, rest: string)
    requires AllDigits(dd) && 1 <= |dd| <= MaxNumeralWidth
    requires |rest| == 0 || !IsDigit(rest[0])
    ensures ParseGermanDate(dd + rest) == ParseMonthAndYear(rest, DigitsValue(dd))
  {
    ParseNumeralDigits(dd, rest);
    assert (dd + rest)[|dd|..] == rest;
  }

  /** Parsing a text built from a day numeral, a month and a year text reduces to
      parsing the year text on its own. */
  lemma ParseGermanDateOf(dd: string, m: int, yt: string)
    requires AllDigits(dd) && 1 <= |dd| <= MaxNumeralWidth && 1 <= m <= 12
    ensures var p := ParseNumeral(yt);
            ParseGermanDate(dd + ". " + MonthName(m) + " " + yt) ==
              if p.Some? && p.value.1 == |yt| then ResolveDate(p.value.0, m, DigitsValue(dd)) else None
  {
    var rest := ". " + MonthName(m) + (" " + yt);
    Regroup(dd, ". ", MonthName(m), " ", yt);
    ParseGermanDateDay(dd, rest);
    ParseMonthAndYearOf(m, " " + yt, DigitsValue(dd));
    ParseYearOf(yt, m, DigitsValue(dd));
  }
}
