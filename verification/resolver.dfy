/** `TemporalRef` and its secondary constructor: the normalized spelling of a
    matched literal and the span of time it denotes (`getStart` / `getEnd`), worked
    out the way the companion object does it, through `substringBefore`, `toInt`,
    `Int` arithmetic, a string template and `LocalDate.parse`. */
module Resolver {
  import opened Wrappers
  import opened Text
  import opened Calendar
  import opened Literals

  datatype TemporalRef = TemporalRef(
    literal: string, mode: Mode, normalized: string, start: Instant, end: Instant)

  // ---------------------------------------------------------------------------
  // normalized
  // ---------------------------------------------------------------------------

  /** The five replacements of the constructor, applied in order. */
  function Normalize(literal: string): string {
    var a := Replace(literal, "Jahr ", "");
    var b := Replace(a, "er Jahren", "er Jahre");
    var c := Replace(b, "Jahrhunderts", "Jh.");
    var d := Replace(c, "Jahrhundert", "Jh.");
    Replace(d, " JH", " Jh.")
  }

  // ---------------------------------------------------------------------------
  // Numbers read back out of a literal
  // ---------------------------------------------------------------------------

  /** `literal.substringBefore(". Jahrhundert").toInt() * 100` */
  function CenturyOf(literal: string): Option<int> {
    match ToInt(SubstringBefore(literal, ". Jahrhundert"))
    case None => None
    case Some(n) => Some(Wrap(n * 100))
  }

  /** `literal.lowercase().substringBefore(" vdzw").substringAfter("jahr ").toInt()` */
  function YearOf(literal: string): Option<int> {
    ToInt(SubstringAfter(SubstringBefore(Lower(literal), " vdzw"), "jahr "))
  }

  /** `literal.substringBefore("er Jahre").toInt()` */
  function DecadeOf(literal: string): Option<int> {
    ToInt(SubstringBefore(literal, "er Jahre"))
  }

  /** The century of a relative decade: the text before ". Jahrhundert", or before
      ". JH" when that is empty, then after " des ", as a number times 100. */
  function RelativeCenturyOf(literal: string): Option<int> {
    var named := SubstringBeforeOr(literal, ". Jahrhundert", "");
    var head := if |named| == 0 then SubstringBefore(literal, ". JH") else named;
    match ToInt(SubstringAfter(head, " des "))
    case None => None
    case Some(n) => Some(Wrap(n * 100))
  }

  // ---------------------------------------------------------------------------
  // getStart / getEnd
  // ---------------------------------------------------------------------------

  /** `parseGermanDate("1. Januar $year").startOfDayUTCSeconds()` */
  function FirstOfJanuary(year: string): Option<Instant> {
    match ParseGermanDate("1. Januar " + year)
    case None => None
    case Some(d) => Some(StartOfDay(d))
  }

  /** `parseGermanDate("31. Dezember $year").endOfDayUTCSeconds()` */
  function LastOfDecember(year: string): Option<Instant> {
    match ParseGermanDate("31. Dezember " + year)
    case None => None
    case Some(d) => Some(EndOfDay(d))
  }

  /** `getStart(literal, mode, bce)`; `None` where the source throws. */
  function GetStart(literal: string, mode: Mode, bce: bool): Option<Instant> {
    match mode
    case Day => DayStart(literal)
    case Month => MonthStart(literal)
    case Century => CenturyStart(CenturyOf(literal), bce)
    case Year => YearStart(YearOf(literal), bce)
    case DecadeAbsolute => DecadeAbsoluteStart(DecadeOf(literal), bce)
    case DecadeRelative => DecadeRelativeStart(RelativeCenturyOf(literal), DecadeOf(literal), bce)
  }

  /** `getEnd(literal, mode, bce)`; `None` where the source throws. */
  function GetEnd(literal: string, mode: Mode, bce: bool): Option<Instant> {
    match mode
    case Day => DayEnd(literal)
    case Month => MonthEnd(literal)
    case Century => CenturyEnd(CenturyOf(literal), bce)
    case Year => YearEnd(YearOf(literal), bce)
    case DecadeAbsolute => DecadeAbsoluteEnd(DecadeOf(literal), bce)
    case DecadeRelative => DecadeRelativeEnd(RelativeCenturyOf(literal), DecadeOf(literal), bce)
  }

  function DayStart(literal: string): Option<Instant> {
    match ParseGermanDate(literal)
    case None => None
    case Some(d) => Some(StartOfDay(d))
  }

  function DayEnd(literal: string): Option<Instant> {
    match ParseGermanDate(literal)
    case None => None
    case Some(d) => Some(EndOfDay(d))
  }

  function MonthStart(literal: string): Option<Instant> {
    DayStart("1. " + literal)
  }

  function MonthEnd(literal: string): Option<Instant> {
    DayEnd("1. " + literal)
  }

  // The remaining branches first read a number out of the literal (`None` when
  // `toInt` throws) and then format and parse a date from it.

  function CenturyStart(century: Option<int>, bce: bool): Option<Instant> {
    match century
    case None => None
    case Some(century) =>
      if bce then FirstOfJanuary("-" + FormatInt(century))
      else FirstOfJanuary(FormatInt(Wrap(century - 99)))
  }

  function CenturyEnd(century: Option<int>, bce: bool): Option<Instant> {
    match century
    case None => None
    case Some(century) =>
      if bce then LastOfDecember(FormatInt(Wrap(-century + 99)))
      else LastOfDecember(FormatInt(century))
  }

  function YearStart(year: Option<int>, bce: bool): Option<Instant> {
    match year
    case None => None
    case Some(year) =>
      if bce then FirstOfJanuary(FormatInt(Wrap(-year)))
      else FirstOfJanuary(FormatInt(year))
  }

  function YearEnd(year: Option<int>, bce: bool): Option<Instant> {
    match year
    case None => None
    case Some(year) =>
      if bce then LastOfDecember(FormatInt(Wrap(-year)))
      else LastOfDecember(FormatInt(year))
  }

  /** `if (decade == 0) 1 else decade` */
  function FixedDecade(decade: int): int {
    if decade == 0 then 1 else decade
  }

  function DecadeAbsoluteStart(decade: Option<int>, bce: bool): Option<Instant> {
    match decade
    case None => None
    case Some(decade) =>
      if bce then FirstOfJanuary(FormatInt(Wrap(-decade - 9)))
      else FirstOfJanuary(FormatInt(FixedDecade(decade)))
  }

  function DecadeAbsoluteEnd(decade: Option<int>, bce: bool): Option<Instant> {
    match decade
    case None => None
    case Some(decade) =>
      if bce then LastOfDecember(FormatInt(Wrap(-FixedDecade(decade))))
      else LastOfDecember(FormatInt(Wrap(decade + 9)))
  }

  function DecadeRelativeStart(century: Option<int>, decade: Option<int>, bce: bool): Option<Instant> {
    match century
    case None => None
    case Some(century) =>
      match decade
      case None => None
      case Some(decade) =>
        if bce then FirstOfJanuary(FormatInt(Wrap(-(decade + 9 + century - 100))))
        else FirstOfJanuary(FormatInt(Wrap(decade + century - 100)))
  }

  function DecadeRelativeEnd(century: Option<int>, decade: Option<int>, bce: bool): Option<Instant> {
    match century
    case None => None
    case Some(century) =>
      match decade
      case None => None
      case Some(decade) =>
        if bce then LastOfDecember(FormatInt(Wrap(-(century - 100 + FixedDecade(decade)))))
        else LastOfDecember(FormatInt(Wrap(century - 100 + decade + 9)))
  }

  /** Both ends, or `None` when either computation throws. */
  function Both(start: Option<Instant>, end: Option<Instant>): Option<(Instant, Instant)> {
    match (start, end)
    case (Some(s), Some(e)) => Some((s, e))
    case _ => None
  }

  function Span(literal: string, mode: Mode, bce: bool): Option<(Instant, Instant)> {
    Both(GetStart(literal, mode, bce), GetEnd(literal, mode, bce))
  }

  /** The secondary constructor: `None` where it throws. */
  function MakeRef(literal: string, mode: Mode, bce: bool): (r: Option<TemporalRef>)
    ensures r.Some? <==> Span(literal, mode, bce).Some?
    ensures r.Some? ==> r.value.literal == literal && r.value.mode == mode
    ensures r.Some? ==> r.value.normalized == Normalize(literal)
    ensures r.Some? ==> (r.value.start, r.value.end) == Span(literal, mode, bce).value
  {
    match Span(literal, mode, bce)
    case None => None
    case Some((s, e)) => Some(TemporalRef(literal, mode, Normalize(literal), s, e))
  }

  // ---------------------------------------------------------------------------
  // What a literal denotes, stated arithmetically
  // ---------------------------------------------------------------------------

  /** From the first instant of 1 January of `first` to the last second of
      31 December of `last`. */
  function Years(first: int, last: int): (Instant, Instant) {
    (StartOfDay(Date(first, 1, 1)), EndOfDay(Date(last, 12, 31)))
  }

  function WholeDay(d: Date): (Instant, Instant) {
    (StartOfDay(d), EndOfDay(d))
  }

  function Max(a: int, b: int): int {
    if a >= b then a else b
  }

  /** A day of a month: a day number past the month's end means its last day, and
      a day outside 1..31 has no date. */
  function DayYears(y: int, m: int, day: int, bce: bool): Option<(Instant, Instant)>
    requires 1 <= m <= 12
  {
    if bce || day < 1 || day > 31 then None
    else Some(WholeDay(Date(y, m, Min(day, MonthLength(y, m)))))
  }

  /** A month stands for its first day. */
  function MonthYears(y: int, m: int, bce: bool): Option<(Instant, Instant)> {
    if bce then None else Some(WholeDay(Date(y, m, 1)))
  }

  /** A single year, negated before the common era. */
  function YearYears(y: int, bce: bool): Option<(Instant, Instant)> {
    if bce then Some(Years(-y, -y)) else Some(Years(y, y))
  }

  /** The N-th century: 100N-99 to 100N, or -100N to -100N+99 before the common
      era, where the century before year 1 has no first year. */
  function CenturyYears(n: int, bce: bool): Option<(Instant, Instant)> {
    if bce then (if n == 0 then None else Some(Years(-(100 * n), -(100 * n) + 99)))
    else Some(Years(100 * n - 99, 100 * n))
  }

  /** The decade D: D to D+9 (from year 1 for the decade "0"), mirrored before the
      common era. */
  function DecadeYears(d: int, bce: bool): Option<(Instant, Instant)> {
    if bce then Some(Years(-d - 9, -Max(d, 1))) else Some(Years(Max(d, 1), d + 9))
  }

  /** The decade D of century C: D to D+9 counted from year 100(C-1). */
  function RelativeYears(d: int, c: int, bce: bool): Option<(Instant, Instant)> {
    if bce then Some(Years(-(d + 9 + 100 * c - 100), -(100 * c - 100 + Max(d, 1))))
    else Some(Years(d + 100 * c - 100, 100 * c - 100 + d + 9))
  }

  /** The span each kind of literal stands for; `None` where no date exists. A
      Day or Month literal cannot carry an era. */
  function ExpectedSpan(sh: Shape): Option<(Instant, Instant)>
    requires WellFormed(sh)
  {
    match sh
    case DayShape(dd, m, yd, bce) => DayYears(DigitsValue(yd), m, DigitsValue(dd), bce)
    case MonthShape(m, yd, bce) => MonthYears(DigitsValue(yd), m, bce)
    case YearShape(yd, bce) => YearYears(DigitsValue(yd), bce)
    case CenturyShape(cd, _, bce) => CenturyYears(DigitsValue(cd), bce)
    case DecadeAbsoluteShape(dd, _, bce) => DecadeYears(DigitsValue(dd), bce)
    case DecadeRelativeShape(dd, _, cd, _, bce) => RelativeYears(DigitsValue(dd), DigitsValue(cd), bce)
  }

  /** Every span a literal stands for starts no later than it ends. */
  lemma ExpectedSpanOrdered(sh: Shape)
    requires WellFormed(sh) && ExpectedSpan(sh).Some?
    ensures InstantLe(ExpectedSpan(sh).value.0, ExpectedSpan(sh).value.1)
  {
  }

  // ---------------------------------------------------------------------------
  // Parsing the dates the branches format
  // ---------------------------------------------------------------------------

  /** A numeral of at most four digits is below 10000 and `toInt` reads it. */
  lemma ShortNumeral(d: string)
    requires Numeral(d, 4)
    ensures DigitsValue(d) < 10000 && ToInt(d) == Some(DigitsValue(d))
  {
    DigitsValueBound(d);
    Pow10Monotone(|d|, 4);
    assert Pow10(4) == 10000;
    ToIntOfDigits(d);
  }

  lemma FirstOfJanuaryOf(y: int)
    requires MinYear <= y <= MaxYear
    ensures FirstOfJanuary(FormatInt(y)) == Some(StartOfDay(Date(y, 1, 1)))
  {
    var yt := FormatInt(y);
    assert "1. Januar " + yt == "1" + ". " + MonthName(1) + " " + yt;
    assert AllDigits("1") && DigitsValue("1") == 1;
    ParseNumeralFormatInt(y);
    ParseGermanDateOf("1", 1, yt);
  }

  lemma LastOfDecemberOf(y: int)
    requires MinYear <= y <= MaxYear
    ensures LastOfDecember(FormatInt(y)) == Some(EndOfDay(Date(y, 12, 31)))
  {
    var yt := FormatInt(y);
    assert "31. Dezember " + yt == "31" + ". " + MonthName(12) + " " + yt;
    assert AllDigits("31") && DigitsValue("31") == 31;
    ParseNumeralFormatInt(y);
    ParseGermanDateOf("31", 12, yt);
  }

  /** The same, for a year computed with `Int` arithmetic that does not overflow. */
  lemma FirstOfJanuaryWrap(y: int)
    requires MinYear <= y <= MaxYear
    ensures FirstOfJanuary(FormatInt(Wrap(y))) == Some(StartOfDay(Date(y, 1, 1)))
  {
    FirstOfJanuaryOf(y);
  }

  lemma LastOfDecemberWrap(y: int)
    requires MinYear <= y <= MaxYear
    ensures LastOfDecember(FormatInt(Wrap(y))) == Some(EndOfDay(Date(y, 12, 31)))
  {
    LastOfDecemberOf(y);
  }

  lemma LastOfDecemberNegated(y: int)
    requires 0 <= y < 10000
    ensures LastOfDecember(FormatInt(Wrap(-y))) == Some(EndOfDay(Date(-y, 12, 31)))
  {
    LastOfDecemberWrap(-y);
  }

  /** "1. Januar -0" is refused: java.time does not accept a negative zero. */
  lemma FirstOfJanuaryMinus(c: nat)
    requires c <= MaxYear
    ensures FirstOfJanuary("-" + FormatInt(c)) ==
              if c == 0 then None else Some(StartOfDay(Date(-(c as int), 1, 1)))
  {
    var yt := "-" + FormatNat(c);
    assert "1. Januar " + yt == "1" + ". " + MonthName(1) + " " + yt;
    assert AllDigits("1") && DigitsValue("1") == 1;
    ParseNumeralMinus(c);
    ParseGermanDateOf("1", 1, yt);
  }

  // ---------------------------------------------------------------------------
  // From the numbers read back to the span
  // ---------------------------------------------------------------------------

  lemma SpanOfMode(l: string, mode: Mode, bce: bool)
    ensures Span(l, mode, bce) == match mode
      case Day => Both(DayStart(l), DayEnd(l))
      case Month => Both(MonthStart(l), MonthEnd(l))
      case Century => Both(CenturyStart(CenturyOf(l), bce), CenturyEnd(CenturyOf(l), bce))
      case Year => Both(YearStart(YearOf(l), bce), YearEnd(YearOf(l), bce))
      case DecadeAbsolute => Both(DecadeAbsoluteStart(DecadeOf(l), bce), DecadeAbsoluteEnd(DecadeOf(l), bce))
      case DecadeRelative =>
        Both(DecadeRelativeStart(RelativeCenturyOf(l), DecadeOf(l), bce),
             DecadeRelativeEnd(RelativeCenturyOf(l), DecadeOf(l), bce))
  {
  }

  // Year

  lemma YearStartCe(y: int)
    requires 0 <= y < 10000
    ensures YearStart(Some(y), false) == Some(StartOfDay(Date(y, 1, 1)))
  {
    assert YearStart(Some(y), false) == FirstOfJanuary(FormatInt(y));
    FirstOfJanuaryOf(y);
  }

  lemma YearEndCe(y: int)
    requires 0 <= y < 10000
    ensures YearEnd(Some(y), false) == Some(EndOfDay(Date(y, 12, 31)))
  {
    assert YearEnd(Some(y), false) == LastOfDecember(FormatInt(y));
    LastOfDecemberOf(y);
  }

  lemma YearStartBce(y: int)
    requires 0 <= y < 10000
    ensures YearStart(Some(y), true) == Some(StartOfDay(Date(-y, 1, 1)))
  {
    assert YearStart(Some(y), true) == FirstOfJanuary(FormatInt(Wrap(-y)));
    FirstOfJanuaryWrap(-y);
  }

  lemma YearEndBce(y: int)
    requires 0 <= y < 10000
    ensures YearEnd(Some(y), true) == Some(EndOfDay(Date(-y, 12, 31)))
  {
    LastOfDecemberNegated(y);
  }

  lemma YearBoth(y: int, bce: bool)
    requires 0 <= y < 10000
    ensures Both(YearStart(Some(y), bce), YearEnd(Some(y), bce)) == YearYears(y, bce)
  {
    if bce {
      YearStartBce(y);
      YearEndBce(y);
    } else {
      YearStartCe(y);
      YearEndCe(y);
    }
  }

  /** The span of a year literal, given the year `toInt` read from it. */
  lemma YearSpanFrom(l: string, bce: bool, y: int)
    requires 0 <= y < 10000 && YearOf(l) == Some(y)
    ensures Span(l, Year, bce) == YearYears(y, bce)
  {
    SpanOfMode(l, Year, bce);
    YearBoth(y, bce);
  }

  // Century

  lemma CenturyStartCe(n: int)
    requires 0 <= n < 100
    ensures CenturyStart(Some(100 * n), false) == Some(StartOfDay(Date(100 * n - 99, 1, 1)))
  {
    assert CenturyStart(Some(100 * n), false) == FirstOfJanuary(FormatInt(Wrap(100 * n - 99)));
    FirstOfJanuaryWrap(100 * n - 99);
  }

  lemma CenturyEndCe(n: int)
    requires 0 <= n < 100
    ensures CenturyEnd(Some(100 * n), false) == Some(EndOfDay(Date(100 * n, 12, 31)))
  {
    assert CenturyEnd(Some(100 * n), false) == LastOfDecember(FormatInt(100 * n));
    LastOfDecemberOf(100 * n);
  }

  /** "1. Januar -0" cannot be parsed, so the century before year 1 has no start. */
  lemma CenturyStartBce(n: int)
    requires 0 <= n < 100
    ensures CenturyStart(Some(100 * n), true) ==
              if n == 0 then None else Some(StartOfDay(Date(-(100 * n), 1, 1)))
  {
    assert CenturyStart(Some(100 * n), true) == FirstOfJanuary("-" + FormatInt(100 * n));
    if n == 0 {
      FirstOfJanuaryMinus(0);
    } else {
      FirstOfJanuaryMinus(100 * n);
    }
  }

  lemma CenturyEndBce(n: int)
    requires 0 <= n < 100
    ensures CenturyEnd(Some(100 * n), true) == Some(EndOfDay(Date(-(100 * n) + 99, 12, 31)))
  {
    assert CenturyEnd(Some(100 * n), true) == LastOfDecember(FormatInt(Wrap(-(100 * n) + 99)));
    LastOfDecemberWrap(-(100 * n) + 99);
  }

  lemma CenturyBoth(n: int, bce: bool)
    requires 0 <= n < 100
    ensures Both(CenturyStart(Some(100 * n), bce), CenturyEnd(Some(100 * n), bce)) == CenturyYears(n, bce)
  {
    if bce {
      CenturyStartBce(n);
      CenturyEndBce(n);
    } else {
      CenturyStartCe(n);
      CenturyEndCe(n);
    }
  }

  /** The span of a century literal, given the century `toInt` read from it. */
  lemma CenturySpanFrom(l: string, bce: bool, n: int)
    requires 0 <= n < 100 && CenturyOf(l) == Some(100 * n)
    ensures Span(l, Century, bce) == CenturyYears(n, bce)
  {
    SpanOfMode(l, Century, bce);
    CenturyBoth(n, bce);
  }

  // Absolute decades

  lemma DecadeStartCe(d: int)
    requires 0 <= d < 10000
    ensures DecadeAbsoluteStart(Some(d), false) == Some(StartOfDay(Date(Max(d, 1), 1, 1)))
  {
    if d == 0 {
      assert DecadeAbsoluteStart(Some(d), false) == FirstOfJanuary(FormatInt(1));
      FirstOfJanuaryOf(1);
    } else {
      assert DecadeAbsoluteStart(Some(d), false) == FirstOfJanuary(FormatInt(d));
      FirstOfJanuaryOf(d);
    }
  }

  lemma DecadeEndCe(d: int)
    requires 0 <= d < 10000
    ensures DecadeAbsoluteEnd(Some(d), false) == Some(EndOfDay(Date(d + 9, 12, 31)))
  {
    assert DecadeAbsoluteEnd(Some(d), false) == LastOfDecember(FormatInt(Wrap(d + 9)));
    LastOfDecemberWrap(d + 9);
  }

  lemma DecadeStartBce(d: int)
    requires 0 <= d < 10000
    ensures DecadeAbsoluteStart(Some(d), true) == Some(StartOfDay(Date(-d - 9, 1, 1)))
  {
    assert DecadeAbsoluteStart(Some(d), true) == FirstOfJanuary(FormatInt(Wrap(-d - 9)));
    FirstOfJanuaryWrap(-d - 9);
  }

  lemma LastOfDecemberDecadeBce(decade: int)
    requires 0 <= decade < 10000
    ensures LastOfDecember(FormatInt(Wrap(-FixedDecade(decade)))) ==
              Some(EndOfDay(Date(-Max(decade, 1), 12, 31)))
  {
    var y := -FixedDecade(decade);
    LastOfDecemberWrap(y);
    assert y == -Max(decade, 1);
  }

  lemma DecadeEndBce(d: int)
    requires 0 <= d < 10000
    ensures DecadeAbsoluteEnd(Some(d), true) == Some(EndOfDay(Date(-Max(d, 1), 12, 31)))
  {
    LastOfDecemberDecadeBce(d);
  }

  lemma DecadeBoth(d: int, bce: bool)
    requires 0 <= d < 10000
    ensures Both(DecadeAbsoluteStart(Some(d), bce), DecadeAbsoluteEnd(Some(d), bce)) == DecadeYears(d, bce)
  {
    if bce {
      DecadeStartBce(d);
      DecadeEndBce(d);
    } else {
      DecadeStartCe(d);
      DecadeEndCe(d);
    }
  }

  /** The span of an absolute decade, given the decade `toInt` read from it. */
  lemma DecadeSpanFrom(l: string, bce: bool, d: int)
    requires 0 <= d < 10000 && DecadeOf(l) == Some(d)
    ensures Span(l, DecadeAbsolute, bce) == DecadeYears(d, bce)
  {
    SpanOfMode(l, DecadeAbsolute, bce);
    DecadeBoth(d, bce);
  }

  // Relative decades

  lemma RelativeStartCe(d: int, c: int)
    requires 0 <= d < 10000 && 0 <= c < 100
    ensures DecadeRelativeStart(Some(100 * c), Some(d), false) ==
              Some(StartOfDay(Date(d + 100 * c - 100, 1, 1)))
  {
    var y := d + 100 * c - 100;
    assert DecadeRelativeStart(Some(100 * c), Some(d), false) == FirstOfJanuary(FormatInt(Wrap(y)));
    FirstOfJanuaryWrap(y);
  }

  lemma RelativeEndCe(d: int, c: int)
    requires 0 <= d < 10000 && 0 <= c < 100
    ensures DecadeRelativeEnd(Some(100 * c), Some(d), false) ==
              Some(EndOfDay(Date(100 * c - 100 + d + 9, 12, 31)))
  {
    assert DecadeRelativeEnd(Some(100 * c), Some(d), false) == LastOfDecember(FormatInt(Wrap(100 * c - 100 + d + 9)));
    LastOfDecemberWrap(100 * c - 100 + d + 9);
  }

  lemma RelativeStartBce(d: int, c: int)
    requires 0 <= d < 10000 && 0 <= c < 100
    ensures DecadeRelativeStart(Some(100 * c), Some(d), true) ==
              Some(StartOfDay(Date(-(d + 9 + 100 * c - 100), 1, 1)))
  {
    var y := -(d + 9 + 100 * c - 100);
    assert DecadeRelativeStart(Some(100 * c), Some(d), true) == FirstOfJanuary(FormatInt(Wrap(y)));
    FirstOfJanuaryWrap(y);
  }

  /** The BCE end year of a decade, `-(century - 100 + fixed decade)`, is the
      first year of the decade counted backwards, never year zero. */
  lemma LastOfDecemberBce(century: int, decade: int)
    requires 0 <= decade < 10000 && 0 <= century < 10000
    ensures LastOfDecember(FormatInt(Wrap(-(century - 100 + FixedDecade(decade))))) ==
              Some(EndOfDay(Date(-(century - 100 + Max(decade, 1)), 12, 31)))
  {
    var y := -(century - 100 + FixedDecade(decade));
    LastOfDecemberWrap(y);
    assert y == -(century - 100 + Max(decade, 1));
  }

  lemma RelativeEndBce(d: int, c: int)
    requires 0 <= d < 10000 && 0 <= c < 100
    ensures DecadeRelativeEnd(Some(100 * c), Some(d), true) ==
              Some(EndOfDay(Date(-(100 * c - 100 + Max(d, 1)), 12, 31)))
  {
    LastOfDecemberBce(100 * c, d);
  }

  lemma RelativeBoth(d: int, c: int, bce: bool)
    requires 0 <= d < 10000 && 0 <= c < 100
    ensures Both(DecadeRelativeStart(Some(100 * c), Some(d), bce), DecadeRelativeEnd(Some(100 * c), Some(d), bce)) ==
              RelativeYears(d, c, bce)
  {
    if bce {
      RelativeStartBce(d, c);
      RelativeEndBce(d, c);
    } else {
      RelativeStartCe(d, c);
      RelativeEndCe(d, c);
    }
  }

  /** The span of a relative decade, given the decade and century read from it. */
  lemma RelativeSpanFrom(l: string, bce: bool, d: int, c: int)
    requires 0 <= d < 10000 && 0 <= c < 100
    requires DecadeOf(l) == Some(d) && RelativeCenturyOf(l) == Some(100 * c)
    ensures Span(l, DecadeRelative, bce) == RelativeYears(d, c, bce)
  {
    SpanOfMode(l, DecadeRelative, bce);
    RelativeBoth(d, c, bce);
  }

  // ---------------------------------------------------------------------------
  // Reading the numbers back out of a rendered literal
  // ---------------------------------------------------------------------------

  /** A text free of the delimiter's first character is what `substringBefore`
      yields when the delimiter follows it. */
  lemma BeforeDelimiter(a: string, d: string, r: string)
    requires |d| > 0 && forall j :: 0 <= j < |a| ==> a[j] != d[0]
    ensures SubstringBefore(a + d + r, d) == a
    ensures SubstringBeforeOr(a + d + r, d, []) == a
    ensures SubstringAfter(a + d + r, d) == r
  {
    NoStartInside(a, d, d + r);
    assert a + (d + r) == a + d + r;
    SplitAt(a, d, r);
  }

  lemma DigitsBefore(a: string, d: string, r: string)
    requires AllDigits(a) && |d| > 0 && !IsDigit(d[0])
    ensures SubstringBefore(a + d + r, d) == a
  {
    BeforeDelimiter(a, d, r);
  }

  /** `toInt` of a short numeral, times 100, does not overflow. */
  lemma Hundreds(cd: string)
    requires Numeral(cd, 2)
    ensures DigitsValue(cd) < 100 && ToInt(cd) == Some(DigitsValue(cd))
    ensures Wrap(DigitsValue(cd) * 100) == 100 * DigitsValue(cd)
  {
    DigitsValueBound(cd);
    Pow10Monotone(|cd|, 2);
    assert Pow10(2) == 100;
    ToIntOfDigits(cd);
  }

  lemma CenturyOfDigits(cd: string, r: string)
    requires Numeral(cd, 2)
    ensures CenturyOf(cd + ". Jahrhundert" + r) == Some(100 * DigitsValue(cd))
  {
    DigitsBefore(cd, ". Jahrhundert", r);
    Hundreds(cd);
  }

  lemma DecadeOfDigits(dd: string, r: string)
    requires Numeral(dd, 4)
    ensures DecadeOf(dd + "er Jahre" + r) == Some(DigitsValue(dd))
  {
    DigitsBefore(dd, "er Jahre", r);
    ShortNumeral(dd);
  }

  lemma Regroup3(a: string, x: string, y: string, o: string, e: string)
    ensures (a + (x + (y + o))) + e == a + (x + y) + (o + e)
  {
  }

  lemma CenturyRenderFlat(cd: string, gen: bool, bce: bool)
    requires Numeral(cd, 2)
    ensures Render(CenturyShape(cd, gen, bce)) == cd + ". Jahrhundert" + (Optional(gen, "s") + Era(bce))
  {
    assert "." + " Jahrhundert" == ". Jahrhundert";
    Regroup3(cd, ".", " Jahrhundert", Optional(gen, "s"), Era(bce));
  }

  lemma CenturyOfRender(cd: string, gen: bool, bce: bool)
    requires Numeral(cd, 2)
    ensures CenturyOf(Render(CenturyShape(cd, gen, bce))) == Some(100 * DigitsValue(cd))
  {
    CenturyRenderFlat(cd, gen, bce);
    CenturyOfDigits(cd, Optional(gen, "s") + Era(bce));
  }

  lemma DecadeRenderFlat(dd: string, pl: bool, tail: string)
    ensures DecadeText(dd, pl) + tail == dd + "er Jahre" + (Optional(pl, "n") + tail)
  {
    assert "er" + " Jahre" == "er Jahre";
    Regroup3(dd, "er", " Jahre", Optional(pl, "n"), tail);
  }

  lemma DecadeOfText(dd: string, pl: bool, tail: string)
    requires Numeral(dd, 4)
    ensures DecadeOf(DecadeText(dd, pl) + tail) == Some(DigitsValue(dd))
  {
    DecadeRenderFlat(dd, pl, tail);
    DecadeOfDigits(dd, Optional(pl, "n") + tail);
  }

  // Year literals

  lemma LowerYearRender(yd: string, bce: bool)
    requires Numeral(yd, 4)
    ensures Lower(Render(YearShape(yd, bce))) == "jahr " + yd + Optional(bce, " vdzw")
  {
    var s := Render(YearShape(yd, bce));
    var l := "jahr " + yd + Optional(bce, " vdzw");
    assert s == "Jahr " + yd + Era(bce);
    forall k | 0 <= k < |s|
      ensures Lower(s)[k] == l[k]
    {
      if k < 5 {
        assert s[k] == "Jahr "[k] && l[k] == "jahr "[k];
      } else if k < 5 + |yd| {
        assert s[k] == yd[k - 5] && l[k] == yd[k - 5];
      } else {
        assert s[k] == " vdZw"[k - 5 - |yd|] && l[k] == " vdzw"[k - 5 - |yd|];
      }
    }
  }

  /** The lower-cased year literal, cut before its era marker. */
  lemma YearBeforeEra(yd: string, bce: bool)
    requires Numeral(yd, 4)
    ensures SubstringBefore("jahr " + yd + Optional(bce, " vdzw"), " vdzw") == "jahr " + yd
  {
    var a := "jahr " + yd;
    var l := a + Optional(bce, " vdzw");
    forall j | 0 <= j < |a|
      ensures l[j] != ' ' || j + 1 == |l| || l[j + 1] != 'v'
    {
      if j < 4 {
        assert l[j] == "jahr"[j];
      } else if j == 4 {
        assert l[j + 1] == yd[0];
      } else {
        assert l[j] == yd[j - 5];
      }
    }
    if bce {
      NoOccurrenceBefore(l, " vdzw", |a|);
      assert l[|a|..] == " vdzw";
      SplitFirst(l, " vdzw", |a|);
      assert l[..|a|] == a;
    } else {
      assert l == a;
      SplitNone(l, " vdzw", l);
    }
  }

  lemma YearOfRender(yd: string, bce: bool)
    requires Numeral(yd, 4)
    ensures YearOf(Render(YearShape(yd, bce))) == Some(DigitsValue(yd))
  {
    var a := "jahr " + yd;
    LowerYearRender(yd, bce);
    YearBeforeEra(yd, bce);
    assert a[5..] == yd;
    SplitFirst(a, "jahr ", 0);
    ShortNumeral(yd);
  }

  // Relative decades

  /** The text of a relative decade before its century's dot. */
  function RelativeHead(dd: string, pl: bool, cd: string): string {
    DecadeText(dd, pl) + " des " + cd
  }

  /** The decade text has no dot, and each of its spaces is followed by "J". */
  lemma DecadeTextChars(dd: string, pl: bool)
    requires Numeral(dd, 4)
    ensures var t := DecadeText(dd, pl);
      forall j :: 0 <= j < |t| ==> t[j] != '.' && (t[j] == ' ' ==> j + 1 < |t| && t[j + 1] == 'J')
  {
    var t := DecadeText(dd, pl);
    DecadeRenderFlat(dd, pl, "");
    assert t == dd + "er Jahre" + Optional(pl, "n");
    forall j | 0 <= j < |t|
      ensures t[j] != '.' && (t[j] == ' ' ==> j + 1 < |t| && t[j + 1] == 'J')
    {
      if j < |dd| {
        assert t[j] == dd[j];
      } else if j < |dd| + 8 {
        assert t[j] == "er Jahre"[j - |dd|];
        if j == |dd| + 2 {
          assert t[j + 1] == 'J';
        }
      } else {
        assert t[j] == 'n';
      }
    }
  }

  lemma RelativeHeadChars(dd: string, pl: bool, cd: string)
    requires Numeral(dd, 4) && Numeral(cd, 2)
    ensures var h := RelativeHead(dd, pl, cd);
      (forall j :: 0 <= j < |h| ==> h[j] != '.') && SubstringAfter(h, " des ") == cd
  {
    var t := DecadeText(dd, pl);
    var h := RelativeHead(dd, pl, cd);
    var d := " des ";
    DecadeTextChars(dd, pl);
    forall j | 0 <= j < |h|
      ensures h[j] != '.'
    {
      if j < |t| {
        assert h[j] == t[j];
      } else if j < |t| + 5 {
        assert h[j] == d[j - |t|];
      } else {
        assert h[j] == cd[j - |t| - 5];
      }
    }
    forall j | 0 <= j < |t|
      ensures h[j] != d[0] || j + 1 == |h| || h[j + 1] != d[1]
    {
      assert h[j] == t[j];
      if j + 1 < |t| {
        assert h[j + 1] == t[j + 1];
      }
    }
    NoOccurrenceBefore(h, d, |t|);
    assert h[|t|..] == d + cd;
    SplitFirst(h, d, |t|);
    assert h[|t| + 5..] == cd;
  }

  lemma Regroup4(t: string, s: string, c: string, w: string, e: string)
    ensures (t + (s + (c + w))) + e == t + s + c + w + e
  {
  }

  /** The rendered relative decade: its head, then the dot and word of its century. */
  lemma RelativeRenderFlat(dd: string, pl: bool, cd: string, w: CenturyWord, bce: bool)
    requires Numeral(dd, 4) && Numeral(cd, 2)
    ensures Render(DecadeRelativeShape(dd, pl, cd, w, bce)) ==
      RelativeHead(dd, pl, cd) + ("." + (" " + WordText(w))) + Era(bce)
  {
    Regroup4(DecadeText(dd, pl), " des ", cd, "." + (" " + WordText(w)), Era(bce));
  }

  /** The same text, split where the decade ends. */
  lemma RelativeRenderSplit(dd: string, pl: bool, cd: string, w: CenturyWord, bce: bool)
    requires Numeral(dd, 4) && Numeral(cd, 2)
    ensures Render(DecadeRelativeShape(dd, pl, cd, w, bce)) ==
      DecadeText(dd, pl) + (OfCenturyText(cd, w) + Era(bce))
  {
    Associative(DecadeText(dd, pl), OfCenturyText(cd, w), Era(bce));
  }

  lemma Associative(a: string, b: string, c: string)
    ensures (a + b) + c == a + (b + c)
  {
  }

  /** The full century word, cut after its capital: ". Jahrhundert", then "s" in the
      genitive. */
  lemma NamedTail(w: CenturyWord)
    requires w != Abbreviated
    ensures "." + (" " + WordText(w)) == ". Jahrhundert" + Optional(w == Genitive, "s")
  {
    if w == Genitive {
      assert "." + (" " + "Jahrhunderts") == ". Jahrhundert" + "s";
    } else {
      assert "." + (" " + "Jahrhundert") == ". Jahrhundert" + "";
    }
  }

  lemma AbbreviatedTail()
    ensures "." + (" " + WordText(Abbreviated)) == ". JH"
  {
  }

  lemma Regroup2(h: string, k: string, s: string, e: string)
    ensures h + (k + s) + e == h + k + (s + e)
  {
  }

  lemma RelativeRenderNamed(dd: string, pl: bool, cd: string, w: CenturyWord, bce: bool)
    requires Numeral(dd, 4) && Numeral(cd, 2) && w != Abbreviated
    ensures Render(DecadeRelativeShape(dd, pl, cd, w, bce)) ==
      RelativeHead(dd, pl, cd) + ". Jahrhundert" + (Optional(w == Genitive, "s") + Era(bce))
  {
    RelativeRenderFlat(dd, pl, cd, w, bce);
    NamedTail(w);
    Regroup2(RelativeHead(dd, pl, cd), ". Jahrhundert", Optional(w == Genitive, "s"), Era(bce));
  }

  lemma RelativeRenderAbbreviated(dd: string, pl: bool, cd: string, bce: bool)
    requires Numeral(dd, 4) && Numeral(cd, 2)
    ensures Render(DecadeRelativeShape(dd, pl, cd, Abbreviated, bce)) ==
      RelativeHead(dd, pl, cd) + ". JH" + Era(bce)
  {
    RelativeRenderFlat(dd, pl, cd, Abbreviated, bce);
    AbbreviatedTail();
  }

  /** With the full word, the head is the text before ". Jahrhundert". */
  lemma RelativeCenturyNamed(h: string, cd: string, r: string)
    requires Numeral(cd, 2)
    requires (forall j :: 0 <= j < |h| ==> h[j] != '.') && SubstringAfter(h, " des ") == cd
    requires |h| > 0
    ensures RelativeCenturyOf(h + ". Jahrhundert" + r) == Some(100 * DigitsValue(cd))
  {
    BeforeDelimiter(h, ". Jahrhundert", r);
    Hundreds(cd);
  }

  /** ". Jahrhundert" does not occur in a relative decade abbreviated with "JH". */
  lemma NoCenturyWord(h: string, era: string)
    requires forall j :: 0 <= j < |h| ==> h[j] != '.'
    requires forall j :: 0 <= j < |era| ==> era[j] != '.'
    ensures forall j :: 0 <= j <= |h + ". JH" + era| ==> !(". Jahrhundert" <= (h + ". JH" + era)[j..])
  {
    var l := h + ". JH" + era;
    forall j | 0 <= j <= |l|
      ensures !(". Jahrhundert" <= l[j..])
    {
      if j < |h| {
        assert l[j..][0] == h[j];
      } else if j == |h| {
        assert l[j..][3] == 'H';
      } else if j < |h| + 4 {
        assert l[j..][0] == ". JH"[j - |h|];
      } else if j < |l| {
        assert l[j..][0] == era[j - |h| - 4];
      }
    }
  }

  /** With "JH" there is no ". Jahrhundert" to cut at, and the head is the text
      before ". JH". */
  lemma RelativeCenturyAbbreviated(h: string, cd: string, e: string)
    requires Numeral(cd, 2)
    requires (forall j :: 0 <= j < |h| ==> h[j] != '.') && SubstringAfter(h, " des ") == cd
    requires forall j :: 0 <= j < |e| ==> e[j] != '.'
    ensures RelativeCenturyOf(h + ". JH" + e) == Some(100 * DigitsValue(cd))
  {
    var l := h + ". JH" + e;
    NoCenturyWord(h, e);
    IndexOfNone(l, ". Jahrhundert");
    BeforeDelimiter(h, ". JH", e);
    Hundreds(cd);
  }

  lemma EraChars(bce: bool)
    ensures forall j :: 0 <= j < |Era(bce)| ==> Era(bce)[j] != '.'
  {
  }

  lemma RelativeCenturyOfRender(dd: string, pl: bool, cd: string, w: CenturyWord, bce: bool)
    requires Numeral(dd, 4) && Numeral(cd, 2)
    ensures RelativeCenturyOf(Render(DecadeRelativeShape(dd, pl, cd, w, bce))) == Some(100 * DigitsValue(cd))
  {
    RelativeHeadChars(dd, pl, cd);
    if w == Abbreviated {
      RelativeRenderAbbreviated(dd, pl, cd, bce);
      EraChars(bce);
      RelativeCenturyAbbreviated(RelativeHead(dd, pl, cd), cd, Era(bce));
    } else {
      RelativeRenderNamed(dd, pl, cd, w, bce);
      RelativeCenturyNamed(RelativeHead(dd, pl, cd), cd, Optional(w == Genitive, "s") + Era(bce));
    }
  }

  // ---------------------------------------------------------------------------
  // The span of every rendered literal is the span it stands for
  // ---------------------------------------------------------------------------

  /** The first and last year a year literal names: the number, negated before
      the common era. */
  lemma YearSpan(yd: string, bce: bool)
    requires Numeral(yd, 4)
    ensures Span(Render(YearShape(yd, bce)), Year, bce) == YearYears(DigitsValue(yd), bce)
  {
    YearOfRender(yd, bce);
    ShortNumeral(yd);
    YearSpanFrom(Render(YearShape(yd, bce)), bce, DigitsValue(yd));
  }

  /** The first and last year of the N-th century. */
  lemma CenturySpan(cd: string, gen: bool, bce: bool)
    requires Numeral(cd, 2)
    ensures Span(Render(CenturyShape(cd, gen, bce)), Century, bce) == CenturyYears(DigitsValue(cd), bce)
  {
    CenturyOfRender(cd, gen, bce);
    Hundreds(cd);
    CenturySpanFrom(Render(CenturyShape(cd, gen, bce)), bce, DigitsValue(cd));
  }

  lemma DecadeSpan(dd: string, pl: bool, bce: bool)
    requires Numeral(dd, 4)
    ensures Span(Render(DecadeAbsoluteShape(dd, pl, bce)), DecadeAbsolute, bce) == DecadeYears(DigitsValue(dd), bce)
  {
    DecadeOfText(dd, pl, Era(bce));
    ShortNumeral(dd);
    DecadeSpanFrom(Render(DecadeAbsoluteShape(dd, pl, bce)), bce, DigitsValue(dd));
  }

  lemma RelativeSpan(dd: string, pl: bool, cd: string, w: CenturyWord, bce: bool)
    requires Numeral(dd, 4) && Numeral(cd, 2)
    ensures Span(Render(DecadeRelativeShape(dd, pl, cd, w, bce)), DecadeRelative, bce) ==
              RelativeYears(DigitsValue(dd), DigitsValue(cd), bce)
  {
    var l := Render(DecadeRelativeShape(dd, pl, cd, w, bce));
    RelativeCenturyOfRender(dd, pl, cd, w, bce);
    RelativeRenderSplit(dd, pl, cd, w, bce);
    DecadeOfText(dd, pl, OfCenturyText(cd, w) + Era(bce));
    ShortNumeral(dd);
    Hundreds(cd);
    RelativeSpanFrom(l, bce, DigitsValue(dd), DigitsValue(cd));
  }

  // Day and Month

  lemma DayRenderFlat(dd: string, m: int, yd: string, bce: bool)
    requires WellFormed(DayShape(dd, m, yd, bce))
    ensures Render(DayShape(dd, m, yd, bce)) == dd + ". " + MonthName(m) + " " + (yd + Era(bce))
  {
    DayRegroup(dd, ".", " ", MonthName(m), " ", yd, Era(bce));
    assert "." + " " == ". ";
  }

  lemma DayRegroup(dd: string, dot: string, sp: string, mn: string, sp2: string, yd: string, e: string)
    ensures (dd + (dot + (sp + (mn + (sp2 + yd))))) + e == dd + (dot + sp) + mn + sp2 + (yd + e)
  {
  }

  /** A Day literal parses to its date, clamped by the resolver; with an era marker
      the parser meets text it cannot consume. */
  lemma DayDate(dd: string, m: int, yd: string, bce: bool)
    requires WellFormed(DayShape(dd, m, yd, bce))
    ensures ParseGermanDate(Render(DayShape(dd, m, yd, bce))) ==
              if bce then None else ResolveDate(DigitsValue(yd), m, DigitsValue(dd))
  {
    DayRenderFlat(dd, m, yd, bce);
    if bce {
      ParseNumeralDigits(yd, " vdZw");
    } else {
      assert yd + [] == yd && yd + Era(bce) == yd;
      ParseNumeralDigits(yd, []);
    }
    ParseGermanDateOf(dd, m, yd + Era(bce));
  }

  function WholeDayOf(d: Option<Date>): Option<(Instant, Instant)> {
    match d
    case None => None
    case Some(date) => Some(WholeDay(date))
  }

  lemma DaySpan(dd: string, m: int, yd: string, bce: bool)
    requires WellFormed(DayShape(dd, m, yd, bce))
    ensures Span(Render(DayShape(dd, m, yd, bce)), Day, bce) ==
              if bce then None else WholeDayOf(ResolveDate(DigitsValue(yd), m, DigitsValue(dd)))
  {
    SpanOfMode(Render(DayShape(dd, m, yd, bce)), Day, bce);
    DayDate(dd, m, yd, bce);
  }

  /** The resolver's clamping agrees with the arithmetic statement of a day. */
  lemma DayYearsResolved(y: int, m: int, day: int, bce: bool)
    requires 1 <= m <= 12 && 0 <= y < 10000
    ensures DayYears(y, m, day, bce) == if bce then None else WholeDayOf(ResolveDate(y, m, day))
  {
  }

  lemma MonthRenderFlat(m: int, yd: string, bce: bool)
    requires WellFormed(MonthShape(m, yd, bce))
    ensures "1. " + Render(MonthShape(m, yd, bce)) == "1" + ". " + MonthName(m) + " " + (yd + Era(bce))
  {
    MonthRegroup("1", ". ", MonthName(m), " ", yd, Era(bce));
    assert "1" + ". " == "1. ";
  }

  lemma MonthRegroup(one: string, dot: string, mn: string, sp: string, yd: string, e: string)
    ensures (one + dot) + ((mn + (sp + yd)) + e) == one + dot + mn + sp + (yd + e)
  {
  }

  /** A Month literal is read as the first day of that month. */
  lemma MonthDate(m: int, yd: string, bce: bool)
    requires WellFormed(MonthShape(m, yd, bce))
    ensures ParseGermanDate("1. " + Render(MonthShape(m, yd, bce))) ==
              if bce then None else Some(Date(DigitsValue(yd), m, 1))
  {
    MonthRenderFlat(m, yd, bce);
    if bce {
      ParseNumeralDigits(yd, " vdZw");
    } else {
      assert yd + [] == yd && yd + Era(bce) == yd;
      ParseNumeralDigits(yd, []);
    }
    assert AllDigits("1") && DigitsValue("1") == 1;
    ParseGermanDateOf("1", m, yd + Era(bce));
    ShortNumeral(yd);
  }

  lemma MonthSpan(m: int, yd: string, bce: bool)
    requires WellFormed(MonthShape(m, yd, bce))
    ensures Span(Render(MonthShape(m, yd, bce)), Month, bce) == MonthYears(DigitsValue(yd), m, bce)
  {
    SpanOfMode(Render(MonthShape(m, yd, bce)), Month, bce);
    MonthDate(m, yd, bce);
  }

  // ---------------------------------------------------------------------------
  // Every literal the patterns accept
  // ---------------------------------------------------------------------------

  /** For every literal a pattern accepts, `getStart` and `getEnd` together yield
      the span the literal stands for, and throw exactly where no such span exists:
      a Day or Month literal with an era marker, a day outside 1..31, and the
      century "0. Jahrhundert vdZw". */
  lemma SpanExpected(sh: Shape)
    requires WellFormed(sh)
    ensures Span(Render(sh), ModeOf(sh), sh.bce) == ExpectedSpan(sh)
  {
    match sh {
      case DayShape(dd, m, yd, bce) =>
        DaySpan(dd, m, yd, bce);
        ShortNumeral(yd);
        DayYearsResolved(DigitsValue(yd), m, DigitsValue(dd), bce);
      case MonthShape(m, yd, bce) => MonthSpan(m, yd, bce);
      case YearShape(yd, bce) => YearSpan(yd, bce);
      case CenturyShape(cd, gen, bce) => CenturySpan(cd, gen, bce);
      case DecadeAbsoluteShape(dd, pl, bce) => DecadeSpan(dd, pl, bce);
      case DecadeRelativeShape(dd, pl, cd, w, bce) => RelativeSpan(dd, pl, cd, w, bce);
    }
  }

  /** The constructor succeeds exactly when the literal denotes a span, and then
      records that span and the literal's normalized spelling. */
  lemma MakeRefExpected(sh: Shape)
    requires WellFormed(sh)
    ensures MakeRef(Render(sh), ModeOf(sh), sh.bce).Some? <==> ExpectedSpan(sh).Some?
    ensures ExpectedSpan(sh).Some? ==>
      MakeRef(Render(sh), ModeOf(sh), sh.bce) ==
        Some(TemporalRef(Render(sh), ModeOf(sh), Normalize(Render(sh)),
                         ExpectedSpan(sh).value.0, ExpectedSpan(sh).value.1))
  {
    SpanExpected(sh);
  }
}
