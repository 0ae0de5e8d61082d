/** The pattern registry of `extractTemporalRefs`: the six regular expressions,
    written out as hand-made matchers with java.util.regex's semantics (greedy
    quantifiers, alternatives tried in order, case-sensitive), and the grammar of
    the literals they accept. */
module Literals {
  import opened Wrappers
  import opened Text
  import opened Calendar

  /** `TemporalRef.Mode`, in declaration order. */
  datatype Mode = Day | Month | Year | DecadeAbsolute | DecadeRelative | Century

  /** Position of a mode in the enum's declaration order (what `sortedBy { it.mode }` compares). */
  function Rank(m: Mode): nat {
    match m
    case Day => 0
    case Month => 1
    case Year => 2
    case DecadeAbsolute => 3
    case DecadeRelative => 4
    case Century => 5
  }

  /** The three spellings `(JH|Jahrhunderts?)` allows after a relative decade. */
  datatype CenturyWord = Abbreviated | Nominative | Genitive

  function WordText(w: CenturyWord): string {
    match w
    case Abbreviated => "JH"
    case Nominative => "Jahrhundert"
    case Genitive => "Jahrhunderts"
  }

  /** A matched literal, parsed into the parts its pattern names. */
  datatype Shape =
    | DayShape(dayDigits: string, month: int, yearDigits: string, bce: bool)
    | MonthShape(month: int, yearDigits: string, bce: bool)
    | DecadeRelativeShape(decadeDigits: string, plural: bool, centuryDigits: string, word: CenturyWord, bce: bool)
    | DecadeAbsoluteShape(decadeDigits: string, plural: bool, bce: bool)
    | CenturyShape(centuryDigits: string, genitive: bool, bce: bool)
    | YearShape(yearDigits: string, bce: bool)

  function ModeOf(sh: Shape): Mode {
    match sh
    case DayShape(_, _, _, _) => Day
    case MonthShape(_, _, _) => Month
    case DecadeRelativeShape(_, _, _, _, _) => DecadeRelative
    case DecadeAbsoluteShape(_, _, _) => DecadeAbsolute
    case CenturyShape(_, _, _) => Century
    case YearShape(_, _) => Year
  }

  /** A run of one to `max` ASCII digits. */
  predicate Numeral(d: string, max: nat) {
    AllDigits(d) && 1 <= |d| <= max
  }

  predicate WellFormed(sh: Shape) {
    match sh
    case DayShape(dd, m, yd, _) => Numeral(dd, 2) && 1 <= m <= 12 && Numeral(yd, 4)
    case MonthShape(m, yd, _) => 1 <= m <= 12 && Numeral(yd, 4)
    case DecadeRelativeShape(dd, _, cd, _, _) => Numeral(dd, 4) && Numeral(cd, 2)
    case DecadeAbsoluteShape(dd, _, _) => Numeral(dd, 4)
    case CenturyShape(cd, _, _) => Numeral(cd, 2)
    case YearShape(yd, _) => Numeral(yd, 4)
  }

  function Optional(present: bool, s: string): string {
    if present then s else ""
  }

  /** The era marker `( vdZw)?`. */
  function Era(bce: bool): string {
    Optional(bce, " vdZw")
  }

  /** ` \d{1,4}`: the year numeral that ends the Day, Month and Year patterns. */
  function YearText(yd: string): string {
    " " + yd
  }

  /** `\d{1,4}er Jahren?`: the decade that starts both decade patterns. */
  function DecadeText(dd: string, plural: bool): string {
    dd + ("er" + (" Jahre" + Optional(plural, "n")))
  }

  /** ` des \d\d?\. (JH|Jahrhunderts?)`: the century a relative decade belongs to. */
  function OfCenturyText(cd: string, w: CenturyWord): string {
    " des " + (cd + ("." + (" " + WordText(w))))
  }

  /** The literal without its era marker. */
  function Body(sh: Shape): string
    requires WellFormed(sh)
  {
    match sh
    case DayShape(dd, m, yd, _) => dd + ("." + (" " + (MonthName(m) + YearText(yd))))
    case MonthShape(m, yd, _) => MonthName(m) + YearText(yd)
    case DecadeRelativeShape(dd, pl, cd, w, _) => DecadeText(dd, pl) + OfCenturyText(cd, w)
    case DecadeAbsoluteShape(dd, pl, _) => DecadeText(dd, pl)
    case CenturyShape(cd, gen, _) => cd + ("." + (" Jahrhundert" + Optional(gen, "s")))
    case YearShape(yd, _) => "Jahr" + YearText(yd)
  }

  /** The literal text a shape stands for. */
  function Render(sh: Shape): string
    requires WellFormed(sh)
  {
    Body(sh) + Era(sh.bce)
  }

  /** The shortest literal is "Mai 1": every match is at least five characters long. */
  lemma RenderLength(sh: Shape)
    requires WellFormed(sh)
    ensures |Render(sh)| >= 5
  {
  }

  // ---------------------------------------------------------------------------
  // Prefix bookkeeping
  // ---------------------------------------------------------------------------

  lemma PrefixAt(t: string, i: nat, a: string, b: string)
    requires i <= |t| && a <= t[i..] && b <= t[i + |a|..]
    ensures a + b <= t[i..]
  {
    assert t[i..][..|a| + |b|] == t[i..][..|a|] + t[i + |a|..][..|b|];
  }

  lemma PrefixSplit(t: string, i: nat, a: string, b: string)
    requires i <= |t| && a + b <= t[i..]
    ensures a <= t[i..] && b <= t[i + |a|..]
  {
    assert t[i..][..|a|] == (a + b)[..|a|];
    assert t[i + |a|..][..|b|] == (a + b)[|a|..];
  }

  /** A concatenation sits at position `i` exactly when its two parts sit there
      one after the other. */
  lemma Cat(t: string, i: nat, a: string, b: string)
    requires i <= |t|
    ensures a + b <= t[i..] <==> a <= t[i..] && b <= t[i + |a|..]
  {
    if a + b <= t[i..] {
      PrefixSplit(t, i, a, b);
    }
    if a <= t[i..] && b <= t[i + |a|..] {
      PrefixAt(t, i, a, b);
    }
  }

  predicate StartsWithDigit(t: string) {
    |t| > 0 && IsDigit(t[0])
  }

  // ---------------------------------------------------------------------------
  // Pattern pieces
  // ---------------------------------------------------------------------------

  /** `\d\d?\.`: one or two digits followed by a dot; yields the digits. */
  function OrdinalPrefix(t: string): (r: Option<string>)
    ensures r.Some? ==> Numeral(r.value, 2) && r.value + "." <= t
  {
    var n := DigitRun(t);
    if 1 <= n <= 2 && "." <= t[n..] then
      PrefixAt(t, 0, t[..n], ".");
      Some(t[..n])
    else None
  }

  lemma OrdinalPrefixOf(t: string, d: string)
    requires Numeral(d, 2) && d + "." <= t
    ensures OrdinalPrefix(t) == Some(d)
  {
    PrefixSplit(t, 0, d, ".");
    assert t == d + t[|d|..];
    DigitRunOf(d, t[|d|..]);
  }

  /** `\d{1,4}` where nothing that follows can force backtracking: as many digits as
      there are, up to four. */
  function TrailingNumeralPrefix(t: string): (r: Option<string>)
    ensures r.Some? ==> Numeral(r.value, 4) && r.value <= t
    ensures r.Some? ==> |r.value| == 4 || !StartsWithDigit(t[|r.value|..])
    ensures r.None? ==> !StartsWithDigit(t)
  {
    var n := Min(DigitRun(t), 4);
    if n >= 1 then Some(t[..n]) else None
  }

  lemma TrailingNumeralPrefixOf(t: string, d: string)
    requires Numeral(d, 4) && d <= t
    requires |d| == 4 || !StartsWithDigit(t[|d|..])
    ensures TrailingNumeralPrefix(t) == Some(d)
  {
    assert t == d + t[|d|..];
    if |d| < 4 {
      DigitRunOf(d, t[|d|..]);
    } else {
      assert t[..4] == d;
    }
  }

  /** `\d{1,4}er`: the digit run at this position must have one to four digits and be
      followed by "er" (backtracking to fewer digits leaves a digit before "er"). */
  function DecadePrefix(t: string): (r: Option<string>)
    ensures r.Some? ==> Numeral(r.value, 4) && r.value + "er" <= t
  {
    var n := DigitRun(t);
    if 1 <= n <= 4 && "er" <= t[n..] then
      PrefixAt(t, 0, t[..n], "er");
      Some(t[..n])
    else None
  }

  lemma DecadePrefixOf(t: string, d: string)
    requires Numeral(d, 4) && d + "er" <= t
    ensures DecadePrefix(t) == Some(d)
  {
    PrefixSplit(t, 0, d, "er");
    assert t == d + t[|d|..];
    DigitRunOf(d, t[|d|..]);
  }

  /** `(JH|Jahrhunderts?)`: the alternatives in order, the optional "s" taken when present. */
  function CenturyWordPrefix(x: string): (r: Option<CenturyWord>)
    ensures r.Some? ==> WordText(r.value) <= x
    ensures r.Some? && r.value == Nominative ==> !("s" <= x[11..])
  {
    if "JH" <= x then Some(Abbreviated)
    else if "Jahrhundert" <= x then
      if "s" <= x[11..] then
        assert "Jahrhundert" + "s" == "Jahrhunderts";
        PrefixAt(x, 0, "Jahrhundert", "s");
        assert x[0..] == x;
        Some(Genitive)
      else Some(Nominative)
    else None
  }

  lemma CenturyWordPrefixOf(x: string, w: CenturyWord)
    requires WordText(w) <= x
    requires w == Nominative ==> !("s" <= x[11..])
    ensures CenturyWordPrefix(x) == Some(w)
  {
    if w != Abbreviated {
      assert x[1] == 'a';
      assert "Jahrhundert" <= x by {
        assert WordText(w)[..11] == "Jahrhundert";
      }
    }
    if w == Genitive {
      assert x[11] == 's';
    }
  }

  /** The optional group `( vdZw)?` at the end of every pattern: taken when present. */
  predicate EraAt(t: string) {
    " vdZw" <= t
  }

  // ---------------------------------------------------------------------------
  // Pattern parts shared by several patterns. Each comes with a predicate listing,
  // position by position, what it needs in the text; the function's contract says
  // it finds only such parts, and a lemma says it finds every one.
  // ---------------------------------------------------------------------------

  predicate YearPieces(t: string, q: nat, yd: string, bce: bool) {
    && q <= |t| && Numeral(yd, 4)
    && " " <= t[q..] && yd <= t[q + 1..]
    && (|yd| == 4 || !StartsWithDigit(t[q + 1 + |yd|..]))
    && bce == EraAt(t[q + 1 + |yd|..])
  }

  /** ` \d{1,4}( vdZw)?` at position `q`: the year numeral and the era marker. */
  function MatchYearAt(t: string, q: nat): (r: Option<(string, bool)>)
    requires q <= |t|
    ensures r.Some? ==> YearPieces(t, q, r.value.0, r.value.1)
  {
    if !(" " <= t[q..]) then None
    else
      match TrailingNumeralPrefix(t[q + 1..])
      case None => None
      case Some(yd) =>
        assert t[q + 1..][|yd|..] == t[q + 1 + |yd|..];
        Some((yd, EraAt(t[q + 1 + |yd|..])))
  }

  lemma YearPiecesMatch(t: string, q: nat, yd: string, bce: bool)
    requires YearPieces(t, q, yd, bce)
    ensures MatchYearAt(t, q) == Some((yd, bce))
  {
    assert t[q + 1..][|yd|..] == t[q + 1 + |yd|..];
    TrailingNumeralPrefixOf(t[q + 1..], yd);
  }

  lemma YearPiecesText(t: string, q: nat, yd: string)
    requires q <= |t|
    ensures YearText(yd) <= t[q..] <==> " " <= t[q..] && yd <= t[q + 1..]
  {
    if YearText(yd) <= t[q..] {
      PrefixSplit(t, q, " ", yd);
    }
    if " " <= t[q..] && yd <= t[q + 1..] {
      PrefixAt(t, q, " ", yd);
    }
  }

  predicate DecadePieces(t: string, dd: string, pl: bool) {
    && Numeral(dd, 4)
    && dd + "er" <= t && " Jahre" <= t[|dd| + 2..]
    && pl == ("n" <= t[|dd| + 8..])
  }

  /** `\d{1,4}er Jahren?` at the head of `t`: the decade digits and the plural "n". */
  function MatchDecadeText(t: string): (r: Option<(string, bool)>)
    ensures r.Some? ==> DecadePieces(t, r.value.0, r.value.1)
  {
    match DecadePrefix(t)
    case None => None
    case Some(dd) =>
      if !(" Jahre" <= t[|dd| + 2..]) then None
      else Some((dd, "n" <= t[|dd| + 8..]))
  }

  lemma DecadePiecesMatch(t: string, dd: string, pl: bool)
    requires DecadePieces(t, dd, pl)
    ensures MatchDecadeText(t) == Some((dd, pl))
  {
    DecadePrefixOf(t, dd);
  }

  /** The decade text is there exactly when its pieces are, the plural "n" taken
      whenever it is there. */
  lemma DecadePiecesText(t: string, dd: string, pl: bool)
    requires Numeral(dd, 4)
    ensures DecadePieces(t, dd, pl) <==>
              DecadeText(dd, pl) <= t && (pl || !("n" <= t[|DecadeText(dd, pl)|..]))
  {
    var n := Optional(pl, "n");
    assert t[0..] == t;
    if DecadePieces(t, dd, pl) {
      PrefixSplit(t, 0, dd, "er");
      PrefixAt(t, |dd| + 2, " Jahre", n);
      PrefixAt(t, |dd|, "er", " Jahre" + n);
      PrefixAt(t, 0, dd, "er" + (" Jahre" + n));
    }
    if DecadeText(dd, pl) <= t && (pl || !("n" <= t[|DecadeText(dd, pl)|..])) {
      PrefixSplit(t, 0, dd, "er" + (" Jahre" + n));
      PrefixSplit(t, |dd|, "er", " Jahre" + n);
      PrefixSplit(t, |dd| + 2, " Jahre", n);
      PrefixAt(t, 0, dd, "er");
    }
  }

  predicate OfCenturyPieces(t: string, q: nat, cd: string, w: CenturyWord) {
    && q <= |t| && Numeral(cd, 2)
    && var u := q + 5 + |cd| + 1;
    && " des " <= t[q..] && cd + "." <= t[q + 5..]
    && " " <= t[u..] && WordText(w) <= t[u + 1..]
    && (w == Nominative ==> !("s" <= t[u + 12..]))
  }

  /** ` des \d\d?\. (JH|Jahrhunderts?)` at position `q`. */
  function MatchOfCentury(t: string, q: nat): (r: Option<(string, CenturyWord)>)
    requires q <= |t|
    ensures r.Some? ==> OfCenturyPieces(t, q, r.value.0, r.value.1)
  {
    if !(" des " <= t[q..]) then None
    else
      match OrdinalPrefix(t[q + 5..])
      case None => None
      case Some(cd) =>
        assert cd + "." <= t[q + 5..];
        match MatchCenturyWordAt(t, q + 5 + |cd| + 1)
        case None => None
        case Some(w) => Some((cd, w))
  }

  /** ` (JH|Jahrhunderts?)` at position `u`. */
  function MatchCenturyWordAt(t: string, u: nat): (r: Option<CenturyWord>)
    requires u <= |t|
    ensures r.Some? ==> " " <= t[u..] && WordText(r.value) <= t[u + 1..]
    ensures r.Some? && r.value == Nominative ==> !("s" <= t[u + 12..])
  {
    if !(" " <= t[u..]) then None
    else
      match CenturyWordPrefix(t[u + 1..])
      case None => None
      case Some(w) =>
        if w == Nominative then
          assert t[u + 1..][11..] == t[u + 12..];
          Some(w)
        else Some(w)
  }

  lemma CenturyWordAtOf(t: string, u: nat, w: CenturyWord)
    requires u <= |t| && " " <= t[u..] && WordText(w) <= t[u + 1..]
    requires w == Nominative ==> !("s" <= t[u + 12..])
    ensures MatchCenturyWordAt(t, u) == Some(w)
  {
    if w == Nominative {
      assert t[u + 1..][11..] == t[u + 12..];
    }
    CenturyWordPrefixOf(t[u + 1..], w);
  }

  lemma OfCenturyPiecesMatch(t: string, q: nat, cd: string, w: CenturyWord)
    requires OfCenturyPieces(t, q, cd, w)
    ensures MatchOfCentury(t, q) == Some((cd, w))
  {
    assert OrdinalPrefix(t[q + 5..]) == Some(cd) by {
      OrdinalPrefixOf(t[q + 5..], cd);
    }
    assert MatchCenturyWordAt(t, q + 5 + |cd| + 1) == Some(w) by {
      CenturyWordAtOf(t, q + 5 + |cd| + 1, w);
    }
    OfCenturyFrom(t, q, cd, w);
  }

  lemma OfCenturyFrom(t: string, q: nat, cd: string, w: CenturyWord)
    requires q <= |t| && " des " <= t[q..] && OrdinalPrefix(t[q + 5..]) == Some(cd)
    requires MatchCenturyWordAt(t, q + 5 + |cd| + 1) == Some(w)
    ensures MatchOfCentury(t, q) == Some((cd, w))
  {
    var u := q + 5 + |cd| + 1;
    assert u <= |t|;
  }

  /** The four parts of ` des \d\d?\. <word>`, for any word. */
  lemma OfCenturyCat(t: string, q: nat, cd: string, wt: string)
    requires q <= |t|
    ensures " des " + (cd + ("." + (" " + wt))) <= t[q..] <==>
      && " des " <= t[q..] && cd + "." <= t[q + 5..]
      && " " <= t[q + 6 + |cd|..] && wt <= t[q + 7 + |cd|..]
  {
    Cat(t, q, " des ", cd + ("." + (" " + wt)));
    if q + 5 <= |t| {
      Cat(t, q + 5, cd, "." + (" " + wt));
      Cat(t, q + 5, cd, ".");
      if q + 5 + |cd| <= |t| {
        Cat(t, q + 5 + |cd|, ".", " " + wt);
        if q + 6 + |cd| <= |t| {
          Cat(t, q + 6 + |cd|, " ", wt);
        }
      }
    }
  }

  lemma OfCenturyPiecesText(t: string, q: nat, cd: string, w: CenturyWord)
    requires q <= |t| && Numeral(cd, 2)
    ensures OfCenturyPieces(t, q, cd, w) <==>
              OfCenturyText(cd, w) <= t[q..] &&
              (w != Nominative || !("s" <= t[q + |OfCenturyText(cd, w)|..]))
  {
    OfCenturyCat(t, q, cd, WordText(w));
  }

  // ---------------------------------------------------------------------------
  // The six patterns, matched at the head of a text
  // ---------------------------------------------------------------------------

  /** `\d\d?\. (Januar|…|Dezember) \d{1,4}( vdZw)?` */
  function MatchDay(t: string): Option<Shape> {
    match OrdinalPrefix(t)
    case None => None
    case Some(dd) => MatchDayAfter(t, dd)
  }

  /** The rest of a Day literal once its day digits and dot are read. */
  function MatchDayAfter(t: string, dd: string): Option<Shape>
    requires |dd| + 1 <= |t|
  {
    if !(" " <= t[|dd| + 1..]) then None
    else
      match MonthNameAt(t[|dd| + 2..])
      case None => None
      case Some(m) => MatchDayYear(t, dd, m)
  }

  /** The year of a Day literal once its month name is read. */
  function MatchDayYear(t: string, dd: string, m: int): Option<Shape>
    requires 1 <= m <= 12 && |dd| + 2 + |MonthName(m)| <= |t|
  {
    match MatchYearAt(t, |dd| + 2 + |MonthName(m)|)
    case None => None
    case Some((yd, bce)) => Some(DayShape(dd, m, yd, bce))
  }

  /** `(Januar|…|Dezember) \d{1,4}( vdZw)?` */
  function MatchMonth(t: string): Option<Shape> {
    match MonthNameAt(t)
    case None => None
    case Some(m) =>
      match MatchYearAt(t, |MonthName(m)|)
      case None => None
      case Some((yd, bce)) => Some(MonthShape(m, yd, bce))
  }

  /** `\d{1,4}er Jahren? des \d\d?\. (JH|Jahrhunderts?)( vdZw)?` */
  function MatchDecadeRelative(t: string): (r: Option<Shape>)
    ensures r.Some? ==> r.value.DecadeRelativeShape? && Pieces(t, r.value)
  {
    match MatchDecadeText(t)
    case None => None
    case Some((dd, pl)) =>
      var q := |DecadeText(dd, pl)|;
      match MatchOfCentury(t, q)
      case None => None
      case Some((cd, w)) =>
        Some(DecadeRelativeShape(dd, pl, cd, w, EraAt(t[q + |OfCenturyText(cd, w)|..])))
  }

  /** `\d{1,4}er Jahren?( vdZw)?` */
  function MatchDecadeAbsolute(t: string): Option<Shape> {
    match MatchDecadeText(t)
    case None => None
    case Some((dd, pl)) =>
      Some(DecadeAbsoluteShape(dd, pl, EraAt(t[|DecadeText(dd, pl)|..])))
  }

  /** `\d\d?\. Jahrhunderts?( vdZw)?` */
  function MatchCentury(t: string): Option<Shape> {
    match OrdinalPrefix(t)
    case None => None
    case Some(cd) =>
      var p := |cd| + 1;
      if !(" Jahrhundert" <= t[p..]) then None
      else
        var gen := "s" <= t[p + 12..];
        var e := p + 12 + |Optional(gen, "s")|;
        Some(CenturyShape(cd, gen, EraAt(t[e..])))
  }

  /** `Jahr \d{1,4}( vdZw)?` */
  function MatchYear(t: string): Option<Shape> {
    if !("Jahr" <= t) then None
    else
      match MatchYearAt(t, 4)
      case None => None
      case Some((yd, bce)) => Some(YearShape(yd, bce))
  }

  /** The pattern registered for a mode, tried at the head of `t`. */
  function MatchPrefix(m: Mode, t: string): Option<Shape> {
    var k := Rank(m);
    if k == 0 then MatchDay(t)
    else if k == 1 then MatchMonth(t)
    else if k == 2 then MatchYear(t)
    else if k == 3 then MatchDecadeAbsolute(t)
    else if k == 4 then MatchDecadeRelative(t)
    else MatchCentury(t)
  }

  lemma MatchPrefixDay(t: string)
    ensures MatchPrefix(Day, t) == MatchDay(t)
  {
    assert Rank(Day) == 0;
  }

  lemma MatchPrefixMonth(t: string)
    ensures MatchPrefix(Month, t) == MatchMonth(t)
  {
    assert Rank(Month) == 1;
  }

  lemma MatchPrefixDecadeRelative(t: string)
    ensures MatchPrefix(DecadeRelative, t) == MatchDecadeRelative(t)
  {
    assert Rank(DecadeRelative) == 4;
  }

  lemma MatchPrefixDecadeAbsolute(t: string)
    ensures MatchPrefix(DecadeAbsolute, t) == MatchDecadeAbsolute(t)
  {
    assert Rank(DecadeAbsolute) == 3;
  }

  lemma MatchPrefixCentury(t: string)
    ensures MatchPrefix(Century, t) == MatchCentury(t)
  {
    assert Rank(Century) == 5;
  }

  lemma MatchPrefixYear(t: string)
    ensures MatchPrefix(Year, t) == MatchYear(t)
  {
    assert Rank(Year) == 2;
  }

  // ---------------------------------------------------------------------------
  // What the matchers accept: exactly the greedy parses of a literal
  // ---------------------------------------------------------------------------

  /** What greedy quantifiers force on the text right after a literal's body: the
      era marker is taken when it is there, a year numeral stops only at four digits
      or at a non-digit, and an optional "n" or "s" is taken when it is there. */
  predicate GreedyAfter(sh: Shape, after: string) {
    && (sh.bce || !EraAt(after))
    && match sh
       case DayShape(_, _, yd, _) => |yd| == 4 || !StartsWithDigit(after)
       case MonthShape(_, yd, _) => |yd| == 4 || !StartsWithDigit(after)
       case YearShape(yd, _) => |yd| == 4 || !StartsWithDigit(after)
       case DecadeAbsoluteShape(_, pl, _) => pl || !("n" <= after)
       case DecadeRelativeShape(_, _, _, w, _) => w != Nominative || !("s" <= after)
       case CenturyShape(_, gen, _) => gen || !("s" <= after)
  }

  /** `sh` is the literal a greedy regex engine reads at the head of `t`. */
  predicate Greedy(t: string, sh: Shape) {
    WellFormed(sh) && Render(sh) <= t && GreedyAfter(sh, t[|Body(sh)|..])
  }

  /** The pieces of a shape, position by position, whichever pattern it belongs to. */
  predicate Pieces(t: string, sh: Shape) {
    match sh
    case DayShape(dd, m, yd, bce) =>
      && Numeral(dd, 2) && 1 <= m <= 12
      && dd + "." <= t && " " <= t[|dd| + 1..] && MonthName(m) <= t[|dd| + 2..]
      && YearPieces(t, |dd| + 2 + |MonthName(m)|, yd, bce)
    case MonthShape(m, yd, bce) =>
      1 <= m <= 12 && MonthName(m) <= t && YearPieces(t, |MonthName(m)|, yd, bce)
    case DecadeRelativeShape(dd, pl, cd, w, bce) =>
      && DecadePieces(t, dd, pl)
      && var q := |DecadeText(dd, pl)|;
      && OfCenturyPieces(t, q, cd, w)
      && bce == EraAt(t[q + |OfCenturyText(cd, w)|..])
    case DecadeAbsoluteShape(dd, pl, bce) =>
      DecadePieces(t, dd, pl) && bce == EraAt(t[|DecadeText(dd, pl)|..])
    case CenturyShape(cd, gen, bce) =>
      && Numeral(cd, 2)
      && var p := |cd| + 1;
      && cd + "." <= t && " Jahrhundert" <= t[p..]
      && gen == ("s" <= t[p + 12..])
      && bce == EraAt(t[p + 12 + |Optional(gen, "s")|..])
    case YearShape(yd, bce) =>
      "Jahr" <= t && YearPieces(t, 4, yd, bce)
  }

  lemma MatchDayPieces(t: string)
    requires MatchDay(t).Some?
    ensures MatchDay(t).value.DayShape? && Pieces(t, MatchDay(t).value)
  {
  }

  lemma MatchMonthPieces(t: string)
    requires MatchMonth(t).Some?
    ensures MatchMonth(t).value.MonthShape? && Pieces(t, MatchMonth(t).value)
  {
  }

  lemma MatchDecadeRelativePieces(t: string)
    requires MatchDecadeRelative(t).Some?
    ensures MatchDecadeRelative(t).value.DecadeRelativeShape? && Pieces(t, MatchDecadeRelative(t).value)
  {
  }

  lemma MatchDecadeAbsolutePieces(t: string)
    requires MatchDecadeAbsolute(t).Some?
    ensures MatchDecadeAbsolute(t).value.DecadeAbsoluteShape? && Pieces(t, MatchDecadeAbsolute(t).value)
  {
  }

  lemma MatchCenturyPieces(t: string)
    requires MatchCentury(t).Some?
    ensures MatchCentury(t).value.CenturyShape? && Pieces(t, MatchCentury(t).value)
  {
  }

  lemma MatchYearPieces(t: string)
    requires MatchYear(t).Some?
    ensures MatchYear(t).value.YearShape? && Pieces(t, MatchYear(t).value)
  {
  }

  /** Each matcher finds only shapes whose pieces are there. */
  lemma MatchPiecesSound(m: Mode, t: string)
    requires MatchPrefix(m, t).Some?
    ensures ModeOf(MatchPrefix(m, t).value) == m && Pieces(t, MatchPrefix(m, t).value)
  {
    match m {
      case Day => MatchDayPieces(t);
      case Month => MatchMonthPieces(t);
      case DecadeRelative => MatchDecadeRelativePieces(t);
      case DecadeAbsolute => MatchDecadeAbsolutePieces(t);
      case Century => MatchCenturyPieces(t);
      case Year => MatchYearPieces(t);
    }
  }

  lemma DayPiecesMatch(t: string, dd: string, m: int, yd: string, bce: bool)
    requires Pieces(t, DayShape(dd, m, yd, bce))
    ensures MatchDay(t) == Some(DayShape(dd, m, yd, bce))
  {
    OrdinalPrefixOf(t, dd);
    DayAfterMatch(t, dd, m, yd, bce);
  }

  lemma DayAfterMatch(t: string, dd: string, m: int, yd: string, bce: bool)
    requires Pieces(t, DayShape(dd, m, yd, bce))
    ensures MatchDayAfter(t, dd) == Some(DayShape(dd, m, yd, bce))
  {
    MonthNameAtOf(t[|dd| + 2..], m);
    DayYearMatch(t, dd, m, yd, bce);
  }

  lemma DayYearMatch(t: string, dd: string, m: int, yd: string, bce: bool)
    requires 1 <= m <= 12 && YearPieces(t, |dd| + 2 + |MonthName(m)|, yd, bce)
    ensures MatchDayYear(t, dd, m) == Some(DayShape(dd, m, yd, bce))
  {
    YearPiecesMatch(t, |dd| + 2 + |MonthName(m)|, yd, bce);
  }

  lemma MonthPiecesMatch(t: string, m: int, yd: string, bce: bool)
    requires Pieces(t, MonthShape(m, yd, bce))
    ensures MatchMonth(t) == Some(MonthShape(m, yd, bce))
  {
    MonthNameAtOf(t, m);
    YearPiecesMatch(t, |MonthName(m)|, yd, bce);
  }

  lemma DecadeRelativePiecesMatch(t: string, dd: string, pl: bool, cd: string, w: CenturyWord, bce: bool)
    requires Pieces(t, DecadeRelativeShape(dd, pl, cd, w, bce))
    ensures MatchDecadeRelative(t) == Some(DecadeRelativeShape(dd, pl, cd, w, bce))
  {
    DecadePiecesMatch(t, dd, pl);
    OfCenturyPiecesMatch(t, |DecadeText(dd, pl)|, cd, w);
  }

  lemma DecadeAbsolutePiecesMatch(t: string, dd: string, pl: bool, bce: bool)
    requires Pieces(t, DecadeAbsoluteShape(dd, pl, bce))
    ensures MatchDecadeAbsolute(t) == Some(DecadeAbsoluteShape(dd, pl, bce))
  {
    DecadePiecesMatch(t, dd, pl);
  }

  lemma CenturyPiecesMatch(t: string, cd: string, gen: bool, bce: bool)
    requires Pieces(t, CenturyShape(cd, gen, bce))
    ensures MatchCentury(t) == Some(CenturyShape(cd, gen, bce))
  {
    OrdinalPrefixOf(t, cd);
  }

  lemma YearShapePiecesMatch(t: string, yd: string, bce: bool)
    requires Pieces(t, YearShape(yd, bce))
    ensures MatchYear(t) == Some(YearShape(yd, bce))
  {
    YearPiecesMatch(t, 4, yd, bce);
  }

  /** Each matcher finds every shape of its mode whose pieces are there. */
  lemma MatchPiecesComplete(t: string, sh: Shape)
    requires Pieces(t, sh)
    ensures MatchPrefix(ModeOf(sh), t) == Some(sh)
  {
    match sh {
      case DayShape(dd, m, yd, bce) => DayComplete(t, dd, m, yd, bce);
      case MonthShape(m, yd, bce) => MonthComplete(t, m, yd, bce);
      case DecadeRelativeShape(dd, pl, cd, w, bce) => DecadeRelativeComplete(t, dd, pl, cd, w, bce);
      case DecadeAbsoluteShape(dd, pl, bce) => DecadeAbsoluteComplete(t, dd, pl, bce);
      case CenturyShape(cd, gen, bce) => CenturyComplete(t, cd, gen, bce);
      case YearShape(yd, bce) => YearComplete(t, yd, bce);
    }
  }

  lemma DayComplete(t: string, dd: string, m: int, yd: string, bce: bool)
    requires Pieces(t, DayShape(dd, m, yd, bce))
    ensures MatchPrefix(Day, t) == Some(DayShape(dd, m, yd, bce))
  {
    DayPiecesMatch(t, dd, m, yd, bce);
    MatchPrefixDay(t);
  }

  lemma MonthComplete(t: string, m: int, yd: string, bce: bool)
    requires Pieces(t, MonthShape(m, yd, bce))
    ensures MatchPrefix(Month, t) == Some(MonthShape(m, yd, bce))
  {
    MonthPiecesMatch(t, m, yd, bce);
    MatchPrefixMonth(t);
  }

  lemma DecadeRelativeComplete(t: string, dd: string, pl: bool, cd: string, w: CenturyWord, bce: bool)
    requires Pieces(t, DecadeRelativeShape(dd, pl, cd, w, bce))
    ensures MatchPrefix(DecadeRelative, t) == Some(DecadeRelativeShape(dd, pl, cd, w, bce))
  {
    DecadeRelativePiecesMatch(t, dd, pl, cd, w, bce);
    MatchPrefixDecadeRelative(t);
  }

  lemma DecadeAbsoluteComplete(t: string, dd: string, pl: bool, bce: bool)
    requires Pieces(t, DecadeAbsoluteShape(dd, pl, bce))
    ensures MatchPrefix(DecadeAbsolute, t) == Some(DecadeAbsoluteShape(dd, pl, bce))
  {
    DecadeAbsolutePiecesMatch(t, dd, pl, bce);
    MatchPrefixDecadeAbsolute(t);
  }

  lemma CenturyComplete(t: string, cd: string, gen: bool, bce: bool)
    requires Pieces(t, CenturyShape(cd, gen, bce))
    ensures MatchPrefix(Century, t) == Some(CenturyShape(cd, gen, bce))
  {
    CenturyPiecesMatch(t, cd, gen, bce);
    MatchPrefixCentury(t);
  }

  lemma YearComplete(t: string, yd: string, bce: bool)
    requires Pieces(t, YearShape(yd, bce))
    ensures MatchPrefix(Year, t) == Some(YearShape(yd, bce))
  {
    YearShapePiecesMatch(t, yd, bce);
    MatchPrefixYear(t);
  }

  /** A literal sits at the head of `t` exactly when its body does and the era
      marker follows it. */
  lemma RenderPrefix(t: string, sh: Shape)
    requires WellFormed(sh)
    ensures Render(sh) <= t <==> Body(sh) <= t && Era(sh.bce) <= t[|Body(sh)|..]
  {
    assert t[0..] == t;
    if Render(sh) <= t {
      PrefixSplit(t, 0, Body(sh), Era(sh.bce));
    }
    if Body(sh) <= t && Era(sh.bce) <= t[|Body(sh)|..] {
      PrefixAt(t, 0, Body(sh), Era(sh.bce));
    }
  }

  /** The era marker is present and greedily taken exactly when the flag says so. */
  lemma EraExact(after: string, bce: bool)
    ensures (Era(bce) <= after && (bce || !EraAt(after))) <==> bce == EraAt(after)
  {
  }

  /** A word, a space and a year numeral, for any word. */
  lemma WordYearCat(t: string, i: nat, w: string, yd: string)
    requires i <= |t|
    ensures w + YearText(yd) <= t[i..] <==>
      w <= t[i..] && " " <= t[i + |w|..] && yd <= t[i + |w| + 1..]
  {
    Cat(t, i, w, " " + yd);
    if i + |w| <= |t| {
      Cat(t, i + |w|, " ", yd);
    }
  }

  /** The parts of a Day body, for any month name. */
  lemma DayCat(t: string, dd: string, mn: string, yd: string)
    ensures dd + ("." + (" " + (mn + YearText(yd)))) <= t <==>
      && dd + "." <= t && " " <= t[|dd| + 1..] && mn <= t[|dd| + 2..]
      && " " <= t[|dd| + 2 + |mn|..] && yd <= t[|dd| + 3 + |mn|..]
  {
    var x := mn + YearText(yd);
    assert t[0..] == t;
    Cat(t, 0, dd, "." + (" " + x));
    Cat(t, 0, dd, ".");
    if |dd| <= |t| {
      Cat(t, |dd|, ".", " " + x);
      if |dd| + 1 <= |t| {
        Cat(t, |dd| + 1, " ", x);
        if |dd| + 2 <= |t| {
          WordYearCat(t, |dd| + 2, mn, yd);
        }
      }
    }
  }

  lemma PiecesGreedyDay(t: string, dd: string, m: int, yd: string, bce: bool)
    requires WellFormed(DayShape(dd, m, yd, bce))
    ensures Pieces(t, DayShape(dd, m, yd, bce)) <==> Greedy(t, DayShape(dd, m, yd, bce))
  {
    var sh := DayShape(dd, m, yd, bce);
    var mn := MonthName(m);
    var e := |dd| + 3 + |mn| + |yd|;
    assert |Body(sh)| == e;
    assert Body(sh) <= t <==>
      && dd + "." <= t && " " <= t[|dd| + 1..] && mn <= t[|dd| + 2..]
      && " " <= t[|dd| + 2 + |mn|..] && yd <= t[|dd| + 3 + |mn|..]
    by {
      DayCat(t, dd, mn, yd);
    }
    RenderPrefix(t, sh);
    if e <= |t| {
      EraExact(t[e..], bce);
    }
  }

  lemma PiecesGreedyMonth(t: string, m: int, yd: string, bce: bool)
    requires WellFormed(MonthShape(m, yd, bce))
    ensures Pieces(t, MonthShape(m, yd, bce)) <==> Greedy(t, MonthShape(m, yd, bce))
  {
    var sh := MonthShape(m, yd, bce);
    var mn := MonthName(m);
    var e := |mn| + 1 + |yd|;
    assert |Body(sh)| == e;
    assert t[0..] == t;
    assert Body(sh) <= t <==> mn <= t && " " <= t[|mn|..] && yd <= t[|mn| + 1..] by {
      WordYearCat(t, 0, mn, yd);
    }
    RenderPrefix(t, sh);
    if e <= |t| {
      EraExact(t[e..], bce);
    }
  }

  lemma PiecesGreedyYear(t: string, yd: string, bce: bool)
    requires WellFormed(YearShape(yd, bce))
    ensures Pieces(t, YearShape(yd, bce)) <==> Greedy(t, YearShape(yd, bce))
  {
    var sh := YearShape(yd, bce);
    var e := 5 + |yd|;
    assert |Body(sh)| == e;
    assert t[0..] == t;
    assert Body(sh) <= t <==> "Jahr" <= t && " " <= t[4..] && yd <= t[5..] by {
      WordYearCat(t, 0, "Jahr", yd);
    }
    RenderPrefix(t, sh);
    if e <= |t| {
      EraExact(t[e..], bce);
    }
  }

  lemma PiecesGreedyDecadeAbsolute(t: string, dd: string, pl: bool, bce: bool)
    requires WellFormed(DecadeAbsoluteShape(dd, pl, bce))
    ensures Pieces(t, DecadeAbsoluteShape(dd, pl, bce)) <==> Greedy(t, DecadeAbsoluteShape(dd, pl, bce))
  {
    var sh := DecadeAbsoluteShape(dd, pl, bce);
    RenderPrefix(t, sh);
    DecadePiecesText(t, dd, pl);
    var e := |DecadeText(dd, pl)|;
    if e <= |t| {
      EraExact(t[e..], bce);
    }
  }

  lemma PiecesGreedyDecadeRelative(t: string, dd: string, pl: bool, cd: string, w: CenturyWord, bce: bool)
    requires WellFormed(DecadeRelativeShape(dd, pl, cd, w, bce))
    ensures Pieces(t, DecadeRelativeShape(dd, pl, cd, w, bce)) <==>
      Greedy(t, DecadeRelativeShape(dd, pl, cd, w, bce))
  {
    if Pieces(t, DecadeRelativeShape(dd, pl, cd, w, bce)) {
      DecadeRelativeGreedyOfPieces(t, dd, pl, cd, w, bce);
    }
    if Greedy(t, DecadeRelativeShape(dd, pl, cd, w, bce)) {
      DecadeRelativePiecesOfGreedy(t, dd, pl, cd, w, bce);
    }
  }

  lemma DecadeRelativeGreedyOfPieces(t: string, dd: string, pl: bool, cd: string, w: CenturyWord, bce: bool)
    requires WellFormed(DecadeRelativeShape(dd, pl, cd, w, bce))
    requires Pieces(t, DecadeRelativeShape(dd, pl, cd, w, bce))
    ensures Greedy(t, DecadeRelativeShape(dd, pl, cd, w, bce))
  {
    var sh := DecadeRelativeShape(dd, pl, cd, w, bce);
    DecadeRelativeTextOfPieces(t, dd, pl, cd, w);
    EraExact(t[|Body(sh)|..], bce);
    RenderPrefix(t, sh);
  }

  lemma DecadeRelativeTextOfPieces(t: string, dd: string, pl: bool, cd: string, w: CenturyWord)
    requires DecadePieces(t, dd, pl) && OfCenturyPieces(t, |DecadeText(dd, pl)|, cd, w)
    ensures DecadeText(dd, pl) + OfCenturyText(cd, w) <= t
    ensures w != Nominative || !("s" <= t[|DecadeText(dd, pl) + OfCenturyText(cd, w)|..])
  {
    var head, tail := DecadeText(dd, pl), OfCenturyText(cd, w);
    DecadePiecesText(t, dd, pl);
    OfCenturyPiecesText(t, |head|, cd, w);
    assert t[0..] == t;
    PrefixAt(t, 0, head, tail);
  }

  lemma DecadeRelativePiecesOfGreedy(t: string, dd: string, pl: bool, cd: string, w: CenturyWord, bce: bool)
    requires Greedy(t, DecadeRelativeShape(dd, pl, cd, w, bce))
    ensures Pieces(t, DecadeRelativeShape(dd, pl, cd, w, bce))
  {
    var sh := DecadeRelativeShape(dd, pl, cd, w, bce);
    var head, tail := DecadeText(dd, pl), OfCenturyText(cd, w);
    var q := |head|;
    RenderPrefix(t, sh);
    assert head <= t && tail <= t[q..] by {
      assert t[0..] == t;
      PrefixSplit(t, 0, head, tail);
    }
    assert DecadePieces(t, dd, pl) by {
      if !pl {
        assert t[q] == ' ';
      }
      DecadePiecesText(t, dd, pl);
    }
    assert OfCenturyPieces(t, q, cd, w) by {
      OfCenturyPiecesText(t, q, cd, w);
    }
    EraExact(t[q + |tail|..], bce);
  }

  /** The parts of a Century body, for any ending. */
  lemma CenturyCat(t: string, cd: string, s: string)
    ensures cd + ("." + (" Jahrhundert" + s)) <= t <==>
      cd + "." <= t && " Jahrhundert" <= t[|cd| + 1..] && s <= t[|cd| + 13..]
  {
    assert t[0..] == t;
    Cat(t, 0, cd, "." + (" Jahrhundert" + s));
    Cat(t, 0, cd, ".");
    if |cd| <= |t| {
      Cat(t, |cd|, ".", " Jahrhundert" + s);
      if |cd| + 1 <= |t| {
        Cat(t, |cd| + 1, " Jahrhundert", s);
      }
    }
  }

  lemma PiecesGreedyCentury(t: string, cd: string, gen: bool, bce: bool)
    requires WellFormed(CenturyShape(cd, gen, bce))
    ensures Pieces(t, CenturyShape(cd, gen, bce)) <==> Greedy(t, CenturyShape(cd, gen, bce))
  {
    var sh := CenturyShape(cd, gen, bce);
    var s := Optional(gen, "s");
    var e := |cd| + 13 + |s|;
    assert |Body(sh)| == e;
    CenturyCat(t, cd, s);
    RenderPrefix(t, sh);
    if e <= |t| {
      EraExact(t[e..], bce);
    }
  }



  /** For a well-formed shape, its pieces are there exactly when it is the greedy
      parse of the text. */
  lemma PiecesGreedy(t: string, sh: Shape)
    requires WellFormed(sh)
    ensures Pieces(t, sh) <==> Greedy(t, sh)
  {
    match sh {
      case DayShape(dd, m, yd, bce) => PiecesGreedyDay(t, dd, m, yd, bce);
      case MonthShape(m, yd, bce) => PiecesGreedyMonth(t, m, yd, bce);
      case DecadeRelativeShape(dd, pl, cd, w, bce) => PiecesGreedyDecadeRelative(t, dd, pl, cd, w, bce);
      case DecadeAbsoluteShape(dd, pl, bce) => PiecesGreedyDecadeAbsolute(t, dd, pl, bce);
      case CenturyShape(cd, gen, bce) => PiecesGreedyCentury(t, cd, gen, bce);
      case YearShape(yd, bce) => PiecesGreedyYear(t, yd, bce);
    }
  }

  /** Pieces imply well-formedness. */
  lemma PiecesWellFormed(t: string, sh: Shape)
    requires Pieces(t, sh)
    ensures WellFormed(sh)
  {
  }

  /** The matcher registered for a mode finds a literal at the head of `t` exactly
      when that literal is the greedy parse of `t` in that mode's grammar. */
  lemma MatchCharacterised(m: Mode, t: string, sh: Shape)
    ensures MatchPrefix(m, t) == Some(sh) <==> ModeOf(sh) == m && Greedy(t, sh)
  {
    if MatchPrefix(m, t) == Some(sh) {
      MatchPiecesSound(m, t);
      PiecesGreedy(t, sh);
    }
    if ModeOf(sh) == m && Greedy(t, sh) {
      PiecesGreedy(t, sh);
      MatchPiecesComplete(t, sh);
    }
  }
}
