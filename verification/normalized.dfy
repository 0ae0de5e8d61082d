/** The `normalized` spelling the `TemporalRef` constructor stores: the five
    replacements of `Resolver.Normalize`, worked out for every literal the
    patterns accept. */
module Normalized {
  import opened Text
  import opened Calendar
  import opened Literals
  import opened Resolver

  /** The spelling a literal is normalized to: "Jahr " dropped, the plural
      "Jahren" made "Jahre", every spelling of the century word made "Jh.", and
      the digits, the month names and the era marker kept as they are. */
  function ExpectedNormalized(sh: Shape): string
    requires WellFormed(sh)
  {
    match sh
    case DayShape(_, _, _, _) => Render(sh)
    case MonthShape(_, _, _) => Render(sh)
    case YearShape(yd, bce) => yd + Era(bce)
    case CenturyShape(cd, _, bce) => cd + ". Jh." + Era(bce)
    case DecadeAbsoluteShape(dd, _, bce) => dd + "er Jahre" + Era(bce)
    case DecadeRelativeShape(dd, _, cd, _, bce) => dd + "er Jahre des " + cd + ". Jh." + Era(bce)
  }

  // ---------------------------------------------------------------------------
  // The five replacements on pieces of a literal
  // ---------------------------------------------------------------------------

  /** Every pattern of the five has an "h" or an "H": a text without either is
      left as it is. */
  lemma NormalizeFree(s: string)
    requires 'h' !in s && 'H' !in s
    ensures Normalize(s) == s
  {
    ReplaceAbsent(s, "Jahr ", "", 2);
    ReplaceAbsent(s, "er Jahren", "er Jahre", 5);
    ReplaceAbsent(s, "Jahrhunderts", "Jh.", 2);
    ReplaceAbsent(s, "Jahrhundert", "Jh.", 2);
    ReplaceAbsent(s, " JH", " Jh.", 2);
  }

  /** Every pattern starts with "J", "e" or a space: a text without these is
      copied, and the rest is normalized on its own. */
  lemma NormalizePrefix(a: string, b: string)
    requires 'J' !in a && 'e' !in a && ' ' !in a
    ensures Normalize(a + b) == a + Normalize(b)
  {
    ReplaceSkip(a, b, "Jahr ", "");
    var b1 := Replace(b, "Jahr ", "");
    ReplaceSkip(a, b1, "er Jahren", "er Jahre");
    var b2 := Replace(b1, "er Jahren", "er Jahre");
    ReplaceSkip(a, b2, "Jahrhunderts", "Jh.");
    var b3 := Replace(b2, "Jahrhunderts", "Jh.");
    ReplaceSkip(a, b3, "Jahrhundert", "Jh.");
    var b4 := Replace(b3, "Jahrhundert", "Jh.");
    ReplaceSkip(a, b4, " JH", " Jh.");
  }

  /** No pattern holds a digit, so no replacement reaches across into a text
      that starts with one. */
  lemma NormalizeCut(a: string, b: string)
    requires |b| > 0 && IsDigit(b[0])
    ensures Normalize(a + b) == Normalize(a) + Normalize(b)
  {
    ReplaceCut(a, b, "Jahr ", "");
    ReplaceKeepsHead(b, "Jahr ", "");
    var a1, b1 := Replace(a, "Jahr ", ""), Replace(b, "Jahr ", "");
    ReplaceCut(a1, b1, "er Jahren", "er Jahre");
    ReplaceKeepsHead(b1, "er Jahren", "er Jahre");
    var a2, b2 := Replace(a1, "er Jahren", "er Jahre"), Replace(b1, "er Jahren", "er Jahre");
    ReplaceCut(a2, b2, "Jahrhunderts", "Jh.");
    ReplaceKeepsHead(b2, "Jahrhunderts", "Jh.");
    var a3, b3 := Replace(a2, "Jahrhunderts", "Jh."), Replace(b2, "Jahrhunderts", "Jh.");
    ReplaceCut(a3, b3, "Jahrhundert", "Jh.");
    ReplaceKeepsHead(b3, "Jahrhundert", "Jh.");
    var a4, b4 := Replace(a3, "Jahrhundert", "Jh."), Replace(b3, "Jahrhundert", "Jh.");
    ReplaceCut(a4, b4, " JH", " Jh.");
  }

  lemma DigitsPlain(d: string)
    requires AllDigits(d)
    ensures 'h' !in d && 'H' !in d && 'J' !in d && 'e' !in d && ' ' !in d
  {
  }

  lemma MonthNamePlain(m: int)
    requires 1 <= m <= 12
    ensures 'h' !in MonthName(m) && 'H' !in MonthName(m)
  {
  }

  // ---------------------------------------------------------------------------
  // The words around the numbers
  // ---------------------------------------------------------------------------

  /** What may follow a decade word: no letter the later patterns need, and a
      space at its head if anything. */
  predicate DecadeTail(t: string) {
    'J' !in t && 'u' !in t && 'H' !in t && (|t| == 0 || t[0] == ' ')
  }

  /** "er Jahre" or "er Jahren" before a text that starts with a space: the
      plural loses its "n". */
  lemma DecadeWordNormalized(pl: bool, t: string)
    requires DecadeTail(t)
    ensures Normalize("er Jahre" + Optional(pl, "n") + t) == "er Jahre" + t
  {
    if pl {
      assert "er Jahre" + Optional(pl, "n") + t == "er Jahren" + t;
      PluralNormalized(t);
    } else {
      assert "er Jahre" + Optional(pl, "n") + t == "er Jahre" + t;
      SingularNormalized(t);
    }
  }

  lemma PluralNormalized(t: string)
    requires DecadeTail(t)
    ensures Normalize("er Jahren" + t) == "er Jahre" + t
  {
    var s := "er Jahren" + t;
    var plain := "er Jahre" + t;
    assert s == "er " + "Jahren" + t;
    JahrKept("er ", "Jahren", t);
    assert s == [] + "er Jahren" + t;
    ReplaceOnce([], t, "er Jahren", "er Jahre", 3);
    PlainTail(t);
    NormalizeSteps(s, s, plain, plain, plain);
  }

  lemma SingularNormalized(t: string)
    requires DecadeTail(t)
    ensures Normalize("er Jahre" + t) == "er Jahre" + t
  {
    var s := "er Jahre" + t;
    assert s == "er " + "Jahre" + t;
    JahrKept("er ", "Jahre", t);
    SingularSecond(t);
    PlainTail(t);
    NormalizeSteps(s, s, s, s, s);
  }

  /** "er Jahre" followed by a space or by nothing is no occurrence of "er Jahren". */
  lemma SingularSecond(t: string)
    requires DecadeTail(t)
    ensures Replace("er Jahre" + t, "er Jahren", "er Jahre") == "er Jahre" + t
  {
    var et := ['e'] + t;
    SingularNoHead(t);
    assert "er Jahre" == ['e'] + "r Jahr" + ['e'];
    assert "er Jahre" + t == ['e'] + "r Jahr" + et;
    assert et == ['e'] + [] + t;
    ReplaceMiss('e', "r Jahr", et, "er Jahren", "er Jahre");
    ReplaceMiss('e', [], t, "er Jahren", "er Jahre");
    ReplaceAbsent(t, "er Jahren", "er Jahre", 3);
  }

  /** Neither "e" of "er Jahre" starts an "er Jahren" when a space or nothing follows. */
  lemma SingularNoHead(t: string)
    requires DecadeTail(t)
    ensures !("er Jahren" <= "er Jahre" + t) && !("er Jahren" <= ['e'] + t)
  {
    if |t| > 0 {
      assert ("er Jahre" + t)[8] == ' ';
      assert (['e'] + t)[1] == ' ';
    }
  }

  /** The last three replacements leave "er Jahre" and what follows it alone. */
  lemma PlainTail(t: string)
    requires DecadeTail(t)
    ensures var plain := "er Jahre" + t;
      Replace(plain, "Jahrhunderts", "Jh.") == plain && Replace(plain, "Jahrhundert", "Jh.") == plain &&
      Replace(plain, " JH", " Jh.") == plain
  {
    var plain := "er Jahre" + t;
    ReplaceAbsent(plain, "Jahrhunderts", "Jh.", 5);
    ReplaceAbsent(plain, "Jahrhundert", "Jh.", 5);
    ReplaceAbsent(plain, " JH", " Jh.", 2);
  }

  /** The five replacements, one after the other. */
  lemma NormalizeSteps(s: string, s1: string, s2: string, s3: string, s4: string)
    requires Replace(s, "Jahr ", "") == s1
    requires Replace(s1, "er Jahren", "er Jahre") == s2
    requires Replace(s2, "Jahrhunderts", "Jh.") == s3
    requires Replace(s3, "Jahrhundert", "Jh.") == s4
    ensures Normalize(s) == Replace(s4, " JH", " Jh.")
  {
  }

  /** What the era marker, present or not, lacks: the letters the century words
      are recognised by, and anything but a space at its head. */
  predicate EraLike(e: string) {
    'J' !in e && 'a' !in e && 'e' !in e && 'h' !in e && 'H' !in e && 'u' !in e && (|e| == 0 || e[0] == ' ')
  }

  lemma EraPlain(bce: bool)
    ensures EraLike(Era(bce))
  {
  }

  /** " Jahrhundert" or " Jahrhunderts", with or without the era marker, becomes
      " Jh.". */
  lemma CenturyWordNormalized(gen: bool, bce: bool)
    ensures Normalize(" Jahrhundert" + Optional(gen, "s") + Era(bce)) == " Jh." + Era(bce)
  {
    EraPlain(bce);
    if gen {
      assert " Jahrhundert" + Optional(gen, "s") + Era(bce) == " Jahrhunderts" + Era(bce);
      GenitiveNormalized(Era(bce));
    } else {
      assert " Jahrhundert" + Optional(gen, "s") + Era(bce) == " Jahrhundert" + Era(bce);
      NominativeNormalized(Era(bce));
    }
  }

  /** The genitive is replaced by the third step. */
  lemma GenitiveNormalized(e: string)
    requires EraLike(e)
    ensures Normalize(" Jahrhunderts" + e) == " Jh." + e
  {
    var s := " Jahrhunderts" + e;
    GenitiveKept(e);
    GenitiveReplaced(e);
    AbbreviationKept(e);
    NormalizeSteps(s, s, s, " Jh." + e, " Jh." + e);
  }

  /** The first two steps leave the genitive alone. */
  lemma GenitiveKept(e: string)
    requires EraLike(e)
    ensures Replace(" Jahrhunderts" + e, "Jahr ", "") == " Jahrhunderts" + e
    ensures Replace(" Jahrhunderts" + e, "er Jahren", "er Jahre") == " Jahrhunderts" + e
  {
    GenitiveTail(e);
    CenturyWordNoJahr("s" + e);
    CenturyWordNoDecade("s" + e);
  }

  /** The third step replaces the genitive. */
  lemma GenitiveReplaced(e: string)
    requires EraLike(e)
    ensures Replace(" Jahrhunderts" + e, "Jahrhunderts", "Jh.") == " Jh." + e
  {
    LeadingSpace(e);
    ReplaceOnce(" ", e, "Jahrhunderts", "Jh.", 0);
  }

  /** The last two steps leave the abbreviation alone. */
  lemma AbbreviationKept(e: string)
    requires EraLike(e)
    ensures Replace(" Jh." + e, "Jahrhundert", "Jh.") == " Jh." + e
    ensures Replace(" Jh." + e, " JH", " Jh.") == " Jh." + e
  {
    ReplaceAbsent(" Jh." + e, "Jahrhundert", "Jh.", 1);
    ReplaceAbsent(" Jh." + e, " JH", " Jh.", 2);
  }

  /** The nominative is no occurrence of the genitive, and is replaced by the
      fourth step. */
  lemma NominativeNormalized(e: string)
    requires EraLike(e)
    ensures Normalize(" Jahrhundert" + e) == " Jh." + e
  {
    var s := " Jahrhundert" + e;
    CenturyWordNoJahr(e);
    CenturyWordNoDecade(e);
    NominativeThird(e);
    NominativeReplaced(e);
    AbbreviationKept(e);
    NormalizeSteps(s, s, s, s, " Jh." + e);
  }

  /** The fourth step replaces the nominative. */
  lemma NominativeReplaced(e: string)
    requires EraLike(e)
    ensures Replace(" Jahrhundert" + e, "Jahrhundert", "Jh.") == " Jh." + e
  {
    LeadingSpace(e);
    ReplaceOnce(" ", e, "Jahrhundert", "Jh.", 0);
  }

  /** The genitive is the nominative followed by "s", which adds neither a "J"
      nor an "e". */
  lemma GenitiveTail(e: string)
    requires EraLike(e)
    ensures " Jahrhunderts" + e == " Jahrhundert" + ("s" + e)
    ensures 'J' !in "s" + e && 'e' !in "s" + e
  {
    assert " Jahrhunderts" == " Jahrhundert" + "s";
    assert ("s" + e)[0] == 's' && ("s" + e)[1..] == e;
  }

  /** The century words and their abbreviation, after their leading space. */
  lemma LeadingSpace(e: string)
    ensures " Jahrhunderts" + e == " " + "Jahrhunderts" + e
    ensures " Jahrhundert" + e == " " + "Jahrhundert" + e
    ensures " Jh." + e == " " + "Jh." + e
  {
    assert " Jahrhunderts" == " " + "Jahrhunderts";
    assert " Jahrhundert" == " " + "Jahrhundert";
    assert " Jh." == " " + "Jh.";
  }

  /** The first step leaves a century word alone: "Jahr" is followed by "h". */
  lemma CenturyWordNoJahr(x: string)
    requires 'J' !in x
    ensures Replace(" Jahrhundert" + x, "Jahr ", "") == " Jahrhundert" + x
  {
    assert " Jahrhundert" + x == " " + "Jahrhundert" + x;
    JahrKept(" ", "Jahrhundert", x);
  }

  /** The second step leaves a century word alone: its only "e" is followed by
      "rt". */
  lemma CenturyWordNoDecade(x: string)
    requires 'e' !in x
    ensures Replace(" Jahrhundert" + x, "er Jahren", "er Jahre") == " Jahrhundert" + x
  {
    assert " Jahrhundert" + x == " Jahrhund" + "ert" + x;
    assert ("ert" + x)[2] == 't';
    ReplaceKeeps(" Jahrhund", "ert", x, "er Jahren", "er Jahre");
  }

  /** Without its "s" the nominative is no occurrence of the genitive. */
  lemma NominativeThird(e: string)
    requires EraLike(e)
    ensures Replace(" Jahrhundert" + e, "Jahrhunderts", "Jh.") == " Jahrhundert" + e
  {
    var w := ['J'] + "ahrhundert" + e;
    assert " Jahrhundert" + e == " " + w;
    if |e| > 0 {
      assert w[11] == ' ';
    }
    ReplaceSkip(" ", w, "Jahrhunderts", "Jh.");
    ReplaceMiss('J', "ahrhundert", e, "Jahrhunderts", "Jh.");
    ReplaceAbsent(e, "Jahrhunderts", "Jh.", 0);
  }

  /** "Jahr " does not occur in a word that starts with the only "J" around and
      has no space after "Jahr". */
  lemma JahrKept(a: string, w: string, t: string)
    requires 'J' !in a && 'J' !in t && |w| >= 5 && w[0] == 'J' && 'J' !in w[1..] && w[4] != ' '
    ensures Replace(a + w + t, "Jahr ", "") == a + w + t
  {
    assert (w + t)[4] == w[4];
    ReplaceKeeps(a, w, t, "Jahr ", "");
  }

  /** " JH", with or without the era marker, becomes " Jh.". */
  lemma AbbreviatedNormalized(bce: bool)
    ensures Normalize(" JH" + Era(bce)) == " Jh." + Era(bce)
  {
    AbbreviatedChain(Era(bce));
  }

  lemma AbbreviatedChain(e: string)
    requires 'J' !in e && 'e' !in e && 'a' !in e
    ensures Normalize(" JH" + e) == " Jh." + e
  {
    var s := " JH" + e;
    AbbreviatedFirst(e);
    ReplaceAbsent(s, "er Jahren", "er Jahre", 0);
    ReplaceAbsent(s, "Jahrhunderts", "Jh.", 1);
    ReplaceAbsent(s, "Jahrhundert", "Jh.", 1);
    NormalizeSteps(s, s, s, s, s);
    ReplaceHead(" JH", e, " Jh.");
    ReplaceAbsent(e, " JH", " Jh.", 1);
  }

  lemma AbbreviatedFirst(e: string)
    requires 'J' !in e
    ensures Replace(" JH" + e, "Jahr ", "") == " JH" + e
  {
    assert " JH" + e == " " + (['J'] + "H" + e);
    ReplaceSkip(" ", ['J'] + "H" + e, "Jahr ", "");
    assert (['J'] + "H" + e)[1] == 'H';
    ReplaceMiss('J', "H", e, "Jahr ", "");
    ReplaceAbsent(e, "Jahr ", "", 0);
  }

  // ---------------------------------------------------------------------------
  // Every literal the patterns accept
  // ---------------------------------------------------------------------------

  /** The normalized spelling of every literal a pattern accepts. */
  lemma NormalizeRender(sh: Shape)
    requires WellFormed(sh)
    ensures Normalize(Render(sh)) == ExpectedNormalized(sh)
  {
    match sh {
      case DayShape(dd, m, yd, bce) =>
        DigitsPlain(dd);
        DigitsPlain(yd);
        MonthNamePlain(m);
        NormalizeFree(Render(sh));
      case MonthShape(m, yd, bce) =>
        DigitsPlain(yd);
        MonthNamePlain(m);
        NormalizeFree(Render(sh));
      case YearShape(yd, bce) => YearNormalized(yd, bce);
      case CenturyShape(cd, gen, bce) => CenturyNormalized(cd, gen, bce);
      case DecadeAbsoluteShape(dd, pl, bce) => DecadeNormalized(dd, pl, bce);
      case DecadeRelativeShape(dd, pl, cd, w, bce) => RelativeNormalized(dd, pl, cd, w, bce);
    }
  }

  lemma YearNormalized(yd: string, bce: bool)
    requires Numeral(yd, 4)
    ensures Normalize(Render(YearShape(yd, bce))) == yd + Era(bce)
  {
    YearRendered(yd, bce);
    DigitsPlain(yd);
    YearChain(yd + Era(bce));
  }

  lemma YearRendered(yd: string, bce: bool)
    requires Numeral(yd, 4)
    ensures Render(YearShape(yd, bce)) == "Jahr " + (yd + Era(bce))
  {
  }

  /** "Jahr " is dropped, and the rest is left alone. */
  lemma YearChain(rest: string)
    requires 'J' !in rest && 'h' !in rest && 'H' !in rest
    ensures Normalize("Jahr " + rest) == rest
  {
    ReplaceHead("Jahr ", rest, "");
    ReplaceAbsent(rest, "Jahr ", "", 0);
    assert "" + rest == rest;
    NormalizeFree(rest);
  }

  lemma CenturyNormalized(cd: string, gen: bool, bce: bool)
    requires Numeral(cd, 2)
    ensures Normalize(Render(CenturyShape(cd, gen, bce))) == cd + ". Jh." + Era(bce)
  {
    CenturyRendered(cd, gen, bce);
    CenturyWordNormalized(gen, bce);
    CenturyChain(cd, " Jahrhundert" + Optional(gen, "s") + Era(bce), Era(bce));
  }

  lemma CenturyRendered(cd: string, gen: bool, bce: bool)
    requires Numeral(cd, 2)
    ensures Render(CenturyShape(cd, gen, bce)) == cd + "." + (" Jahrhundert" + Optional(gen, "s") + Era(bce))
  {
  }

  /** The number and its dot are kept in front of the normalized century word. */
  lemma CenturyChain(cd: string, word: string, e: string)
    requires AllDigits(cd) && Normalize(word) == " Jh." + e
    ensures Normalize(cd + "." + word) == cd + ". Jh." + e
  {
    DigitsPlain(cd);
    NormalizePrefix(cd + ".", word);
    assert cd + "." + (" Jh." + e) == cd + ". Jh." + e;
  }

  lemma DecadeNormalized(dd: string, pl: bool, bce: bool)
    requires Numeral(dd, 4)
    ensures Normalize(Render(DecadeAbsoluteShape(dd, pl, bce))) == dd + "er Jahre" + Era(bce)
  {
    DecadeRendered(dd, pl, bce);
    EraPlain(bce);
    DecadeWordNormalized(pl, Era(bce));
    DecadeChain(dd, "er Jahre" + Optional(pl, "n") + Era(bce), Era(bce));
  }

  lemma DecadeRendered(dd: string, pl: bool, bce: bool)
    requires Numeral(dd, 4)
    ensures Render(DecadeAbsoluteShape(dd, pl, bce)) == dd + ("er Jahre" + Optional(pl, "n") + Era(bce))
  {
  }

  lemma DecadeChain(dd: string, word: string, e: string)
    requires AllDigits(dd) && Normalize(word) == "er Jahre" + e
    ensures Normalize(dd + word) == dd + "er Jahre" + e
  {
    DigitsPlain(dd);
    NormalizePrefix(dd, word);
  }

  lemma RelativeNormalized(dd: string, pl: bool, cd: string, w: CenturyWord, bce: bool)
    requires Numeral(dd, 4) && Numeral(cd, 2)
    ensures Normalize(Render(DecadeRelativeShape(dd, pl, cd, w, bce))) ==
              dd + "er Jahre des " + cd + ". Jh." + Era(bce)
  {
    RelativeRendered(dd, pl, cd, w, bce);
    DecadeWordNormalized(pl, " des ");
    RelativeWordNormalized(w, bce);
    RelativeChain(dd, "er Jahre" + Optional(pl, "n") + " des ", cd, " " + WordText(w) + Era(bce), Era(bce));
  }

  lemma RelativeRendered(dd: string, pl: bool, cd: string, w: CenturyWord, bce: bool)
    requires Numeral(dd, 4) && Numeral(cd, 2)
    ensures Render(DecadeRelativeShape(dd, pl, cd, w, bce)) ==
              dd + (("er Jahre" + Optional(pl, "n") + " des ") + (cd + "." + (" " + WordText(w) + Era(bce))))
  {
    var x := "er" + (" Jahre" + Optional(pl, "n"));
    assert x == "er Jahre" + Optional(pl, "n");
    assert Render(DecadeRelativeShape(dd, pl, cd, w, bce)) ==
             (dd + x) + (" des " + (cd + ("." + (" " + WordText(w))))) + Era(bce);
    Regroup7(dd, x, " des ", cd, ".", " " + WordText(w), Era(bce));
  }

  lemma Regroup7(a: string, x: string, c: string, d: string, p: string, q: string, f: string)
    ensures (a + x) + (c + (d + (p + q))) + f == a + ((x + c) + ((d + p) + (q + f)))
  {
  }

  /** The decade number, the normalized decade word, the century number and its
      dot, and the normalized century word, in that order. */
  lemma RelativeChain(dd: string, decade: string, cd: string, word: string, e: string)
    requires AllDigits(dd) && Numeral(cd, 2)
    requires Normalize(decade) == "er Jahre des " && Normalize(word) == " Jh." + e
    ensures Normalize(dd + (decade + (cd + "." + word))) == dd + "er Jahre des " + cd + ". Jh." + e
  {
    DigitsPlain(dd);
    NormalizePrefix(dd, decade + (cd + "." + word));
    NormalizeCut(decade, cd + "." + word);
    CenturyChain(cd, word, e);
  }

  /** The three spellings of the century word after a relative decade. */
  lemma RelativeWordNormalized(w: CenturyWord, bce: bool)
    ensures Normalize(" " + WordText(w) + Era(bce)) == " Jh." + Era(bce)
  {
    match w {
      case Abbreviated =>
        assert " " + WordText(w) + Era(bce) == " JH" + Era(bce);
        AbbreviatedNormalized(bce);
      case Nominative =>
        assert " " + WordText(w) + Era(bce) == " Jahrhundert" + Optional(false, "s") + Era(bce);
        CenturyWordNormalized(false, bce);
      case Genitive =>
        assert " " + WordText(w) + Era(bce) == " Jahrhundert" + Optional(true, "s") + Era(bce);
        CenturyWordNormalized(true, bce);
    }
  }
}
