/** `extractTemporalRefs`: the priority-restart scan over the six patterns, the
    constructor call for every match, and `toSet().sortedBy { it.mode }`. */
module Extraction {
  import opened Wrappers
  import opened Text
  import opened Calendar
  import opened Literals
  import opened Resolver
  import opened Normalized

  /** `regexToModes`, in the order `any` tries them. */
  const Registry: seq<Mode> := [Day, Month, DecadeRelative, DecadeAbsolute, Century, Year]

  lemma RegistryModes(m: Mode)
    ensures m in Registry
  {
  }

  // ---------------------------------------------------------------------------
  // Regex.find(input, startIndex)
  // ---------------------------------------------------------------------------

  /** A match of one pattern: the index it starts at and the parse of its text. */
  datatype Match = Match(start: nat, shape: Shape)

  /** The first index at or after `from` whose entry is present. */
  function Leftmost<T>(xs: seq<Option<T>>, from: nat): (r: Option<nat>)
    requires from <= |xs|
    ensures r.Some? ==> from <= r.value < |xs| && xs[r.value].Some?
    ensures r.Some? ==> forall p :: from <= p < r.value ==> xs[p].None?
    ensures r.None? ==> forall p :: from <= p < |xs| ==> xs[p].None?
    decreases |xs| - from
  {
    if from == |xs| then None
    else if xs[from].Some? then Some(from)
    else Leftmost(xs, from + 1)
  }

  /** What the pattern of `m` matches at each index of `t`, the end included. */
  function Attempts(m: Mode, t: string): (r: seq<Option<Shape>>)
    ensures |r| == |t| + 1
  {
    seq(|t| + 1, p requires 0 <= p <= |t| => MatchPrefix(m, t[p..]))
  }

  /** `Regex.find(t, from)`: the match of the pattern of `m` that starts leftmost
      at or after `from`. */
  function Find(m: Mode, t: string, from: nat): Option<Match>
    requires from <= |t|
  {
    var attempts := Attempts(m, t);
    match Leftmost(attempts, from)
    case None => None
    case Some(p) => Some(Match(p, attempts[p].value))
  }

  /** A found match starts at or after the cursor, the pattern matches there, and
      it matches nowhere between the cursor and that start; when nothing is found,
      the pattern matches nowhere at or after the cursor. */
  lemma FindLeftmost(m: Mode, t: string, from: nat)
    requires from <= |t|
    ensures Find(m, t, from).Some? ==>
      var f := Find(m, t, from).value;
      from <= f.start <= |t| && MatchPrefix(m, t[f.start..]) == Some(f.shape)
    ensures Find(m, t, from).Some? ==>
      forall p :: from <= p < Find(m, t, from).value.start ==> MatchPrefix(m, t[p..]).None?
    ensures Find(m, t, from).None? ==> forall p :: from <= p <= |t| ==> MatchPrefix(m, t[p..]).None?
  {
    var attempts := Attempts(m, t);
    forall p | from <= p <= |t|
      ensures attempts[p] == MatchPrefix(m, t[p..])
    {
    }
  }

  /** The text of a match ends inside `t`, is at least five characters long, and
      is the greedy parse of a well-formed literal of the pattern's mode. */
  lemma MatchedText(m: Mode, t: string, sh: Shape)
    requires MatchPrefix(m, t) == Some(sh)
    ensures WellFormed(sh) && ModeOf(sh) == m && Greedy(t, sh)
    ensures Render(sh) <= t && 5 <= |Render(sh)|
  {
    MatchCharacterised(m, t, sh);
    RenderLength(sh);
  }

  /** What each pattern, in registry order, finds from the cursor on. */
  function Finds(t: string, from: nat): (r: seq<Option<Match>>)
    requires from <= |t|
    ensures |r| == |Registry|
    ensures forall i :: 0 <= i < |Registry| ==> r[i] == Find(Registry[i], t, from)
  {
    seq(|Registry|, i requires 0 <= i < |Registry| => Find(Registry[i], t, from))
  }

  /** One evaluation of `regexToModes.any { … }`: the registry position of the
      first pattern that has a match at or after `from`, and that match. */
  function FirstFind(t: string, from: nat): (r: Option<(nat, Match)>)
    requires from <= |t|
    ensures r.Some? ==> r.value.0 < |Registry| && Find(Registry[r.value.0], t, from) == Some(r.value.1)
    ensures r.Some? ==> forall i :: 0 <= i < r.value.0 ==> Find(Registry[i], t, from).None?
    ensures r.None? ==> forall i :: 0 <= i < |Registry| ==> Find(Registry[i], t, from).None?
  {
    var finds := Finds(t, from);
    match Leftmost(finds, 0)
    case None => None
    case Some(k) => Some((k, finds[k].value))
  }

  // ---------------------------------------------------------------------------
  // The scan
  // ---------------------------------------------------------------------------

  /** What the loop passes to the `TemporalRef` constructor for one match, with
      the parse of the matched text. */
  datatype Hit = Hit(literal: string, mode: Mode, bce: bool, shape: Shape)

  /** `match.value.endsWith("vdZw", ignoreCase = true)` */
  predicate EraFlag(literal: string) {
    EndsWithIgnoreCase(literal, "vdZw")
  }

  /** A hit is what its parse renders to, in its parse's mode and era. */
  predicate Faithful(h: Hit) {
    WellFormed(h.shape) && h.literal == Render(h.shape) && h.mode == ModeOf(h.shape) && h.bce == h.shape.bce
  }

  /** A match `find` returns starts at or after the cursor, and the pattern
      matches there with the match's parse. */
  lemma FoundAt(m: Mode, t: string, from: nat, found: Match)
    requires from <= |t| && Find(m, t, from) == Some(found)
    ensures from <= found.start <= |t| && MatchPrefix(m, t[found.start..]) == Some(found.shape)
  {
    FindLeftmost(m, t, from);
  }

  /** The hit the loop records for a match: the matched text is the rendering of
      its parse and ends inside `t`, at least four characters after the cursor. */
  lemma HitOf(m: Mode, t: string, from: nat, start: nat, sh: Shape)
    requires from <= start <= |t| && MatchPrefix(m, t[start..]) == Some(sh)
    ensures WellFormed(sh)
    ensures WellFormed(sh) ==>
      var end := start + |Render(sh)|;
      from + 5 <= end <= |t| &&
      Faithful(Hit(t[start..end], m, EraFlag(t[start..end]), sh))
  {
    MatchRendered(m, t[start..], sh);
    RenderedHit(m, t, from, start, sh);
  }

  lemma RenderedHit(m: Mode, t: string, from: nat, start: nat, sh: Shape)
    requires from <= start <= |t| && WellFormed(sh) && ModeOf(sh) == m
    requires Render(sh) <= t[start..] && 5 <= |Render(sh)|
    ensures var end := start + |Render(sh)|;
      from + 5 <= end <= |t| &&
      Faithful(Hit(t[start..end], m, EraFlag(t[start..end]), sh))
  {
    SliceOfPrefix(t, start, Render(sh));
    EraFlagOfRender(sh);
  }

  lemma MatchRendered(m: Mode, t: string, sh: Shape)
    requires MatchPrefix(m, t) == Some(sh)
    ensures WellFormed(sh) && ModeOf(sh) == m && 5 <= |Render(sh)| && Render(sh) <= t
  {
    MatchedText(m, t, sh);
  }

  lemma SliceOfPrefix(t: string, start: nat, w: string)
    requires start <= |t| && w <= t[start..]
    ensures start + |w| <= |t| && t[start..start + |w|] == w
  {
    assert t[start..start + |w|] == t[start..][..|w|];
  }

  /** One iteration of the loop from cursor `from`: the first pattern in registry
      order with a match at or after the cursor wins, wherever that match is;
      the hit it records, and the cursor it moves to, the match's last character
      (`match.range.endInclusive`). */
  function Step(t: string, from: nat): (r: Option<(Hit, nat)>)
    requires from <= |t|
    ensures r.Some? ==> Faithful(r.value.0) && from < r.value.1 < |t|
  {
    match FirstFind(t, from)
    case None => None
    case Some((k, found)) =>
      var m := Registry[k];
      FoundAt(m, t, from, found);
      HitOf(m, t, from, found.start, found.shape);
      var end := found.start + |Render(found.shape)|;
      var literal := t[found.start..end];
      Some((Hit(literal, m, EraFlag(literal), found.shape), end - 1))
  }

  /** A round records a hit exactly when some pattern matches at or after the
      cursor; the hit is the text of the winning match, in the winning pattern's
      mode and with that match's parse, and the cursor moves to the match's last
      character, so the next round may reuse it. */
  lemma StepFound(t: string, from: nat)
    requires from <= |t|
    ensures Step(t, from).Some? <==> FirstFind(t, from).Some?
    ensures Step(t, from).Some? ==>
      var (k, found) := FirstFind(t, from).value;
      var (hit, cursor) := Step(t, from).value;
      && hit.mode == Registry[k]
      && hit.shape == found.shape
      && found.start + 4 <= cursor < |t|
      && hit.literal == t[found.start..cursor + 1]
  {
    if Step(t, from).Some? {
      var (hit, cursor) := Step(t, from).value;
      var p := FirstFind(t, from).value.1.start;
      StepAt(t, from);
      StepWinner(t, from);
      MatchRendered(hit.mode, t[p..], hit.shape);
    }
  }

  /** The hit of a round carries the winning pattern's mode and its match's parse. */
  lemma StepWinner(t: string, from: nat)
    requires from <= |t| && Step(t, from).Some?
    ensures Step(t, from).value.0.mode == Registry[FirstFind(t, from).value.0]
    ensures Step(t, from).value.0.shape == FirstFind(t, from).value.1.shape
  {
  }

  /** The `while` loop from cursor `from` on: the hits in the order the loop
      records them. */
  function Scan(t: string, from: nat): (r: seq<Hit>)
    requires from <= |t|
    ensures forall i :: 0 <= i < |r| ==> Faithful(r[i])
    decreases |t| - from
  {
    var step := Step(t, from);
    if step.None? then [] else [step.value.0] + Scan(t, step.value.1)
  }

  /** Where each hit of `Scan(t, from)` starts in `t`: the start of the match
      each round wins with. */
  function ScanStarts(t: string, from: nat): (r: seq<nat>)
    requires from <= |t|
    decreases |t| - from
  {
    match Step(t, from)
    case None => []
    case Some((_, cursor)) => [FirstFind(t, from).value.1.start] + ScanStarts(t, cursor)
  }

  /** Hit `h` is the text of `t` at `p`, where its pattern matches with its parse. */
  predicate HitAt(t: string, p: nat, h: Hit) {
    p + |h.literal| <= |t| && t[p..p + |h.literal|] == h.literal &&
    MatchPrefix(h.mode, t[p..]) == Some(h.shape)
  }

  /** The hit of one round lies in `t` at the start of the winning match, and the
      cursor is its last character. */
  lemma StepAt(t: string, from: nat)
    requires from <= |t| && Step(t, from).Some?
    ensures var (hit, cursor) := Step(t, from).value;
      var p := FirstFind(t, from).value.1.start;
      from <= p && HitAt(t, p, hit) && p + |hit.literal| - 1 == cursor
  {
    var (k, found) := FirstFind(t, from).value;
    FoundAt(Registry[k], t, from, found);
    MatchRendered(Registry[k], t[found.start..], found.shape);
    SliceOfPrefix(t, found.start, Render(found.shape));
  }

  /** One round of the scan and of its starts, unfolded. */
  lemma ScanUnfold(t: string, from: nat)
    requires from <= |t| && Step(t, from).Some?
    ensures var (hit, cursor) := Step(t, from).value;
      && Scan(t, from) == [hit] + Scan(t, cursor)
      && ScanStarts(t, from) == [FirstFind(t, from).value.1.start] + ScanStarts(t, cursor)
  {
  }

  lemma {:induction false} ScanStartsLength(t: string, from: nat)
    requires from <= |t|
    ensures |ScanStarts(t, from)| == |Scan(t, from)|
    decreases |t| - from
  {
    if Step(t, from).Some? {
      ScanUnfold(t, from);
      ScanStartsLength(t, Step(t, from).value.1);
    }
  }

  /** Every match of the scan starts at or after the cursor it began from. */
  lemma {:induction false} ScanStartsFrom(t: string, from: nat)
    requires from <= |t|
    ensures forall i :: 0 <= i < |ScanStarts(t, from)| ==> from <= ScanStarts(t, from)[i]
    decreases |t| - from
  {
    if Step(t, from).Some? {
      var cursor := Step(t, from).value.1;
      StepAt(t, from);
      ScanUnfold(t, from);
      ScanStartsFrom(t, cursor);
      AtLeastCons(from, cursor, FirstFind(t, from).value.1.start, ScanStarts(t, cursor));
    }
  }

  lemma AtLeastCons(lo: nat, bound: nat, p: nat, xs: seq<nat>)
    requires lo <= p && lo <= bound
    requires forall i :: 0 <= i < |xs| ==> bound <= xs[i]
    ensures forall i :: 0 <= i < |xs| + 1 ==> lo <= ([p] + xs)[i]
  {
    forall i | 0 < i < |xs| + 1
      ensures lo <= ([p] + xs)[i]
    {
      assert ([p] + xs)[i] == xs[i - 1];
    }
  }

  /** Each hit of the loop is the text of `t` at its start, at or after the
      cursor the scan began from, where its pattern matches with its parse. */
  lemma {:induction false} ScanHitsAt(t: string, from: nat)
    requires from <= |t|
    ensures |ScanStarts(t, from)| == |Scan(t, from)|
    ensures forall i :: 0 <= i < |Scan(t, from)| ==> from <= ScanStarts(t, from)[i]
    ensures forall i :: 0 <= i < |Scan(t, from)| ==> HitAt(t, ScanStarts(t, from)[i], Scan(t, from)[i])
    decreases |t| - from
  {
    ScanStartsLength(t, from);
    ScanStartsFrom(t, from);
    if Step(t, from).Some? {
      var (hit, cursor) := Step(t, from).value;
      var p := FirstFind(t, from).value.1.start;
      StepAt(t, from);
      ScanUnfold(t, from);
      ScanHitsAt(t, cursor);
      ConsAll((q: nat, h: Hit) => HitAt(t, q, h), p, hit, ScanStarts(t, cursor), Scan(t, cursor));
    }
  }

  /** A property that holds of a pair and of all pairs of two lists holds of all
      pairs of the two lists with the pair in front. */
  lemma ConsAll<A, B>(ok: (A, B) -> bool, x: A, y: B, xs: seq<A>, ys: seq<B>)
    requires |xs| == |ys| && ok(x, y)
    requires forall i :: 0 <= i < |xs| ==> ok(xs[i], ys[i])
    ensures forall i :: 0 <= i < |xs| + 1 ==> ok(([x] + xs)[i], ([y] + ys)[i])
  {
    forall i | 0 < i < |xs| + 1
      ensures ok(([x] + xs)[i], ([y] + ys)[i])
    {
      assert ([x] + xs)[i] == xs[i - 1] && ([y] + ys)[i] == ys[i - 1];
    }
  }

  /** The matches of the loop come in text order: each next match starts at the
      last character of the previous one or later. */
  lemma {:induction false} ScanOrdered(t: string, from: nat)
    requires from <= |t|
    ensures |ScanStarts(t, from)| == |Scan(t, from)|
    ensures forall i :: 0 <= i < |Scan(t, from)| - 1 ==>
      ScanStarts(t, from)[i] + |Scan(t, from)[i].literal| - 1 <= ScanStarts(t, from)[i + 1]
    decreases |t| - from
  {
    ScanStartsLength(t, from);
    if Step(t, from).Some? {
      var (hit, cursor) := Step(t, from).value;
      var p := FirstFind(t, from).value.1.start;
      StepAt(t, from);
      ScanUnfold(t, from);
      ScanOrdered(t, cursor);
      ScanHitsAt(t, cursor);
      OrderCons(cursor, p, hit, ScanStarts(t, cursor), Scan(t, cursor));
    }
  }

  lemma OrderCons(cursor: nat, p: nat, hit: Hit, starts: seq<nat>, hits: seq<Hit>)
    requires p + |hit.literal| - 1 == cursor && |starts| == |hits|
    requires forall i :: 0 <= i < |hits| ==> cursor <= starts[i]
    requires forall i :: 0 <= i < |hits| - 1 ==> starts[i] + |hits[i].literal| - 1 <= starts[i + 1]
    ensures forall i :: 0 <= i < |hits| ==>
      ([p] + starts)[i] + |([hit] + hits)[i].literal| - 1 <= ([p] + starts)[i + 1]
  {
    forall i | 0 <= i < |hits|
      ensures ([p] + starts)[i] + |([hit] + hits)[i].literal| - 1 <= ([p] + starts)[i + 1]
    {
      if i > 0 {
        assert ([hit] + hits)[i] == hits[i - 1] && ([p] + starts)[i] == starts[i - 1];
      }
    }
  }

  /** The pattern that wins a round is the first in registry order that matches
      anywhere at or after the cursor, even when a later pattern matches
      earlier in the text; and it wins with its leftmost match. */
  lemma StepPriority(t: string, from: nat)
    requires from <= |t|
    ensures FirstFind(t, from).Some? ==>
      var (k, found) := FirstFind(t, from).value;
      && k < |Registry|
      && (forall i, p :: 0 <= i < k && from <= p <= |t| ==> MatchPrefix(Registry[i], t[p..]).None?)
      && from <= found.start <= |t| && MatchPrefix(Registry[k], t[found.start..]) == Some(found.shape)
      && (forall p :: from <= p < found.start ==> MatchPrefix(Registry[k], t[p..]).None?)
  {
    if FirstFind(t, from).Some? {
      var (k, found) := FirstFind(t, from).value;
      forall i | 0 <= i < k
        ensures forall p :: from <= p <= |t| ==> MatchPrefix(Registry[i], t[p..]).None?
      {
        FindLeftmost(Registry[i], t, from);
      }
      FindLeftmost(Registry[k], t, from);
    }
  }

  /** The loop stops exactly when no pattern matches anywhere at or after the
      cursor. */
  lemma StepNone(t: string, from: nat)
    requires from <= |t|
    ensures Step(t, from).None? <==> forall m: Mode, p :: from <= p <= |t| ==> MatchPrefix(m, t[p..]).None?
  {
    if Step(t, from).None? {
      forall m: Mode, p | from <= p <= |t|
        ensures MatchPrefix(m, t[p..]).None?
      {
        RegistryModes(m);
        var i :| 0 <= i < |Registry| && Registry[i] == m;
        FindLeftmost(m, t, from);
      }
    } else {
      var (k, found) := FirstFind(t, from).value;
      FindLeftmost(Registry[k], t, from);
    }
  }

  // ---------------------------------------------------------------------------
  // The era flag
  // ---------------------------------------------------------------------------

  /** The text ends in "w" or "W". */
  predicate EndsInW(s: string) {
    |s| > 0 && LowerChar(s[|s| - 1]) == 'w'
  }

  lemma NotW(a: string, b: string)
    requires |b| > 0 && !EndsInW(b)
    ensures !EndsInW(a + b)
  {
    assert (a + b)[|a + b| - 1] == b[|b| - 1];
  }

  lemma YearTextNotW(yd: string)
    requires Numeral(yd, 4)
    ensures !EndsInW(YearText(yd))
  {
    assert IsDigit(yd[|yd| - 1]);
    NotW(" ", yd);
  }

  lemma DecadeTextNotW(dd: string, pl: bool)
    ensures !EndsInW(DecadeText(dd, pl))
  {
    var j := " Jahre" + Optional(pl, "n");
    NotW("er", j);
    NotW(dd, "er" + j);
  }

  lemma OfCenturyTextNotW(cd: string, w: CenturyWord)
    ensures !EndsInW(OfCenturyText(cd, w))
  {
    NotW(" ", WordText(w));
    NotW(".", " " + WordText(w));
    NotW(cd, "." + (" " + WordText(w)));
    NotW(" des ", cd + ("." + (" " + WordText(w))));
  }

  lemma DayBodyNotW(dd: string, m: int, yd: string)
    requires 1 <= m <= 12 && Numeral(yd, 4)
    ensures !EndsInW(dd + ("." + (" " + (MonthName(m) + YearText(yd)))))
  {
    YearTextNotW(yd);
    NotW(MonthName(m), YearText(yd));
    NotW(" ", MonthName(m) + YearText(yd));
    NotW(".", " " + (MonthName(m) + YearText(yd)));
    NotW(dd, "." + (" " + (MonthName(m) + YearText(yd))));
  }

  /** No literal body ends in "w" or "W": the last character is a digit, "e",
      "n", "t", "s" or "H". */
  lemma BodyNotW(sh: Shape)
    requires WellFormed(sh)
    ensures !EndsInW(Body(sh))
  {
    match sh {
      case DayShape(dd, m, yd, _) =>
        DayBodyNotW(dd, m, yd);
      case MonthShape(m, yd, _) =>
        YearTextNotW(yd);
        NotW(MonthName(m), YearText(yd));
      case YearShape(yd, _) =>
        YearTextNotW(yd);
        NotW("Jahr", YearText(yd));
      case DecadeAbsoluteShape(dd, pl, _) =>
        DecadeTextNotW(dd, pl);
      case DecadeRelativeShape(dd, pl, cd, w, _) =>
        OfCenturyTextNotW(cd, w);
        NotW(DecadeText(dd, pl), OfCenturyText(cd, w));
      case CenturyShape(cd, gen, _) =>
        var word := " Jahrhundert" + Optional(gen, "s");
        NotW(".", word);
        NotW(cd, "." + word);
    }
  }

  lemma EraSuffix(b: string)
    ensures EndsWithIgnoreCase(b + " vdZw", "vdZw")
  {
    var s := b + " vdZw";
    forall k | 0 <= k < 4
      ensures EqualsIgnoreCase(s[|s| - 4 + k], "vdZw"[k])
    {
      assert s[|s| - 4 + k] == " vdZw"[k + 1];
    }
  }

  lemma NoEraSuffix(b: string)
    requires !EndsInW(b)
    ensures !EndsWithIgnoreCase(b, "vdZw")
  {
    if |b| >= 4 {
      assert !EqualsIgnoreCase(b[|b| - 4 + 3], "vdZw"[3]);
    }
  }

  lemma EraFlagOf(b: string, bce: bool)
    requires !EndsInW(b)
    ensures EraFlag(b + Era(bce)) == bce
  {
    if bce {
      EraSuffix(b);
    } else {
      NoEraSuffix(b);
      assert b + Era(bce) == b;
    }
  }

  /** The flag the loop computes from the matched text is the era of its parse. */
  lemma EraFlagOfRender(sh: Shape)
    requires WellFormed(sh)
    ensures EraFlag(Render(sh)) == sh.bce
  {
    BodyNotW(sh);
    EraFlagOf(Body(sh), sh.bce);
  }

  // ---------------------------------------------------------------------------
  // toSet() and sortedBy { it.mode }
  // ---------------------------------------------------------------------------

  predicate NoDuplicates<T(==)>(xs: seq<T>) {
    forall i, j :: 0 <= i < j < |xs| ==> xs[i] != xs[j]
  }

  /** The index of the first occurrence of `x` in `xs`. */
  function FirstIndex<T(==)>(xs: seq<T>, x: T): (i: nat)
    requires x in xs
    ensures i < |xs| && xs[i] == x && x !in xs[..i]
  {
    if xs[0] == x then 0 else
      assert xs[1..][..FirstIndex(xs[1..], x)] == xs[1..FirstIndex(xs[1..], x) + 1];
      1 + FirstIndex(xs[1..], x)
  }

  /** `toSet()` read back in iteration order: a `LinkedHashSet` keeps the first
      occurrence of each element, in the order of first occurrence. */
  function Distinct<T(==,!new)>(xs: seq<T>): (r: seq<T>)
    ensures forall x :: x in r <==> x in xs
    ensures NoDuplicates(r)
    decreases |xs|
  {
    if |xs| == 0 then []
    else
      var init := Distinct(xs[..|xs| - 1]);
      var x := xs[|xs| - 1];
      assert forall y :: y in xs <==> y in xs[..|xs| - 1] || y == x by {
        assert xs == xs[..|xs| - 1] + [x];
      }
      if x in init then init else init + [x]
  }

  /** The elements keep the order of their first occurrences. */
  lemma {:induction false} DistinctOrder<T(!new)>(xs: seq<T>, i: nat, j: nat)
    requires i < j < |Distinct(xs)|
    ensures FirstIndex(xs, Distinct(xs)[i]) < FirstIndex(xs, Distinct(xs)[j])
    decreases |xs|
  {
    var init := xs[..|xs| - 1];
    var x := xs[|xs| - 1];
    var r := Distinct(xs);
    assert xs == init + [x];
    if j < |Distinct(init)| {
      DistinctOrder(init, i, j);
      FirstIndexPrefix(init, x, r[i]);
      FirstIndexPrefix(init, x, r[j]);
    } else {
      assert r[j] == x && x !in init;
      FirstIndexPrefix(init, x, r[i]);
      FirstIndexLast(init, x);
    }
  }

  lemma FirstIndexPrefix<T>(init: seq<T>, x: T, y: T)
    requires y in init
    ensures FirstIndex(init + [x], y) == FirstIndex(init, y)
  {
    var k := FirstIndex(init, y);
    var xs := init + [x];
    assert xs[k] == y;
    assert xs[..k] == init[..k];
  }

  lemma FirstIndexLast<T>(init: seq<T>, x: T)
    requires x !in init
    ensures FirstIndex(init + [x], x) == |init|
  {
    var xs := init + [x];
    assert xs[|init|] == x && xs[..|init|] == init;
  }

  function ModeRank(r: TemporalRef): nat {
    Rank(r.mode)
  }

  /** The references of one mode, in their order. */
  function OfMode(xs: seq<TemporalRef>, m: Mode): (r: seq<TemporalRef>)
    ensures |r| <= |xs|
  {
    if |xs| == 0 then []
    else if xs[0].mode == m then [xs[0]] + OfMode(xs[1..], m)
    else OfMode(xs[1..], m)
  }

  predicate SortedByMode(xs: seq<TemporalRef>) {
    forall i, j :: 0 <= i < j < |xs| ==> ModeRank(xs[i]) <= ModeRank(xs[j])
  }

  /** `x` placed before the first element whose mode does not come before its own. */
  function Insert(x: TemporalRef, s: seq<TemporalRef>): (r: seq<TemporalRef>)
    ensures |r| == |s| + 1
  {
    if |s| == 0 || ModeRank(x) <= ModeRank(s[0]) then [x] + s
    else [s[0]] + Insert(x, s[1..])
  }

  lemma {:induction false} InsertPermutes(x: TemporalRef, s: seq<TemporalRef>)
    ensures multiset(Insert(x, s)) == multiset(s) + multiset{x}
  {
    if |s| > 0 && ModeRank(x) > ModeRank(s[0]) {
      InsertPermutes(x, s[1..]);
      assert s == [s[0]] + s[1..];
    }
  }

  lemma {:induction false} InsertSorted(x: TemporalRef, s: seq<TemporalRef>)
    requires SortedByMode(s)
    ensures SortedByMode(Insert(x, s))
    ensures |s| > 0 ==> Insert(x, s)[0] == x || Insert(x, s)[0] == s[0]
  {
    if |s| > 0 && ModeRank(x) > ModeRank(s[0]) {
      InsertSorted(x, s[1..]);
    }
  }

  lemma {:induction false} InsertStable(x: TemporalRef, s: seq<TemporalRef>, m: Mode)
    ensures OfMode(Insert(x, s), m) == if x.mode == m then [x] + OfMode(s, m) else OfMode(s, m)
  {
    if |s| == 0 || ModeRank(x) <= ModeRank(s[0]) {
      assert ([x] + s)[1..] == s;
    } else {
      InsertStable(x, s[1..], m);
      var rest := Insert(x, s[1..]);
      assert ([s[0]] + rest)[1..] == rest;
    }
  }

  /** `sortedBy { it.mode }`: a stable sort on the declaration order of the modes. */
  function SortByMode(xs: seq<TemporalRef>): (r: seq<TemporalRef>)
    ensures SortedByMode(r)
    ensures multiset(r) == multiset(xs)
    ensures forall m :: OfMode(r, m) == OfMode(xs, m)
  {
    if |xs| == 0 then []
    else
      var rest := SortByMode(xs[1..]);
      InsertHead(xs, rest);
      Insert(xs[0], rest)
  }

  /** Inserting the head of `xs` into a stable sort of its tail sorts all of `xs`
      stably. */
  lemma InsertHead(xs: seq<TemporalRef>, rest: seq<TemporalRef>)
    requires |xs| > 0 && SortedByMode(rest) && multiset(rest) == multiset(xs[1..])
    requires forall m :: OfMode(rest, m) == OfMode(xs[1..], m)
    ensures SortedByMode(Insert(xs[0], rest))
    ensures multiset(Insert(xs[0], rest)) == multiset(xs)
    ensures forall m :: OfMode(Insert(xs[0], rest), m) == OfMode(xs, m)
  {
    InsertSorted(xs[0], rest);
    InsertPermutes(xs[0], rest);
    assert multiset(xs) == multiset(xs[1..]) + multiset{xs[0]} by {
      assert xs == [xs[0]] + xs[1..];
    }
    forall m ensures OfMode(Insert(xs[0], rest), m) == OfMode(xs, m) {
      InsertStable(xs[0], rest, m);
      OfModeHead(xs, m);
    }
  }

  lemma OfModeHead(xs: seq<TemporalRef>, m: Mode)
    requires |xs| > 0
    ensures OfMode(xs, m) == if xs[0].mode == m then [xs[0]] + OfMode(xs[1..], m) else OfMode(xs[1..], m)
  {
  }

  // ---------------------------------------------------------------------------
  // extractTemporalRefs
  // ---------------------------------------------------------------------------

  /** All values, in order, when every entry is present. */
  function AllPresent<T>(xs: seq<Option<T>>): (r: Option<seq<T>>)
    ensures r.Some? <==> forall i :: 0 <= i < |xs| ==> xs[i].Some?
    ensures r.Some? ==> |r.value| == |xs| && forall i :: 0 <= i < |xs| ==> xs[i] == Some(r.value[i])
  {
    if |xs| == 0 then Some([])
    else match xs[0]
      case None => None
      case Some(first) =>
        match AllPresent(xs[1..])
        case None => None
        case Some(rest) => Some([first] + rest)
  }

  /** The constructor call the loop makes for each hit, in order. */
  function Calls(hits: seq<Hit>): (r: seq<Option<TemporalRef>>)
    ensures |r| == |hits|
  {
    seq(|hits|, i requires 0 <= i < |hits| => MakeRef(hits[i].literal, hits[i].mode, hits[i].bce))
  }

  /** `toSet().sortedBy { it.mode }` after the loop, or `None` when one of the
      constructor calls threw and aborted the whole extraction. */
  function Finish(calls: seq<Option<TemporalRef>>): Option<seq<TemporalRef>> {
    match AllPresent(calls)
    case None => None
    case Some(refs) => Some(SortByMode(Distinct(refs)))
  }

  /** `extractTemporalRefs(t)`; `None` where it throws. */
  function ExtractTemporalRefs(t: string): Option<seq<TemporalRef>> {
    Finish(Calls(Scan(t, 0)))
  }

  // ---------------------------------------------------------------------------
  // What the result is
  // ---------------------------------------------------------------------------

  /** The reference a parse stands for: the text matched, the normalized
      spelling and the span its numbers give. */
  function ExpectedRef(sh: Shape): Option<TemporalRef>
    requires WellFormed(sh)
  {
    match ExpectedSpan(sh)
    case None => None
    case Some((start, end)) => Some(TemporalRef(Render(sh), ModeOf(sh), ExpectedNormalized(sh), start, end))
  }

  /** The references faithful hits stand for, in order. */
  function ExpectedRefs(hits: seq<Hit>): (r: seq<Option<TemporalRef>>)
    requires forall i :: 0 <= i < |hits| ==> Faithful(hits[i])
    ensures |r| == |hits|
  {
    seq(|hits|, i requires 0 <= i < |hits| && Faithful(hits[i]) => ExpectedRef(hits[i].shape))
  }

  /** The constructor call the loop makes for a hit builds the reference its
      parse stands for. */
  lemma HitRef(h: Hit)
    requires Faithful(h)
    ensures MakeRef(h.literal, h.mode, h.bce) == ExpectedRef(h.shape)
  {
    MakeRefExpected(h.shape);
    NormalizeRender(h.shape);
  }

  lemma CallsExpected(hits: seq<Hit>)
    requires forall i :: 0 <= i < |hits| ==> Faithful(hits[i])
    ensures Calls(hits) == ExpectedRefs(hits)
  {
    forall i | 0 <= i < |hits|
      ensures Calls(hits)[i] == ExpectedRefs(hits)[i]
    {
      HitRef(hits[i]);
    }
  }

  /** The result fails exactly when some call fails; otherwise it holds, without
      duplicates and sorted by mode, exactly the references the calls built, and
      those of one mode in the order of their first occurrence. */
  lemma FinishCharacterised(calls: seq<Option<TemporalRef>>)
    ensures Finish(calls).Some? <==> None !in calls
    ensures Finish(calls).Some? ==> forall r :: r in Finish(calls).value <==> Some(r) in calls
    ensures Finish(calls).Some? ==> SortedByMode(Finish(calls).value) && NoDuplicates(Finish(calls).value)
    ensures Finish(calls).Some? ==>
      forall m :: OfMode(Finish(calls).value, m) == OfMode(Distinct(AllPresent(calls).value), m)
  {
    if AllPresent(calls).Some? {
      var refs := AllPresent(calls).value;
      var sorted := SortByMode(Distinct(refs));
      assert Finish(calls) == Some(sorted);
      forall r
        ensures r in sorted <==> Some(r) in calls
      {
        assert r in sorted <==> r in multiset(sorted);
        assert r in Distinct(refs) <==> r in multiset(Distinct(refs));
        if r in refs {
          var i :| 0 <= i < |refs| && refs[i] == r;
          assert calls[i] == Some(r);
        }
        if Some(r) in calls {
          var i :| 0 <= i < |calls| && calls[i] == Some(r);
          assert refs[i] == r;
        }
      }
      DistinctPermutation(Distinct(refs), sorted);
    } else {
      var i :| 0 <= i < |calls| && calls[i].None?;
      assert calls[i] == None;
    }
  }

  /** A permutation of a sequence without duplicates has none either. */
  lemma DistinctPermutation(xs: seq<TemporalRef>, ys: seq<TemporalRef>)
    requires NoDuplicates(xs) && multiset(ys) == multiset(xs)
    ensures NoDuplicates(ys)
  {
    forall i, j | 0 <= i < j < |ys|
      ensures ys[i] != ys[j]
    {
      MultiplicityTwo(ys, i, j);
      MultiplicityOne(xs, ys[i]);
    }
  }

  lemma {:induction false} MultiplicityOne(xs: seq<TemporalRef>, x: TemporalRef)
    requires NoDuplicates(xs)
    ensures multiset(xs)[x] <= 1
  {
    if |xs| > 0 {
      assert xs == [xs[0]] + xs[1..];
      MultiplicityOne(xs[1..], x);
      if xs[0] == x {
        assert x !in xs[1..];
      }
    }
  }

  lemma MultiplicityTwo(ys: seq<TemporalRef>, i: nat, j: nat)
    requires i < j < |ys|
    ensures ys[i] == ys[j] ==> multiset(ys)[ys[i]] >= 2
  {
    assert ys == ys[..j] + [ys[j]] + ys[j + 1..];
    assert ys[..j][i] == ys[i];
  }

  /** `extractTemporalRefs` fails exactly when some literal the scan matched has
      no span; otherwise it returns, without duplicates and sorted by mode,
      exactly the references the matched literals stand for. */
  lemma ExtractCharacterised(t: string)
    ensures ExtractTemporalRefs(t).Some? <==> None !in ExpectedRefs(Scan(t, 0))
    ensures ExtractTemporalRefs(t).Some? ==>
      forall r :: r in ExtractTemporalRefs(t).value <==> Some(r) in ExpectedRefs(Scan(t, 0))
    ensures ExtractTemporalRefs(t).Some? ==>
      SortedByMode(ExtractTemporalRefs(t).value) && NoDuplicates(ExtractTemporalRefs(t).value)
  {
    var hits := Scan(t, 0);
    CallsExpected(hits);
    FinishCharacterised(Calls(hits));
  }

  /** Every reference `extractTemporalRefs` returns begins no later than it ends. */
  lemma ExtractOrdered(t: string)
    ensures ExtractTemporalRefs(t).Some? ==>
      forall r :: r in ExtractTemporalRefs(t).value ==> InstantLe(r.start, r.end)
  {
    ExtractCharacterised(t);
    if ExtractTemporalRefs(t).Some? {
      var hits := Scan(t, 0);
      forall r | r in ExtractTemporalRefs(t).value
        ensures InstantLe(r.start, r.end)
      {
        var i :| 0 <= i < |hits| && ExpectedRefs(hits)[i] == Some(r);
        ExpectedSpanOrdered(hits[i].shape);
      }
    }
  }
}
