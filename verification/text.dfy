/** The string and integer primitives of the Kotlin standard library (on the JVM)
    that the extraction engine relies on: decimal digits, `Int` arithmetic,
    `toInt`, `toString`, `indexOf`, `substringBefore`/`substringAfter`,
    `replace`, `lowercase` and `endsWith(…, ignoreCase = true)`. */
module Text {
  import opened Wrappers

  function Min(a: int, b: int): int {
    if a <= b then a else b
  }

  // ---------------------------------------------------------------------------
  // Decimal digits
  // ---------------------------------------------------------------------------

  /** `\d` of java.util.regex without UNICODE_CHARACTER_CLASS: ASCII digits only. */
  predicate IsDigit(c: char) {
    '0' <= c <= '9'
  }

  predicate AllDigits(s: string) {
    forall k :: 0 <= k < |s| ==> IsDigit(s[k])
  }

  function DigitValue(c: char): nat
    requires IsDigit(c)
  {
    c as int - '0' as int
  }

  function DigitChar(d: nat): (c: char)
    requires d < 10
    ensures IsDigit(c) && DigitValue(c) == d
  {
    ('0' as int + d) as char
  }

  function Pow10(k: nat): (p: nat)
    ensures p >= 1
  {
    if k == 0 then 1 else 10 * Pow10(k - 1)
  }

  /** Value of a decimal numeral, most significant digit first (leading zeros allowed). */
  function DigitsValue(s: string): nat
    requires AllDigits(s)
  {
    if |s| == 0 then 0 else DigitsValue(s[..|s| - 1]) * 10 + DigitValue(s[|s| - 1])
  }

  lemma {:induction false} DigitsValueBound(s: string)
    requires AllDigits(s)
    ensures DigitsValue(s) < Pow10(|s|)
  {
    if |s| > 0 {
      DigitsValueBound(s[..|s| - 1]);
    }
  }

  /** Length of the run of digits at the head of `s`: the longest all-digit prefix. */
  function DigitRun(s: string): (n: nat)
    ensures n <= |s|
    ensures AllDigits(s[..n])
    ensures n < |s| ==> !IsDigit(s[n])
  {
    if |s| > 0 && IsDigit(s[0]) then
      var n := 1 + DigitRun(s[1..]);
      assert s[..n] == [s[0]] + s[1..][..n - 1];
      n
    else 0
  }

  /** A run of digits followed by a non-digit (or nothing) is exactly the head run. */
  lemma {:induction false} DigitRunOf(a: string, b: string)
    requires AllDigits(a)
    requires |b| == 0 || !IsDigit(b[0])
    ensures DigitRun(a + b) == |a|
  {
    if |a| > 0 {
      assert (a + b)[1..] == a[1..] + b;
      DigitRunOf(a[1..], b);
    }
  }

  // ---------------------------------------------------------------------------
  // Kotlin `Int`: 32-bit two's complement, `toString` and `String.toInt`
  // ---------------------------------------------------------------------------

  const IntMin: int := -0x8000_0000
  const IntMax: int := 0x7fff_ffff

  predicate IsInt32(x: int) {
    IntMin <= x <= IntMax
  }

  /** The result of a Kotlin `Int` expression whose exact value is `x`: `+`, `-`
      and `*` wrap around modulo 2^32. */
  function Wrap(x: int): (r: int)
    ensures IsInt32(r)
    ensures (r - x) % 0x1_0000_0000 == 0
    ensures IsInt32(x) ==> r == x
  {
    (x - IntMin) % 0x1_0000_0000 + IntMin
  }

  /** Decimal rendering of a natural number, without leading zeros. */
  function FormatNat(n: nat): (s: string)
    ensures 1 <= |s|
    ensures AllDigits(s)
    ensures DigitsValue(s) == n
    ensures s[0] == '0' ==> n == 0
    decreases n
  {
    if n < 10 then [DigitChar(n)]
    else
      var s := FormatNat(n / 10) + [DigitChar(n % 10)];
      assert s[..|s| - 1] == FormatNat(n / 10);
      s
  }

  lemma {:induction false} FormatNatLength(n: nat, k: nat)
    requires 1 <= k && n < Pow10(k)
    ensures |FormatNat(n)| <= k
  {
    if n >= 10 {
      FormatNatLength(n / 10, k - 1);
    }
  }

  /** `Int.toString()` (and a `$x` string template). */
  function FormatInt(x: int): string {
    if x < 0 then "-" + FormatNat(-x) else FormatNat(x)
  }

  /** `String.toInt()`, i.e. `Integer.parseInt`: an optional sign, at least one
      digit, and a value that fits in an `Int`; anything else throws. */
  function ToInt(s: string): (r: Option<int>)
    ensures r.Some? ==> IsInt32(r.value)
  {
    if |s| > 0 && (s[0] == '-' || s[0] == '+') then
      if |s| > 1 && AllDigits(s[1..]) then
        var v: int := if s[0] == '-' then 0 - DigitsValue(s[1..]) else DigitsValue(s[1..]);
        if IsInt32(v) then Some(v) else None
      else None
    else if |s| > 0 && AllDigits(s) && IsInt32(DigitsValue(s)) then Some(DigitsValue(s))
    else None
  }

  /** `toInt` reads back what `toString` wrote, for every `Int`. */
  lemma ToIntFormatInt(x: int)
    requires IsInt32(x)
    ensures ToInt(FormatInt(x)) == Some(x)
  {
    if x < 0 {
      assert FormatInt(x)[1..] == FormatNat(-x);
    }
  }

  /** `toInt` of a short plain numeral is its decimal value. */
  lemma ToIntOfDigits(s: string)
    requires AllDigits(s) && 1 <= |s| <= 9
    ensures ToInt(s) == Some(DigitsValue(s))
  {
    DigitsValueBound(s);
    assert Pow10(|s|) <= Pow10(9) by { Pow10Monotone(|s|, 9); }
  }

  lemma {:induction false} Pow10Monotone(i: nat, j: nat)
    requires i <= j
    ensures Pow10(i) <= Pow10(j)
  {
    if i < j {
      Pow10Monotone(i, j - 1);
    }
  }

  // ---------------------------------------------------------------------------
  // Searching: `indexOf`, `substringBefore`, `substringAfter`
  // ---------------------------------------------------------------------------

  /** First index `k >= from` at which `t` occurs in `s`. */
  function IndexOfFrom(s: string, t: string, from: nat): (r: Option<nat>)
    requires from <= |s|
    ensures r.Some? ==> from <= r.value <= |s| && t <= s[r.value..]
    ensures forall k :: from <= k <= |s| && (r.None? || k < r.value) ==> !(t <= s[k..])
    decreases |s| - from
  {
    if t <= s[from..] then Some(from)
    else if from == |s| then None
    else IndexOfFrom(s, t, from + 1)
  }

  function IndexOf(s: string, t: string): Option<nat> {
    IndexOfFrom(s, t, 0)
  }

  /** The first occurrence is the one with no occurrence before it. */
  lemma IndexOfIs(s: string, t: string, k: nat)
    requires k <= |s| && t <= s[k..]
    requires forall j :: 0 <= j < k ==> !(t <= s[j..])
    ensures IndexOf(s, t) == Some(k)
  {
  }

  lemma IndexOfNone(s: string, t: string)
    requires forall j :: 0 <= j <= |s| ==> !(t <= s[j..])
    ensures IndexOf(s, t) == None
  {
  }

  /** `substringBefore(delimiter, missingDelimiterValue)`. */
  function SubstringBeforeOr(s: string, d: string, missing: string): string {
    match IndexOf(s, d)
    case Some(k) => s[..k]
    case None => missing
  }

  /** `substringBefore(delimiter)`: the whole string when the delimiter is missing. */
  function SubstringBefore(s: string, d: string): string {
    SubstringBeforeOr(s, d, s)
  }

  /** `substringAfter(delimiter)`: the whole string when the delimiter is missing. */
  function SubstringAfter(s: string, d: string): string {
    match IndexOf(s, d)
    case Some(k) => if k + |d| <= |s| then s[k + |d|..] else []
    case None => s
  }

  /** When `d` starts right after `a` and no occurrence of `d` starts inside `a`,
      the text before `d` is `a` and the text after it is the rest. */
  lemma SplitAt(a: string, d: string, b: string)
    requires forall j :: 0 <= j < |a| ==> !(d <= (a + d + b)[j..])
    ensures SubstringBeforeOr(a + d + b, d, []) == a
    ensures SubstringBefore(a + d + b, d) == a
    ensures SubstringAfter(a + d + b, d) == b
  {
    var s := a + d + b;
    assert s[|a|..] == d + b;
    IndexOfIs(s, d, |a|);
    assert s[..|a|] == a;
    assert s[|a| + |d|..] == b;
  }

  /** A delimiter of two or more characters cannot start at a position whose
      character, or whose next character, differs from the delimiter's. */
  lemma NoOccurrenceBefore(s: string, d: string, k: nat)
    requires 2 <= |d| && k <= |s|
    requires forall j :: 0 <= j < k ==> s[j] != d[0] || j + 1 == |s| || s[j + 1] != d[1]
    ensures forall j :: 0 <= j < k ==> !(d <= s[j..])
  {
    forall j | 0 <= j < k
      ensures !(d <= s[j..])
    {
      assert s[j..][0] == s[j];
      if j + 1 < |s| {
        assert s[j..][1] == s[j + 1];
      }
    }
  }

  /** With no earlier occurrence, `d` found at `k` splits the text there. */
  lemma SplitFirst(s: string, d: string, k: nat)
    requires k + |d| <= |s| && d <= s[k..]
    requires forall j :: 0 <= j < k ==> !(d <= s[j..])
    ensures SubstringBefore(s, d) == s[..k] && SubstringBeforeOr(s, d, []) == s[..k]
    ensures SubstringAfter(s, d) == s[k + |d|..]
  {
    IndexOfIs(s, d, k);
  }

  /** With no occurrence at all, `substringBefore` yields the whole text or the
      value given for a missing delimiter. */
  lemma SplitNone(s: string, d: string, missing: string)
    requires 2 <= |d|
    requires forall j :: 0 <= j < |s| ==> s[j] != d[0] || j + 1 == |s| || s[j + 1] != d[1]
    ensures SubstringBefore(s, d) == s && SubstringBeforeOr(s, d, missing) == missing
  {
    NoOccurrenceBefore(s, d, |s|);
    IndexOfNone(s, d);
  }

  /** A delimiter whose first character does not occur in `a` cannot start inside `a`. */
  lemma NoStartInside(a: string, d: string, b: string)
    requires |d| > 0
    requires forall j :: 0 <= j < |a| ==> a[j] != d[0]
    ensures forall j :: 0 <= j < |a| ==> !(d <= (a + b)[j..])
  {
    forall j | 0 <= j < |a|
      ensures !(d <= (a + b)[j..])
    {
      assert (a + b)[j..][0] == a[j];
    }
  }

  // ---------------------------------------------------------------------------
  // `replace(oldValue, newValue)`: leftmost, non-overlapping, single pass
  // ---------------------------------------------------------------------------

  function Replace(s: string, pat: string, rep: string): string
    requires |pat| > 0
    decreases |s|
  {
    if |s| == 0 then []
    else if pat <= s then rep + Replace(s[|pat|..], pat, rep)
    else [s[0]] + Replace(s[1..], pat, rep)
  }

  /** A text lacking one of the pattern's characters holds no occurrence of it. */
  lemma {:induction false} ReplaceAbsent(s: string, pat: string, rep: string, i: nat)
    requires i < |pat| && pat[i] !in s
    ensures Replace(s, pat, rep) == s
    decreases |s|
  {
    if |s| > 0 {
      ReplaceAbsent(s[1..], pat, rep, i);
      assert s == [s[0]] + s[1..];
    }
  }

  /** An occurrence at the head is replaced, and the scan goes on after it. */
  lemma ReplaceHead(pat: string, b: string, rep: string)
    requires |pat| > 0
    ensures Replace(pat + b, pat, rep) == rep + Replace(b, pat, rep)
  {
    assert (pat + b)[|pat|..] == b;
  }

  /** A text lacking the pattern's first character is copied, and the scan goes
      on with what follows it. */
  lemma {:induction false} ReplaceSkip(a: string, b: string, pat: string, rep: string)
    requires |pat| > 0 && pat[0] !in a
    ensures Replace(a + b, pat, rep) == a + Replace(b, pat, rep)
    decreases |a|
  {
    if |a| == 0 {
      assert a + b == b;
    } else {
      assert (a + b)[0] == a[0] && (a + b)[1..] == a[1..] + b;
      ReplaceSkip(a[1..], b, pat, rep);
      assert a == [a[0]] + a[1..];
    }
  }

  /** A character that starts no occurrence is copied, as is a text after it that
      lacks the pattern's first character. */
  lemma ReplaceMiss(c: char, a: string, b: string, pat: string, rep: string)
    requires |pat| > 0 && pat[0] !in a && !(pat <= [c] + a + b)
    ensures Replace([c] + a + b, pat, rep) == [c] + a + Replace(b, pat, rep)
  {
    assert ([c] + a + b)[1..] == a + b;
    ReplaceSkip(a, b, pat, rep);
  }

  /** Where `pat` could start only at the head of `w`, and does not occur there,
      nothing is replaced. */
  lemma ReplaceKeeps(a: string, w: string, t: string, pat: string, rep: string)
    requires |pat| > 0 && |w| > 0 && pat[0] !in a && pat[0] !in w[1..] && pat[0] !in t
    requires !(pat <= w + t)
    ensures Replace(a + w + t, pat, rep) == a + w + t
  {
    assert a + w + t == a + (w + t);
    ReplaceSkip(a, w + t, pat, rep);
    assert w + t == [w[0]] + w[1..] + t;
    ReplaceMiss(w[0], w[1..], t, pat, rep);
    ReplaceAbsent(t, pat, rep, 0);
  }

  /** A single occurrence of `pat` is replaced. */
  lemma ReplaceOnce(a: string, t: string, pat: string, rep: string, i: nat)
    requires |pat| > 0 && pat[0] !in a && i < |pat| && pat[i] !in t
    ensures Replace(a + pat + t, pat, rep) == a + rep + t
  {
    assert a + pat + t == a + (pat + t);
    ReplaceSkip(a, pat + t, pat, rep);
    ReplaceHead(pat, t, rep);
    ReplaceAbsent(t, pat, rep, i);
  }

  /** An occurrence at the head of `a + b` lies inside `a` when `b` starts with
      a character the pattern lacks. */
  lemma PrefixBeforeCut(a: string, b: string, pat: string)
    requires pat <= a + b && |b| > 0 && b[0] !in pat
    ensures pat <= a
  {
    assert (a + b)[|a|] == b[0];
    if |pat| <= |a| {
      assert pat == (a + b)[..|pat|] == a[..|pat|];
    }
  }

  lemma PrefixOfPart(pat: string, a: string, b: string)
    ensures pat <= a ==> pat <= a + b
  {
    if pat <= a {
      assert (a + b)[..|pat|] == a[..|pat|];
    }
  }

  /** No occurrence can cross into a text that starts with a character the pattern
      does not contain, so the two sides are rewritten separately. */
  lemma {:induction false} ReplaceCut(a: string, b: string, pat: string, rep: string)
    requires |pat| > 0 && |b| > 0 && b[0] !in pat
    ensures Replace(a + b, pat, rep) == Replace(a, pat, rep) + Replace(b, pat, rep)
    decreases |a|
  {
    if |a| == 0 {
      assert a + b == b;
    } else if pat <= a + b {
      PrefixBeforeCut(a, b, pat);
      assert (a + b)[|pat|..] == a[|pat|..] + b;
      ReplaceCut(a[|pat|..], b, pat, rep);
    } else {
      PrefixOfPart(pat, a, b);
      assert (a + b)[0] == a[0] && (a + b)[1..] == a[1..] + b;
      ReplaceCut(a[1..], b, pat, rep);
    }
  }

  /** A text whose first character starts no occurrence keeps that character first. */
  lemma ReplaceKeepsHead(b: string, pat: string, rep: string)
    requires |pat| > 0 && |b| > 0 && b[0] != pat[0]
    ensures |Replace(b, pat, rep)| > 0 && Replace(b, pat, rep)[0] == b[0]
  {
  }

  // ---------------------------------------------------------------------------
  // Case: `lowercase()` and `equals(…, ignoreCase = true)`, on ASCII letters
  // ---------------------------------------------------------------------------

  function LowerChar(c: char): char {
    if 'A' <= c <= 'Z' then (c as int + 32) as char else c
  }

  function Lower(s: string): (r: string)
    ensures |r| == |s|
  {
    seq(|s|, k requires 0 <= k < |s| => LowerChar(s[k]))
  }

  lemma LowerConcat(a: string, b: string)
    ensures Lower(a + b) == Lower(a) + Lower(b)
  {
  }

  predicate EqualsIgnoreCase(a: char, b: char) {
    LowerChar(a) == LowerChar(b)
  }

  /** `endsWith(suffix, ignoreCase = true)`. */
  predicate EndsWithIgnoreCase(s: string, suffix: string) {
    |suffix| <= |s| &&
    forall k :: 0 <= k < |suffix| ==> EqualsIgnoreCase(s[|s| - |suffix| + k], suffix[k])
  }

  /** Regrouping a concatenation of five texts, so that a lemma about `a + rest`
      applies without an appeal to extensionality next to literal texts. */
  lemma Regroup(a: string, b: string, c: string, d: string, e: string)
    ensures a + b + c + d + e == a + ((b + c) + (d + e))
  {
  }
}
