/** `normalizeWhitespace` and `normalizeDescription`: the clean-up that turns an
    episode description into the single line of text the extraction scans. */
module Description {
  import opened Text

  // ---------------------------------------------------------------------------
  // Whitespace
  // ---------------------------------------------------------------------------

  /** `Char.isWhitespace()` on the JVM: `Character.isWhitespace` or
      `Character.isSpaceChar`, that is the controls tab to carriage return and
      file to unit separator, and the space, line and paragraph separators. */
  predicate IsWhitespace(c: char) {
    '\t' <= c <= '\r' || '\U{1C}' <= c <= ' ' || c == '\U{A0}' || c == '\U{1680}' ||
    '\U{2000}' <= c <= '\U{200A}' || c == '\U{2028}' || c == '\U{2029}' || c == '\U{202F}' ||
    c == '\U{205F}' || c == '\U{3000}'
  }

  /** The only whitespace in `s` is the plain space. */
  predicate OnlySpaces(s: string) {
    forall k :: 0 <= k < |s| ==> s[k] == ' ' || !IsWhitespace(s[k])
  }

  lemma OnlySpacesConcat(a: string, b: string)
    requires OnlySpaces(a) && OnlySpaces(b)
    ensures OnlySpaces(a + b)
  {
    forall k | 0 <= k < |a + b|
      ensures (a + b)[k] == ' ' || !IsWhitespace((a + b)[k])
    {
      if k >= |a| {
        assert (a + b)[k] == b[k - |a|];
      }
    }
  }

  /** The characters of `s` that are not whitespace, in order. */
  function Visible(s: string): (r: string)
    ensures |r| <= |s|
  {
    if |s| == 0 then []
    else (if IsWhitespace(s[0]) then [] else [s[0]]) + Visible(s[1..])
  }

  lemma {:induction false} VisibleConcat(a: string, b: string)
    ensures Visible(a + b) == Visible(a) + Visible(b)
  {
    if |a| > 0 {
      var head := if IsWhitespace(a[0]) then [] else [a[0]];
      assert (a + b)[0] == a[0] && (a + b)[1..] == a[1..] + b;
      VisibleConcat(a[1..], b);
      assert Visible(a + b) == head + Visible(a[1..] + b);
      assert Visible(a) == head + Visible(a[1..]);
    } else {
      assert a + b == b;
    }
  }

  /** A run of `k` spaces. */
  function Spaces(k: nat): (r: string)
    ensures |r| == k
  {
    seq(k, _ => ' ')
  }

  // ---------------------------------------------------------------------------
  // normalizeWhitespace
  // ---------------------------------------------------------------------------

  /** `filter { it == ' ' || !it.isWhitespace() }` */
  function KeepSpaces(s: string): (r: string)
    ensures OnlySpaces(r)
  {
    if |s| == 0 then []
    else (if s[0] == ' ' || !IsWhitespace(s[0]) then [s[0]] else []) + KeepSpaces(s[1..])
  }

  lemma {:induction false} KeepSpacesVisible(s: string)
    ensures Visible(KeepSpaces(s)) == Visible(s)
  {
    if |s| > 0 {
      KeepSpacesVisible(s[1..]);
      var head := if s[0] == ' ' || !IsWhitespace(s[0]) then [s[0]] else [];
      VisibleConcat(head, KeepSpaces(s[1..]));
      assert Visible(head) == if IsWhitespace(s[0]) then [] else [s[0]];
    }
  }

  /** `replace("  ", " ")` */
  function HalveSpaces(s: string): string {
    Replace(s, "  ", " ")
  }

  lemma {:induction false} HalveSpacesVisible(s: string)
    ensures Visible(HalveSpaces(s)) == Visible(s)
    decreases |s|
  {
    if |s| > 0 {
      if "  " <= s {
        HalveSpacesVisible(s[2..]);
        VisibleConcat(" ", HalveSpaces(s[2..]));
        assert s == "  " + s[2..];
        VisibleConcat("  ", s[2..]);
      } else {
        HalveSpacesVisible(s[1..]);
        VisibleConcat([s[0]], HalveSpaces(s[1..]));
        assert s == [s[0]] + s[1..];
        VisibleConcat([s[0]], s[1..]);
      }
    }
  }

  lemma {:induction false} HalveSpacesOnlySpaces(s: string)
    requires OnlySpaces(s)
    ensures OnlySpaces(HalveSpaces(s))
    decreases |s|
  {
    if |s| > 0 {
      if "  " <= s {
        HalveSpacesOnlySpaces(s[2..]);
        OnlySpacesConcat(" ", HalveSpaces(s[2..]));
      } else {
        assert OnlySpaces([s[0]]);
        HalveSpacesOnlySpaces(s[1..]);
        OnlySpacesConcat([s[0]], HalveSpaces(s[1..]));
      }
    }
  }

  /** The single pass halves a run of spaces, rounding up: it does not collapse a
      run of three or more spaces to one. */
  lemma {:induction false} HalveSpacesRun(k: nat)
    ensures HalveSpaces(Spaces(k)) == Spaces((k + 1) / 2)
  {
    if k >= 2 {
      assert Spaces(k)[2..] == Spaces(k - 2);
      assert "  " <= Spaces(k);
      HalveSpacesRun(k - 2);
      assert " " + Spaces((k - 1) / 2) == Spaces((k + 1) / 2);
    } else if k == 1 {
      assert !("  " <= Spaces(1));
      assert Spaces(1)[1..] == [];
    }
  }

  /** The number of whitespace characters at the head of `s`. */
  function LeadingWhitespace(s: string): (n: nat)
    ensures n <= |s|
    ensures forall k :: 0 <= k < n ==> IsWhitespace(s[k])
    ensures n < |s| ==> !IsWhitespace(s[n])
  {
    if |s| > 0 && IsWhitespace(s[0]) then 1 + LeadingWhitespace(s[1..]) else 0
  }

  /** The number of whitespace characters at the tail of `s`. */
  function TrailingWhitespace(s: string): (n: nat)
    ensures n <= |s|
    ensures forall k :: |s| - n <= k < |s| ==> IsWhitespace(s[k])
    ensures n < |s| ==> !IsWhitespace(s[|s| - n - 1])
  {
    if |s| > 0 && IsWhitespace(s[|s| - 1]) then 1 + TrailingWhitespace(s[..|s| - 1]) else 0
  }

  /** `trim()`: `s` without its leading and trailing whitespace. */
  function Trim(s: string): (r: string)
    ensures |r| > 0 ==> !IsWhitespace(r[0]) && !IsWhitespace(r[|r| - 1])
  {
    var i := LeadingWhitespace(s);
    var j := |s| - TrailingWhitespace(s[i..]);
    TrimCut(s, i, j);
    s[i..j]
  }

  /** `trim()` keeps a slice of the text with only whitespace before and after
      it; with the ends of the slice visible, exactly the leading and trailing
      whitespace is gone. */
  lemma TrimEnds(s: string)
    ensures exists i, j :: 0 <= i <= j <= |s| && Trim(s) == s[i..j] && IsBlank(s[..i]) && IsBlank(s[j..])
  {
    var i := LeadingWhitespace(s);
    var j := |s| - TrailingWhitespace(s[i..]);
    TrimCut(s, i, j);
    assert Trim(s) == s[i..j];
    assert 0 <= i <= j <= |s| && Trim(s) == s[i..j] && IsBlank(s[..i]) && IsBlank(s[j..]);
  }

  /** The cut `trim()` makes: the leading run and the trailing run of what is
      left are blank. */
  lemma TrimCut(s: string, i: nat, j: nat)
    requires i == LeadingWhitespace(s)
    requires j == |s| - TrailingWhitespace(s[i..])
    ensures i <= j <= |s| && s[i..j] == s[i..][..j - i] && s[j..] == s[i..][j - i..]
    ensures IsBlank(s[..i]) && IsBlank(s[j..])
  {
    var rest := s[i..];
    LeadingBlank(s);
    TrailingBlank(rest);
    SliceOfSlice(s, i, j);
  }

  lemma SliceOfSlice(s: string, i: nat, j: nat)
    requires i <= j <= |s|
    ensures s[i..j] == s[i..][..j - i] && s[j..] == s[i..][j - i..]
  {
  }

  lemma LeadingBlank(s: string)
    ensures IsBlank(s[..LeadingWhitespace(s)])
  {
    var n := LeadingWhitespace(s);
    forall k | 0 <= k < n
      ensures IsWhitespace(s[..n][k])
    {
      assert s[..n][k] == s[k];
    }
  }

  lemma TrailingBlank(s: string)
    ensures IsBlank(s[|s| - TrailingWhitespace(s)..])
  {
    var n := TrailingWhitespace(s);
    var tail := s[|s| - n..];
    forall k | 0 <= k < |tail|
      ensures IsWhitespace(tail[k])
    {
      assert tail[k] == s[|s| - n + k];
    }
  }

  lemma AllWhitespaceInvisible(s: string)
    requires forall k :: 0 <= k < |s| ==> IsWhitespace(s[k])
    ensures Visible(s) == []
  {
    if |s| > 0 {
      AllWhitespaceInvisible(s[1..]);
    }
  }

  /** Trimming removes whitespace only, and only from the ends. */
  lemma TrimVisible(s: string)
    ensures Visible(Trim(s)) == Visible(s)
  {
    var i := LeadingWhitespace(s);
    var rest := s[i..];
    var j := |s| - TrailingWhitespace(rest);
    TrimCut(s, i, j);
    assert Trim(s) == rest[..j - i];
    DropBlankHead(s, i);
    DropBlankTail(rest, j - i);
  }

  /** Dropping a blank head loses nothing visible. */
  lemma DropBlankHead(s: string, i: nat)
    requires i <= |s| && IsBlank(s[..i])
    ensures Visible(s[i..]) == Visible(s)
  {
    assert s == s[..i] + s[i..];
    AllWhitespaceInvisible(s[..i]);
    VisibleConcat(s[..i], s[i..]);
  }

  /** Dropping a blank tail loses nothing visible. */
  lemma DropBlankTail(s: string, i: nat)
    requires i <= |s| && IsBlank(s[i..])
    ensures Visible(s[..i]) == Visible(s)
  {
    assert s == s[..i] + s[i..];
    AllWhitespaceInvisible(s[i..]);
    VisibleConcat(s[..i], s[i..]);
  }

  lemma TrimOnlySpaces(s: string)
    requires OnlySpaces(s)
    ensures OnlySpaces(Trim(s))
  {
    var i := LeadingWhitespace(s);
    forall k | 0 <= k < |Trim(s)|
      ensures Trim(s)[k] == ' ' || !IsWhitespace(Trim(s)[k])
    {
      assert Trim(s)[k] == s[i + k];
    }
  }

  /** `normalizeWhitespace(line)` */
  function NormalizeWhitespace(line: string): (r: string)
    ensures |r| > 0 ==> !IsWhitespace(r[0]) && !IsWhitespace(r[|r| - 1])
  {
    Trim(HalveSpaces(KeepSpaces(line)))
  }

  /** The result keeps every visible character of the line, in order, and no
      whitespace but the plain space. */
  lemma NormalizeWhitespaceVisible(line: string)
    ensures Visible(NormalizeWhitespace(line)) == Visible(line)
    ensures OnlySpaces(NormalizeWhitespace(line))
  {
    KeepSpacesVisible(line);
    HalveSpacesVisible(KeepSpaces(line));
    HalveSpacesOnlySpaces(KeepSpaces(line));
    TrimVisible(HalveSpaces(KeepSpaces(line)));
    TrimOnlySpaces(HalveSpaces(KeepSpaces(line)));
  }

  /** Spaces between words: a run of `k` spaces between a line part that ends
      and one that starts with a visible character is halved, rounding up, so
      that at least one space is left where there was one; the parts on either
      side are normalised on their own. */
  lemma NormalizeWhitespaceJoin(a: string, k: nat, b: string)
    requires |a| > 0 && !IsWhitespace(a[|a| - 1])
    requires |b| > 0 && !IsWhitespace(b[0])
    ensures NormalizeWhitespace(a + Spaces(k) + b) ==
      NormalizeWhitespace(a) + Spaces((k + 1) / 2) + NormalizeWhitespace(b)
  {
    var ka, kb := KeepSpaces(a), KeepSpaces(b);
    KeepSpacesLast(a);
    KeepSpacesFirst(b);
    KeepSpacesConcat(a, Spaces(k) + b);
    KeepSpacesConcat(Spaces(k), b);
    KeepSpacesSpaces(k);
    assert KeepSpaces(a + Spaces(k) + b) == ka + Spaces(k) + kb by {
      assert a + Spaces(k) + b == a + (Spaces(k) + b);
    }
    var ha, hb := HalveSpaces(ka), HalveSpaces(kb);
    HalveSpacesAround(ka, k, kb);
    HalveSpacesLast(ka);
    ReplaceKeepsHead(kb, "  ", " ");
    TrimJoin(ha, Spaces((k + 1) / 2), hb);
  }

  /** A tab, a line feed or a no-break space inside a line is removed without a
      trace, so "14.\tJanuar 2022" normalises like "14.Januar 2022". */
  lemma NormalizeWhitespaceDrop(a: string, c: char, b: string)
    requires IsWhitespace(c) && c != ' '
    ensures NormalizeWhitespace(a + [c] + b) == NormalizeWhitespace(a + b)
  {
    KeepSpacesDrop(a, c, b);
  }

  lemma {:induction false} KeepSpacesConcat(x: string, y: string)
    ensures KeepSpaces(x + y) == KeepSpaces(x) + KeepSpaces(y)
    decreases |x|
  {
    if |x| == 0 {
      assert x + y == y;
    } else {
      assert (x + y)[0] == x[0] && (x + y)[1..] == x[1..] + y;
      KeepSpacesConcat(x[1..], y);
    }
  }

  lemma {:induction false} KeepSpacesSpaces(k: nat)
    ensures KeepSpaces(Spaces(k)) == Spaces(k)
  {
    if k > 0 {
      assert Spaces(k)[1..] == Spaces(k - 1);
      KeepSpacesSpaces(k - 1);
      assert Spaces(k) == [' '] + Spaces(k - 1);
    }
  }

  /** A visible last character is kept last. */
  lemma KeepSpacesLast(a: string)
    requires |a| > 0 && !IsWhitespace(a[|a| - 1])
    ensures var r := KeepSpaces(a); |r| > 0 && r[|r| - 1] == a[|a| - 1]
  {
    var init := a[..|a| - 1];
    assert a == init + [a[|a| - 1]];
    KeepSpacesConcat(init, [a[|a| - 1]]);
    assert KeepSpaces([a[|a| - 1]]) == [a[|a| - 1]];
  }

  /** A visible first character is kept first. */
  lemma KeepSpacesFirst(b: string)
    requires |b| > 0 && !IsWhitespace(b[0])
    ensures var r := KeepSpaces(b); |r| > 0 && r[0] == b[0]
  {
  }

  /** Whitespace other than the plain space is deleted outright, not turned
      into a space: the text on either side of it closes up. */
  lemma KeepSpacesDrop(a: string, c: char, b: string)
    requires IsWhitespace(c) && c != ' '
    ensures KeepSpaces(a + [c] + b) == KeepSpaces(a + b)
  {
    KeepSpacesConcat(a + [c], b);
    KeepSpacesConcat(a, [c]);
    KeepSpacesConcat(a, b);
    assert KeepSpaces([c]) == [];
  }

  /** The pass cannot replace across a character other than the space, so the
      text up to it, and the text after a run of spaces followed by a
      non-space, are rewritten on their own. */
  lemma HalveSpacesAround(x: string, k: nat, y: string)
    requires |x| > 0 && x[|x| - 1] != ' ' && |y| > 0 && y[0] != ' '
    ensures HalveSpaces(x + Spaces(k) + y) == HalveSpaces(x) + Spaces((k + 1) / 2) + HalveSpaces(y)
  {
    ReplaceCut(x + Spaces(k), y, "  ", " ");
    HalveSpacesAfter(x, Spaces(k));
    HalveSpacesRun(k);
  }

  /** After a character other than the space, the pass starts afresh. */
  lemma HalveSpacesAfter(x: string, z: string)
    requires |x| > 0 && x[|x| - 1] != ' '
    ensures HalveSpaces(x + z) == HalveSpaces(x) + HalveSpaces(z)
  {
    var c := x[|x| - 1];
    var init := x[..|x| - 1];
    assert x + z == init + ([c] + z) && x == init + [c];
    ReplaceCut(init, [c] + z, "  ", " ");
    ReplaceCut(init, [c], "  ", " ");
    ReplaceSkip([c], z, "  ", " ");
    ReplaceSkip([c], [], "  ", " ");
    assert [c] + [] == [c];
  }

  /** A last character other than the space stays last. */
  lemma HalveSpacesLast(x: string)
    requires |x| > 0 && x[|x| - 1] != ' '
    ensures var r := HalveSpaces(x); |r| > 0 && r[|r| - 1] == x[|x| - 1]
  {
    var c := x[|x| - 1];
    var init := x[..|x| - 1];
    assert x == init + [c];
    ReplaceCut(init, [c], "  ", " ");
    ReplaceSkip([c], [], "  ", " ");
    assert [c] + [] == [c];
  }

  lemma {:induction false} LeadingConcat(p: string, x: string)
    requires LeadingWhitespace(p) < |p|
    ensures LeadingWhitespace(p + x) == LeadingWhitespace(p)
    decreases |p|
  {
    assert (p + x)[0] == p[0];
    if IsWhitespace(p[0]) {
      assert (p + x)[1..] == p[1..] + x;
      LeadingConcat(p[1..], x);
    }
  }

  lemma {:induction false} TrailingConcat(x: string, q: string)
    requires TrailingWhitespace(q) < |q|
    ensures TrailingWhitespace(x + q) == TrailingWhitespace(q)
    decreases |q|
  {
    assert (x + q)[|x + q| - 1] == q[|q| - 1];
    if IsWhitespace(q[|q| - 1]) {
      assert (x + q)[..|x + q| - 1] == x + q[..|q| - 1];
      TrailingConcat(x, q[..|q| - 1]);
    }
  }

  /** Trimming a text whose middle part is flanked by visible characters trims
      only the outer parts. */
  lemma TrimJoin(p: string, m: string, q: string)
    requires |p| > 0 && !IsWhitespace(p[|p| - 1])
    requires |q| > 0 && !IsWhitespace(q[0])
    ensures Trim(p + m + q) == Trim(p) + m + Trim(q)
  {
    var lp, tq := LeadingWhitespace(p), TrailingWhitespace(q);
    VisibleEnds(p, q);
    JoinRuns(p, m, q);
    var s := p + m + q;
    TrimSlice(s, lp, tq);
    TrimSlice(p, lp, 0);
    TrimSlice(q, 0, tq);
    SliceOfThree(p, m, q, lp, tq);
    assert Trim(s) == s[lp..|s| - tq];
    assert Trim(p) == p[lp..|p|] && Trim(q) == q[0..|q| - tq];
  }

  /** The leading run of the whole is that of `p`, and the trailing run of what
      follows it is that of `q`. */
  lemma JoinRuns(p: string, m: string, q: string)
    requires LeadingWhitespace(p) < |p| && TrailingWhitespace(q) < |q|
    ensures LeadingWhitespace(p + m + q) == LeadingWhitespace(p)
    ensures TrailingWhitespace((p + m + q)[LeadingWhitespace(p)..]) == TrailingWhitespace(q)
  {
    var lp := LeadingWhitespace(p);
    assert p + m + q == p + (m + q);
    LeadingConcat(p, m + q);
    assert (p + m + q)[lp..] == (p[lp..] + m) + q;
    TrailingConcat(p[lp..] + m, q);
  }

  /** A visible last character ends the leading run early and the trailing run
      of what follows it is empty; a visible first character does the same from
      the other side. */
  lemma VisibleEnds(p: string, q: string)
    requires |p| > 0 && !IsWhitespace(p[|p| - 1])
    requires |q| > 0 && !IsWhitespace(q[0])
    ensures LeadingWhitespace(p) < |p| && TrailingWhitespace(p[LeadingWhitespace(p)..]) == 0
    ensures TrailingWhitespace(q) < |q| && LeadingWhitespace(q) == 0
  {
    var lp := LeadingWhitespace(p);
    if lp < |p| {
      var rest := p[lp..];
      assert rest[|rest| - 1] == p[|p| - 1];
    }
  }

  /** `trim()` as one slice, given the leading run and the trailing run after it. */
  lemma TrimSlice(s: string, i: nat, j: nat)
    requires i == LeadingWhitespace(s) && j == TrailingWhitespace(s[i..])
    ensures i + j <= |s| && Trim(s) == s[i..|s| - j]
  {
  }

  lemma SliceOfThree(p: string, m: string, q: string, i: nat, j: nat)
    requires i <= |p| && j <= |q|
    ensures (p + m + q)[i..|p + m + q| - j] == p[i..|p|] + m + q[0..|q| - j]
  {
  }

  // ---------------------------------------------------------------------------
  // normalizeDescription
  // ---------------------------------------------------------------------------

  /** `lines()`: split at "\r\n", "\n" and "\r"; a trailing terminator leaves an
      empty last line. */
  function Lines(s: string): (r: seq<string>)
    ensures |r| > 0
    ensures forall i :: 0 <= i < |r| ==> '\n' !in r[i] && '\r' !in r[i]
    decreases |s|
  {
    if |s| == 0 then [""]
    else if s[0] == '\n' then [""] + Lines(s[1..])
    else if s[0] == '\r' then [""] + Lines(if |s| > 1 && s[1] == '\n' then s[2..] else s[1..])
    else
      var rest := Lines(s[1..]);
      [[s[0]] + rest[0]] + rest[1..]
  }

  /** `joinToString(sep)` */
  function Join(xs: seq<string>, sep: string): string {
    if |xs| == 0 then ""
    else if |xs| == 1 then xs[0]
    else xs[0] + sep + Join(xs[1..], sep)
  }

  /** Without carriage returns, joining the lines with "\n" gives the text back. */
  lemma {:induction false} LinesJoin(s: string)
    requires '\r' !in s
    ensures Join(Lines(s), "\n") == s
    decreases |s|
  {
    if |s| > 0 {
      assert '\r' !in s[1..] by {
        assert forall k :: 0 <= k < |s| - 1 ==> s[1..][k] == s[k + 1];
      }
      LinesJoin(s[1..]);
      var rest := Lines(s[1..]);
      if s[0] == '\n' {
        assert s == "\n" + s[1..];
      } else {
        assert s == [s[0]] + s[1..];
        if |rest| > 1 {
          assert Join(rest, "\n") == rest[0] + "\n" + Join(rest[1..], "\n");
          assert [[s[0]] + rest[0]] + rest[1..] == [[s[0]] + rest[0]] + rest[1..];
        }
      }
    }
  }

  /** The text with each line terminator, "\r\n", "\n" or "\r", written as "\n". */
  function UnifyBreaks(s: string): (r: string)
    ensures '\r' !in r
    decreases |s|
  {
    if |s| == 0 then ""
    else if s[0] == '\r' then "\n" + UnifyBreaks(if |s| > 1 && s[1] == '\n' then s[2..] else s[1..])
    else [s[0]] + UnifyBreaks(s[1..])
  }

  /** Joining the lines with "\n" gives the text back, each terminator read as "\n". */
  lemma {:induction false} LinesUnify(s: string)
    ensures Join(Lines(s), "\n") == UnifyBreaks(s)
    decreases |s|
  {
    if |s| > 0 {
      if s[0] == '\n' || s[0] == '\r' {
        var t := if s[0] == '\r' && |s| > 1 && s[1] == '\n' then s[2..] else s[1..];
        LinesUnify(t);
        var rest := Lines(t);
        assert Lines(s) == [""] + rest;
        assert ([""] + rest)[1..] == rest;
      } else {
        LinesUnify(s[1..]);
        var rest := Lines(s[1..]);
        if |rest| > 1 {
          assert Join(rest, "\n") == rest[0] + "\n" + Join(rest[1..], "\n");
          assert ([[s[0]] + rest[0]] + rest[1..])[1..] == rest[1..];
        }
      }
    }
  }

  /** `isBlank()` */
  predicate IsBlank(line: string) {
    forall k :: 0 <= k < |line| ==> IsWhitespace(line[k])
  }

  /** `filter { it.isNotBlank() }` */
  function NonBlank(xs: seq<string>): (r: seq<string>)
    ensures forall i :: 0 <= i < |r| ==> !IsBlank(r[i])
    ensures forall x :: x in r <==> x in xs && !IsBlank(x)
    ensures |xs| == 1 ==> r == (if IsBlank(xs[0]) then [] else xs)
  {
    if |xs| == 0 then []
    else
      assert xs == [xs[0]] + xs[1..];
      (if IsBlank(xs[0]) then [] else [xs[0]]) + NonBlank(xs[1..])
  }

  /** The filter keeps the order of the lines: it works line by line. */
  lemma {:induction false} NonBlankConcat(xs: seq<string>, ys: seq<string>)
    ensures NonBlank(xs + ys) == NonBlank(xs) + NonBlank(ys)
    decreases |xs|
  {
    if |xs| > 0 {
      assert (xs + ys)[1..] == xs[1..] + ys;
      NonBlankConcat(xs[1..], ys);
    } else {
      assert xs + ys == ys;
    }
  }

  /** The ad marker, compared ignoring the case of ASCII letters. */
  const AdMarker := "aus unserer werbung"

  predicate MarkerAt(line: string, i: nat)
    requires i + |AdMarker| <= |line|
  {
    Lower(line[i..i + |AdMarker|]) == AdMarker
  }

  /** `contains("aus unserer werbung", ignoreCase = true)` */
  predicate ContainsMarker(line: string) {
    exists i: nat :: i + |AdMarker| <= |line| && MarkerAt(line, i)
  }

  /** A line where the description text ends: an ad block heading, or a block of
      literature or related episodes introduced by "//". */
  predicate IsStop(line: string) {
    ContainsMarker(line) || "//" <= line
  }

  /** `takeWhile { !IsStop(it) }` */
  function BeforeStop(xs: seq<string>): (r: seq<string>)
    ensures |r| <= |xs| && r == xs[..|r|]
    ensures forall i :: 0 <= i < |r| ==> !IsStop(r[i])
    ensures |r| < |xs| ==> IsStop(xs[|r|])
  {
    if |xs| == 0 || IsStop(xs[0]) then []
    else
      var rest := BeforeStop(xs[1..]);
      assert xs[..1 + |rest|] == [xs[0]] + xs[1..][..|rest|];
      [xs[0]] + rest
  }

  /** The lines of a description that make it into the normalised text. */
  function KeptLines(description: string): seq<string> {
    BeforeStop(NonBlank(Lines(description)))
  }

  function NormalizeLines(xs: seq<string>): (r: seq<string>)
    ensures |r| == |xs|
    ensures forall i :: 0 <= i < |xs| ==> r[i] == NormalizeWhitespace(xs[i])
  {
    seq(|xs|, i requires 0 <= i < |xs| => NormalizeWhitespace(xs[i]))
  }

  /** `normalizeDescription(description)` */
  function NormalizeDescription(description: string): string {
    Join(NormalizeLines(KeptLines(description)), " ")
  }

  /** The visible characters of several lines, in order. */
  function VisibleAll(xs: seq<string>): string {
    if |xs| == 0 then [] else Visible(xs[0]) + VisibleAll(xs[1..])
  }

  lemma {:induction false} JoinSpaces(xs: seq<string>)
    requires forall i :: 0 <= i < |xs| ==> OnlySpaces(xs[i])
    ensures Visible(Join(xs, " ")) == VisibleAll(xs)
    ensures OnlySpaces(Join(xs, " "))
  {
    if |xs| > 1 {
      JoinSpaces(xs[1..]);
      var head, tail := xs[0] + " ", Join(xs[1..], " ");
      assert Join(xs, " ") == head + tail;
      VisibleConcat(head, tail);
      VisibleConcat(xs[0], " ");
      OnlySpacesConcat(xs[0], " ");
      OnlySpacesConcat(head, tail);
    } else if |xs| == 1 {
      assert VisibleAll(xs[1..]) == [];
    }
  }

  lemma NormalizeLinesVisible(xs: seq<string>)
    ensures VisibleAll(NormalizeLines(xs)) == VisibleAll(xs)
    ensures forall i :: 0 <= i < |xs| ==> OnlySpaces(NormalizeLines(xs)[i])
  {
    var ys := NormalizeLines(xs);
    forall i | 0 <= i < |xs|
      ensures Visible(ys[i]) == Visible(xs[i]) && OnlySpaces(ys[i])
    {
      NormalizeWhitespaceVisible(xs[i]);
    }
    SameVisibleAll(xs, ys);
  }

  /** Lines that agree, one by one, on their visible characters agree on all of them. */
  lemma {:induction false} SameVisibleAll(xs: seq<string>, ys: seq<string>)
    requires |xs| == |ys| && forall i :: 0 <= i < |xs| ==> Visible(ys[i]) == Visible(xs[i])
    ensures VisibleAll(ys) == VisibleAll(xs)
    decreases |xs|
  {
    if |xs| > 0 {
      assert Visible(ys[0]) == Visible(xs[0]);
      SameVisibleAll(xs[1..], ys[1..]);
    }
  }

  /** The normalised description holds, in order, exactly the visible characters
      of the non-blank lines before the first stop line, and no whitespace but
      the plain space. */
  lemma NormalizeDescriptionVisible(description: string)
    ensures Visible(NormalizeDescription(description)) == VisibleAll(KeptLines(description))
    ensures OnlySpaces(NormalizeDescription(description))
  {
    var kept := KeptLines(description);
    NormalizeLinesVisible(kept);
    JoinSpaces(NormalizeLines(kept));
  }

  /** A line that is not blank has a visible character. */
  lemma {:induction false} VisibleOfNonBlank(line: string)
    requires !IsBlank(line)
    ensures |Visible(line)| > 0
    decreases |line|
  {
    var k :| 0 <= k < |line| && !IsWhitespace(line[k]);
    if IsWhitespace(line[0]) {
      assert line[1..][k - 1] == line[k];
      VisibleOfNonBlank(line[1..]);
    }
  }

  /** Every kept line normalises to a non-empty text that neither starts nor
      ends with whitespace. */
  lemma KeptLinesNormalized(description: string)
    ensures var ys := NormalizeLines(KeptLines(description));
      forall i :: 0 <= i < |ys| ==> Flanked(ys[i])
  {
    var kept := KeptLines(description);
    forall i | 0 <= i < |kept|
      ensures Flanked(NormalizeWhitespace(kept[i]))
    {
      assert !IsBlank(kept[i]);
      VisibleOfNonBlank(kept[i]);
      NormalizeWhitespaceVisible(kept[i]);
    }
  }

  /** A non-empty text that starts and ends with a visible character. */
  predicate Flanked(s: string) {
    |s| > 0 && !IsWhitespace(s[0]) && !IsWhitespace(s[|s| - 1])
  }

  /** Joining splits between any two consecutive elements, at one separator. */
  lemma {:induction false} JoinSplit(xs: seq<string>, sep: string, i: nat)
    requires 0 < i < |xs|
    ensures Join(xs, sep) == Join(xs[..i], sep) + sep + Join(xs[i..], sep)
  {
    if i == 1 {
      assert xs[..1] == [xs[0]] && xs[1..] == xs[i..];
    } else {
      JoinSplit(xs[1..], sep, i - 1);
      assert xs[1..][..i - 1] == xs[..i][1..] && xs[1..][i - 1..] == xs[i..];
      assert xs[..i][0] == xs[0];
    }
  }

  /** Texts that start and end with visible characters, joined with a space, give
      such a text again. */
  lemma {:induction false} JoinFlanked(xs: seq<string>)
    requires |xs| > 0 && forall i :: 0 <= i < |xs| ==> Flanked(xs[i])
    ensures Flanked(Join(xs, " "))
  {
    if |xs| > 1 {
      JoinFlanked(xs[1..]);
      var rest := Join(xs[1..], " ");
      var r := xs[0] + " " + rest;
      assert r[0] == xs[0][0] && r[|r| - 1] == rest[|rest| - 1];
    }
  }

  /** The normalised kept lines are joined by exactly one space each: the text
      splits at a single space between the first `i` lines and the rest, and
      neither side has whitespace next to that space. */
  lemma NormalizeDescriptionJoined(description: string, i: nat)
    requires 0 < i < |KeptLines(description)|
    ensures var ys := NormalizeLines(KeptLines(description));
      && NormalizeDescription(description) == Join(ys[..i], " ") + " " + Join(ys[i..], " ")
      && Flanked(Join(ys[..i], " ")) && Flanked(Join(ys[i..], " "))
  {
    var ys := NormalizeLines(KeptLines(description));
    KeptLinesNormalized(description);
    JoinSplit(ys, " ", i);
    JoinFlanked(ys[..i]);
    JoinFlanked(ys[i..]);
  }

  /** The description normalises to the empty text exactly when no line is kept. */
  lemma NormalizeDescriptionEmpty(description: string)
    ensures NormalizeDescription(description) == "" <==> KeptLines(description) == []
  {
    var ys := NormalizeLines(KeptLines(description));
    if |ys| > 0 {
      KeptLinesNormalized(description);
      JoinFlanked(ys);
    }
  }

  /** An empty description normalises to the empty text. */
  lemma NormalizeEmpty()
    ensures NormalizeDescription("") == ""
  {
    assert Lines("") == [""];
    assert IsBlank("");
    assert NonBlank([""]) == [];
  }
}
