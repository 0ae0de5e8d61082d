/** `extractEpisodeLinks`: the numbers of the other episodes a description links
    to, through any of the three URL formats the feed has used. */
module Links {
  import opened Wrappers
  import opened Text

  /** The alternatives of the first group of the link pattern, in order. */
  const LinkPrefixes: seq<string> := ["gadg.fm/", "geschichte.fm/podcast/zs", "geschichte.fm/archiv/gag"]

  predicate DigitAt(s: string, i: nat) {
    i < |s| && IsDigit(s[i])
  }

  /** The link pattern matches at the start of `s` with prefix `k` and number
      digits `d`: two digits, and a third one whenever it is there (`\d\d\d?` is
      greedy). */
  predicate LinkGreedy(s: string, k: nat, d: string) {
    k < |LinkPrefixes| && 2 <= |d| <= 3 && AllDigits(d) && LinkPrefixes[k] + d <= s &&
    (|d| == 2 ==> !DigitAt(s, |LinkPrefixes[k]| + 2))
  }

  /** The first alternative that `s` starts with. */
  function PrefixIndex(s: string): (r: Option<nat>)
    ensures r.Some? ==> r.value < |LinkPrefixes| && LinkPrefixes[r.value] <= s
    ensures r.None? ==> forall k :: 0 <= k < |LinkPrefixes| ==> !(LinkPrefixes[k] <= s)
  {
    if LinkPrefixes[0] <= s then Some(0)
    else if LinkPrefixes[1] <= s then Some(1)
    else if LinkPrefixes[2] <= s then Some(2)
    else None
  }

  /** No text starts with two different alternatives: "gadg.fm/" parts from
      the others at the second character, and the other two part at the
      fifteenth. */
  lemma PrefixUnique(s: string, j: nat, k: nat)
    requires j < |LinkPrefixes| && k < |LinkPrefixes|
    requires LinkPrefixes[j] <= s && LinkPrefixes[k] <= s
    ensures j == k
  {
    assert LinkPrefixes[j][1] == s[1] == LinkPrefixes[k][1];
    if j != 0 && k != 0 {
      assert LinkPrefixes[j][14] == s[14] == LinkPrefixes[k][14];
    }
  }

  /** The match of the link pattern at the start of `s`: the prefix taken and the
      digits of the number. */
  function LinkAt(s: string): (r: Option<(nat, string)>)
    ensures forall k: nat, d: string {:trigger LinkGreedy(s, k, d)} :: LinkGreedy(s, k, d) <==> r == Some((k, d))
  {
    match PrefixIndex(s)
    case None => None
    case Some(k) =>
      var q := |LinkPrefixes[k]|;
      if DigitAt(s, q) && DigitAt(s, q + 1) then
        var d := if DigitAt(s, q + 2) then s[q..q + 3] else s[q..q + 2];
        LinkAtSome(s, k, d);
        Some((k, d))
      else
        LinkAtNone(s, k);
        None
  }

  lemma LinkAtSome(s: string, k: nat, d: string)
    requires PrefixIndex(s) == Some(k)
    requires var q := |LinkPrefixes[k]|;
      DigitAt(s, q) && DigitAt(s, q + 1) && d == if DigitAt(s, q + 2) then s[q..q + 3] else s[q..q + 2]
    ensures forall j: nat, e: string :: LinkGreedy(s, j, e) <==> j == k && e == d
  {
    var q := |LinkPrefixes[k]|;
    assert s[..q] == LinkPrefixes[k];
    assert q + |d| <= |s| && s[q..q + |d|] == d;
    assert AllDigits(d) by {
      forall i | 0 <= i < |d|
        ensures IsDigit(d[i])
      {
        assert d[i] == s[q + i];
      }
    }
    assert LinkGreedy(s, k, d) by {
      assert s[..q + |d|] == s[..q] + s[q..q + |d|];
    }
    forall j: nat, e: string | LinkGreedy(s, j, e)
      ensures j == k && e == d
    {
      LinkOnly(s, k, d, j, e);
    }
  }

  /** Any link at the start of `s` is the one `LinkAt` takes. */
  lemma LinkOnly(s: string, k: nat, d: string, j: nat, e: string)
    requires PrefixIndex(s) == Some(k)
    requires var q := |LinkPrefixes[k]|;
      DigitAt(s, q) && DigitAt(s, q + 1) && d == if DigitAt(s, q + 2) then s[q..q + 3] else s[q..q + 2]
    requires LinkGreedy(s, j, e)
    ensures j == k && e == d
  {
    var q := |LinkPrefixes[k]|;
    assert LinkPrefixes[j] == (LinkPrefixes[j] + e)[..|LinkPrefixes[j]|];
    PrefixUnique(s, j, k);
    assert e == s[..q + |e|][q..];
    if |e| == 3 {
      assert s[q + 2] == e[2];
    }
  }

  lemma LinkAtNone(s: string, k: nat)
    requires PrefixIndex(s) == Some(k)
    requires !(DigitAt(s, |LinkPrefixes[k]|) && DigitAt(s, |LinkPrefixes[k]| + 1))
    ensures forall j: nat, e: string :: !LinkGreedy(s, j, e)
  {
    var q := |LinkPrefixes[k]|;
    forall j: nat, e: string | LinkGreedy(s, j, e)
      ensures false
    {
      assert LinkPrefixes[j] == (LinkPrefixes[j] + e)[..|LinkPrefixes[j]|];
      PrefixUnique(s, j, k);
    }
  }

  /** What the pattern matches at the start of `s` is a link. */
  lemma LinkAtLink(s: string)
    requires LinkAt(s).Some?
    ensures LinkGreedy(s, LinkAt(s).value.0, LinkAt(s).value.1)
  {
  }

  /** A match is a non-empty piece of `s`. */
  lemma LinkAtSpan(s: string)
    requires LinkAt(s).Some?
    ensures LinkAt(s).value.0 < |LinkPrefixes|
    ensures 0 < |LinkPrefixes[LinkAt(s).value.0] + LinkAt(s).value.1| <= |s|
  {
    LinkAtLink(s);
  }

  /** Where `findAll` goes on after the match at `from`: the end of that match. */
  function NextFrom(s: string, from: nat): (r: nat)
    requires from < |s| && LinkAt(s[from..]).Some?
    ensures from < r <= |s|
  {
    LinkAtSpan(s[from..]);
    from + |LinkPrefixes[LinkAt(s[from..]).value.0] + LinkAt(s[from..]).value.1|
  }

  /** One result of `findAll`: the range of the match, the alternative taken and
      the digits of group 2. */
  datatype LinkMatch = LinkMatch(start: nat, end: nat, prefix: nat, digits: string)

  /** `findAll` from `from` on: the leftmost match, then the next one from where
      it ended. The matches are links, in text order, and do not overlap. */
  function FindAll(s: string, from: nat): (r: seq<LinkMatch>)
    requires from <= |s|
    ensures forall i :: 0 <= i < |r| ==>
      from <= r[i].start <= |s| && LinkGreedy(s[r[i].start..], r[i].prefix, r[i].digits) &&
      r[i].end == r[i].start + |LinkPrefixes[r[i].prefix] + r[i].digits|
    ensures forall i, j :: 0 <= i < j < |r| ==> r[i].end <= r[j].start
    decreases |s| - from
  {
    if from == |s| then []
    else if LinkAt(s[from..]).None? then FindAll(s, from + 1)
    else
      var next := NextFrom(s, from);
      [LinkMatch(from, next, LinkAt(s[from..]).value.0, LinkAt(s[from..]).value.1)] + FindAll(s, next)
  }

  /** A text with a link at or after `from` yields at least one match. */
  lemma {:induction false} FindAllComplete(s: string, from: nat, p: nat, k: nat, d: string)
    requires from <= p <= |s| && LinkGreedy(s[p..], k, d)
    ensures FindAll(s, from) != []
    decreases p - from
  {
    if from < p && LinkAt(s[from..]).None? {
      FindAllComplete(s, from + 1, p, k, d);
    }
  }

  /** No link starts before the first match. */
  lemma {:induction false} FindAllLeftmost(s: string, from: nat, p: nat)
    requires from <= p <= |s|
    requires FindAll(s, from) == [] || p < FindAll(s, from)[0].start
    ensures LinkAt(s[p..]).None?
    decreases p - from
  {
    if from < p {
      FindAllLeftmost(s, from + 1, p);
    }
  }

  /** Every alternative starts with "ga" or "ge" followed by "d" or "s", so every
      link does. */
  lemma LinkStart(s: string, p: nat, j: nat, e: string)
    requires p <= |s| && LinkGreedy(s[p..], j, e)
    ensures p + 3 <= |s| && s[p] == 'g' && (s[p + 1] == 'a' || s[p + 1] == 'e') && (s[p + 2] == 'd' || s[p + 2] == 's')
  {
    var w := LinkPrefixes[j] + e;
    LinkChars(s, p, j, e, 0);
    LinkChars(s, p, j, e, 1);
    LinkChars(s, p, j, e, 2);
    assert w[0] == LinkPrefixes[j][0] && w[1] == LinkPrefixes[j][1] && w[2] == LinkPrefixes[j][2];
  }

  /** The text of a link at `p`, character by character. */
  lemma LinkChars(s: string, p: nat, j: nat, e: string, i: nat)
    requires p <= |s| && LinkGreedy(s[p..], j, e) && i < |LinkPrefixes[j] + e|
    ensures p + i < |s| && s[p + i] == (LinkPrefixes[j] + e)[i]
  {
    var w := LinkPrefixes[j] + e;
    assert s[p..][..|w|] == w;
    assert s[p..][..|w|][i] == s[p + i];
  }

  /** No position inside a link's text, past its first character, looks like the
      start of a link: the inner "g"s of the alternatives are followed by ".",
      by "ag" or by a digit. */
  lemma InnerNoStart(k: nat, d: string, i: nat)
    requires k < |LinkPrefixes| && 2 <= |d| && AllDigits(d)
    requires 0 < i < |LinkPrefixes[k] + d|
    ensures var w := LinkPrefixes[k] + d;
      w[i] != 'g' || (i + 2 < |w| && !((w[i + 1] == 'a' || w[i + 1] == 'e') && (w[i + 2] == 'd' || w[i + 2] == 's')))
  {
    var pre := LinkPrefixes[k];
    var w := pre + d;
    if i >= |pre| {
      assert w[i] == d[i - |pre|];
    } else {
      assert i + 2 < |w|;
      if k == 0 {
        assert pre == "gadg.fm/";
        if i == 3 {
          assert w[4] == '.';
        }
      } else if k == 1 {
        assert pre == "geschichte.fm/podcast/zs";
      } else {
        assert pre == "geschichte.fm/archiv/gag";
        if i == 21 {
          assert w[23] == 'g';
        } else if i == 23 {
          assert w[24] == d[0];
        }
      }
    }
  }

  /** No link starts strictly inside the text of another. */
  lemma NoLinkInside(s: string, q: nat, k: nat, d: string, p: nat, j: nat, e: string)
    requires q < p <= |s| && LinkGreedy(s[q..], k, d) && p < q + |LinkPrefixes[k] + d|
    ensures !LinkGreedy(s[p..], j, e)
  {
    var w := LinkPrefixes[k] + d;
    var i := p - q;
    InnerNoStart(k, d, i);
    LinkChars(s, q, k, d, i);
    if i + 2 < |w| {
      LinkChars(s, q, k, d, i + 1);
      LinkChars(s, q, k, d, i + 2);
    }
    if LinkGreedy(s[p..], j, e) {
      LinkStart(s, p, j, e);
    }
  }

  /** A link at the start of `s` is the one the pattern matches there. */
  lemma LinkAtGreedy(s: string, k: nat, d: string)
    requires LinkGreedy(s, k, d)
    ensures |LinkPrefixes[k] + d| <= |s| && LinkAt(s) == Some((k, d))
  {
  }

  /** A match at `from` is the next match, and the search goes on after it. */
  lemma FindAllTake(s: string, from: nat)
    requires from < |s| && LinkAt(s[from..]).Some?
    ensures FindAll(s, from) ==
      [LinkMatch(from, NextFrom(s, from), LinkAt(s[from..]).value.0, LinkAt(s[from..]).value.1)] +
      FindAll(s, NextFrom(s, from))
  {
  }

  /** Without a match at `from`, the search goes on at the next character. */
  lemma FindAllSkip(s: string, from: nat)
    requires from < |s| && LinkAt(s[from..]).None?
    ensures FindAll(s, from) == FindAll(s, from + 1)
  {
  }

  /** The match at index `i` after the match at `from` is at index `i + 1` from `from`. */
  lemma FindAllPast(s: string, from: nat, i: nat)
    requires from < |s| && LinkAt(s[from..]).Some?
    requires i < |FindAll(s, NextFrom(s, from))|
    ensures i + 1 < |FindAll(s, from)|
    ensures FindAll(s, from)[i + 1] == FindAll(s, NextFrom(s, from))[i]
  {
    FindAllTake(s, from);
    var m := LinkMatch(from, NextFrom(s, from), LinkAt(s[from..]).value.0, LinkAt(s[from..]).value.1);
    ConsIndex(FindAll(s, from), m, FindAll(s, NextFrom(s, from)), i);
  }

  lemma ConsIndex<T>(xs: seq<T>, x: T, ys: seq<T>, i: nat)
    requires xs == [x] + ys && i < |ys|
    ensures i + 1 < |xs| && xs[i + 1] == ys[i]
  {
  }

  /** Where in `FindAll(s, from)` the link at `p` is. */
  lemma {:induction false} FindAllIndex(s: string, from: nat, p: nat, k: nat, d: string) returns (i: nat)
    requires from <= p <= |s| && LinkGreedy(s[p..], k, d)
    ensures i < |FindAll(s, from)| && FindAll(s, from)[i] == LinkMatch(p, p + |LinkPrefixes[k] + d|, k, d)
    decreases p - from
  {
    if from == p {
      LinkAtGreedy(s[p..], k, d);
      FindAllTake(s, p);
      i := 0;
      assert FindAll(s, from)[0] == LinkMatch(p, p + |LinkPrefixes[k] + d|, k, d);
    } else if LinkAt(s[from..]).None? {
      FindAllSkip(s, from);
      i := FindAllIndex(s, from + 1, p, k, d);
    } else if p < NextFrom(s, from) {
      LinkAtLink(s[from..]);
      NoLinkInside(s, from, LinkAt(s[from..]).value.0, LinkAt(s[from..]).value.1, p, k, d);
      assert false;
    } else {
      var j := FindAllIndex(s, NextFrom(s, from), p, k, d);
      FindAllPast(s, from, j);
      i := j + 1;
    }
  }

  /** `findAll` finds every link at or after `from`, with its prefix and digits. */
  lemma FindAllEvery(s: string, from: nat, p: nat, k: nat, d: string)
    requires from <= p <= |s| && LinkGreedy(s[p..], k, d)
    ensures LinkMatch(p, p + |LinkPrefixes[k] + d|, k, d) in FindAll(s, from)
  {
    var i := FindAllIndex(s, from, p, k, d);
  }

  /** `groupValues[2].toInt()` of each match: a number below a thousand. */
  function Numbers(ms: seq<LinkMatch>): (r: seq<nat>)
    requires forall i :: 0 <= i < |ms| ==> AllDigits(ms[i].digits) && |ms[i].digits| <= 3
    ensures |r| == |ms|
    ensures forall i :: 0 <= i < |ms| ==> r[i] == DigitsValue(ms[i].digits)
    ensures forall n :: n in r ==> n <= 999
  {
    if |ms| == 0 then []
    else
      var d := ms[0].digits;
      DigitsValueBound(d);
      Pow10Monotone(|d|, 3);
      [DigitsValue(d)] + Numbers(ms[1..])
  }

  function LinkNumbers(s: string): (r: seq<nat>)
    ensures forall n :: n in r ==> n <= 999
  {
    Numbers(FindAll(s, 0))
  }

  /** `n` is the number of some link in the text. */
  ghost predicate Linked(s: string, n: nat) {
    exists p: nat, k: nat, d: string :: p <= |s| && LinkGreedy(s[p..], k, d) && DigitsValue(d) == n
  }

  /** The numbers `findAll` yields are exactly the numbers of the links in the text. */
  lemma LinkNumbersExact(s: string, n: nat)
    ensures n in LinkNumbers(s) <==> Linked(s, n)
  {
    if n in LinkNumbers(s) {
      LinkNumbersSound(s, n);
    }
    if Linked(s, n) {
      var p: nat, k: nat, d: string :| p <= |s| && LinkGreedy(s[p..], k, d) && DigitsValue(d) == n;
      LinkNumbersComplete(s, p, k, d);
    }
  }

  lemma LinkNumbersSound(s: string, n: nat)
    requires n in LinkNumbers(s)
    ensures Linked(s, n)
  {
    var ms := FindAll(s, 0);
    var i :| 0 <= i < |ms| && Numbers(ms)[i] == n;
    var m := ms[i];
    assert m.start <= |s| && LinkGreedy(s[m.start..], m.prefix, m.digits) && DigitsValue(m.digits) == n;
  }

  lemma LinkNumbersComplete(s: string, p: nat, k: nat, d: string)
    requires p <= |s| && LinkGreedy(s[p..], k, d)
    ensures DigitsValue(d) in LinkNumbers(s)
  {
    var ms := FindAll(s, 0);
    FindAllEvery(s, 0, p, k, d);
    var i :| 0 <= i < |ms| && ms[i] == LinkMatch(p, p + |LinkPrefixes[k] + d|, k, d);
    assert Numbers(ms)[i] == DigitsValue(d);
  }

  predicate StrictlyIncreasing(xs: seq<int>) {
    forall i, j :: 0 <= i < j < |xs| ==> xs[i] < xs[j]
  }

  /** `x` added to an ascending list of distinct numbers. */
  function AddSorted(x: int, s: seq<int>): (r: seq<int>)
    requires StrictlyIncreasing(s)
    ensures StrictlyIncreasing(r)
    ensures forall y :: y in r <==> y == x || y in s
    ensures |r| > 0 && (r[0] == x || (|s| > 0 && r[0] == s[0]))
  {
    if |s| == 0 then [x]
    else if x < s[0] then [x] + s
    else if x == s[0] then s
    else
      var rest := AddSorted(x, s[1..]);
      assert s == [s[0]] + s[1..];
      [s[0]] + rest
  }

  /** `toSortedSet().toList()`. */
  function ToSortedSet(xs: seq<int>): (r: seq<int>)
    ensures StrictlyIncreasing(r)
    ensures forall y :: y in r <==> y in xs
  {
    if |xs| == 0 then []
    else
      assert xs == [xs[0]] + xs[1..];
      AddSorted(xs[0], ToSortedSet(xs[1..]))
  }

  /** Two ascending lists of distinct numbers with the same elements are equal,
      so the contract of `ToSortedSet` fixes its result. */
  lemma {:induction false} SortedSetUnique(a: seq<int>, b: seq<int>)
    requires StrictlyIncreasing(a) && StrictlyIncreasing(b)
    requires forall y :: y in a <==> y in b
    ensures a == b
  {
    assert |a| > 0 ==> a[0] in a && a[0] in b;
    assert |b| > 0 ==> b[0] in b && b[0] in a;
    if |a| > 0 {
      assert a[0] == b[0] by {
        assert b[0] in a && a[0] in b;
      }
      forall y
        ensures y in a[1..] <==> y in b[1..]
      {
        if y in a[1..] {
          assert y in b && y != b[0];
        }
        if y in b[1..] {
          assert y in a && y != a[0];
        }
      }
      SortedSetUnique(a[1..], b[1..]);
      assert a == [a[0]] + a[1..] && b == [b[0]] + b[1..];
    }
  }

  function Without(xs: seq<nat>, episode: int): (r: seq<int>)
    ensures forall y :: y in r <==> y in xs && y != episode
  {
    if |xs| == 0 then []
    else
      assert xs == [xs[0]] + xs[1..];
      (if xs[0] == episode then [] else [xs[0] as int]) + Without(xs[1..], episode)
  }

  /** `extractEpisodeLinks(contentEncoded, episodeNumber)`: the linked episode
      numbers other than the episode's own, ascending and without repeats. */
  function ExtractEpisodeLinks(content: string, episode: int): (r: seq<int>)
    ensures StrictlyIncreasing(r)
    ensures forall n :: n in r <==> n in LinkNumbers(content) && n != episode
    ensures forall n :: n in r ==> 0 <= n <= 999 && n != episode
    ensures |content| == 0 ==> r == []
  {
    if |content| == 0 then []
    else ToSortedSet(Without(LinkNumbers(content), episode))
  }

  /** The result holds exactly the numbers of the links in the content, other
      than the episode's own. */
  lemma ExtractEpisodeLinksExact(content: string, episode: int, n: nat)
    ensures n in ExtractEpisodeLinks(content, episode) <==> Linked(content, n) && n != episode
  {
    LinkNumbersExact(content, n);
  }
}
