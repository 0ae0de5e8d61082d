# gagmap worker: temporal references and episode links

This project models the text-processing core of the gagmap worker. The worker
reads the episode feed of the history podcast "Geschichten aus der Geschichte".
For every episode it derives three things:

- the numbers of the other episodes that the show notes link to (`extractEpisodeLinks`);
- a cleaned-up, single-line description (`normalizeDescription`, `normalizeWhitespace`);
- the German time expressions in that description, such as "14. Januar 2022",
  "19. Jahrhundert vdZw" or "30er Jahre des 20. JH". Each becomes a
  `TemporalRef` with its literal text, its mode, a normalized spelling and a span
  of UTC instants (`extractTemporalRefs`, the `TemporalRef` constructor,
  `getStart`, `getEnd`, `parseGermanDate`).

The modules follow the program's structure:

- `Text`: the Kotlin string and `Int` operations the source relies on.
  These are `substringBefore`/`substringAfter`, `toInt`, the `$x` template, the
  single-pass `replace`, `lowercase`, and 32-bit wrap-around.
- `Calendar`: dates and second-precision instants, plus `parseGermanDate`.
  The pattern `"d. MMMM u"` with German month names is modelled as java.time
  parses it: strict numerals, no "-0", years within ±999,999,999, and the
  SMART resolver, which clamps a day past the month's end to its last day.
- `Literals`: the six regular expressions of the pattern registry as greedy
  matchers. Each returns the parse (`Shape`) of the text it matched. A
  declarative description (`Greedy`) says exactly which parse a greedy regex
  engine produces.
- `Resolver`: the `TemporalRef` record, `getStart`/`getEnd` along the source's
  own string path, and an arithmetic reference (`ExpectedSpan`) for every kind
  of literal.
- `Normalized`: what the five `replace` calls make of every literal the
  patterns can match.
- `Extraction`: the priority-restart scan, the constructor call for every
  match, `toSet()` and the stable `sortedBy { it.mode }`.
- `Links`: the link pattern's `findAll`, `toInt`, the own-episode filter and
  `toSortedSet`.
- `Description`: `lines`, the blank-line filter, the stop lines,
  `normalizeWhitespace` and `joinToString`.

A call that throws in the source (a date java.time refuses, a number `toInt`
refuses) returns `None` here. One failing constructor call makes the whole
`extractTemporalRefs` call `None`, as the exception would.

## Model

All source paths are in `worker/src/main/kotlin/net/ideadapt/gagmap/Worker.kt`.

| member | source | states |
|---|---|---|
| Literals.MatchCharacterised | worker/src/main/kotlin/net/ideadapt/gagmap/Worker.kt:212-217 | A pattern matches at the head of a text with a given parse exactly when that parse is of the pattern's mode and is what a greedy regex engine reads there. Greedy means the era marker is taken when present, a year runs to four digits or a non-digit, and an optional "n"/"s" is taken when present. |
| Literals.PiecesGreedy | worker/src/main/kotlin/net/ideadapt/gagmap/Worker.kt:212-217 | Greedy parses are exactly the position-by-position reading of the pattern's pieces: digits, dot, month name, "er Jahre", " des ", century word, " vdZw". |
| Literals.MatchPiecesSound | worker/src/main/kotlin/net/ideadapt/gagmap/Worker.kt:212-217 | Whatever a matcher returns is a parse of its own mode whose pieces lie in the text. |
| Literals.MatchPiecesComplete | worker/src/main/kotlin/net/ideadapt/gagmap/Worker.kt:212-217 | Any text with the pieces of a parse at its head is matched by that parse's pattern with that very parse. |
| Literals.RenderLength | worker/src/main/kotlin/net/ideadapt/gagmap/Worker.kt:212-217 | Every text a pattern can match is at least five characters long (e.g. "Mai 1"). |
| Calendar.MonthNamesExclusive | worker/src/main/kotlin/net/ideadapt/gagmap/Worker.kt:210 | No text starts with two different German month names. |
| Calendar.ResolveDate | worker/src/main/kotlin/net/ideadapt/gagmap/Worker.kt:265-268 | A year, month and day resolve exactly when the year is within ±999,999,999 and the day within 1..31. The month and year are kept; a day past the month's end becomes its last day. |
| Calendar.ParseGermanDateOf | worker/src/main/kotlin/net/ideadapt/gagmap/Worker.kt:265-268 | "d. Monatsname y" parses exactly when the year numeral reads to the end of the text, and then gives the resolved date of those numbers. |
| Calendar.ParseNumeralFormatInt | worker/src/main/kotlin/net/ideadapt/gagmap/Worker.kt:300-302 | The year field reads back every in-range year that a string template printed, signed or not. |
| Calendar.ParseNumeralMinus | worker/src/main/kotlin/net/ideadapt/gagmap/Worker.kt:291 | "-" followed by a number reads as its negation, except "-0", which java.time refuses. |
| Text.ToIntOfDigits | worker/src/main/kotlin/net/ideadapt/gagmap/Worker.kt:289 | `toInt` reads a run of one to nine digits as its decimal value, without throwing. |
| Text.ToIntFormatInt | worker/src/main/kotlin/net/ideadapt/gagmap/Worker.kt:289-291 | `toInt` reads back every `Int` that `toString` or a `$x` template prints, sign included. |
| Text.Wrap | worker/src/main/kotlin/net/ideadapt/gagmap/Worker.kt:289-293 | `Int` arithmetic such as `toInt() * 100`, `century - 99` or `-year` gives a 32-bit value. That value is congruent to the exact result modulo 2^32 and equals it whenever the exact result fits in an `Int`. |
| Text.SplitFirst | worker/src/main/kotlin/net/ideadapt/gagmap/Worker.kt:289 | When the delimiter first occurs at k, `substringBefore` gives the text before k, with or without a value for a missing delimiter. `substringAfter` gives the text after that occurrence. |
| Text.SplitNone | worker/src/main/kotlin/net/ideadapt/gagmap/Worker.kt:317-318 | When the delimiter occurs nowhere, `substringBefore` gives the whole text, and `substringBefore(…, missingDelimiterValue)` gives the value supplied. |
| Text.ReplaceAbsent | worker/src/main/kotlin/net/ideadapt/gagmap/Worker.kt:254-258 | `replace` leaves a text unchanged when the text lacks one of the pattern's characters. |
| Text.ReplaceHead | worker/src/main/kotlin/net/ideadapt/gagmap/Worker.kt:254-258 | An occurrence at the head is replaced, and the single pass goes on after it without rescanning the inserted text. |
| Text.ReplaceSkip | worker/src/main/kotlin/net/ideadapt/gagmap/Worker.kt:254-258 | A prefix lacking the pattern's first character is copied unchanged, and the pass goes on after it. |
| Text.ReplaceOnce | worker/src/main/kotlin/net/ideadapt/gagmap/Worker.kt:254-258 | An occurrence preceded by text lacking the pattern's first character, and followed by text lacking one of its characters, is the only thing replaced. |
| Text.ReplaceCut | worker/src/main/kotlin/net/ideadapt/gagmap/Worker.kt:196 | No occurrence spans a character the pattern lacks, so the text on either side of such a character is rewritten on its own. |
| Resolver.CenturyOfRender | worker/src/main/kotlin/net/ideadapt/gagmap/Worker.kt:289 | The text before ". Jahrhundert" of a century literal reads as the ordinal N, so the century base is 100N. |
| Resolver.YearOfRender | worker/src/main/kotlin/net/ideadapt/gagmap/Worker.kt:298 | Lower-casing, cutting at " vdzw" and after "jahr " leaves the year numeral of a Year literal. |
| Resolver.DecadeOfText | worker/src/main/kotlin/net/ideadapt/gagmap/Worker.kt:307 | The text before "er Jahre" of a decade literal reads as its decade number D. |
| Resolver.RelativeCenturyOfRender | worker/src/main/kotlin/net/ideadapt/gagmap/Worker.kt:317-318 | Either century spelling ("Jahrhundert(s)" or "JH") after " des " reads as 100C. |
| Resolver.DaySpan | worker/src/main/kotlin/net/ideadapt/gagmap/Worker.kt:330-333 | Start and end of a Day literal are the first and last second of its resolved date. An era marker makes both fail. |
| Resolver.MonthDate | worker/src/main/kotlin/net/ideadapt/gagmap/Worker.kt:284 | "1. " before a Month literal parses to the first day of that month. With the era marker it does not parse. |
| Resolver.MonthSpan | worker/src/main/kotlin/net/ideadapt/gagmap/Worker.kt:335-338 | A Month literal spans the first day of its month only, and none with the era marker. |
| Resolver.CenturyStartCe | worker/src/main/kotlin/net/ideadapt/gagmap/Worker.kt:293 | The N-th century starts on 1 January of 100N-99. |
| Resolver.CenturyStartBce | worker/src/main/kotlin/net/ideadapt/gagmap/Worker.kt:291 | Before the common era it starts on 1 January of -100N. For N = 0 it fails, since "-0" is refused. |
| Resolver.CenturyEndCe | worker/src/main/kotlin/net/ideadapt/gagmap/Worker.kt:345 | The N-th century ends on 31 December of 100N. |
| Resolver.CenturyEndBce | worker/src/main/kotlin/net/ideadapt/gagmap/Worker.kt:343 | Before the common era it ends on 31 December of -100N+99. |
| Resolver.YearStartCe | worker/src/main/kotlin/net/ideadapt/gagmap/Worker.kt:302 | A Year literal starts on 1 January of its year. |
| Resolver.YearStartBce | worker/src/main/kotlin/net/ideadapt/gagmap/Worker.kt:300 | With the era marker it starts on 1 January of the negated year. |
| Resolver.YearEndCe | worker/src/main/kotlin/net/ideadapt/gagmap/Worker.kt:354 | A Year literal ends on 31 December of its year. |
| Resolver.YearEndBce | worker/src/main/kotlin/net/ideadapt/gagmap/Worker.kt:352 | With the era marker it ends on 31 December of the negated year. |
| Resolver.DecadeStartCe | worker/src/main/kotlin/net/ideadapt/gagmap/Worker.kt:311-312 | The decade D starts on 1 January of max(D, 1), so the decade "0" starts in year 1. |
| Resolver.DecadeStartBce | worker/src/main/kotlin/net/ideadapt/gagmap/Worker.kt:309 | Before the common era it starts on 1 January of -D-9. |
| Resolver.DecadeEndCe | worker/src/main/kotlin/net/ideadapt/gagmap/Worker.kt:364 | The decade D ends on 31 December of D+9. |
| Resolver.DecadeEndBce | worker/src/main/kotlin/net/ideadapt/gagmap/Worker.kt:361-362 | Before the common era it ends on 31 December of -max(D, 1). |
| Resolver.RelativeStartCe | worker/src/main/kotlin/net/ideadapt/gagmap/Worker.kt:323 | Decade D of century C starts on 1 January of D+100C-100, with no substitution for D = 0. |
| Resolver.RelativeStartBce | worker/src/main/kotlin/net/ideadapt/gagmap/Worker.kt:321 | Before the common era it starts on 1 January of -(D+9+100C-100). |
| Resolver.RelativeEndCe | worker/src/main/kotlin/net/ideadapt/gagmap/Worker.kt:376 | Decade D of century C ends on 31 December of 100C-100+D+9. |
| Resolver.RelativeEndBce | worker/src/main/kotlin/net/ideadapt/gagmap/Worker.kt:373-374 | Before the common era it ends on 31 December of -(100C-100+max(D, 1)). |
| Resolver.YearSpan | worker/src/main/kotlin/net/ideadapt/gagmap/Worker.kt:297-304 | The span of a Year literal is the whole year, negated with the era marker. Its end half is lines 349-356. |
| Resolver.CenturySpan | worker/src/main/kotlin/net/ideadapt/gagmap/Worker.kt:288-295 | The span of a Century literal is 100N-99..100N, or -100N..-100N+99 with the era marker, and none for "0. Jahrhundert vdZw". Its end half is lines 340-347. |
| Resolver.DecadeSpan | worker/src/main/kotlin/net/ideadapt/gagmap/Worker.kt:306-314 | The span of a DecadeAbsolute literal is max(D,1)..D+9, or -D-9..-max(D,1) with the era marker. Its end half is lines 358-366. |
| Resolver.RelativeSpan | worker/src/main/kotlin/net/ideadapt/gagmap/Worker.kt:316-325 | The span of a DecadeRelative literal is D counted from base 100C-100, mirrored with the era marker. Its end half is lines 368-378. |
| Resolver.SpanExpected | worker/src/main/kotlin/net/ideadapt/gagmap/Worker.kt:276-379 | For every literal a pattern can match, `getStart`/`getEnd` by way of strings and `parseGermanDate` give exactly the arithmetic span of its mode. |
| Resolver.ExpectedSpanOrdered | worker/src/main/kotlin/net/ideadapt/gagmap/Worker.kt:276-379 | Every span a literal stands for starts no later than it ends. |
| Resolver.MakeRefExpected | worker/src/main/kotlin/net/ideadapt/gagmap/Worker.kt:250-261 | The constructor applied to a matched literal fails exactly when its arithmetic span does not exist; otherwise it builds the reference with that span. |
| Normalized.NormalizeRender | worker/src/main/kotlin/net/ideadapt/gagmap/Worker.kt:253-258 | The five replacements change every matchable literal as follows. They drop "Jahr ", turn "er Jahren" into "er Jahre", and turn "Jahrhundert(s)" and " JH" into "Jh.". Digits, month names and " vdZw" stay as they are. |
| Normalized.CenturyWordNormalized | worker/src/main/kotlin/net/ideadapt/gagmap/Worker.kt:256-257 | " Jahrhundert" and " Jahrhunderts", with or without the era marker, become " Jh.". The genitive is replaced by the first of the two steps. |
| Normalized.DecadeWordNormalized | worker/src/main/kotlin/net/ideadapt/gagmap/Worker.kt:255 | "er Jahren" loses its "n" and "er Jahre" is left alone, when what follows is empty or starts with a space and holds no "J", "u" or "H" (so no later step of the normalization reaches into it). |
| Normalized.AbbreviatedNormalized | worker/src/main/kotlin/net/ideadapt/gagmap/Worker.kt:258 | " JH", with or without the era marker, becomes " Jh.". |
| Normalized.NormalizeFree | worker/src/main/kotlin/net/ideadapt/gagmap/Worker.kt:253-258 | A text without 'h' or 'H' comes through the five replacements unchanged. |
| Extraction.FindLeftmost | worker/src/main/kotlin/net/ideadapt/gagmap/Worker.kt:224 | `find(text, cursor)` returns the leftmost match at or after the cursor; when nothing is found, the pattern matches nowhere from the cursor on. |
| Extraction.FirstFind | worker/src/main/kotlin/net/ideadapt/gagmap/Worker.kt:223-224 | `any` picks the first pattern in registry order that finds something; every earlier pattern finds nothing. |
| Extraction.Step | worker/src/main/kotlin/net/ideadapt/gagmap/Worker.kt:223-235 | A round records a hit whose literal is matched by its mode's pattern with its parse, and whose era flag is that literal's. It moves the cursor strictly forward, to a position inside the text. |
| Extraction.StepFound | worker/src/main/kotlin/net/ideadapt/gagmap/Worker.kt:221-235 | A round records a hit exactly when some pattern finds a match from the cursor on. The hit has the winning pattern's mode and that match's parse, and its literal is the text from the match's start to the new cursor. The cursor is the match's last character, at least four characters past its start. |
| Extraction.StepPriority | worker/src/main/kotlin/net/ideadapt/gagmap/Worker.kt:221-235 | The winner of a round is the first pattern that matches anywhere from the cursor on, even when a later pattern matches earlier in the text. It wins with its leftmost match at or after the cursor. |
| Extraction.StepNone | worker/src/main/kotlin/net/ideadapt/gagmap/Worker.kt:223-235 | The loop stops exactly when no pattern matches anywhere from the cursor on. |
| Extraction.Scan | worker/src/main/kotlin/net/ideadapt/gagmap/Worker.kt:221-235 | The loop terminates. Every hit it records is a match of its mode, with its literal, and with the era flag of that literal. |
| Extraction.ScanHitsAt | worker/src/main/kotlin/net/ideadapt/gagmap/Worker.kt:221-235 | Each recorded hit is the text found at its match's start, at or after the cursor the loop began from, and its pattern matches there with its parse. |
| Extraction.ScanOrdered | worker/src/main/kotlin/net/ideadapt/gagmap/Worker.kt:221-235 | The hits come in text order. Each next match starts at the last character of the previous one or later, so consecutive matches can share that one character. |
| Extraction.EraFlagOfRender | worker/src/main/kotlin/net/ideadapt/gagmap/Worker.kt:230 | `endsWith("vdZw", ignoreCase = true)` on a matched literal is true exactly when the parse carries the era marker. |
| Extraction.Distinct | worker/src/main/kotlin/net/ideadapt/gagmap/Worker.kt:237 | `toSet()` keeps exactly the elements of the list, each once. |
| Extraction.DistinctOrder | worker/src/main/kotlin/net/ideadapt/gagmap/Worker.kt:237 | `toSet()` keeps the order of first occurrence. |
| Extraction.SortByMode | worker/src/main/kotlin/net/ideadapt/gagmap/Worker.kt:237 | `sortedBy { it.mode }` returns a permutation ordered Day, Month, Year, DecadeAbsolute, DecadeRelative, Century. Within each mode the order is unchanged, so the sort is stable. |
| Extraction.InsertStable | worker/src/main/kotlin/net/ideadapt/gagmap/Worker.kt:382-384 | Inserting one reference into a mode-sorted list puts it first among the references of its mode and leaves every other mode's references as they were. |
| Extraction.HitRef | worker/src/main/kotlin/net/ideadapt/gagmap/Worker.kt:226-232 | The constructor call for a recorded hit builds the reference its parse stands for. The reference has the literal, the normalized spelling and the arithmetic span. |
| Extraction.FinishCharacterised | worker/src/main/kotlin/net/ideadapt/gagmap/Worker.kt:237 | The result exists exactly when no call failed. It then holds exactly the references built, without duplicates and sorted by mode. Within a mode they are in the order of first occurrence. |
| Extraction.ExtractCharacterised | worker/src/main/kotlin/net/ideadapt/gagmap/Worker.kt:199-238 | `extractTemporalRefs` fails exactly when some hit of the scan has no span. Otherwise its result holds exactly the references the hits stand for, without duplicates and sorted by mode. |
| Extraction.ExtractOrdered | worker/src/main/kotlin/net/ideadapt/gagmap/Worker.kt:199-238 | Every reference `extractTemporalRefs` returns starts no later than it ends. |
| Links.PrefixUnique | worker/src/main/kotlin/net/ideadapt/gagmap/Worker.kt:171 | No text starts with two of the three URL prefixes. |
| Links.LinkAt | worker/src/main/kotlin/net/ideadapt/gagmap/Worker.kt:171 | The link pattern matches at the head of a text exactly with its one prefix and two digits, plus a third digit whenever one follows. |
| Links.FindAll | worker/src/main/kotlin/net/ideadapt/gagmap/Worker.kt:173 | `findAll` returns genuine links, in text order and without overlap. That it misses none is `Links.FindAllEvery`. |
| Links.FindAllComplete | worker/src/main/kotlin/net/ideadapt/gagmap/Worker.kt:173 | A text that contains a link yields at least one match. |
| Links.FindAllLeftmost | worker/src/main/kotlin/net/ideadapt/gagmap/Worker.kt:173 | No link starts before the first match. |
| Links.NoLinkInside | worker/src/main/kotlin/net/ideadapt/gagmap/Worker.kt:171 | No link starts strictly inside the text of another link: inside the three prefixes and the digits, a "g" is never followed by "a" or "e" and then "d" or "s". |
| Links.FindAllEvery | worker/src/main/kotlin/net/ideadapt/gagmap/Worker.kt:173 | Every link at or after the search position is among the matches of `findAll`, with its start, end, prefix and digits. |
| Links.Numbers | worker/src/main/kotlin/net/ideadapt/gagmap/Worker.kt:175 | `groupValues[2].toInt()` gives the decimal value of the digits, which is at most 999. |
| Links.LinkNumbersExact | worker/src/main/kotlin/net/ideadapt/gagmap/Worker.kt:171-175 | A number comes out of the `findAll`/`toInt` pipeline exactly when some link in the text has that number. |
| Links.ToSortedSet | worker/src/main/kotlin/net/ideadapt/gagmap/Worker.kt:180-181 | `toSortedSet().toList()` gives a strictly ascending list with exactly the elements of its input. |
| Links.SortedSetUnique | worker/src/main/kotlin/net/ideadapt/gagmap/Worker.kt:180-181 | Two strictly ascending lists with the same elements are equal, so the set's list is determined by its elements. |
| Links.ExtractEpisodeLinks | worker/src/main/kotlin/net/ideadapt/gagmap/Worker.kt:165-183 | The result is strictly ascending and holds exactly the linked numbers other than the episode's own, all in 0..999. It is empty for an empty text. |
| Links.ExtractEpisodeLinksExact | worker/src/main/kotlin/net/ideadapt/gagmap/Worker.kt:165-183 | A number is in the result exactly when some link in the text has that number and it is not the episode's own. |
| Description.KeepSpacesVisible | worker/src/main/kotlin/net/ideadapt/gagmap/Worker.kt:195 | The filter keeps every visible character, in order. |
| Description.KeepSpaces | worker/src/main/kotlin/net/ideadapt/gagmap/Worker.kt:195 | After the filter the plain space is the only whitespace left. |
| Description.KeepSpacesDrop | worker/src/main/kotlin/net/ideadapt/gagmap/Worker.kt:195 | Whitespace other than the plain space is deleted, not replaced: the filter of a + c + b equals the filter of a + b. |
| Description.HalveSpacesRun | worker/src/main/kotlin/net/ideadapt/gagmap/Worker.kt:196 | The single pass of `replace("  ", " ")` turns a run of k spaces into ⌈k/2⌉ spaces, not into one. |
| Description.HalveSpacesVisible | worker/src/main/kotlin/net/ideadapt/gagmap/Worker.kt:196 | The replacement keeps every visible character, in order. |
| Description.Trim | worker/src/main/kotlin/net/ideadapt/gagmap/Worker.kt:197 | The trimmed text neither starts nor ends with whitespace. |
| Description.TrimEnds | worker/src/main/kotlin/net/ideadapt/gagmap/Worker.kt:197 | `trim()` returns a slice of the text that is preceded and followed only by whitespace. Together with `Description.Trim`, exactly the leading and trailing whitespace runs are removed and nothing inside. |
| Description.TrimVisible | worker/src/main/kotlin/net/ideadapt/gagmap/Worker.kt:197 | Trimming removes whitespace only. |
| Description.NormalizeWhitespace | worker/src/main/kotlin/net/ideadapt/gagmap/Worker.kt:194-197 | A normalized line neither starts nor ends with whitespace. |
| Description.NormalizeWhitespaceVisible | worker/src/main/kotlin/net/ideadapt/gagmap/Worker.kt:194-197 | A normalized line has the visible characters of the original, in order, and no whitespace but the plain space. |
| Description.HalveSpacesAround | worker/src/main/kotlin/net/ideadapt/gagmap/Worker.kt:196 | Between a part ending and a part starting with a non-space, a run of k spaces becomes ⌈k/2⌉ spaces, and each part is rewritten on its own. |
| Description.NormalizeWhitespaceJoin | worker/src/main/kotlin/net/ideadapt/gagmap/Worker.kt:194-197 | Between a part ending and a part starting with a visible character, a run of k spaces comes out as ⌈k/2⌉ spaces, at least one when k ≥ 1, and each part is normalized on its own. |
| Description.NormalizeWhitespaceDrop | worker/src/main/kotlin/net/ideadapt/gagmap/Worker.kt:194-197 | A tab, line feed, no-break space or other non-space whitespace inside a line glues its neighbours together: "14.\tJanuar 2022" normalizes like "14.Januar 2022". |
| Description.Lines | worker/src/main/kotlin/net/ideadapt/gagmap/Worker.kt:186 | `lines()` yields at least one line, none containing a line terminator. |
| Description.LinesJoin | worker/src/main/kotlin/net/ideadapt/gagmap/Worker.kt:186 | For a text without carriage returns, joining its lines with "\n" gives the text back. |
| Description.LinesUnify | worker/src/main/kotlin/net/ideadapt/gagmap/Worker.kt:186 | For every text, joining its lines with "\n" gives the text back with each "\r\n" and each lone "\r" read as "\n". So the lines are exactly the pieces between terminators. |
| Description.NonBlank | worker/src/main/kotlin/net/ideadapt/gagmap/Worker.kt:187 | The filter keeps exactly the lines that are not blank. A single line is kept once if it is not blank and dropped if it is; with `NonBlankConcat` this fixes the result line by line, each kept line once and in order. |
| Description.NonBlankConcat | worker/src/main/kotlin/net/ideadapt/gagmap/Worker.kt:187 | The filter works line by line, so it keeps the order of the lines. |
| Description.BeforeStop | worker/src/main/kotlin/net/ideadapt/gagmap/Worker.kt:190 | `takeWhile` returns the longest prefix with no ad heading and no line starting with "//". The line right after it, if any, is such a stop line. |
| Description.JoinSpaces | worker/src/main/kotlin/net/ideadapt/gagmap/Worker.kt:192 | Joining with " " adds no visible character and no whitespace other than the space. |
| Description.NormalizeDescriptionVisible | worker/src/main/kotlin/net/ideadapt/gagmap/Worker.kt:185-192 | The normalized description has the visible characters of the kept lines, in order, and no whitespace but the plain space. The kept lines are the non-blank lines before the first stop line. |
| Description.KeptLinesNormalized | worker/src/main/kotlin/net/ideadapt/gagmap/Worker.kt:187-191 | Every kept line normalizes to a non-empty text that starts and ends with a visible character. |
| Description.JoinSplit | worker/src/main/kotlin/net/ideadapt/gagmap/Worker.kt:192 | `joinToString(sep)` splits between any two consecutive elements at exactly one separator. |
| Description.NormalizeDescriptionJoined | worker/src/main/kotlin/net/ideadapt/gagmap/Worker.kt:185-192 | The normalized description splits at a single space between the first i kept lines and the rest, and neither side has whitespace next to that space. So the lines are joined by exactly one space. |
| Description.NormalizeDescriptionEmpty | worker/src/main/kotlin/net/ideadapt/gagmap/Worker.kt:185-192 | The normalized description is empty exactly when no line is kept. |

## Left out

- Description.Trim: its own contract says only that the ends are not whitespace. That `trim` cuts exactly a blank head and a blank tail is stated by `Description.TrimEnds`, so the existential does not follow every use of `Trim` into other proofs.
- Extraction.Step: its own contract says only that the hit is genuine and that the cursor moves forward. Which match is recorded and where the cursor goes is stated by `Extraction.StepFound` (and `Extraction.StepPriority`). Keeping these facts out of `Step` keeps the proof obligations of `Scan` small.
- Extraction.Scan: its own contract says only that every hit is genuine. Where each hit lies and their text order are stated by `Extraction.ScanHitsAt` and `Extraction.ScanOrdered`.
- Description.NormalizeWhitespaceVisible: says which characters survive, not where the spaces go. The spacing between visible characters is stated by `Description.NormalizeWhitespaceJoin`. Whitespace other than the space is deleted outright, as `Description.NormalizeWhitespaceDrop` states, so a run mixing both comes out as its spaces alone.
- Description.NormalizeDescriptionVisible: says which characters survive, not how the lines are joined. That is stated by `Description.NormalizeDescriptionJoined` and `Description.NormalizeDescriptionEmpty`.
- Fetching the feed, the XML, assembling episodes and writing results: none of it is part of this model. The core is pure text processing.
- Instants are modelled as a date plus a second of the day in UTC, not as kotlinx/java.time objects. The start is 00:00:00 and the end is 23:59:59, matching the truncation to seconds.
- The regular expressions are not interpreted. Each of the seven patterns (six registry patterns and the link pattern) is a hand-written greedy matcher. `Literals.MatchCharacterised` ties each of the six registry matchers to a declarative description, and the ensures of `Links.LinkAt` ties the link matcher to the declarative `Links.LinkGreedy`. `\d` is ASCII 0-9, as in Java's default mode.
- Description.IsStop: `contains(…, ignoreCase = true)` is modelled with ASCII case folding only. Kotlin also folds some other letters, such as the long s, onto the marker's letters.
- `lowercase()` in the Year branch is modelled on ASCII letters. A matched Year literal contains no other letters.
- The `while` loop with a side-effecting `any` is modelled as a recursive `Scan`, with the cursor as its argument.
- Points where the code behaves in ways a reader may not expect. The model follows the code:
  - the cursor moves to the last character of a match (`endInclusive`), not past it;
  - one constructor call that throws aborts the whole `extractTemporalRefs` call, rather than failing only that match;
  - a Day or Month literal with " vdZw" does not negate its year: `parseGermanDate` refuses the literal, so the call fails;
  - the era marker is exactly one space followed by "vdZw", case-sensitive in the patterns;
  - DecadeRelative substitutes 1 for the decade 0 only in the end year before the common era;
  - a Day literal with day 29-31 past the month's end resolves to the month's last day.
- `Char.isWhitespace` is modelled by its JVM definition as a fixed set of code points. Unicode data beyond that set is not modelled.
