# Interlinear word finder, modelled in Dafny

The program searches a Spanish/Greek interlinear text for Greek words that
contain a search term. Its core is one function,
`find_and_display_occurrences(lines, search_term)`. It makes one forward pass
over the lines and keeps three pieces of state:

- the current section heading, which starts as `"Sin encabezado"`;
- the set of found words;
- the list of occurrences.

A line that matches the heading pattern `^[^\d]+\s\d+$` (after `strip()`)
becomes the current heading, and the pass goes on to the next line. Every
other line is tested against the verse pattern `^(\d+)\s(.+)$`. If it has a
successor, that successor, stripped, is read as its Greek line and split into
words with `re.findall(r'[\w’]+', …)`. Each word that contains the term
(case-insensitively) joins the found set. When the current line matched the
verse pattern, the word is also appended as an occurrence: heading, verse
number, Spanish text, Greek line and word. The function returns the found
words sorted, together with the occurrences. Before the call, the caller
drops blank lines.

The model has four modules:

- `Text`: `str.strip()`, substring containment and Python's code-point
  string order. The character classes `\d`, `\w`, `\s` and `str.lower()` are
  fields of a `CharClasses` value, so every result holds for every choice of
  them.
- `Patterns`: the three regular expressions, written out. This includes the
  regex engine's backtracking: over the position of the heading's whitespace,
  and over the length of the greedy verse number.
- `Sorting`: `sorted(list(found_words))` as insertion into a strictly
  ascending list.
- `Scanner`: the scan itself as an imperative method, `FindOccurrences`, with
  the inner word loop as `ScanGreekLine`.

The scan is specified line by line over classified lines (`Classify`,
`Classified`). The method is proved equal to that specification. Lemmas
then prove what the specification means: soundness and completeness of the
found words, where each occurrence comes from, heading propagation, order
and multiplicity.

Two details of the code shape the results, and the model keeps both:

- The Greek text of an occurrence is the stripped next line as it is
  (`webapp_5.py:26`, `:44`). A verse number repeated at its start is not
  removed. `FromLine` and `OccurrenceOrigin` state this.
- A heading line does not scan the line below it: the `continue` at
  `webapp_5.py:19` ends its iteration first. `LooksAhead` is false on
  heading lines.

Every non-heading line with a successor looks ahead, and that includes a line
that was itself read as a Greek line. So when the next Spanish line contains
the term, its words are found too. If the Greek line also starts with
"digits, space, text", those words are recorded as occurrences with the Greek
line as their "Spanish" text. The model keeps this behaviour.

## Model

| member | source | states |
|---|---|---|
| `Text.Strip` | webapp_5.py:17-26 | renders `line.strip()`; its meaning is stated by `TrimStartSpec`, `TrimEndSpec`, `StripSpec` and `StripIdempotent` |
| `Text.Contains` | webapp_5.py:32 | renders Python's `p in t` on strings; `ContainsAt` proves it equals "some suffix of `t` starts with `p`" |
| `Text.Matches` | webapp_5.py:32 | renders `search_term.lower() in word.lower()` |
| `Text.Below` | webapp_5.py:48 | renders Python's `<` on `str`, the order `sorted` uses: lexicographic by code point, a proper prefix first; proved a strict total order by `BelowIrreflexive`, `BelowTransitive`, `BelowTotal` |
| `Text.TrimStartSpec` | webapp_5.py:17 | `strip()`'s left half removes exactly the leading whitespace run: what it drops is whitespace and what it keeps does not start with whitespace |
| `Text.TrimEndSpec` | webapp_5.py:17 | the right half removes exactly the trailing whitespace run |
| `Text.StripSpec` | webapp_5.py:86 | a stripped line is empty exactly when the line is all whitespace, and otherwise neither starts nor ends with whitespace |
| `Text.StripIdempotent` | webapp_5.py:26 | stripping a stripped line changes nothing |
| `Text.ContainsFromIndex` | webapp_5.py:32 | the term found at some position of the word makes `term in word` true |
| `Text.ContainsGivesIndex` | webapp_5.py:32 | `term in word` yields a position where the term starts |
| `Text.ContainsAt` | webapp_5.py:32 | `p in t` holds exactly when some suffix of `t` starts with `p` |
| `Text.BelowIrreflexive` | webapp_5.py:48 | no string sorts before itself |
| `Text.BelowTransitive` | webapp_5.py:48 | the string order used by `sorted` is transitive |
| `Text.BelowTotal` | webapp_5.py:48 | any two distinct strings are ordered one way or the other |
| `Patterns.IsHeading` | webapp_5.py:17 | renders `re.match(r'^[^\d]+\s\d+$', line.strip())` with the engine's backtracking over where `[^\d]+` ends; `IsHeadingSpec` states what it accepts |
| `Patterns.MatchVerse` | webapp_5.py:22 | renders `re.match(r'^(\d+)\s(.+)$', line.strip())` and its two groups, greedy `\d+` then backtracking; `MatchVerseSpec` and `VerseParts` state what it returns |
| `Patterns.HeadingSearchSpec` | webapp_5.py:17 | backtracking over the whitespace position succeeds exactly when some position at or below the start point fits the heading pattern |
| `Patterns.IsHeadingSpec` | webapp_5.py:17 | the heading test holds exactly when the line is a non-empty non-digit run, one whitespace character, then a non-empty digit run that ends the line |
| `Patterns.HeadingShape` | webapp_5.py:17 | a heading has at least three characters, starts with a non-digit and ends with a digit |
| `Patterns.LeadingDigitsSpec` | webapp_5.py:22 | the leading digit run is all digits and is followed by a non-digit or the end of the line |
| `Patterns.Backtrack` | webapp_5.py:22 | the backtracked digit run is 0 or leaves room for the whitespace character and a non-empty group 2 |
| `Patterns.BacktrackSpec` | webapp_5.py:22 | backtracking returns the longest digit run, up to the start length, that fits the verse pattern, or 0 when none fits |
| `Patterns.MatchVerseSpec` | webapp_5.py:22 | the verse match fails exactly when no split fits; on success group 1 is the longest fitting digit prefix (greedy `\d+`) and group 2 is everything after the separating whitespace character |
| `Patterns.VerseParts` | webapp_5.py:22 | on success the verse number is a non-empty digit run, the text is non-empty, and the line is the number, one whitespace character and the text |
| `Patterns.HeadingIsNotVerse` | webapp_5.py:17-22 | a heading line never matches the verse pattern |
| `Patterns.Tokens` | webapp_5.py:29 | renders `re.findall(r'[\w’]+', greek_line)`; `TokenIsRun`, `RunIsToken` and `TokenPositions` state what it returns |
| `Patterns.WordRun` | webapp_5.py:29 | the run of word characters at the start of a string is no longer than the string |
| `Patterns.WordRunSpec` | webapp_5.py:29 | that run is all `[\w’]` characters and is followed by another character or by the end |
| `Patterns.RunShift` | webapp_5.py:29 | a maximal run of a string is a maximal run of a suffix, shifted, when the suffix does not cut into it |
| `Patterns.SuffixSlice` | webapp_5.py:29 | a slice of a suffix is the same slice of the whole string |
| `Patterns.RunFromSuffix` | webapp_5.py:29 | a maximal run of a suffix that is not cut at the suffix's edge is a maximal run of the whole string |
| `Patterns.TokenIsRun` | webapp_5.py:29 | every word `re.findall(r'[\w’]+', s)` returns is a maximal run of `[\w’]` characters of `s` |
| `Patterns.RunIsToken` | webapp_5.py:29 | every maximal run of `[\w’]` characters of `s` is among the returned words |
| `Patterns.TokenPositions` | webapp_5.py:29 | `re.findall` returns exactly one token per maximal run of `[\w’]` characters, each the text of its run, in the order of the runs: no repeats and no omissions |
| `Sorting.AscendingUnique` | webapp_5.py:48 | two strictly ascending lists with the same elements are equal, so the sorted word list is determined by the set |
| `Sorting.InsertAscending` | webapp_5.py:48 | inserting a word between the words below it and those above it keeps a list strictly ascending |
| `Sorting.InsertSorted` | webapp_5.py:48 | inserting a new word into a strictly ascending list gives a strictly ascending list of the old words plus that word |
| `Sorting.SortWords` | webapp_5.py:48 | `sorted(list(words))` is strictly ascending, so free of duplicates, and holds exactly the words of the set |
| `Scanner.Hits` | webapp_5.py:31-32 | renders the words of the Greek line, in order and with repeats, for which `search_term.lower() in word.lower()` holds; `HitsSpec`, `HitsCount` and `HitsAppend` state its meaning |
| `Scanner.HitsSpec` | webapp_5.py:31-33 | the words kept from a Greek line are exactly its words that contain the term, ignoring case |
| `Scanner.HitsCount` | webapp_5.py:31-33 | a word that contains the term is kept as many times as it occurs in the line; any other word is dropped |
| `Scanner.HitsAppend` | webapp_5.py:31 | filtering a concatenation of word lists filters each part in turn |
| `Scanner.Classify` | webapp_5.py:17-32 | renders what one iteration reads from a line: `line.strip()`, the heading test, the verse match, the words `findall` returns when it is read as a Greek line, and those of them that contain the term |
| `Scanner.Classified` | webapp_5.py:15 | there is one classified line per input line |
| `Scanner.RecordsAppend` | webapp_5.py:40-46 | one more matching word appends exactly one more occurrence, at the end |
| `Scanner.LooksAhead` | webapp_5.py:19-25 | renders when an iteration reaches the Greek-line scan: the line is not a heading (no `continue`) and `i + 1 < len(lines)` |
| `Scanner.HeadingBefore` | webapp_5.py:12-18 | renders `current_heading` at the start of iteration `i`; `HeadingBeforeSpec` states its meaning |
| `Scanner.FoundUpTo` | webapp_5.py:11-33 | renders `found_words` after the first `n` iterations of the loop |
| `Scanner.OccurrencesUpTo` | webapp_5.py:10-46 | renders `occurrences` after the first `n` iterations of the loop |
| `Scanner.HeadingBeforeSpec` | webapp_5.py:12-19 | the heading in force at a line is `"Sin encabezado"` when no earlier line is a heading, and otherwise the text of the latest earlier heading line |
| `Scanner.HeadingBeforeFirst` | webapp_5.py:12 | before the first heading line the heading is `"Sin encabezado"` |
| `Scanner.HeadingBeforeLatest` | webapp_5.py:17-18 | from a heading line up to the next one, the heading is that line's stripped text |
| `Scanner.FoundWordsSound` | webapp_5.py:25-33 | every found word is a matching word of the line after some non-heading line |
| `Scanner.FoundWordsComplete` | webapp_5.py:25-33 | every matching word of the line after a non-heading line is found |
| `Scanner.FoundWordOfFile` | webapp_5.py:15-33 | on the raw lines: every found word is a token, containing the term, of the stripped line after some line whose stripped text is not a heading |
| `Scanner.FileWordFound` | webapp_5.py:15-33 | on the raw lines: every token containing the term of the stripped line after a non-heading line is found |
| `Scanner.OccurrenceOrigin` | webapp_5.py:22-46 | every occurrence comes from a non-heading line with a successor that matched the verse pattern: it carries that match's two groups, the heading in force, the successor's stripped text unchanged and one of the successor's matching words, and its word is found |
| `Scanner.OccurrenceWordsFound` | webapp_5.py:33-45 | the word of every occurrence is among the found words |
| `Scanner.LineOccurrenceWords` | webapp_5.py:31-46 | a verse line with a successor adds exactly one occurrence per matching word of its Greek line, in the line's order and with repeats; any other line adds none |
| `Scanner.PrefixOfLonger` | webapp_5.py:40 | appending keeps every prefix a prefix |
| `Scanner.OccurrencesPrefix` | webapp_5.py:15-46 | the occurrences of earlier lines are a prefix of the occurrences of later lines: later lines only append |
| `Scanner.ClassifyHits` | webapp_5.py:26-33 | a line's matching words, read as a Greek line, are exactly the words of its stripped text that contain the term |
| `Scanner.ClassifyVerse` | webapp_5.py:17-37 | a line that matches the verse pattern is not a heading, and its stripped text is a non-empty digit run (the verse), one whitespace character and a non-empty Spanish text |
| `Scanner.ScanStep` | webapp_5.py:15-46 | one iteration on the raw lines: a heading line changes only the heading, a line without a successor changes nothing, and any other line adds its Greek line's matching words and, when it is a verse line, their occurrences |
| `Scanner.ScanWord` | webapp_5.py:31-46 | one more word of the Greek line changes the found set and the occurrences exactly when it contains the term |
| `Scanner.ScanGreekLine` | webapp_5.py:31-46 | the word loop adds the matching words to the found set and appends one occurrence per matching word when the line matched the verse pattern |
| `Scanner.FindOccurrences` | webapp_5.py:4-48 | the returned words are strictly ascending and are exactly the found words of the specification; the occurrences are exactly the specified list; every occurrence's word is among the returned words |
| `Scanner.NonBlankLines` | webapp_5.py:86 | the filter keeps exactly the lines whose stripped text is non-empty, and no more lines than it was given |
| `Scanner.NonBlankLinesCount` | webapp_5.py:86 | a non-blank line is kept as many times as it occurs, and a blank line is dropped |

## Left out

- The Streamlit interface is not modelled: the upload widget, the text input,
  the button, the warnings and the rendering of results (`webapp_5.py:50-114`).
  Nor are UTF-8 decoding and `splitlines()` (`webapp_5.py:82-83`) or the
  catch-all exception handler.
- The empty-search-term guard (`webapp_5.py:77`) belongs to the interface. The
  model accepts any term; an empty term matches every word.
- Unicode semantics of `\d`, `\w`, `\s`, `str.strip()`'s whitespace and
  `str.lower()` are not fixed. They are parameters of every member
  (`CharClasses`), and nothing assumes more about them than that they are
  functions.
- The regular expressions are written out for these three patterns only. No
  general regex engine is modelled. `.` in the verse pattern excludes `'\n'`,
  and `$` also matches before a final `'\n'`; the model ignores both,
  because lines produced by `splitlines()` contain no `'\n'`.
- Python strings are modelled as sequences of `char`. No encoding or
  normalisation is modelled.
- `Scanner.NonBlankLines`: its contract and `NonBlankLinesCount` state which
  lines are kept and how many times each, but not that the kept lines stay in
  their original order.
