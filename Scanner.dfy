/** The interlinear scanner: one forward pass over the lines of a
    Spanish/Greek interlinear text that keeps the current section heading,
    reads the line after each non-heading line as its "Greek" line, and
    collects every word of that line which contains the search term, ignoring
    case. */
module Scanner {
  import opened Text
  import opened Patterns
  import opened Sorting

  /** One entry of the occurrence list. */
  datatype Occurrence = Occurrence(
    heading: string,
    verse: string,
    spanishText: string,
    greekText: string,
    foundWord: string)

  /** The heading reported before the first heading line. */
  const NoHeading: string := "Sin encabezado"

  // ------------------------------------------------------ matching words

  /** The words of `words` that contain the term, in order and with repeats. */
  function Hits(cls: CharClasses, term: string, words: seq<string>): seq<string>
  {
    if words == [] then []
    else (if Matches(cls, term, words[0]) then [words[0]] else []) + Hits(cls, term, words[1..])
  }

  /** The filter keeps exactly the words that contain the term. */
  lemma {:induction false} HitsSpec(cls: CharClasses, term: string, words: seq<string>)
    ensures forall w :: w in Hits(cls, term, words) <==> w in words && Matches(cls, term, w)
  {
    if words != [] {
      HitsSpec(cls, term, words[1..]);
      assert words == [words[0]] + words[1..];
    }
  }

  /** Multiplicity: a word that contains the term is kept as many times as it
      occurs; any other word is dropped. */
  lemma {:induction false} HitsCount(cls: CharClasses, term: string, words: seq<string>, w: string)
    ensures multiset(Hits(cls, term, words))[w] == if Matches(cls, term, w) then multiset(words)[w] else 0
  {
    if words != [] {
      assert words == [words[0]] + words[1..];
      HitsCount(cls, term, words[1..], w);
    }
  }

  /** Filtering a concatenation filters each part in turn. */
  lemma {:induction false} HitsAppend(cls: CharClasses, term: string, a: seq<string>, b: seq<string>)
    ensures Hits(cls, term, a + b) == Hits(cls, term, a) + Hits(cls, term, b)
    decreases |a|
  {
    if a == [] {
      assert a + b == b;
    } else {
      assert (a + b)[1..] == a[1..] + b;
      HitsAppend(cls, term, a[1..], b);
    }
  }

  function Elems(s: seq<string>): set<string>
  {
    set w | w in s
  }

  // ------------------------------------------------------ classified lines

  /** What the scan reads from one line: its stripped text, whether that text
      is a heading, its verse match, and, for when it is read as a Greek
      line, its words and those of them that contain the term. */
  datatype Line = Line(
    text: string,
    isHeading: bool,
    verse: Option<VerseMatch>,
    words: seq<string>,
    hits: seq<string>)

  /** `line.strip()`, the three patterns applied to it, and the term test
      applied to its words. */
  function Classify(cls: CharClasses, term: string, line: string): Line
  {
    var s := Strip(cls, line);
    var words := Tokens(cls, s);
    Line(s, IsHeading(cls, s), MatchVerse(cls, s), words, Hits(cls, term, words))
  }

  /** Every line of the input, classified. */
  function Classified(cls: CharClasses, term: string, lines: seq<string>): (ls: seq<Line>)
    ensures |ls| == |lines|
  {
    seq(|lines|, i requires 0 <= i < |lines| => Classify(cls, term, lines[i]))
  }

  // ------------------------------------------------------ the specification
  //
  // The scan is specified over classified lines `ls`; `Classified` supplies
  // them for a file, and the lemmas of this section hold for any `ls`.

  /** Line `i` tokenises line `i + 1` as its Greek line: it has a successor
      and it is not a heading (a heading skips the rest of the iteration).
      Nothing else is asked of it: a Greek line looks ahead as well. */
  predicate LooksAhead(ls: seq<Line>, i: int)
  {
    0 <= i && i + 1 < |ls| && !ls[i].isHeading
  }

  /** The matching words that line `i` contributes through its lookahead. */
  function LineHits(ls: seq<Line>, i: int): seq<string>
  {
    if LooksAhead(ls, i) then ls[i + 1].hits else []
  }

  /** The heading in force at line `i`: the text of the nearest heading line
      before `i`, or `NoHeading` when there is none. */
  function HeadingBefore(ls: seq<Line>, i: nat): string
    requires i <= |ls|
  {
    if i == 0 then NoHeading
    else if ls[i - 1].isHeading then ls[i - 1].text
    else HeadingBefore(ls, i - 1)
  }

  /** One occurrence per word, all sharing the verse context. */
  function Records(heading: string, m: VerseMatch, greek: string, words: seq<string>): seq<Occurrence>
  {
    seq(|words|, k requires 0 <= k < |words| => Occurrence(heading, m.verse, m.text, greek, words[k]))
  }

  /** One more word gives one more record, at the end. */
  lemma RecordsAppend(heading: string, m: VerseMatch, greek: string, words: seq<string>, w: string)
    ensures Records(heading, m, greek, words + [w]) == Records(heading, m, greek, words) + [Occurrence(heading, m.verse, m.text, greek, w)]
  {
  }

  /** The occurrences a line with verse match `verseMatch` appends for the
      matching words `hits` of its Greek line: none unless it is a verse
      line. */
  function GreekLineRecords(heading: string, verseMatch: Option<VerseMatch>, greekLine: string,
                            hits: seq<string>): seq<Occurrence>
  {
    if verseMatch.Some? then Records(heading, verseMatch.value, greekLine, hits) else []
  }

  /** The occurrences that line `i` appends. */
  function LineOccurrences(ls: seq<Line>, i: int): seq<Occurrence>
  {
    if LooksAhead(ls, i) then GreekLineRecords(HeadingBefore(ls, i), ls[i].verse, ls[i + 1].text, ls[i + 1].hits)
    else []
  }

  /** The occurrence list after the first `n` lines. */
  function OccurrencesUpTo(ls: seq<Line>, n: nat): seq<Occurrence>
    requires n <= |ls|
  {
    if n == 0 then []
    else OccurrencesUpTo(ls, n - 1) + LineOccurrences(ls, n - 1)
  }

  /** The found-word set after the first `n` lines. */
  function FoundUpTo(ls: seq<Line>, n: nat): set<string>
    requires n <= |ls|
  {
    if n == 0 then {}
    else FoundUpTo(ls, n - 1) + Elems(LineHits(ls, n - 1))
  }

  /** `o` is an occurrence that line `i` produces: line `i` is a verse line
      with a successor, `o` carries its verse number and Spanish text, the
      heading in force there, the next line's text unchanged, and one of that
      line's matching words. */
  predicate FromLine(ls: seq<Line>, i: int, o: Occurrence)
  {
    && LooksAhead(ls, i)
    && ls[i].verse == Some(VerseMatch(o.verse, o.spanishText))
    && o.heading == HeadingBefore(ls, i)
    && o.greekText == ls[i + 1].text
    && o.foundWord in ls[i + 1].hits
  }

  // ----------------------------------------------------------- the properties

  /** The heading in force is either `NoHeading`, when no earlier line is a
      heading, or the text of the latest earlier heading line. */
  lemma {:induction false} HeadingBeforeSpec(ls: seq<Line>, i: nat) returns (j: int)
    requires i <= |ls|
    ensures -1 <= j < i && forall k :: j < k < i ==> !ls[k].isHeading
    ensures j == -1 ==> HeadingBefore(ls, i) == NoHeading
    ensures j >= 0 ==> ls[j].isHeading && HeadingBefore(ls, i) == ls[j].text
  {
    if i == 0 {
      j := -1;
    } else if ls[i - 1].isHeading {
      j := i - 1;
    } else {
      j := HeadingBeforeSpec(ls, i - 1);
    }
  }

  /** Before the first heading line the heading is `NoHeading`. */
  lemma {:induction false} HeadingBeforeFirst(ls: seq<Line>, i: nat)
    requires i <= |ls|
    requires forall k :: 0 <= k < i ==> !ls[k].isHeading
    ensures HeadingBefore(ls, i) == NoHeading
  {
    if i > 0 {
      HeadingBeforeFirst(ls, i - 1);
    }
  }

  /** After a heading line, and up to the next one, the heading is that
      line's text. */
  lemma {:induction false} HeadingBeforeLatest(ls: seq<Line>, i: nat, j: nat)
    requires j < i <= |ls| && ls[j].isHeading
    requires forall k :: j < k < i ==> !ls[k].isHeading
    ensures HeadingBefore(ls, i) == ls[j].text
  {
    if j < i - 1 {
      HeadingBeforeLatest(ls, i - 1, j);
    }
  }

  /** Soundness: a found word is a matching word of the line after some line
      that looks ahead. */
  lemma {:induction false} FoundWordsSound(ls: seq<Line>, n: nat, w: string) returns (i: nat)
    requires n <= |ls| && w in FoundUpTo(ls, n)
    ensures i < n && LooksAhead(ls, i) && w in ls[i + 1].hits
  {
    if w in LineHits(ls, n - 1) {
      i := n - 1;
    } else {
      i := FoundWordsSound(ls, n - 1, w);
    }
  }

  /** Completeness: every matching word of a looked-ahead line is found. */
  lemma {:induction false} FoundWordsComplete(ls: seq<Line>, n: nat, i: nat, w: string)
    requires i < n <= |ls| && LooksAhead(ls, i) && w in ls[i + 1].hits
    ensures w in FoundUpTo(ls, n)
  {
    if i == n - 1 {
      assert w in LineHits(ls, i);
    } else {
      FoundWordsComplete(ls, n - 1, i, w);
    }
  }

  /** Every occurrence comes from a verse line that looks ahead, carries that
      line's context, and its word is found. */
  lemma {:induction false} OccurrenceOrigin(ls: seq<Line>, n: nat, k: nat) returns (i: nat)
    requires n <= |ls| && k < |OccurrencesUpTo(ls, n)|
    ensures i < n && FromLine(ls, i, OccurrencesUpTo(ls, n)[k])
    ensures OccurrencesUpTo(ls, n)[k].foundWord in FoundUpTo(ls, n)
  {
    var before := OccurrencesUpTo(ls, n - 1);
    var o := OccurrencesUpTo(ls, n)[k];
    if k < |before| {
      assert o == before[k];
      i := OccurrenceOrigin(ls, n - 1, k);
    } else {
      i := n - 1;
      var hits := ls[i + 1].hits;
      assert o == Occurrence(HeadingBefore(ls, i), ls[i].verse.value.verse, ls[i].verse.value.text,
                             ls[i + 1].text, hits[k - |before|]);
      assert o.foundWord in hits;
    }
    FoundWordsComplete(ls, n, i, o.foundWord);
  }

  /** The word of every occurrence is a found word. */
  lemma OccurrenceWordsFound(ls: seq<Line>, n: nat)
    requires n <= |ls|
    ensures forall o :: o in OccurrencesUpTo(ls, n) ==> o.foundWord in FoundUpTo(ls, n)
  {
    forall o | o in OccurrencesUpTo(ls, n) ensures o.foundWord in FoundUpTo(ls, n) {
      var k :| 0 <= k < |OccurrencesUpTo(ls, n)| && OccurrencesUpTo(ls, n)[k] == o;
      var _ := OccurrenceOrigin(ls, n, k);
    }
  }

  /** Multiplicity: a verse line with a successor emits exactly one
      occurrence per matching word of its Greek line, repeats included and in
      the line's order; any other line emits none. */
  lemma LineOccurrenceWords(ls: seq<Line>, i: nat)
    requires i < |ls|
    ensures var occs := LineOccurrences(ls, i);
            if LooksAhead(ls, i) && ls[i].verse.Some? then
              && |occs| == |ls[i + 1].hits|
              && forall k :: 0 <= k < |occs| ==> occs[k].foundWord == ls[i + 1].hits[k]
            else occs == []
  {
  }

  lemma PrefixOfLonger(a: seq<Occurrence>, b: seq<Occurrence>, x: seq<Occurrence>)
    requires a <= b
    ensures a <= b + x
  {
    assert forall k :: 0 <= k < |a| ==> (b + x)[k] == b[k];
  }

  /** Order: lines never rewrite what earlier lines produced, so the
      occurrences of earlier lines come first. */
  lemma {:induction false} OccurrencesPrefix(ls: seq<Line>, m: nat, n: nat)
    requires m <= n <= |ls|
    ensures OccurrencesUpTo(ls, m) <= OccurrencesUpTo(ls, n)
    decreases n
  {
    if m < n {
      OccurrencesPrefix(ls, m, n - 1);
      PrefixOfLonger(OccurrencesUpTo(ls, m), OccurrencesUpTo(ls, n - 1), LineOccurrences(ls, n - 1));
    }
  }

  // ------------------------------------------------- the properties on a file

  /** A classified line's matching words are exactly the words of the
      stripped line that contain the term. */
  lemma ClassifyHits(cls: CharClasses, term: string, line: string, w: string)
    ensures w in Classify(cls, term, line).hits <==> w in Tokens(cls, Strip(cls, line)) && Matches(cls, term, w)
  {
    HitsSpec(cls, term, Tokens(cls, Strip(cls, line)));
  }

  /** A classified verse line splits, around one whitespace character, into
      its verse number, a non-empty run of digits, and its non-empty Spanish
      text; a heading line is never a verse line. */
  lemma ClassifyVerse(cls: CharClasses, term: string, line: string)
    requires Classify(cls, term, line).verse.Some?
    ensures var l := Classify(cls, term, line);
            var m := l.verse.value;
            && !l.isHeading
            && m.verse != [] && AllDigits(cls, m.verse) && m.text != []
            && |m.verse| < |l.text| && cls.isSpace(l.text[|m.verse|])
            && l.text == m.verse + [l.text[|m.verse|]] + m.text
  {
    var s := Strip(cls, line);
    VerseParts(cls, s);
    if IsHeading(cls, s) {
      HeadingIsNotVerse(cls, s);
    }
  }

  /** Soundness on the raw lines: a found word is a token, containing the
      term, of the stripped line after some line whose stripped text is not
      a heading. */
  lemma FoundWordOfFile(cls: CharClasses, term: string, lines: seq<string>, w: string) returns (i: nat)
    requires w in FoundUpTo(Classified(cls, term, lines), |lines|)
    ensures i + 1 < |lines| && !IsHeading(cls, Strip(cls, lines[i]))
    ensures w in Tokens(cls, Strip(cls, lines[i + 1])) && Matches(cls, term, w)
  {
    var ls := Classified(cls, term, lines);
    i := FoundWordsSound(ls, |lines|, w);
    assert ls[i] == Classify(cls, term, lines[i]);
    assert ls[i + 1] == Classify(cls, term, lines[i + 1]);
    ClassifyHits(cls, term, lines[i + 1], w);
  }

  /** Completeness on the raw lines: every token containing the term of the
      stripped line after a non-heading line is found. */
  lemma FileWordFound(cls: CharClasses, term: string, lines: seq<string>, i: nat, w: string)
    requires i + 1 < |lines| && !IsHeading(cls, Strip(cls, lines[i]))
    requires w in Tokens(cls, Strip(cls, lines[i + 1])) && Matches(cls, term, w)
    ensures w in FoundUpTo(Classified(cls, term, lines), |lines|)
  {
    var ls := Classified(cls, term, lines);
    assert ls[i] == Classify(cls, term, lines[i]);
    assert ls[i + 1] == Classify(cls, term, lines[i + 1]);
    ClassifyHits(cls, term, lines[i + 1], w);
    FoundWordsComplete(ls, |lines|, i, w);
  }

  // ---------------------------------------------------------- the algorithm

  /** One iteration of the scan over line `i`, stated on the raw lines: a
      heading line only changes the heading; any other line with a successor
      adds the successor's matching words and, when it is a verse line,
      their records. */
  lemma ScanStep(cls: CharClasses, lines: seq<string>, term: string, i: nat)
    requires i < |lines|
    ensures var ls := Classified(cls, term, lines);
            var line := Strip(cls, lines[i]);
            var heading := IsHeading(cls, line);
            && HeadingBefore(ls, i + 1) == (if heading then line else HeadingBefore(ls, i))
            && (heading || i + 1 == |lines| ==>
                  && FoundUpTo(ls, i + 1) == FoundUpTo(ls, i)
                  && OccurrencesUpTo(ls, i + 1) == OccurrencesUpTo(ls, i))
            && (!heading && i + 1 < |lines| ==>
                  var greekLine := Strip(cls, lines[i + 1]);
                  var hits := Hits(cls, term, Tokens(cls, greekLine));
                  && FoundUpTo(ls, i + 1) == FoundUpTo(ls, i) + Elems(hits)
                  && OccurrencesUpTo(ls, i + 1) == OccurrencesUpTo(ls, i) +
                       GreekLineRecords(HeadingBefore(ls, i), MatchVerse(cls, line), greekLine, hits))
  {
    var ls := Classified(cls, term, lines);
    assert ls[i] == Classify(cls, term, lines[i]);
    if i + 1 < |lines| {
      assert ls[i + 1] == Classify(cls, term, lines[i + 1]);
    }
  }

  /** One more word of the Greek line: it adds to the found words and to
      the records exactly when it contains the term. */
  lemma ScanWord(cls: CharClasses, term: string, heading: string, verseMatch: Option<VerseMatch>,
                 greekLine: string, words: seq<string>, word: string)
    ensures var hits := Hits(cls, term, words);
            var hits' := Hits(cls, term, words + [word]);
            && Elems(hits') == Elems(hits) + (if Matches(cls, term, word) then {word} else {})
            && GreekLineRecords(heading, verseMatch, greekLine, hits') ==
               GreekLineRecords(heading, verseMatch, greekLine, hits) +
               (if Matches(cls, term, word) && verseMatch.Some?
                then [Occurrence(heading, verseMatch.value.verse, verseMatch.value.text, greekLine, word)]
                else [])
  {
    var hits := Hits(cls, term, words);
    HitsAppend(cls, term, words, [word]);
    assert Hits(cls, term, [word]) == if Matches(cls, term, word) then [word] else [];
    if Matches(cls, term, word) {
      assert Hits(cls, term, words + [word]) == hits + [word];
      assert Elems(hits + [word]) == Elems(hits) + {word};
      if verseMatch.Some? {
        RecordsAppend(heading, verseMatch.value, greekLine, hits, word);
      }
    } else {
      assert Hits(cls, term, words + [word]) == hits;
    }
  }

  /** The inner loop over the words of the Greek line: every word that
      contains the term joins the found set, and, when the current line
      matched the verse pattern, is appended as an occurrence. */
  method ScanGreekLine(cls: CharClasses, term: string, heading: string, verseMatch: Option<VerseMatch>,
                       greekLine: string, tokens: seq<string>, found: set<string>, occs: seq<Occurrence>)
    returns (found': set<string>, occs': seq<Occurrence>)
    ensures found' == found + Elems(Hits(cls, term, tokens))
    ensures occs' == occs + GreekLineRecords(heading, verseMatch, greekLine, Hits(cls, term, tokens))
  {
    found', occs' := found, occs;
    for j := 0 to |tokens|
      invariant found' == found + Elems(Hits(cls, term, tokens[..j]))
      invariant occs' == occs + GreekLineRecords(heading, verseMatch, greekLine, Hits(cls, term, tokens[..j]))
    {
      var word := tokens[j];
      assert tokens[..j + 1] == tokens[..j] + [word];
      ScanWord(cls, term, heading, verseMatch, greekLine, tokens[..j], word);
      if Matches(cls, term, word) {
        found' := found' + {word};
        if verseMatch.Some? {
          occs' := occs' + [Occurrence(heading, verseMatch.value.verse, verseMatch.value.text, greekLine, word)];
        }
      }
    }
    assert tokens[..|tokens|] == tokens;
  }

  /** `find_and_display_occurrences(lines, search_term)`: the sorted distinct
      found words and the occurrence list. */
  method FindOccurrences(cls: CharClasses, lines: seq<string>, term: string)
    returns (words: seq<string>, occurrences: seq<Occurrence>)
    ensures StrictlyAscending(words)
    ensures forall w :: w in words <==> w in FoundUpTo(Classified(cls, term, lines), |lines|)
    ensures occurrences == OccurrencesUpTo(Classified(cls, term, lines), |lines|)
    ensures forall o :: o in occurrences ==> o.foundWord in words
  {
    ghost var ls := Classified(cls, term, lines);
    occurrences := [];
    var foundWords: set<string> := {};
    var currentHeading := NoHeading;
    for i := 0 to |lines|
      invariant currentHeading == HeadingBefore(ls, i)
      invariant foundWords == FoundUpTo(ls, i)
      invariant occurrences == OccurrencesUpTo(ls, i)
    {
      var line := Strip(cls, lines[i]);
      ScanStep(cls, lines, term, i);
      if IsHeading(cls, line) {
        currentHeading := line;
        continue;
      }
      var verseMatch := MatchVerse(cls, line);
      if i + 1 < |lines| {
        var greekLine := Strip(cls, lines[i + 1]);
        var tokens := Tokens(cls, greekLine);
        foundWords, occurrences := ScanGreekLine(cls, term, currentHeading, verseMatch, greekLine, tokens,
                                                 foundWords, occurrences);
      }
    }
    words := SortWords(foundWords);
    OccurrenceWordsFound(ls, |lines|);
  }

  // ------------------------------------------------------ the blank-line filter

  /** `[line for line in lines if line.strip()]`: the lines that are not
      blank, in their order. */
  function NonBlankLines(cls: CharClasses, lines: seq<string>): (r: seq<string>)
    ensures |r| <= |lines|
    ensures forall k :: 0 <= k < |r| ==> Strip(cls, r[k]) != []
    ensures forall l :: l in r <==> l in lines && Strip(cls, l) != []
  {
    if lines == [] then []
    else
      assert lines == [lines[0]] + lines[1..];
      (if Strip(cls, lines[0]) != [] then [lines[0]] else []) + NonBlankLines(cls, lines[1..])
  }

  /** Multiplicity: a non-blank line is kept as many times as it occurs; a
      blank one is dropped. */
  lemma {:induction false} NonBlankLinesCount(cls: CharClasses, lines: seq<string>, l: string)
    ensures multiset(NonBlankLines(cls, lines))[l] == if Strip(cls, l) != [] then multiset(lines)[l] else 0
  {
    if lines != [] {
      assert lines == [lines[0]] + lines[1..];
      NonBlankLinesCount(cls, lines[1..], l);
    }
  }
}
