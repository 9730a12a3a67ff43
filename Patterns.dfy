/** The three regular expressions of the scanner, written out as predicates
    and functions over characters:
    - the heading pattern   `^[^\d]+\s\d+$`
    - the verse pattern     `^(\d+)\s(.+)$`
    - the word pattern      `[\w’]+`, as used by `re.findall` */
module Patterns {
  import opened Text

  datatype Option<T> = None | Some(value: T)

  predicate AllDigits(cls: CharClasses, s: string)
  {
    forall k :: 0 <= k < |s| ==> cls.isDigit(s[k])
  }

  predicate NoDigits(cls: CharClasses, s: string)
  {
    forall k :: 0 <= k < |s| ==> !cls.isDigit(s[k])
  }

  // ---------------------------------------------------------------- headings

  /** `^[^\d]+\s\d+$` matches `s` with its `\s` at position `k`: a non-empty
      run of non-digits (which may itself hold spaces), one whitespace
      character, and a non-empty run of digits that ends the line. */
  predicate HeadingAt(cls: CharClasses, s: string, k: int)
  {
    1 <= k < |s| - 1 && NoDigits(cls, s[..k]) && cls.isSpace(s[k]) && AllDigits(cls, s[k + 1..])
  }

  /** The backtracking of the regex engine over the position of the
      separating whitespace: tries `k`, `k - 1`, ..., 1. */
  function HeadingSearch(cls: CharClasses, s: string, k: nat): bool
    decreases k
  {
    if k == 0 then false
    else HeadingAt(cls, s, k) || HeadingSearch(cls, s, k - 1)
  }

  /** `re.match(r'^[^\d]+\s\d+$', s)` succeeds. */
  predicate IsHeading(cls: CharClasses, s: string)
  {
    HeadingSearch(cls, s, |s|)
  }

  /** The search is exact: it succeeds precisely when some position of the
      separating whitespace makes `s` fit the heading pattern. */
  lemma {:induction false} HeadingSearchSpec(cls: CharClasses, s: string, k: nat)
    ensures HeadingSearch(cls, s, k) <==> exists j :: 1 <= j <= k && HeadingAt(cls, s, j)
    decreases k
  {
    if k > 0 {
      HeadingSearchSpec(cls, s, k - 1);
    }
  }

  /** The heading test, stated as the regex's meaning. */
  lemma IsHeadingSpec(cls: CharClasses, s: string)
    ensures IsHeading(cls, s) <==> exists j :: HeadingAt(cls, s, j)
  {
    HeadingSearchSpec(cls, s, |s|);
  }

  /** A heading starts with a non-digit and ends with a digit. */
  lemma HeadingShape(cls: CharClasses, s: string)
    requires IsHeading(cls, s)
    ensures |s| >= 3 && !cls.isDigit(s[0]) && cls.isDigit(s[|s| - 1])
  {
    IsHeadingSpec(cls, s);
    var k :| HeadingAt(cls, s, k);
    assert s[..k][0] == s[0];
    assert s[k + 1..][|s| - k - 2] == s[|s| - 1];
  }

  // ------------------------------------------------------------------ verses

  /** The two groups of a successful verse match. */
  datatype VerseMatch = VerseMatch(verse: string, text: string)

  /** `^(\d+)\s(.+)$` matches `s` with group 1 equal to `s[..k]`: a digit run,
      one whitespace character, and a non-empty remainder. */
  predicate VerseAt(cls: CharClasses, s: string, k: int)
  {
    1 <= k < |s| - 1 && AllDigits(cls, s[..k]) && cls.isSpace(s[k])
  }

  /** Length of the longest run of digits that starts `s`. */
  function LeadingDigits(cls: CharClasses, s: string): nat
    decreases |s|
  {
    if s != [] && cls.isDigit(s[0]) then 1 + LeadingDigits(cls, s[1..]) else 0
  }

  lemma {:induction false} LeadingDigitsSpec(cls: CharClasses, s: string)
    ensures var n := LeadingDigits(cls, s);
            && n <= |s| && AllDigits(cls, s[..n])
            && (n == |s| || !cls.isDigit(s[n]))
    decreases |s|
  {
    if s != [] && cls.isDigit(s[0]) {
      LeadingDigitsSpec(cls, s[1..]);
      var n := LeadingDigits(cls, s);
      assert forall k :: 1 <= k < n ==> s[..n][k] == s[1..][..n - 1][k - 1];
    }
  }

  /** The backtracking of the greedy `\d+`: tries a digit run of length `k`,
      then `k - 1`, and so on; 0 when none fits. */
  function Backtrack(cls: CharClasses, s: string, k: nat): (r: nat)
    ensures r == 0 || r < |s| - 1
    decreases k
  {
    if k == 0 then 0
    else if VerseAt(cls, s, k) then k
    else Backtrack(cls, s, k - 1)
  }

  /** Backtracking finds the longest fitting digit run no longer than `k`. */
  lemma {:induction false} BacktrackSpec(cls: CharClasses, s: string, k: nat)
    ensures var r := Backtrack(cls, s, k);
            && r <= k
            && (r == 0 || VerseAt(cls, s, r))
            && (forall j :: r < j <= k ==> !VerseAt(cls, s, j))
    decreases k
  {
    if k > 0 && !VerseAt(cls, s, k) {
      BacktrackSpec(cls, s, k - 1);
    }
  }

  /** `re.match(r'^(\d+)\s(.+)$', s)`, with its two groups. */
  function MatchVerse(cls: CharClasses, s: string): Option<VerseMatch>
  {
    var k := Backtrack(cls, s, LeadingDigits(cls, s));
    if k == 0 then None else Some(VerseMatch(s[..k], s[k + 1..]))
  }

  /** The verse pattern matches exactly when some split of `s` fits it; then
      group 1 is the longest digit run that fits (the greedy choice) and
      group 2 is everything after the one separating whitespace character. */
  lemma MatchVerseSpec(cls: CharClasses, s: string)
    ensures var r := MatchVerse(cls, s);
            && (r.None? <==> forall j :: !VerseAt(cls, s, j))
            && (r.Some? ==>
                  var k := |r.value.verse|;
                  && VerseAt(cls, s, k)
                  && r.value.verse == s[..k]
                  && r.value.text == s[k + 1..]
                  && (forall j :: VerseAt(cls, s, j) ==> j <= k))
  {
    var n := LeadingDigits(cls, s);
    LeadingDigitsSpec(cls, s);
    BacktrackSpec(cls, s, n);
    assert forall j :: VerseAt(cls, s, j) ==> j <= n;
  }

  /** What a verse match yields: the verse number is a non-empty digit run,
      the Spanish text is non-empty, and the line is the number, one
      whitespace character and the text. */
  lemma VerseParts(cls: CharClasses, s: string)
    requires MatchVerse(cls, s).Some?
    ensures var m := MatchVerse(cls, s).value;
            && |m.verse| + 1 < |s|
            && m.verse != [] && AllDigits(cls, m.verse)
            && m.text != []
            && s == m.verse + [s[|m.verse|]] + m.text && cls.isSpace(s[|m.verse|])
  {
    MatchVerseSpec(cls, s);
    var m := MatchVerse(cls, s).value;
    assert s == s[..|m.verse|] + [s[|m.verse|]] + s[|m.verse| + 1..];
  }

  /** No line is both a heading and a verse line: a heading starts with a
      non-digit, a verse line with a digit. */
  lemma HeadingIsNotVerse(cls: CharClasses, s: string)
    requires IsHeading(cls, s)
    ensures MatchVerse(cls, s).None?
  {
    HeadingShape(cls, s);
    MatchVerseSpec(cls, s);
    assert forall j :: !VerseAt(cls, s, j);
  }

  // ------------------------------------------------------------------- words

  /** A character of `[\w’]`: a word character or the right single quotation
      mark that Greek elision uses. */
  predicate IsTokenChar(cls: CharClasses, c: char)
  {
    cls.isWord(c) || c == '’'
  }

  /** Length of the run of token characters that starts `s`. */
  function WordRun(cls: CharClasses, s: string): (n: nat)
    ensures n <= |s|
    decreases |s|
  {
    if s != [] && IsTokenChar(cls, s[0]) then 1 + WordRun(cls, s[1..]) else 0
  }

  lemma {:induction false} WordRunSpec(cls: CharClasses, s: string)
    ensures var n := WordRun(cls, s);
            && n <= |s|
            && (forall k :: 0 <= k < n ==> IsTokenChar(cls, s[k]))
            && (n == |s| || !IsTokenChar(cls, s[n]))
    decreases |s|
  {
    if s != [] && IsTokenChar(cls, s[0]) {
      WordRunSpec(cls, s[1..]);
    }
  }

  /** `re.findall(r'[\w’]+', s)`: the maximal runs of token characters, left
      to right. */
  function Tokens(cls: CharClasses, s: string): seq<string>
    decreases |s|
  {
    if s == [] then []
    else if !IsTokenChar(cls, s[0]) then Tokens(cls, s[1..])
    else
      var n := WordRun(cls, s);
      assert n > 0 by { WordRunSpec(cls, s); }
      [s[..n]] + Tokens(cls, s[n..])
  }

  /** `s[i..j]` is a maximal run of token characters of `s`. */
  predicate RunAt(cls: CharClasses, s: string, i: int, j: int)
  {
    && 0 <= i < j <= |s|
    && (forall k :: i <= k < j ==> IsTokenChar(cls, s[k]))
    && (i == 0 || !IsTokenChar(cls, s[i - 1]))
    && (j == |s| || !IsTokenChar(cls, s[j]))
  }

  /** A maximal run of `s` moved to the suffix `s[d..]`, when the run lies
      inside that suffix and does not start at its edge unless the character
      before the edge is a separator. */
  lemma RunShift(cls: CharClasses, s: string, d: nat, i: int, j: int)
    requires d <= i <= j <= |s|
    requires d == i ==> d == 0 || !IsTokenChar(cls, s[d - 1])
    ensures RunAt(cls, s, i, j) <==> RunAt(cls, s[d..], i - d, j - d)
  {
    assert forall k :: i <= k < j ==> s[k] == s[d..][k - d];
    if i > d {
      assert s[i - 1] == s[d..][i - d - 1];
    }
    if j < |s| {
      assert s[j] == s[d..][j - d];
    }
  }

  /** A slice of a suffix is the corresponding slice of the whole. */
  lemma SuffixSlice(s: string, d: nat, a: int, b: int)
    requires d <= a <= b <= |s|
    ensures s[d..][a - d..b - d] == s[a..b]
  {
    forall k | 0 <= k < b - a
      ensures s[d..][a - d..b - d][k] == s[a..b][k]
    {
    }
  }

  /** A maximal run of the suffix `s[d..]` that does not start at the
      suffix's edge, or starts there after a separator, is one of `s`. */
  lemma RunFromSuffix(cls: CharClasses, s: string, d: nat, i: nat, j: nat)
    requires d <= |s| && RunAt(cls, s[d..], i, j)
    requires i == 0 ==> d == 0 || !IsTokenChar(cls, s[d - 1])
    ensures RunAt(cls, s, i + d, j + d) && s[d..][i..j] == s[i + d..j + d]
  {
    RunShift(cls, s, d, i + d, j + d);
    SuffixSlice(s, d, i + d, j + d);
  }

  /** Every token is a maximal run of token characters of the line. */
  lemma {:induction false} TokenIsRun(cls: CharClasses, s: string, t: string) returns (i: nat, j: nat)
    requires t in Tokens(cls, s)
    ensures RunAt(cls, s, i, j) && t == s[i..j]
    decreases |s|, 1
  {
    if !IsTokenChar(cls, s[0]) {
      assert Tokens(cls, s) == Tokens(cls, s[1..]);
      i, j := TokenIsRunSkip(cls, s, t);
    } else {
      var n := WordRun(cls, s);
      assert Tokens(cls, s) == [s[..n]] + Tokens(cls, s[n..]);
      if t == s[..n] {
        WordRunSpec(cls, s);
        i, j := 0, n;
      } else {
        i, j := TokenIsRunLater(cls, s, t);
      }
    }
  }

  lemma {:induction false} TokenIsRunSkip(cls: CharClasses, s: string, t: string) returns (i: nat, j: nat)
    requires s != [] && !IsTokenChar(cls, s[0]) && t in Tokens(cls, s[1..])
    ensures RunAt(cls, s, i, j) && t == s[i..j]
    decreases |s|, 0
  {
    var i', j' := TokenIsRun(cls, s[1..], t);
    RunFromSuffix(cls, s, 1, i', j');
    i, j := i' + 1, j' + 1;
  }

  lemma {:induction false} TokenIsRunLater(cls: CharClasses, s: string, t: string) returns (i: nat, j: nat)
    requires s != [] && IsTokenChar(cls, s[0]) && t in Tokens(cls, s[WordRun(cls, s)..])
    ensures RunAt(cls, s, i, j) && t == s[i..j]
    decreases |s|, 0
  {
    var n := WordRun(cls, s);
    WordRunSpec(cls, s);
    var i', j' := TokenIsRun(cls, s[n..], t);
    assert i' > 0;
    RunFromSuffix(cls, s, n, i', j');
    i, j := i' + n, j' + n;
  }

  /** Every maximal run of token characters of the line is a token. */
  lemma {:induction false} RunIsToken(cls: CharClasses, s: string, i: nat, j: nat)
    requires RunAt(cls, s, i, j)
    ensures s[i..j] in Tokens(cls, s)
    decreases |s|, 1
  {
    if !IsTokenChar(cls, s[0]) {
      assert Tokens(cls, s) == Tokens(cls, s[1..]);
      RunIsTokenSkip(cls, s, i, j);
    } else {
      var n := WordRun(cls, s);
      assert Tokens(cls, s) == [s[..n]] + Tokens(cls, s[n..]);
      if i == 0 {
        WordRunSpec(cls, s);
        assert j == n;
      } else {
        RunIsTokenLater(cls, s, i, j);
      }
    }
  }

  lemma {:induction false} RunIsTokenSkip(cls: CharClasses, s: string, i: nat, j: nat)
    requires RunAt(cls, s, i, j) && !IsTokenChar(cls, s[0])
    ensures s[i..j] in Tokens(cls, s[1..])
    decreases |s|, 0
  {
    RunShift(cls, s, 1, i, j);
    RunIsToken(cls, s[1..], i - 1, j - 1);
    SuffixSlice(s, 1, i, j);
  }

  lemma {:induction false} RunIsTokenLater(cls: CharClasses, s: string, i: nat, j: nat)
    requires RunAt(cls, s, i, j) && IsTokenChar(cls, s[0]) && i > 0
    ensures s[i..j] in Tokens(cls, s[WordRun(cls, s)..])
    decreases |s|, 0
  {
    var n := WordRun(cls, s);
    WordRunSpec(cls, s);
    assert i > n;
    RunShift(cls, s, n, i, j);
    RunIsToken(cls, s[n..], i - n, j - n);
    SuffixSlice(s, n, i, j);
  }

  // ------------------------------------------------------ token positions
  //
  // A list of spans `pos` accounts for the tokens `toks` of `s` from offset
  // `from` on when it has three properties, stated separately so that each
  // proof step handles one of them.

  /** Each span is a maximal run at or after `from`, and its slice is the
      token in the same place. */
  ghost predicate SpanRuns(cls: CharClasses, s: string, from: nat, toks: seq<string>, pos: seq<(nat, nat)>)
  {
    && |pos| == |toks|
    && forall k :: 0 <= k < |pos| ==>
         from <= pos[k].0 && RunAt(cls, s, pos[k].0, pos[k].1) && toks[k] == s[pos[k].0..pos[k].1]
  }

  /** The spans are disjoint and left to right. */
  ghost predicate SpanOrder(pos: seq<(nat, nat)>)
  {
    forall k, k' :: 0 <= k < k' < |pos| ==> pos[k].1 < pos[k'].0
  }

  /** Every maximal run at or after `from` is one of the spans. */
  ghost predicate SpanCover(cls: CharClasses, s: string, from: nat, pos: seq<(nat, nat)>)
  {
    forall i, j :: RunAt(cls, s, i, j) && from <= i ==> exists k :: 0 <= k < |pos| && pos[k] == (i, j)
  }

  ghost function Shifted(pos: seq<(nat, nat)>, d: nat): seq<(nat, nat)>
  {
    seq(|pos|, k requires 0 <= k < |pos| => (pos[k].0 + d, pos[k].1 + d))
  }

  /** Token positions: `re.findall` returns one token per maximal run of
      `[\w’]` characters of the line, in the order the runs occur and
      without repeats or omissions. */
  lemma TokenPositions(cls: CharClasses, s: string) returns (pos: seq<(nat, nat)>)
    ensures |pos| == |Tokens(cls, s)|
    ensures forall k :: 0 <= k < |pos| ==>
              RunAt(cls, s, pos[k].0, pos[k].1) && Tokens(cls, s)[k] == s[pos[k].0..pos[k].1]
    ensures forall k, k' :: 0 <= k < k' < |pos| ==> pos[k].1 < pos[k'].0
    ensures forall i, j :: RunAt(cls, s, i, j) ==> exists k :: 0 <= k < |pos| && pos[k] == (i, j)
  {
    pos := TokenSpans(cls, s);
  }

  /** A maximal run of `s[d..]` is one of `s` when the cut at `d` does not
      split a run. */
  lemma ShiftedRun(cls: CharClasses, s: string, d: nat, i: nat, j: nat)
    requires d <= |s| && RunAt(cls, s[d..], i, j)
    requires d == 0 || !IsTokenChar(cls, s[d - 1]) || d == |s| || !IsTokenChar(cls, s[d])
    ensures RunAt(cls, s, i + d, j + d) && s[d..][i..j] == s[i + d..j + d]
  {
    if i == 0 {
      assert s[d..][0] == s[d];
    }
    RunFromSuffix(cls, s, d, i, j);
  }

  /** The spans of the runs of `s[d..]`, moved by `d`, are runs of `s`. */
  lemma ShiftRuns(cls: CharClasses, s: string, d: nat, toks: seq<string>, pos: seq<(nat, nat)>)
    requires d <= |s|
    requires d == 0 || !IsTokenChar(cls, s[d - 1]) || d == |s| || !IsTokenChar(cls, s[d])
    requires SpanRuns(cls, s[d..], 0, toks, pos)
    ensures SpanRuns(cls, s, d, toks, Shifted(pos, d))
  {
    forall k | 0 <= k < |pos|
      ensures RunAt(cls, s, pos[k].0 + d, pos[k].1 + d) && toks[k] == s[pos[k].0 + d..pos[k].1 + d]
    {
      ShiftedRun(cls, s, d, pos[k].0, pos[k].1);
    }
  }

  /** Every run of `s` at or after `d` is a run of `s[d..]` moved by `d`. */
  lemma ShiftCover(cls: CharClasses, s: string, d: nat, pos: seq<(nat, nat)>)
    requires d <= |s| && SpanCover(cls, s[d..], 0, pos)
    ensures SpanCover(cls, s, d, Shifted(pos, d))
  {
    var pos' := Shifted(pos, d);
    forall i, j | RunAt(cls, s, i, j) && d <= i
      ensures exists k :: 0 <= k < |pos'| && pos'[k] == (i, j)
    {
      RunShift(cls, s, d, i, j);
      var k :| 0 <= k < |pos| && pos[k] == (i - d, j - d);
      assert pos'[k] == (i, j);
    }
  }

  lemma {:induction false} TokenSpans(cls: CharClasses, s: string) returns (pos: seq<(nat, nat)>)
    ensures SpanRuns(cls, s, 0, Tokens(cls, s), pos) && SpanOrder(pos) && SpanCover(cls, s, 0, pos)
    decreases |s|, 1
  {
    if s == [] {
      pos := [];
    } else if !IsTokenChar(cls, s[0]) {
      assert Tokens(cls, s) == Tokens(cls, s[1..]);
      pos := TokenSpansSkip(cls, s);
    } else {
      var n := WordRun(cls, s);
      assert Tokens(cls, s) == [s[..n]] + Tokens(cls, s[n..]);
      pos := TokenSpansLater(cls, s);
    }
  }

  lemma {:induction false} TokenSpansSkip(cls: CharClasses, s: string) returns (pos: seq<(nat, nat)>)
    requires s != [] && !IsTokenChar(cls, s[0])
    ensures SpanRuns(cls, s, 0, Tokens(cls, s[1..]), pos) && SpanOrder(pos) && SpanCover(cls, s, 0, pos)
    decreases |s|, 0
  {
    var pos' := TokenSpans(cls, s[1..]);
    pos := Shifted(pos', 1);
    ShiftRuns(cls, s, 1, Tokens(cls, s[1..]), pos');
    ShiftOrder(pos', 1);
    ShiftCover(cls, s, 1, pos');
    RunsFromStart(cls, s, 1, Tokens(cls, s[1..]), pos);
    SkipCover(cls, s, pos);
  }

  lemma ShiftOrder(pos: seq<(nat, nat)>, d: nat)
    requires SpanOrder(pos)
    ensures SpanOrder(Shifted(pos, d))
  {
  }

  lemma RunsFromStart(cls: CharClasses, s: string, d: nat, toks: seq<string>, pos: seq<(nat, nat)>)
    requires SpanRuns(cls, s, d, toks, pos)
    ensures SpanRuns(cls, s, 0, toks, pos)
  {
  }

  /** No run starts at a separator, so covering the runs from 1 on covers
      them all. */
  lemma SkipCover(cls: CharClasses, s: string, pos: seq<(nat, nat)>)
    requires s != [] && !IsTokenChar(cls, s[0]) && SpanCover(cls, s, 1, pos)
    ensures SpanCover(cls, s, 0, pos)
  {
    forall i, j | RunAt(cls, s, i, j)
      ensures exists k :: 0 <= k < |pos| && pos[k] == (i, j)
    {
      assert i != 0;
    }
  }

  lemma {:induction false} TokenSpansLater(cls: CharClasses, s: string) returns (pos: seq<(nat, nat)>)
    requires s != [] && IsTokenChar(cls, s[0])
    ensures var n := WordRun(cls, s);
            SpanRuns(cls, s, 0, [s[..n]] + Tokens(cls, s[n..]), pos) && SpanOrder(pos) && SpanCover(cls, s, 0, pos)
    decreases |s|, 0
  {
    var n := WordRun(cls, s);
    WordRunSpec(cls, s);
    var toks := Tokens(cls, s[n..]);
    var pos' := TokenSpans(cls, s[n..]);
    var tail := Shifted(pos', n);
    ShiftRuns(cls, s, n, toks, pos');
    ShiftOrder(pos', n);
    ShiftCover(cls, s, n, pos');
    pos := [(0, n)] + tail;
    ConsRuns(cls, s, n, toks, tail);
    ConsOrder(cls, s, n, toks, tail);
    ConsCover(cls, s, n, tail);
  }

  lemma ConsRuns(cls: CharClasses, s: string, n: nat, toks: seq<string>, tail: seq<(nat, nat)>)
    requires 0 < n <= |s| && (forall k :: 0 <= k < n ==> IsTokenChar(cls, s[k]))
    requires n == |s| || !IsTokenChar(cls, s[n])
    requires SpanRuns(cls, s, n, toks, tail)
    ensures SpanRuns(cls, s, 0, [s[..n]] + toks, [(0, n)] + tail)
  {
    var pos := [(0, n)] + tail;
    assert RunAt(cls, s, 0, n);
    forall k | 1 <= k < |pos|
      ensures RunAt(cls, s, pos[k].0, pos[k].1) && ([s[..n]] + toks)[k] == s[pos[k].0..pos[k].1]
    {
      assert pos[k] == tail[k - 1];
    }
  }

  lemma ConsOrder(cls: CharClasses, s: string, n: nat, toks: seq<string>, tail: seq<(nat, nat)>)
    requires n <= |s| && (n == |s| || !IsTokenChar(cls, s[n]))
    requires SpanRuns(cls, s, n, toks, tail) && SpanOrder(tail)
    ensures SpanOrder([(0, n)] + tail)
  {
    forall k | 0 <= k < |tail| ensures n < tail[k].0 {
      assert RunAt(cls, s, tail[k].0, tail[k].1);
    }
  }

  lemma ConsCover(cls: CharClasses, s: string, n: nat, tail: seq<(nat, nat)>)
    requires 0 < n <= |s| && (forall k :: 0 <= k < n ==> IsTokenChar(cls, s[k]))
    requires n == |s| || !IsTokenChar(cls, s[n])
    requires SpanCover(cls, s, n, tail)
    ensures SpanCover(cls, s, 0, [(0, n)] + tail)
  {
    var pos := [(0, n)] + tail;
    forall i, j | RunAt(cls, s, i, j)
      ensures exists k :: 0 <= k < |pos| && pos[k] == (i, j)
    {
      if i == 0 {
        assert j == n;
        assert pos[0] == (i, j);
      } else {
        assert n <= i;
        var k :| 0 <= k < |tail| && tail[k] == (i, j);
        assert pos[k + 1] == (i, j);
      }
    }
  }
}
