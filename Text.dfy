/** Text primitives the scanner relies on: the Unicode character classes and
    case mapping (left uninterpreted), `str.strip()`, the substring test
    `p in t`, and the code-point order in which Python compares strings. */
module Text {

  /** The library behaviour the scanner uses but does not define. Every
      result of this model holds for every choice of these four.
      - isDigit: the regex class `\d`
      - isWord:  the regex class `\w`
      - isSpace: the regex class `\s`, which is also what `str.strip()` removes
      - lower:   `str.lower()` */
  datatype CharClasses = CharClasses(
    isDigit: char -> bool,
    isWord: char -> bool,
    isSpace: char -> bool,
    lower: string -> string)

  /** `s` with its leading whitespace removed. */
  function TrimStart(cls: CharClasses, s: string): string
    decreases |s|
  {
    if s != [] && cls.isSpace(s[0]) then TrimStart(cls, s[1..]) else s
  }

  /** `TrimStart` drops exactly the leading run of whitespace: what it drops
      is whitespace and what it keeps is a suffix not starting with any. */
  lemma {:induction false} TrimStartSpec(cls: CharClasses, s: string)
    ensures var r := TrimStart(cls, s);
            && |r| <= |s| && r == s[|s| - |r|..]
            && (forall k :: 0 <= k < |s| - |r| ==> cls.isSpace(s[k]))
            && (r == [] || !cls.isSpace(r[0]))
    decreases |s|
  {
    if s != [] && cls.isSpace(s[0]) {
      TrimStartSpec(cls, s[1..]);
    }
  }

  /** `s` with its trailing whitespace removed. */
  function TrimEnd(cls: CharClasses, s: string): string
    decreases |s|
  {
    if s != [] && cls.isSpace(s[|s| - 1]) then TrimEnd(cls, s[..|s| - 1]) else s
  }

  /** `TrimEnd` drops exactly the trailing run of whitespace. */
  lemma {:induction false} TrimEndSpec(cls: CharClasses, s: string)
    ensures var r := TrimEnd(cls, s);
            && |r| <= |s| && r == s[..|r|]
            && (forall k :: |r| <= k < |s| ==> cls.isSpace(s[k]))
            && (r == [] || !cls.isSpace(r[|r| - 1]))
    decreases |s|
  {
    if s != [] && cls.isSpace(s[|s| - 1]) {
      TrimEndSpec(cls, s[..|s| - 1]);
    }
  }

  /** Python's `s.strip()`. */
  function Strip(cls: CharClasses, s: string): string
  {
    TrimEnd(cls, TrimStart(cls, s))
  }

  /** A stripped line is empty exactly when the line is all whitespace, and
      otherwise neither starts nor ends with whitespace. */
  lemma StripSpec(cls: CharClasses, s: string)
    ensures var r := Strip(cls, s);
            && (r == [] <==> forall k :: 0 <= k < |s| ==> cls.isSpace(s[k]))
            && (r != [] ==> !cls.isSpace(r[0]) && !cls.isSpace(r[|r| - 1]))
  {
    var t := TrimStart(cls, s);
    TrimStartSpec(cls, s);
    TrimEndSpec(cls, t);
    var r := TrimEnd(cls, t);
    assert r != [] ==> r[0] == t[0];
  }

  /** Stripping is idempotent: a stripped line is its own stripped form. */
  lemma StripIdempotent(cls: CharClasses, s: string)
    ensures Strip(cls, Strip(cls, s)) == Strip(cls, s)
  {
    var r := Strip(cls, s);
    StripSpec(cls, s);
    assert TrimStart(cls, r) == r;
    assert TrimEnd(cls, r) == r;
  }

  /** Python's `p in t` for strings: `p` occurs in `t` as a contiguous run. */
  predicate Contains(t: string, p: string)
    decreases |t|
  {
    p <= t || (t != [] && Contains(t[1..], p))
  }

  /** `p` found at position `k` of `t` makes `p in t` true. */
  lemma {:induction false} ContainsFromIndex(t: string, p: string, k: nat)
    requires k <= |t| && p <= t[k..]
    ensures Contains(t, p)
    decreases k
  {
    if k > 0 {
      assert t[1..][k - 1..] == t[k..];
      ContainsFromIndex(t[1..], p, k - 1);
    }
  }

  /** `p in t` gives a position of `t` where `p` starts. */
  lemma {:induction false} ContainsGivesIndex(t: string, p: string) returns (k: nat)
    requires Contains(t, p)
    ensures k <= |t| && p <= t[k..]
    decreases |t|
  {
    if p <= t {
      k := 0;
    } else {
      var j := ContainsGivesIndex(t[1..], p);
      assert t[1..][j..] == t[j + 1..];
      k := j + 1;
    }
  }

  /** The positional reading of `Contains`: some suffix of `t` starts with `p`. */
  lemma ContainsAt(t: string, p: string)
    ensures Contains(t, p) <==> exists k :: 0 <= k <= |t| && p <= t[k..]
  {
    if Contains(t, p) {
      var k := ContainsGivesIndex(t, p);
    }
    if exists k :: 0 <= k <= |t| && p <= t[k..] {
      var k :| 0 <= k <= |t| && p <= t[k..];
      ContainsFromIndex(t, p, k);
    }
  }

  /** The scanner's test `term.lower() in word.lower()`. */
  predicate Matches(cls: CharClasses, term: string, word: string)
  {
    Contains(cls.lower(word), cls.lower(term))
  }

  /** Python's `a < b` on `str`: lexicographic by code point, where a proper
      prefix comes first. */
  predicate Below(a: string, b: string)
    decreases |a|
  {
    if a == [] then b != []
    else b != [] && (a[0] < b[0] || (a[0] == b[0] && Below(a[1..], b[1..])))
  }

  lemma {:induction false} BelowIrreflexive(a: string)
    ensures !Below(a, a)
    decreases |a|
  {
    if a != [] {
      BelowIrreflexive(a[1..]);
    }
  }

  lemma {:induction false} BelowTransitive(a: string, b: string, c: string)
    requires Below(a, b) && Below(b, c)
    ensures Below(a, c)
    decreases |a|
  {
    if a != [] && a[0] == b[0] && b[0] == c[0] {
      BelowTransitive(a[1..], b[1..], c[1..]);
    }
  }

  lemma {:induction false} BelowTotal(a: string, b: string)
    ensures a == b || Below(a, b) || Below(b, a)
    decreases |a|
  {
    if a != [] && b != [] && a[0] == b[0] {
      BelowTotal(a[1..], b[1..]);
      if a[1..] == b[1..] {
        assert a == [a[0]] + a[1..] && b == [b[0]] + b[1..];
      }
    }
  }
}
