/** `sorted(list(found_words))`: the distinct words of a set, listed in
    Python's string order. */
module Sorting {
  import opened Text

  /** Every word comes strictly before every later one: sorted, and so
      without duplicates. */
  predicate StrictlyAscending(s: seq<string>)
  {
    forall i, j :: 0 <= i < j < |s| ==> Below(s[i], s[j])
  }

  /** A non-empty list holds its first element. */
  lemma NonEmptyHasFirst(b: seq<string>)
    ensures b == [] || b[0] in b
  {
  }

  /** A strictly ascending list is determined by its elements: the order
      and the absence of repeats leave no freedom. */
  lemma {:induction false} AscendingUnique(a: seq<string>, b: seq<string>)
    requires StrictlyAscending(a) && StrictlyAscending(b)
    requires forall x :: x in a <==> x in b
    ensures a == b
    decreases |a|
  {
    if a != [] {
      assert a[0] in b;
      assert b != [] && b[0] in a;
      if a[0] != b[0] {
        var p :| 0 <= p < |b| && b[p] == a[0];
        var q :| 0 <= q < |a| && a[q] == b[0];
        BelowTransitive(a[0], b[0], a[0]);
        BelowIrreflexive(a[0]);
        assert false;
      }
      forall x ensures x in a[1..] <==> x in b[1..] {
        if x in a[1..] {
          var p :| 1 <= p < |a| && a[p] == x;
          assert Below(a[0], x);
          BelowIrreflexive(x);
          assert x in a && x in b;
          var m :| 0 <= m < |b| && b[m] == x;
          assert m != 0;
          assert b[1..][m - 1] == x;
        }
        if x in b[1..] {
          var p :| 1 <= p < |b| && b[p] == x;
          assert Below(b[0], x);
          BelowIrreflexive(x);
          assert x in b && x in a;
          var m :| 0 <= m < |a| && a[m] == x;
          assert m != 0;
          assert a[1..][m - 1] == x;
        }
      }
      AscendingUnique(a[1..], b[1..]);
    } else {
      NonEmptyHasFirst(b);
    }
  }

  /** Inserts a new word at its place in a strictly ascending list. */
  method InsertSorted(s: seq<string>, w: string) returns (r: seq<string>)
    requires StrictlyAscending(s) && w !in s
    ensures StrictlyAscending(r)
    ensures forall x :: x in r <==> x in s || x == w
  {
    var k := 0;
    while k < |s| && Below(s[k], w)
      invariant 0 <= k <= |s|
      invariant forall q :: 0 <= q < k ==> Below(s[q], w)
    {
      k := k + 1;
    }
    if k < |s| {
      BelowTotal(s[k], w);
      forall q | k < q < |s| ensures Below(w, s[q]) {
        BelowTransitive(w, s[k], s[q]);
      }
    }
    r := s[..k] + [w] + s[k..];
    InsertAscending(s, k, w);
    assert forall x :: x in r <==> x in s[..k] || x == w || x in s[k..];
    assert s == s[..k] + s[k..];
  }

  /** Placing `w` between the words below it and the words above it keeps a
      list strictly ascending. */
  lemma InsertAscending(s: seq<string>, k: nat, w: string)
    requires k <= |s| && StrictlyAscending(s)
    requires forall q :: 0 <= q < k ==> Below(s[q], w)
    requires forall q :: k <= q < |s| ==> Below(w, s[q])
    ensures StrictlyAscending(s[..k] + [w] + s[k..])
  {
    var r := s[..k] + [w] + s[k..];
    forall i, j | 0 <= i < j < |r| ensures Below(r[i], r[j]) {
      if j < k || i > k {
        assert r[i] == s[if i < k then i else i - 1];
        assert r[j] == s[if j < k then j else j - 1];
      } else if i < k && j > k {
        assert r[i] == s[i] && r[j] == s[j - 1];
      }
    }
  }

  /** Python's `sorted(list(words))` for a set of strings. */
  method SortWords(words: set<string>) returns (r: seq<string>)
    ensures StrictlyAscending(r)
    ensures forall x :: x in r <==> x in words
  {
    r := [];
    var rest := words;
    while rest != {}
      invariant rest <= words
      invariant StrictlyAscending(r)
      invariant forall x :: x in r <==> x in words && x !in rest
      decreases |rest|
    {
      var w :| w in rest;
      r := InsertSorted(r, w);
      rest := rest - {w};
    }
  }
}
