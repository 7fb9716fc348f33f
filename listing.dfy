/**
 * The list of questionnaire files: `sorted([f for f in os.listdir(d) if f.endswith('.xlsx')])`,
 * and the stop when that list is empty. The directory listing itself is an input.
 */
module Listing {
  import opened Wrappers
  import opened FileNames

  /** Python's `<=` on `str`: code-point lexicographic order, a proper prefix first. */
  predicate LexLe(a: string, b: string) {
    a == [] || (b != [] && (a[0] < b[0] || (a[0] == b[0] && LexLe(a[1..], b[1..]))))
  }

  lemma {:induction false} LexLeTotal(a: string, b: string)
    ensures LexLe(a, b) || LexLe(b, a)
  {
    if a != [] && b != [] && a[0] == b[0] {
      LexLeTotal(a[1..], b[1..]);
    }
  }

  lemma {:induction false} LexLeTransitive(a: string, b: string, c: string)
    requires LexLe(a, b) && LexLe(b, c)
    ensures LexLe(a, c)
  {
    if a != [] && a[0] == b[0] && b[0] == c[0] {
      LexLeTransitive(a[1..], b[1..], c[1..]);
    }
  }

  /** Each name is at most the next one. */
  predicate Sorted(s: seq<string>) {
    forall i :: 0 < i < |s| ==> LexLe(s[i - 1], s[i])
  }

  /** Adjacent order gives order between any two positions. */
  lemma {:induction false} SortedPairwise(s: seq<string>, i: nat, j: nat)
    requires Sorted(s)
    requires i <= j < |s|
    ensures LexLe(s[i], s[j])
    decreases j - i
  {
    if i == j {
      LexLeReflexive(s[i]);
    } else {
      SortedPairwise(s, i, j - 1);
      LexLeTransitive(s[i], s[j - 1], s[j]);
    }
  }

  lemma {:induction false} LexLeReflexive(a: string)
    ensures LexLe(a, a)
  {
    if a != [] {
      LexLeReflexive(a[1..]);
    }
  }

  /** The names that end with ".xlsx", in listing order. */
  function XlsxNames(names: seq<string>): (r: seq<string>)
    ensures forall x :: x in r <==> x in names && EndsWith(x, EXTENSION)
    ensures forall x :: multiset(r)[x] == (if EndsWith(x, EXTENSION) then multiset(names)[x] else 0)
    ensures multiset(r) <= multiset(names)
  {
    if names == [] then []
    else
      var rest := XlsxNames(names[1..]);
      assert names == [names[0]] + names[1..];
      if EndsWith(names[0], EXTENSION) then [names[0]] + rest else rest
  }

  /** `x` placed into sorted `s` before the first name it does not follow. */
  function Insert(s: seq<string>, x: string): (r: seq<string>)
    requires Sorted(s)
    ensures Sorted(r)
    ensures multiset(r) == multiset(s) + multiset{x}
    ensures r[0] == x || (s != [] && r[0] == s[0])
  {
    if s == [] then [x]
    else if LexLe(x, s[0]) then [x] + s
    else
      LexLeTotal(x, s[0]);
      var rest := Insert(s[1..], x);
      assert s == [s[0]] + s[1..];
      [s[0]] + rest
  }

  /** Python's `sorted` on a list of names. */
  function Sort(s: seq<string>): (r: seq<string>)
    ensures Sorted(r)
    ensures multiset(r) == multiset(s)
  {
    if s == [] then []
    else
      assert s == [s[0]] + s[1..];
      Insert(Sort(s[1..]), s[0])
  }

  /**
   * The questionnaire files of a directory listing, or None when there are none
   * (the program then stops before any form is shown).
   */
  function DiscoverFiles(listing: seq<string>): (r: Option<seq<string>>)
    ensures r.None? <==> forall x :: x in listing ==> !EndsWith(x, EXTENSION)
    ensures r.Some? ==> r.value != [] && Sorted(r.value)
    ensures r.Some? ==> multiset(r.value) == multiset(XlsxNames(listing))
    ensures r.Some? ==> forall x :: x in r.value <==> x in listing && EndsWith(x, EXTENSION)
  {
    var files := Sort(XlsxNames(listing));
    assert forall x :: x in files <==> x in XlsxNames(listing) by {
      forall x ensures x in files <==> x in XlsxNames(listing) {
        assert x in files <==> x in multiset(files);
        assert x in XlsxNames(listing) <==> x in multiset(XlsxNames(listing));
      }
    }
    if files == [] then None
    else
      assert files[0] in files;
      Some(files)
  }
}
