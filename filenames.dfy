/**
 * File names of the questionnaire store and the questionnaire id derived from them.
 *
 * The id of a file is `os.path.splitext(f)[0].replace("questionnaire_", "")`: the
 * name without its final extension, with every occurrence of the marker deleted.
 */
module FileNames {

  /** The extension of the questionnaire spreadsheets. */
  const EXTENSION: string := ".xlsx"

  /** The text deleted from a file's root to obtain its questionnaire id. */
  const MARKER: string := "questionnaire_"

  /** Python's `str.endswith`. */
  predicate EndsWith(s: string, suffix: string) {
    |suffix| <= |s| && s[|s| - |suffix|..] == suffix
  }

  /** Python's `str.rfind` for one character: the last index of `c`, or -1. */
  function RFind(s: string, c: char): (r: int)
    ensures -1 <= r < |s|
    ensures r >= 0 ==> s[r] == c
    ensures forall k :: r < k < |s| ==> s[k] != c
  {
    if s == [] then -1
    else if s[|s| - 1] == c then |s| - 1
    else RFind(s[..|s| - 1], c)
  }

  /**
   * `os.path.splitext` on POSIX: the extension starts at the last '.' that comes
   * after the last '/', provided the base name has a character other than '.'
   * before that dot (so ".xlsx" alone has no extension).
   */
  function SplitExt(p: string): (r: (string, string))
    ensures r.0 + r.1 == p
    ensures r.1 == [] || (r.1[0] == '.' && '.' !in r.1[1..] && '/' !in r.1)
  {
    var sepIndex := RFind(p, '/');
    var dotIndex := RFind(p, '.');
    if dotIndex > sepIndex && exists k :: sepIndex < k < dotIndex && p[k] != '.' then
      assert p[..dotIndex] + p[dotIndex..] == p;
      (p[..dotIndex], p[dotIndex..])
    else
      (p, [])
  }

  /**
   * The split is at a dot whenever the dot is the last one, no '/' follows it,
   * and some character other than '.' comes before it in the same base name.
   */
  lemma SplitExtAtDot(p: string, i: nat, k: nat)
    requires k < i < |p| && p[i] == '.'
    requires forall j :: i < j < |p| ==> p[j] != '.' && p[j] != '/'
    requires p[k] != '.' && forall j :: k <= j < i ==> p[j] != '/'
    ensures SplitExt(p) == (p[..i], p[i..])
  {
    var dotIndex := RFind(p, '.');
    assert dotIndex == i;
    var sepIndex := RFind(p, '/');
    assert sepIndex < k < dotIndex && p[k] != '.';
  }

  /**
   * No split when no dot of the base name follows a character other than '.':
   * a base name without a dot, or one like ".xlsx" or "..", is kept whole.
   */
  lemma SplitExtDotsOnly(dir: string, base: string)
    requires dir == [] || dir[|dir| - 1] == '/'
    requires '/' !in base
    requires forall k, j :: 0 <= k < j < |base| && base[k] != '.' ==> base[j] != '.'
    ensures SplitExt(dir + base) == (dir + base, [])
  {
    var p := dir + base;
    forall j | |dir| <= j < |p| ensures p[j] == base[j - |dir|] && p[j] != '/' {
      assert base[j - |dir|] in base;
    }
    var sepIndex := RFind(p, '/');
    if dir != [] {
      assert p[|dir| - 1] == '/';
    }
    assert sepIndex == |dir| - 1;
    var dotIndex := RFind(p, '.');
    if dotIndex > sepIndex {
      forall k | sepIndex < k < dotIndex ensures p[k] == '.' {
        assert base[dotIndex - |dir|] == '.';
      }
    }
  }

  /** ".xlsx" alone is a hidden file's name, not an extension. */
  lemma SplitExtHiddenName()
    ensures SplitExt(EXTENSION) == (EXTENSION, [])
  {
    assert [] + EXTENSION == EXTENSION;
    SplitExtDotsOnly([], EXTENSION);
  }

  /** True when `pat` occurs in `s` starting at index `i`. */
  predicate MatchesAt(s: string, pat: string, i: nat) {
    i + |pat| <= |s| && s[i..i + |pat|] == pat
  }

  /** True when `pat` occurs somewhere in `s`. */
  predicate Occurs(s: string, pat: string) {
    exists i: nat | i <= |s| :: MatchesAt(s, pat, i)
  }

  /**
   * Python's `s.replace(pat, "")`: one left-to-right pass that deletes every
   * non-overlapping occurrence of `pat`.
   */
  function DeleteAll(s: string, pat: string): (r: string)
    requires pat != []
    ensures |r| <= |s|
  {
    if s == [] then []
    else if pat <= s then DeleteAll(s[|pat|..], pat)
    else [s[0]] + DeleteAll(s[1..], pat)
  }

  /** The questionnaire id of a file name (app.py lines 45 and 71 use the same derivation). */
  function QidOf(fileName: string): string {
    DeleteAll(SplitExt(fileName).0, MARKER)
  }

  /** Text in which `pat` does not occur is left unchanged. */
  lemma {:induction false} DeleteAllAbsent(s: string, pat: string)
    requires pat != []
    requires !Occurs(s, pat)
    ensures DeleteAll(s, pat) == s
  {
    if s != [] {
      if pat <= s {
        assert MatchesAt(s, pat, 0);
        assert false;
      }
      if Occurs(s[1..], pat) {
        var t := s[1..];
        var i: nat :| i <= |t| && MatchesAt(t, pat, i);
        assert i + 1 + |pat| <= |s|;
        assert s[i + 1..i + 1 + |pat|] == t[i..i + |pat|];
        assert MatchesAt(s, pat, i + 1);
        assert false;
      }
      DeleteAllAbsent(s[1..], pat);
    }
  }

  /** A leading occurrence is deleted and the scan resumes right after it. */
  lemma DeleteAllLeading(s: string, pat: string)
    requires pat != []
    ensures DeleteAll(pat + s, pat) == DeleteAll(s, pat)
  {
    assert pat <= pat + s;
    assert (pat + s)[|pat|..] == s;
  }

  /** For a name without '/' whose stem has a character other than '.', the extension is exactly ".xlsx". */
  lemma {:induction false} SplitExtXlsx(stem: string)
    requires '/' !in stem
    requires exists k :: 0 <= k < |stem| && stem[k] != '.'
    ensures SplitExt(stem + EXTENSION) == (stem, EXTENSION)
  {
    var p := stem + EXTENSION;
    assert p[|stem|] == '.';
    assert forall k :: |stem| < k < |p| ==> p[k] != '.';
    var dotIndex := RFind(p, '.');
    assert dotIndex == |stem|;
    var sepIndex := RFind(p, '/');
    assert forall k :: 0 <= k < |p| ==> p[k] != '/' by {
      forall k | 0 <= k < |p| ensures p[k] != '/' {
        if k < |stem| { assert p[k] == stem[k]; }
      }
    }
    assert sepIndex == -1;
    var k :| 0 <= k < |stem| && stem[k] != '.';
    assert sepIndex < k < dotIndex && p[k] != '.';
    assert p[..dotIndex] == stem && p[dotIndex..] == EXTENSION;
  }

  /** A conventionally named file `questionnaire_<id>.xlsx` has questionnaire id `<id>`. */
  lemma QidOfConventionalName(id: string)
    requires '/' !in id
    requires !Occurs(id, MARKER)
    ensures QidOf(MARKER + id + EXTENSION) == id
  {
    var stem := MARKER + id;
    assert stem[0] != '.';
    assert '/' !in stem by {
      forall k | 0 <= k < |stem| ensures stem[k] != '/' {
        if k >= |MARKER| { assert stem[k] == id[k - |MARKER|]; }
      }
    }
    assert MARKER + id + EXTENSION == stem + EXTENSION;
    SplitExtXlsx(stem);
    DeleteAllLeading(id, MARKER);
    DeleteAllAbsent(id, MARKER);
  }

  /** A file without the marker keeps its whole stem as its id. */
  lemma QidOfPlainName(stem: string)
    requires '/' !in stem
    requires exists k :: 0 <= k < |stem| && stem[k] != '.'
    requires !Occurs(stem, MARKER)
    ensures QidOf(stem + EXTENSION) == stem
  {
    SplitExtXlsx(stem);
    DeleteAllAbsent(stem, MARKER);
  }

  /** A part in which no occurrence of `pat` starts is copied unchanged, and the scan goes on after it. */
  lemma {:induction false} DeleteAllKeeps(a: string, s: string, pat: string)
    requires pat != []
    requires forall i :: 0 <= i < |a| ==> !MatchesAt(a + s, pat, i)
    ensures DeleteAll(a + s, pat) == a + DeleteAll(s, pat)
  {
    if a != [] {
      assert (a + s)[0] == a[0];
      assert !MatchesAt(a + s, pat, 0);
      assert !(pat <= a + s);
      assert (a + s)[1..] == a[1..] + s;
      forall i | 0 <= i < |a[1..]| ensures !MatchesAt(a[1..] + s, pat, i) {
        assert !MatchesAt(a + s, pat, i + 1);
        if i + |pat| <= |a[1..] + s| {
          assert (a[1..] + s)[i..i + |pat|] == (a + s)[i + 1..i + 1 + |pat|];
        }
      }
      DeleteAllKeeps(a[1..], s, pat);
      assert DeleteAll(a + s, pat) == [a[0]] + DeleteAll(a[1..] + s, pat);
      assert [a[0]] + (a[1..] + DeleteAll(s, pat)) == a + DeleteAll(s, pat);
    } else {
      assert a + s == s;
    }
  }

  /** `replace` changes the text exactly when the pattern occurs in it, and then it shortens it. */
  lemma {:induction false} DeleteAllChanges(s: string, pat: string)
    requires pat != []
    ensures DeleteAll(s, pat) == s <==> !Occurs(s, pat)
    ensures Occurs(s, pat) ==> |DeleteAll(s, pat)| < |s|
  {
    if Occurs(s, pat) {
      DeleteAllShrinks(s, pat);
    } else {
      DeleteAllAbsent(s, pat);
    }
  }

  lemma {:induction false} DeleteAllShrinks(s: string, pat: string)
    requires pat != []
    requires Occurs(s, pat)
    ensures |DeleteAll(s, pat)| < |s|
  {
    var i: nat :| i <= |s| && MatchesAt(s, pat, i);
    if !(pat <= s) {
      assert i != 0;
      var t := s[1..];
      assert t[i - 1..i - 1 + |pat|] == s[i..i + |pat|];
      assert MatchesAt(t, pat, i - 1);
      DeleteAllShrinks(t, pat);
    }
  }

  /**
   * Deletion is not limited to a leading prefix: a marker in the middle of the
   * root is removed too ("pilot_questionnaire_3.xlsx" has id "pilot_3").
   */
  lemma QidDeletesInnerMarker(a: string, id: string)
    requires '/' !in a && '/' !in id
    requires forall i :: 0 <= i < |a| ==> !MatchesAt(a + MARKER + id, MARKER, i)
    requires !Occurs(id, MARKER)
    ensures QidOf(a + MARKER + id + EXTENSION) == a + id
  {
    var stem := a + MARKER + id;
    assert stem[|a|] == 'q';
    assert '/' !in stem by {
      forall k | 0 <= k < |stem| ensures stem[k] != '/' {
        if k < |a| { assert stem[k] == a[k]; }
        else if k >= |a| + |MARKER| { assert stem[k] == id[k - |a| - |MARKER|]; }
      }
    }
    assert a + MARKER + id + EXTENSION == stem + EXTENSION;
    SplitExtXlsx(stem);
    assert stem == a + (MARKER + id);
    DeleteAllKeeps(a, MARKER + id, MARKER);
    DeleteAllLeading(id, MARKER);
    DeleteAllAbsent(id, MARKER);
  }

  /** A prefix that itself starts with 'q' is kept: "quiz_questionnaire_1.xlsx" has id "quiz_1". */
  lemma QidQuizExample()
    ensures QidOf("quiz_" + MARKER + "1" + EXTENSION) == "quiz_1"
  {
    var a := "quiz_";
    forall i | 0 <= i < |a| ensures !MatchesAt(a + MARKER + "1", MARKER, i) {
      var t := a + MARKER + "1";
      if i == 0 {
        assert t[i..i + |MARKER|][2] != MARKER[2];
      } else {
        assert t[i..i + |MARKER|][0] != MARKER[0];
      }
    }
    assert !Occurs("1", MARKER);
    QidDeletesInnerMarker(a, "1");
  }

  /**
   * Two different file names can share an id, and therefore one respondent
   * count: "questionnaire_1.xlsx" and "1.xlsx" both have id "1".
   */
  lemma QidOfNotInjective(id: string)
    requires '/' !in id
    requires exists k :: 0 <= k < |id| && id[k] != '.'
    requires !Occurs(id, MARKER)
    ensures MARKER + id + EXTENSION != id + EXTENSION
    ensures QidOf(MARKER + id + EXTENSION) == QidOf(id + EXTENSION) == id
  {
    assert |MARKER + id + EXTENSION| != |id + EXTENSION|;
    QidOfConventionalName(id);
    QidOfPlainName(id);
  }
}
