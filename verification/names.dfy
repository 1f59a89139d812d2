/**
  Name cleanup applied to the flattened cars table: surrounding spaces are
  trimmed from the surname and the given name, then every occurrence of
  " " + surname is deleted from the given name, as Python's
  `str.strip(" ")` and `str.replace(old, "")` do.
 */
module Names {
  import opened Cars

  /** Neither the first nor the last character is a space. */
  predicate Trimmed(s: string) {
    |s| > 0 ==> s[0] != ' ' && s[|s| - 1] != ' '
  }

  /** `r` is `s[lo..lo + |r|]` and everything of `s` around it is spaces. */
  ghost predicate PaddedAt(s: string, r: string, lo: int) {
    && 0 <= lo && lo + |r| <= |s|
    && r == s[lo..lo + |r|]
    && (forall k :: 0 <= k < lo ==> s[k] == ' ')
    && (forall k :: lo + |r| <= k < |s| ==> s[k] == ' ')
  }

  /** `s` is `r` with some spaces added at either end. */
  ghost predicate Padded(s: string, r: string) {
    exists lo :: PaddedAt(s, r, lo)
  }

  /** `s.rstrip(" ")`: the prefix of `s` left once the trailing spaces are cut. */
  function RStrip(s: string): (r: string)
    ensures |r| <= |s| && r == s[..|r|]
    ensures forall k :: |r| <= k < |s| ==> s[k] == ' '
    ensures |r| > 0 ==> r[|r| - 1] != ' '
  {
    if |s| > 0 && s[|s| - 1] == ' ' then
      var t := RStrip(s[..|s| - 1]);
      assert s[..|s| - 1][..|t|] == s[..|t|];
      t
    else s
  }

  /** `s.lstrip(" ")`: the suffix of `s` left once the leading spaces are cut. */
  function LStrip(s: string): (r: string)
    ensures |r| <= |s| && r == s[|s| - |r|..]
    ensures forall k :: 0 <= k < |s| - |r| ==> s[k] == ' '
    ensures |r| > 0 ==> r[0] != ' '
  {
    if |s| > 0 && s[0] == ' ' then
      var t := LStrip(s[1..]);
      assert s[1..][|s| - 1 - |t|..] == s[|s| - |t|..];
      t
    else s
  }

  /**
    `s.rstrip(" ").lstrip(" ")`: `s` without the spaces at either end, and
    nothing else removed.
   */
  function Strip(s: string): (r: string)
    ensures Trimmed(r)
    ensures Padded(s, r)
  {
    var right := RStrip(s);
    var r := LStrip(right);
    StripFacts(s, right, r);
    r
  }

  lemma StripFacts(s: string, right: string, r: string)
    requires right == RStrip(s)
    requires r == LStrip(right)
    ensures Trimmed(r)
    ensures PaddedAt(s, r, |right| - |r|)
  {
    var lo := |right| - |r|;
    assert r == right[lo..];
    assert right[lo..] == s[lo..|right|];
    if |r| > 0 {
      assert r[|r| - 1] == right[|right| - 1];
    }
    forall k | 0 <= k < lo
      ensures s[k] == ' '
    {
      assert right[k] == s[k];
    }
  }

  /** `pat` starts at position `i` of `s`. */
  predicate OccursAt(s: string, pat: string, i: int) {
    0 <= i && i + |pat| <= |s| && s[i..i + |pat|] == pat
  }

  ghost predicate Contains(s: string, pat: string) {
    exists i :: OccursAt(s, pat, i)
  }

  /**
    `s.replace(pat, "")`: scanning from the left, every occurrence of `pat`
    that does not overlap an earlier removed one is deleted.
   */
  function RemoveAll(s: string, pat: string): (r: string)
    requires |pat| > 0
    ensures |r| <= |s|
    decreases |s|
  {
    if |s| < |pat| then s
    else if s[..|pat|] == pat then RemoveAll(s[|pat|..], pat)
    else [s[0]] + RemoveAll(s[1..], pat)
  }

  /** No occurrence of `pat` in `s` starts before position `n`. */
  predicate NoneBefore(s: string, pat: string, n: int) {
    forall i :: 0 <= i < n ==> !OccursAt(s, pat, i)
  }

  /**
    `s.split(pat)`: the pieces between the non-overlapping occurrences of
    `pat`, found from the left; no piece contains `pat`. SplitLeftmost says
    where the cuts are.
   */
  function Split(s: string, pat: string): (parts: seq<string>)
    requires |pat| > 0
    ensures |parts| > 0
    ensures |parts[0]| <= |s| && parts[0] == s[..|parts[0]|]
    ensures forall k :: 0 <= k < |parts| ==> !Contains(parts[k], pat)
    decreases |s|
  {
    if |s| < |pat| then
      assert !Contains(s, pat);
      [s]
    else if s[..|pat|] == pat then
      assert !Contains([], pat);
      [[]] + Split(s[|pat|..], pat)
    else
      var t := Split(s[1..], pat);
      var head := [s[0]] + t[0];
      ExtendedPieceFree(s, pat, t[0]);
      [head] + t[1..]
  }

  /**
    The first piece of the split runs up to the leftmost occurrence of `pat`,
    or is all of `s` when there is none.
   */
  lemma {:induction false} SplitLeftmost(s: string, pat: string)
    requires |pat| > 0
    ensures var parts := Split(s, pat);
            && NoneBefore(s, pat, |parts[0]|)
            && (|parts| == 1 ==> parts[0] == s)
            && (|parts| > 1 ==> OccursAt(s, pat, |parts[0]|))
    decreases |s|
  {
    if |s| < |pat| {
    } else if s[..|pat|] == pat {
      assert OccursAt(s, pat, 0);
    } else {
      var t := Split(s[1..], pat);
      SplitLeftmost(s[1..], pat);
      SplitStep(s, pat, t);
      assert Split(s, pat) == [[s[0]] + t[0]] + t[1..];
    }
  }

  /**
    After the first piece and the occurrence that ends it, the pieces are the
    split of the rest: with SplitLeftmost, every cut is at the leftmost
    occurrence that does not overlap an earlier one, as `str.split` scans.
   */
  lemma {:induction false} SplitRest(s: string, pat: string)
    requires |pat| > 0
    ensures var parts := Split(s, pat);
            |parts| > 1 ==>
              |parts[0]| + |pat| <= |s| && parts[1..] == Split(s[|parts[0]| + |pat|..], pat)
    decreases |s|
  {
    if |s| < |pat| {
      assert Split(s, pat) == [s];
    } else if s[..|pat|] == pat {
      var rest := Split(s[|pat|..], pat);
      assert Split(s, pat) == [[]] + rest;
      assert ([[]] + rest)[1..] == rest;
    } else {
      var u := s[1..];
      var t := Split(u, pat);
      SplitRest(u, pat);
      var head := [s[0]] + t[0];
      assert Split(s, pat) == [head] + t[1..];
      assert ([head] + t[1..])[1..] == t[1..];
      if |t| > 1 {
        assert u[|t[0]| + |pat|..] == s[|head| + |pat|..];
      }
    }
  }

  /** The leftmost-occurrence facts of Split carry over from `s[1..]` to `s`. */
  lemma SplitStep(s: string, pat: string, t: seq<string>)
    requires |pat| > 0 && |s| >= |pat|
    requires s[..|pat|] != pat
    requires |t| > 0 && |t[0]| <= |s| - 1 && t[0] == s[1..][..|t[0]|]
    requires NoneBefore(s[1..], pat, |t[0]|)
    requires |t| > 1 ==> OccursAt(s[1..], pat, |t[0]|)
    requires |t| == 1 ==> t[0] == s[1..]
    ensures NoneBefore(s, pat, 1 + |t[0]|)
    ensures |t| > 1 ==> OccursAt(s, pat, 1 + |t[0]|)
    ensures |t| == 1 ==> [s[0]] + t[0] == s
  {
    var u := s[1..];
    forall i | 0 <= i < 1 + |t[0]|
      ensures !OccursAt(s, pat, i)
    {
      if i > 0 && i + |pat| <= |s| {
        assert !OccursAt(u, pat, i - 1);
        assert forall j :: i <= j < i + |pat| ==> s[j] == u[j - 1];
        assert s[i..i + |pat|] == u[i - 1..i - 1 + |pat|];
      }
    }
    if |t| > 1 {
      var n := |t[0]|;
      assert forall j :: 1 + n <= j < 1 + n + |pat| ==> s[j] == u[j - 1];
      assert s[1 + n..1 + n + |pat|] == u[n..n + |pat|];
    }
  }

  /** Prefixing the first character of `s` to a pattern-free prefix of `s[1..]` stays pattern-free. */
  lemma ExtendedPieceFree(s: string, pat: string, piece: string)
    requires |pat| > 0 && |s| >= |pat|
    requires s[..|pat|] != pat
    requires |piece| <= |s| - 1 && piece == s[1..][..|piece|]
    requires !Contains(piece, pat)
    ensures !Contains([s[0]] + piece, pat)
  {
    var head := [s[0]] + piece;
    assert head == s[..|head|];
    forall i: int
      ensures !OccursAt(head, pat, i)
    {
      if 0 <= i && i + |pat| <= |head| {
        if i == 0 {
          assert head[..|pat|] == s[..|pat|];
        } else {
          assert head[i..i + |pat|] == piece[i - 1..i - 1 + |pat|];
          assert !OccursAt(piece, pat, i - 1);
        }
      }
    }
  }

  /** `pat.join(parts)`. */
  function Join(parts: seq<string>, pat: string): string
    requires |parts| > 0
  {
    if |parts| == 1 then parts[0] else parts[0] + pat + Join(parts[1..], pat)
  }

  /** `"".join(parts)`. */
  function Concat(parts: seq<string>): string {
    if |parts| == 0 then [] else parts[0] + Concat(parts[1..])
  }

  /** Splitting on `pat` and joining back with `pat` gives the original string. */
  lemma {:induction false} JoinSplit(s: string, pat: string)
    requires |pat| > 0
    ensures Join(Split(s, pat), pat) == s
    decreases |s|
  {
    if |s| < |pat| {
    } else if s[..|pat|] == pat {
      JoinSplit(s[|pat|..], pat);
      assert s == pat + s[|pat|..];
    } else {
      var t := Split(s[1..], pat);
      JoinSplit(s[1..], pat);
      assert s == [s[0]] + s[1..];
      if |t| == 1 {
      } else {
        assert ([s[0]] + t[0]) + pat + Join(t[1..], pat) == [s[0]] + (t[0] + pat + Join(t[1..], pat));
      }
    }
  }

  /**
    Deleting every occurrence of `pat` is concatenating the pieces between
    them: the deleted text is exactly the occurrences Split finds.
   */
  lemma {:induction false} RemoveAllIsConcatOfSplit(s: string, pat: string)
    requires |pat| > 0
    ensures RemoveAll(s, pat) == Concat(Split(s, pat))
    decreases |s|
  {
    if |s| < |pat| {
      assert Concat([s]) == s + Concat([]);
    } else if s[..|pat|] == pat {
      RemoveAllIsConcatOfSplit(s[|pat|..], pat);
    } else {
      var t := Split(s[1..], pat);
      RemoveAllIsConcatOfSplit(s[1..], pat);
      assert Concat(t) == t[0] + Concat(t[1..]);
    }
  }

  /** A string that does not contain `pat` is left unchanged. */
  lemma {:induction false} RemoveAllAbsent(s: string, pat: string)
    requires |pat| > 0
    requires !Contains(s, pat)
    ensures RemoveAll(s, pat) == s
    decreases |s|
  {
    if |s| >= |pat| {
      assert !OccursAt(s, pat, 0);
      assert !Contains(s[1..], pat) by {
        forall i: int
          ensures !OccursAt(s[1..], pat, i)
        {
          if 0 <= i && i + |pat| <= |s| - 1 {
            assert s[1..][i..i + |pat|] == s[i + 1..i + 1 + |pat|];
            assert !OccursAt(s, pat, i + 1);
          }
        }
      }
      RemoveAllAbsent(s[1..], pat);
    }
  }

  /** A string that does not start with the pattern's first character keeps its first character. */
  lemma {:induction false} RemoveAllKeepsFirst(s: string, pat: string)
    requires |pat| > 0 && |s| > 0
    requires s[0] != pat[0]
    ensures |RemoveAll(s, pat)| > 0 && RemoveAll(s, pat)[0] == s[0]
  {
    if |s| >= |pat| {
      assert s[..|pat|][0] == s[0];
    }
  }

  /**
    format_names on one row: surname and given name are trimmed, then
    " " + surname is deleted from the given name; the other columns are kept.
   */
  function FormatName(car: Car): (r: Car)
    ensures r == car.(surname := r.surname, name := r.name)
    ensures Trimmed(r.surname) && Padded(car.surname, r.surname)
    ensures |r.name| > 0 ==> r.name[0] != ' '
  {
    var surname := Strip(car.surname);
    var name := Strip(car.name);
    var pat := " " + surname;
    RemovedSurnameFacts(name, pat);
    car.(surname := surname, name := RemoveAll(name, pat))
  }

  /**
    The cleaned name is the trimmed name cut at every non-overlapping
    " " + surname and glued back without it; a trimmed name without that
    pattern comes out unchanged.
   */
  lemma FormatNameRemovesSurname(car: Car)
    ensures var pat := " " + Strip(car.surname);
            && FormatName(car).surname == Strip(car.surname)
            && FormatName(car).name == Concat(Split(Strip(car.name), pat))
            && (!Contains(Strip(car.name), pat) ==> FormatName(car).name == Strip(car.name))
  {
    RemovedSurnameFacts(Strip(car.name), " " + Strip(car.surname));
  }

  lemma RemovedSurnameFacts(name: string, pat: string)
    requires Trimmed(name)
    requires |pat| > 0 && pat[0] == ' '
    ensures RemoveAll(name, pat) == Concat(Split(name, pat))
    ensures |RemoveAll(name, pat)| > 0 ==> RemoveAll(name, pat)[0] != ' '
    ensures !Contains(name, pat) ==> RemoveAll(name, pat) == name
  {
    RemoveAllIsConcatOfSplit(name, pat);
    if |name| > 0 {
      RemoveAllKeepsFirst(name, pat);
    }
    if !Contains(name, pat) {
      RemoveAllAbsent(name, pat);
    }
  }

  /** format_names: every row cleaned, row count and order kept. */
  function FormatNames(rows: seq<Car>): (r: seq<Car>)
    ensures |r| == |rows|
    ensures forall k :: 0 <= k < |rows| ==> r[k] == FormatName(rows[k])
  {
    if |rows| == 0 then [] else [FormatName(rows[0])] + FormatNames(rows[1..])
  }

  /** Trimming a string that has no surrounding spaces changes nothing. */
  lemma StripTrimmed(s: string)
    requires Trimmed(s)
    ensures Strip(s) == s
  {
    assert RStrip(s) == s;
    assert LStrip(s) == s;
  }

  lemma RemoveAllNoMatchAtStart(s: string, pat: string)
    requires |pat| > 0 && |s| > 0
    requires |s| >= |pat| ==> s[..|pat|] != pat
    ensures RemoveAll(s, pat) == [s[0]] + RemoveAll(s[1..], pat)
  {
  }

  /** A prefix without the pattern's first character survives the deletion unchanged. */
  lemma {:induction false} RemoveAllKeepsPrefix(a: string, rest: string, pat: string)
    requires |pat| > 0
    requires forall k :: 0 <= k < |a| ==> a[k] != pat[0]
    ensures RemoveAll(a + rest, pat) == a + RemoveAll(rest, pat)
  {
    if |a| > 0 {
      var s := a + rest;
      if |s| >= |pat| {
        assert s[..|pat|][0] == a[0];
      }
      RemoveAllNoMatchAtStart(s, pat);
      assert s[1..] == a[1..] + rest;
      RemoveAllKeepsPrefix(a[1..], rest, pat);
      assert [a[0]] + a[1..] == a;
    } else {
      assert a + rest == rest;
    }
  }

  lemma RemoveAllAtStart(rest: string, pat: string)
    requires |pat| > 0
    ensures RemoveAll(pat + rest, pat) == RemoveAll(rest, pat)
  {
    var s := pat + rest;
    assert s[..|pat|] == pat;
    assert s[|pat|..] == rest;
  }

  /** A row whose names carry no surrounding spaces only has `" " + surname` deleted from its name. */
  lemma FormatNameOfTrimmed(car: Car)
    requires Trimmed(car.surname) && Trimmed(car.name)
    ensures FormatName(car).name == RemoveAll(car.name, " " + car.surname)
  {
    StripTrimmed(car.surname);
    StripTrimmed(car.name);
  }
}
