/** The two string searches of the page: `s.includes(q)` and
    `s.replace(pattern, replacement)` with a string pattern, which replaces
    the first occurrence only. */
module JsString {

  /** `q` occurs in `s` starting at position `i`. */
  predicate OccursAt(s: string, q: string, i: int)
  {
    0 <= i <= |s| - |q| && s[i..i + |q|] == q
  }

  /** `s.includes(q)`: `q` occurs in `s` at some position; the empty `q`
      occurs everywhere. */
  predicate Contains(s: string, q: string)
    ensures q == [] ==> Contains(s, q)
    ensures |q| > |s| ==> !Contains(s, q)
  {
    assert q == [] ==> OccursAt(s, q, 0);
    exists i :: 0 <= i <= |s| && OccursAt(s, q, i)
  }

  /** `i` is the first position at which `q` occurs in `s`. */
  predicate FirstAt(s: string, q: string, i: int)
  {
    OccursAt(s, q, i) && forall j :: 0 <= j < i ==> !OccursAt(s, q, j)
  }

  lemma OccursShift(s: string, q: string, j: int)
    requires s != [] && j >= 0
    ensures OccursAt(s[1..], q, j) <==> OccursAt(s, q, j + 1)
  {
    if 0 <= j <= |s| - 1 - |q| {
      assert s[1..][j..j + |q|] == s[j + 1..j + 1 + |q|];
    }
  }

  /** `s.replace(pat, rep)`: the first occurrence of `pat` is replaced by
      `rep`. */
  function ReplaceFirst(s: string, pat: string, rep: string): string
    requires pat != []
    decreases |s|
  {
    if |s| < |pat| then s
    else if s[..|pat|] == pat then rep + s[|pat|..]
    else [s[0]] + ReplaceFirst(s[1..], pat, rep)
  }

  /** A text without `pat` is returned as it is. */
  lemma {:induction false} ReplaceAbsent(s: string, pat: string, rep: string)
    requires pat != [] && !Contains(s, pat)
    ensures ReplaceFirst(s, pat, rep) == s
    decreases |s|
  {
    if |s| >= |pat| {
      assert OccursAt(s, pat, 0) ==> Contains(s, pat);
      forall j | 0 <= j <= |s[1..]| ensures !OccursAt(s[1..], pat, j) {
        OccursShift(s, pat, j);
        assert OccursAt(s, pat, j + 1) ==> Contains(s, pat);
      }
      ReplaceAbsent(s[1..], pat, rep);
    }
  }

  /** A first occurrence past the start is, in the tail, one place
      earlier. */
  lemma FirstShift(s: string, pat: string, i: int)
    requires i > 0 && FirstAt(s, pat, i)
    ensures FirstAt(s[1..], pat, i - 1)
  {
    OccursShift(s, pat, i - 1);
    forall j | 0 <= j < i - 1 ensures !OccursAt(s[1..], pat, j) {
      OccursShift(s, pat, j);
    }
  }

  /** Exactly the first occurrence of `pat` is replaced and the rest is
      kept. */
  lemma {:induction false} ReplaceAt(s: string, pat: string, rep: string, i: int)
    requires pat != [] && FirstAt(s, pat, i)
    ensures ReplaceFirst(s, pat, rep) == s[..i] + rep + s[i + |pat|..]
    decreases |s|
  {
    if i > 0 {
      var tail := s[1..];
      FirstShift(s, pat, i);
      assert ReplaceFirst(s, pat, rep) == [s[0]] + ReplaceFirst(tail, pat, rep) by {
        assert !OccursAt(s, pat, 0);
      }
      ReplaceAt(tail, pat, rep, i - 1);
      assert tail[..i - 1] == s[1..i] && tail[i - 1 + |pat|..] == s[i + |pat|..];
      assert [s[0]] + s[1..i] == s[..i];
    }
  }

  /** `ReplaceFirst` is the first-occurrence replacement: a text without
      `pat` is returned as it is; otherwise exactly the first occurrence of
      `pat` is replaced and the rest is kept. */
  lemma ReplaceFirstMeans(s: string, pat: string, rep: string)
    requires pat != []
    ensures !Contains(s, pat) ==> ReplaceFirst(s, pat, rep) == s
    ensures forall i :: FirstAt(s, pat, i) ==> ReplaceFirst(s, pat, rep) == s[..i] + rep + s[i + |pat|..]
  {
    if !Contains(s, pat) {
      ReplaceAbsent(s, pat, rep);
    }
    forall i | FirstAt(s, pat, i) ensures ReplaceFirst(s, pat, rep) == s[..i] + rep + s[i + |pat|..] {
      ReplaceAt(s, pat, rep, i);
    }
  }
}
