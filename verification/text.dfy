/**
  The Python `str` operations the handlers call, over `string` (a sequence
  of characters): `s.split(c)[0]`, `s.split(c, 1)[1]` and
  `s.replace(pat, rep)`; the last `/`-separated piece, which is what the
  single-segment `<filename>` route receives; and substring and suffix
  tests, which are vocabulary for stating the lemmas.
*/
module Text {
  import opened Wrappers

  /** Python's `s.split(c)[0]`: everything before the first `c`, or all of `s`. */
  function BeforeFirst(s: string, c: char): (r: string)
    ensures c !in r
    ensures r <= s
    ensures |r| < |s| ==> s[|r|] == c
  {
    if s == [] then []
    else if s[0] == c then []
    else [s[0]] + BeforeFirst(s[1..], c)
  }

  /**
    Python's `s.split(c, 1)[1]`: everything after the first `c`. `None`
    stands for the IndexError Python raises when `c` does not occur.
  */
  function AfterFirst(s: string, c: char): (r: Option<string>)
    ensures r.None? <==> c !in s
    ensures r.Some? ==> s == BeforeFirst(s, c) + [c] + r.value
  {
    if s == [] then None
    else if s[0] == c then Some(s[1..])
    else AfterFirst(s[1..], c)
  }

  /** Everything after the last `c`. */
  function AfterLast(s: string, c: char): (r: string)
    ensures c !in r
    ensures |r| <= |s| && r == s[|s| - |r|..]
    ensures |r| < |s| ==> s[|s| - |r| - 1] == c
  {
    if s == [] then []
    else if s[|s| - 1] == c then []
    else AfterLast(s[..|s| - 1], c) + [s[|s| - 1]]
  }

  /** Whether the non-empty `pat` occurs in `s`. */
  predicate HasSubstring(s: string, pat: string)
    requires |pat| > 0
  {
    |s| >= |pat| && (s[..|pat|] == pat || HasSubstring(s[1..], pat))
  }

  /** Whether `s` ends with `suffix`. */
  predicate EndsWith(s: string, suffix: string) {
    |suffix| <= |s| && s[|s| - |suffix|..] == suffix
  }

  /**
    Python's `s.replace(pat, rep)` for a non-empty `pat`: one left-to-right
    pass that replaces each non-overlapping occurrence; text produced by a
    replacement is never searched again.
  */
  function Replace(s: string, pat: string, rep: string): (r: string)
    requires |pat| > 0
    ensures !HasSubstring(s, pat) ==> r == s
    ensures rep == [] ==> |r| <= |s|
    ensures rep == [] && HasSubstring(s, pat) ==> |r| < |s|
    decreases |s|
  {
    if |s| < |pat| then s
    else if s[..|pat|] == pat then rep + Replace(s[|pat|..], pat, rep)
    else [s[0]] + Replace(s[1..], pat, rep)
  }

  /** One step of `Replace` where an occurrence starts. */
  lemma ReplaceAtMatch(s: string, pat: string, rep: string)
    requires |pat| > 0 && |s| >= |pat| && s[..|pat|] == pat
    ensures Replace(s, pat, rep) == rep + Replace(s[|pat|..], pat, rep)
  {
  }

  /** One step of `Replace` where position `k` shows that no occurrence starts. */
  lemma ReplaceAtMiss(s: string, pat: string, rep: string, k: nat)
    requires |pat| > 0 && |s| >= |pat| && k < |pat| && s[k] != pat[k]
    ensures Replace(s, pat, rep) == [s[0]] + Replace(s[1..], pat, rep)
  {
    assert s[..|pat|][k] != pat[k];
  }

  /** Splitting at a `c` that is the first one gives back both sides. */
  lemma {:induction false} SplitAtFirst(a: string, c: char, b: string)
    requires c !in a
    ensures BeforeFirst(a + [c] + b, c) == a
    ensures AfterFirst(a + [c] + b, c) == Some(b)
  {
    if a != [] {
      assert (a + [c] + b)[1..] == a[1..] + [c] + b;
      SplitAtFirst(a[1..], c, b);
    } else {
      assert a + [c] + b == [c] + b;
    }
  }

  /** Splitting at a `c` that is the last one gives back what follows it. */
  lemma {:induction false} SplitAtLast(a: string, c: char, b: string)
    requires c !in b
    ensures AfterLast(a + [c] + b, c) == b
  {
    var s := a + [c] + b;
    if b == [] {
      assert s[|s| - 1] == c;
    } else {
      var b' := b[..|b| - 1];
      assert s[..|s| - 1] == a + [c] + b';
      SplitAtLast(a, c, b');
      assert b' + [b[|b| - 1]] == b;
    }
  }

  /** A suffix is in particular a substring. */
  lemma {:induction false} EndsWithHasSubstring(s: string, pat: string)
    requires |pat| > 0 && EndsWith(s, pat)
    ensures HasSubstring(s, pat)
  {
    if |s| > |pat| {
      assert s[1..][|s| - 1 - |pat|..] == s[|s| - |pat|..];
      EndsWithHasSubstring(s[1..], pat);
    } else {
      assert s[..|pat|] == s[|s| - |pat|..];
    }
  }

  /**
    A prefix that cannot start an occurrence of `pat` passes through
    `Replace` unchanged.
  */
  lemma {:induction false} ReplacePassesOver(a: string, b: string, pat: string, rep: string)
    requires |pat| > 0 && pat[0] !in a
    ensures Replace(a + b, pat, rep) == a + Replace(b, pat, rep)
  {
    if a != [] {
      var s := a + b;
      if |s| < |pat| {
        assert !HasSubstring(b, pat);
      } else {
        assert s[..|pat|][0] == a[0] != pat[0];
        assert s[1..] == a[1..] + b;
        ReplacePassesOver(a[1..], b, pat, rep);
        assert [a[0]] + a[1..] == a;
      }
    } else {
      assert a + b == b;
    }
  }
}
