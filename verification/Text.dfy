/** Strings as the template engine sees them: literal find-and-replace, and what it
    leaves alone.  `a <= b` on strings is "a is a prefix of b". */
module Text {

  /** Left-to-right, non-overlapping replacement of every `pat` (never empty here) by `rep`. */
  function ReplaceAll(s: string, pat: string, rep: string): string
    requires pat != ""
    decreases |s|
  {
    if s == "" then ""
    else if pat <= s then rep + ReplaceAll(s[|pat|..], pat, rep)
    else [s[0]] + ReplaceAll(s[1..], pat, rep)
  }

  /** A match in front is replaced, and the rest on its own. */
  lemma {:induction false} FrontStep(m: string, r: string, v: string)
    requires m != ""
    ensures ReplaceAll(m + r, m, v) == v + ReplaceAll(r, m, v)
  {
    assert m <= m + r && (m + r)[|m|..] == r;
  }

  /** Without a match in front the first character stays. */
  lemma {:induction false} CharStep(c: char, r: string, m: string, v: string)
    requires m != "" && !(m <= [c] + r)
    ensures ReplaceAll([c] + r, m, v) == [c] + ReplaceAll(r, m, v)
  {
    assert ([c] + r)[1..] == r;
  }

  lemma NothingToReplace(m: string, v: string)
    requires m != ""
    ensures ReplaceAll("", m, v) == ""
  {
  }

  lemma Associates(a: string, b: string, c: string)
    ensures a + (b + c) == a + b + c
  {
  }

  /** `part` occurs somewhere in `s`. */
  ghost predicate Occurs(part: string, s: string) {
    exists i :: 0 <= i <= |s| && part <= s[i..]
  }

  /** One string is a prefix of the other. */
  predicate Comparable(a: string, b: string) {
    a <= b || b <= a
  }

  /** Two prefixes of one string are comparable. */
  lemma PrefixesCompare(a: string, b: string, s: string)
    requires a <= s && b <= s
    ensures Comparable(a, b)
    ensures |a| <= |b| ==> a <= b
  {
    assert a == s[..|a|] && b == s[..|b|];
    if |a| <= |b| {
      assert a == b[..|a|];
    } else {
      assert b == a[..|b|];
    }
  }

  /** A string that is not comparable with `m` stays so however it is extended. */
  lemma IncomparableExtends(a: string, b: string, m: string)
    requires !Comparable(a, m)
    ensures !Comparable(a + b, m)
  {
    assert a <= a + b;
    assert a == (a + b)[..|a|];
    if m <= a + b {
      PrefixesCompare(a, m, a + b);
    }
  }

  /** Replacement of a string that does not occur changes nothing. */
  lemma {:induction false} ReplaceAbsent(s: string, pat: string, rep: string)
    requires pat != "" && !Occurs(pat, s)
    ensures ReplaceAll(s, pat, rep) == s
    decreases |s|
  {
    if s != "" {
      assert s[0..] == s;
      assert !(pat <= s);
      OccursTail(pat, s, 1);
      ReplaceAbsent(s[1..], pat, rep);
    }
  }

  lemma OccursTail(part: string, s: string, k: nat)
    requires k <= |s|
    ensures Occurs(part, s[k..]) ==> Occurs(part, s)
  {
    if Occurs(part, s[k..]) {
      var i :| 0 <= i <= |s[k..]| && part <= s[k..][i..];
      assert s[k..][i..] == s[k + i..];
    }
  }

  lemma OccursInTail(part: string, s: string)
    requires part != "" && s != "" && !(part <= s)
    ensures Occurs(part, s) ==> Occurs(part, s[1..])
  {
    if Occurs(part, s) {
      var i :| 0 <= i <= |s| && part <= s[i..];
      assert s[0..] == s;
      assert s[1..][i - 1..] == s[i..];
    }
  }

  /** Replacement of a string that does occur, by a different one, does change the text. */
  lemma {:induction false} ReplaceChanges(s: string, pat: string, rep: string)
    requires pat != "" && rep != pat && Occurs(pat, s)
    ensures ReplaceAll(s, pat, rep) != s
  {
    if |rep| == |pat| {
      ReplaceSameLengthChanges(s, pat, rep);
    } else {
      ReplaceResizes(s, pat, rep);
    }
  }

  lemma {:induction false} ReplaceSameLengthChanges(s: string, pat: string, rep: string)
    requires pat != "" && rep != pat && |rep| == |pat| && Occurs(pat, s)
    ensures ReplaceAll(s, pat, rep) != s
    decreases |s|
  {
    if pat <= s {
      assert ReplaceAll(s, pat, rep)[..|pat|] == rep;
      assert s[..|pat|] == pat;
    } else {
      OccursInTail(pat, s);
      ReplaceSameLengthChanges(s[1..], pat, rep);
      assert ReplaceAll(s, pat, rep)[1..] == ReplaceAll(s[1..], pat, rep);
    }
  }

  lemma {:induction false} ReplaceResizes(s: string, pat: string, rep: string)
    requires pat != "" && |rep| != |pat|
    ensures |rep| > |pat| ==> |ReplaceAll(s, pat, rep)| >= |s|
    ensures |rep| < |pat| ==> |ReplaceAll(s, pat, rep)| <= |s|
    ensures Occurs(pat, s) ==> |ReplaceAll(s, pat, rep)| != |s|
    decreases |s|
  {
    if s == "" {
    } else if pat <= s {
      ReplaceResizes(s[|pat|..], pat, rep);
    } else {
      ReplaceResizes(s[1..], pat, rep);
      OccursInTail(pat, s);
    }
  }

  lemma {:induction false} ReplaceBySame(s: string, m: string)
    requires m != ""
    ensures ReplaceAll(s, m, m) == s
    decreases |s|
  {
    if s == "" {
    } else if m <= s {
      ReplaceBySame(s[|m|..], m);
      assert s == m + s[|m|..];
    } else {
      ReplaceBySame(s[1..], m);
      assert s == [s[0]] + s[1..];
    }
  }
}
