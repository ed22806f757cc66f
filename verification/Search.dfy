/** Where patterns are found: in parts, in agreeing texts, and right behind a text without them. */
module Search {
  import opened Text

  lemma FindIs(s: string, pat: string, p: int)
    requires p == -1 || MatchAt(s, pat, p)
    requires forall k | 0 <= k && (p < 0 || k < p) :: !MatchAt(s, pat, k)
    ensures Find(s, pat) == p
  {
    if p >= 0 && Find(s, pat) >= 0 { assert MatchAt(s, pat, Find(s, pat)); }
  }

  /** The first `n` characters of two texts are the same. */
  predicate Agree(s: string, t: string, n: int) {
    n <= |s| && n <= |t| && forall i | 0 <= i < n :: s[i] == t[i]
  }

  /** Where two texts agree on a stretch, they agree on the patterns that fit in it. */
  lemma SameMatch(s: string, t: string, k: nat, pat: string, n: nat)
    requires Agree(s, t, n) && k + |pat| <= n
    ensures MatchAt(s, pat, k) <==> MatchAt(t, pat, k)
  {}

  lemma FindAgree(s: string, t: string, pat: string, n: nat)
    requires Agree(s, t, n) && Find(s, pat) >= 0 && Find(s, pat) + |pat| <= n
    ensures Find(t, pat) == Find(s, pat)
  {
    var p := Find(s, pat);
    forall k: nat | k <= p ensures MatchAt(s, pat, k) <==> MatchAt(t, pat, k) {
      SameMatch(s, t, k, pat, n);
    }
    FindIs(t, pat, p);
  }

  lemma MatchInTail(s: string, pat: string, e: nat, k: nat)
    requires e <= |s|
    ensures MatchAt(s[e..], pat, k) <==> MatchAt(s, pat, e + k)
  {
    if e + k + |pat| <= |s| { assert s[e..][k..k + |pat|] == s[e + k..e + k + |pat|]; }
    MatchIsSlice(s[e..], pat, k);
    MatchIsSlice(s, pat, e + k);
  }

  lemma MatchIsSlice(s: string, pat: string, k: nat)
    ensures MatchAt(s, pat, k) <==> k + |pat| <= |s| && s[k..k + |pat|] == pat
  {}

  lemma FindInTail(s: string, pat: string, e: nat)
    requires e <= |s| && (Find(s, pat) < 0 || e <= Find(s, pat))
    ensures Find(s[e..], pat) == if Find(s, pat) < 0 then -1 else Find(s, pat) - e
  {
    var p := Find(s, pat);
    forall k: nat ensures MatchAt(s[e..], pat, k) <==> MatchAt(s, pat, e + k) {
      MatchInTail(s, pat, e, k);
    }
    FindIs(s[e..], pat, if p < 0 then -1 else p - e);
  }

  lemma FindFromIs(s: string, pat: string, e: nat)
    requires e <= |s|
    ensures FindFrom(s, pat, e) == if Find(s[e..], pat) < 0 then -1 else e + Find(s[e..], pat)
  {
    forall k: nat ensures MatchAt(s[e..], pat, k) <==> MatchAt(s, pat, e + k) {
      MatchInTail(s, pat, e, k);
    }
    var p, q := Find(s[e..], pat), FindFrom(s, pat, e);
    if p >= 0 { assert MatchAt(s, pat, e + p); }
    if q >= 0 { assert MatchAt(s[e..], pat, q - e); }
  }

  /** A text without one of the pattern's characters does not hold the pattern. */
  lemma Lacks(s: string, pat: string, j: nat)
    requires j < |pat| && pat[j] !in s
    ensures Find(s, pat) < 0
  {
    forall k: nat ensures !MatchAt(s, pat, k) {
      if k + j < |s| { assert s[k + j] in s; NotAcross(s, pat, k, k + j); }
    }
    FindIs(s, pat, -1);
  }

  /** If no match starts in `a`, the first match of `a + b` is the first of `b`. */
  lemma FindSkip(a: string, b: string, pat: string)
    requires pat != "" && forall k | 0 <= k < |a| :: !MatchAt(a + b, pat, k)
    ensures Find(a + b, pat) == if Find(b, pat) < 0 then -1 else |a| + Find(b, pat)
  {
    FindInTail(a + b, pat, |a|);
    assert (a + b)[|a|..] == b;
  }

  /** A match does not lie across a character that is not in the pattern. */
  lemma NotAcross(s: string, pat: string, k: nat, i: int)
    ensures k <= i < |s| && i < k + |pat| && pat[i - k] != s[i] ==> !MatchAt(s, pat, k)
  {
    if k <= i < |s| { assert s[k + (i - k)] == s[i]; }
  }

  lemma CutAt(a: string, b: string)
    ensures (a + b)[..|a|] == a && (a + b)[|a|..] == b
  {}

  lemma MatchAcross(a: string, b: string, pat: string, k: nat)
    ensures MatchAt(a + b, pat, |a| + k) <==> MatchAt(b, pat, k)
  {
    MatchInTail(a + b, pat, |a|, k);
    assert (a + b)[|a|..] == b;
  }

  /** A pattern whose first character stands in it once is found right behind a text that lacks it. */
  lemma FindBehind(a: string, pat: string, t: string)
    requires pat != "" && Find(a, pat) < 0 && forall j | 0 < j < |pat| :: pat[j] != pat[0]
    ensures Find(a + (pat + t), pat) == |a|
  {
    var s := a + (pat + t);
    forall k | 0 <= k < |a| ensures !MatchAt(s, pat, k) {
      if k + |pat| <= |a| {
        SameMatch(s, a, k, pat, |a|);
      } else {
        assert s[|a|] == pat[0];
        NotAcross(s, pat, k, |a|);
      }
    }
    FindIs(s, pat, |a|);
  }

  /** So is one whose last character stands in it once. */
  lemma FindEndBehind(a: string, pat: string, t: string)
    requires pat != "" && Find(a, pat) < 0 && forall j | 0 <= j < |pat| - 1 :: pat[j] != pat[|pat| - 1]
    ensures Find(a + (pat + t), pat) == |a|
  {
    var s, n := a + (pat + t), |pat|;
    forall k | 0 <= k < |a| ensures !MatchAt(s, pat, k) {
      if k + n <= |a| {
        SameMatch(s, a, k, pat, |a|);
      } else {
        assert s[k + n - 1] == pat[k + n - 1 - |a|];
        NotAcross(s, pat, k, k + n - 1);
      }
    }
    FindIs(s, pat, |a|);
  }

  lemma FindInPrefix(a: string, b: string, pat: string)
    requires Find(a + b, pat) < 0
    ensures Find(a, pat) < 0
  {
    if Find(a, pat) >= 0 {
      SameMatch(a + b, a, Find(a, pat), pat, |a|);
    }
  }

  lemma FindInSuffix(a: string, b: string, pat: string)
    requires Find(a + b, pat) < 0
    ensures Find(b, pat) < 0
  {
    if Find(b, pat) >= 0 {
      MatchAcross(a, b, pat, Find(b, pat));
    }
  }

  /** No match lies across the joint of two texts when the second starts with a character not in the pattern. */
  lemma JointLacks(u: string, w: string, pat: string)
    requires pat != "" && Find(u, pat) < 0 && Find(w, pat) < 0 && w != "" && w[0] !in pat
    ensures Find(u + w, pat) < 0
  {
    forall k: nat ensures !MatchAt(u + w, pat, k) {
      if k + |pat| <= |u| {
        SameMatch(u + w, u, k, pat, |u|);
      } else if k <= |u| {
        assert (u + w)[|u|] == w[0];
        NotAcross(u + w, pat, k, |u|);
      } else {
        MatchAcross(u, w, pat, k - |u|);
      }
    }
    FindIs(u + w, pat, -1);
  }
}
