/** The string operations of Python that several modules share. */
module Text {

  /** `str.isspace` on one character, which is also what `\s`, `strip` and `split` go by. */
  predicate IsSpace(c: char) {
    || '\t' <= c <= '\r' || '\U{1c}' <= c <= ' '
    || c in ['\U{85}', '\U{a0}', '\U{1680}', '\U{2028}', '\U{2029}', '\U{202f}', '\U{205f}', '\U{3000}']
    || '\U{2000}' <= c <= '\U{200a}'
  }

  /** In code points: the controls of ASCII's white space and its four separators, the blank, and the spaces of
      Unicode, among them U+0085 and the two line separators. */
  lemma SpaceCodes(c: char)
    ensures IsSpace(c) <==>
            var n := c as int;
            || 9 <= n <= 13 || 28 <= n <= 32 || 0x2000 <= n <= 0x200a
            || n in {0x85, 0xa0, 0x1680, 0x2028, 0x2029, 0x202f, 0x205f, 0x3000}
  {}

  predicate All(p: char -> bool, s: string) { forall c | c in s :: p(c) }

  /** Length of the run of characters satisfying `p` that starts `s`. */
  function Run(p: char -> bool, s: string): (n: nat)
    ensures n <= |s| && (n < |s| ==> !p(s[n]))
  {
    if s != "" && p(s[0]) then 1 + Run(p, s[1..]) else 0
  }

  function TrimLeft(p: char -> bool, s: string): string { s[Run(p, s)..] }

  function TrimRight(p: char -> bool, s: string): (r: string)
    ensures |r| <= |s|
  {
    if s != "" && p(s[|s| - 1]) then TrimRight(p, s[..|s| - 1]) else s
  }

  function Trim(p: char -> bool, s: string): string { TrimRight(p, TrimLeft(p, s)) }

  function Strip(s: string): string { Trim(IsSpace, s) }

  lemma {:induction false} InRun(p: char -> bool, s: string, k: nat)
    requires k < Run(p, s)
    ensures p(s[k])
    decreases |s|
  {
    if k > 0 { InRun(p, s[1..], k - 1); }
  }

  /** A run ends at the latest where a character outside `p` stands. */
  lemma {:induction false} RunAcross(p: char -> bool, u: string, tail: string)
    requires tail == "" || !p(tail[0])
    ensures Run(p, u + tail) == Run(p, u)
    decreases |u|
  {
    if u == "" {
      assert u + tail == tail;
    } else {
      assert (u + tail)[1..] == u[1..] + tail;
      RunAcross(p, u[1..], tail);
    }
  }

  lemma {:induction false} RunOfAll(p: char -> bool, a: string)
    requires All(p, a)
    ensures Run(p, a) == |a|
    decreases |a|
  {
    if a != "" {
      assert a[0] in a && forall c | c in a[1..] :: c in a;
      RunOfAll(p, a[1..]);
    }
  }

  lemma RunIs(p: char -> bool, a: string, s: string)
    requires All(p, a) && (s == "" || !p(s[0]))
    ensures Run(p, a + s) == |a| && TrimLeft(p, a + s) == s
  {
    RunAcross(p, a, s);
    RunOfAll(p, a);
  }

  /** A run that ends inside `t` is not lengthened; one that reaches the end goes on. */
  lemma {:induction false} RunBefore(p: char -> bool, t: string, u: string)
    ensures Run(p, t + u) == Run(p, t) + if Run(p, t) < |t| then 0 else Run(p, u)
    ensures Run(p, t) == |t| ==> TrimLeft(p, t + u) == TrimLeft(p, u)
    decreases |t|
  {
    if t == "" {
      assert t + u == u;
    } else {
      assert (t + u)[1..] == t[1..] + u;
      RunBefore(p, t[1..], u);
    }
  }

  lemma TrimLeftAcross(p: char -> bool, a: string, u: string)
    requires All(p, a)
    ensures TrimLeft(p, a + u) == TrimLeft(p, u)
  {
    RunOfAll(p, a);
    RunBefore(p, a, u);
  }

  lemma {:induction false} TrimRightAcross(p: char -> bool, s: string, b: string)
    requires All(p, b)
    ensures TrimRight(p, s + b) == TrimRight(p, s)
    decreases |b|
  {
    if b == "" {
      assert s + b == s;
    } else {
      var c := b[..|b| - 1];
      assert (s + b)[..|s + b| - 1] == s + c && b[|b| - 1] in b && forall x | x in c :: x in b;
      TrimRightAcross(p, s, c);
    }
  }

  /** What is left has no end to trim, is a prefix, and is the same after more is trimmed off. */
  lemma {:induction false} TrimRightEnds(p: char -> bool, s: string)
    ensures TrimRight(p, s) <= s
    ensures TrimRight(p, s) != "" ==> !p(TrimRight(p, s)[|TrimRight(p, s)| - 1])
    ensures TrimRight(p, TrimRight(p, s)) == TrimRight(p, s)
    decreases |s|
  {
    if s != "" && p(s[|s| - 1]) { TrimRightEnds(p, s[..|s| - 1]); }
  }

  lemma {:induction false} TrimRightIs(p: char -> bool, s: string, b: string)
    requires All(p, b) && (s == "" || !p(s[|s| - 1]))
    ensures TrimRight(p, s + b) == s
    decreases |b|
  {
    if b == "" {
      assert s + b == s;
    } else {
      var c := b[..|b| - 1];
      assert (s + b)[..|s + b| - 1] == s + c && b[|b| - 1] in b && forall x | x in c :: x in b;
      TrimRightIs(p, s, c);
    }
  }

  lemma {:induction false} InTrimmedTail(p: char -> bool, s: string, i: nat)
    requires |TrimRight(p, s)| <= i < |s|
    ensures p(s[i])
    decreases |s|
  {
    if i < |s| - 1 { InTrimmedTail(p, s[..|s| - 1], i); }
  }

  lemma TrimRightSplit(p: char -> bool, s: string)
    ensures s == TrimRight(p, s) + s[|TrimRight(p, s)|..] && All(p, s[|TrimRight(p, s)|..])
  {
    TrimRightEnds(p, s);
    var n := |TrimRight(p, s)|;
    forall i | 0 <= i < |s[n..]| ensures p(s[n..][i]) {
      InTrimmedTail(p, s, n + i);
    }
    assert All(p, s[n..]);
  }

  /** Nothing is trimmed off text whose two ends are outside `p`. */
  lemma TrimNothing(p: char -> bool, s: string)
    requires s != "" && !p(s[0]) && !p(s[|s| - 1])
    ensures Trim(p, s) == s
  {
    assert Run(p, s) == 0 && s[0..] == s;
  }

  lemma TrimIdempotent(p: char -> bool, s: string)
    ensures Trim(p, Trim(p, s)) == Trim(p, s)
  {
    var l, r := TrimLeft(p, s), Trim(p, s);
    TrimRightEnds(p, l);
    if r != "" {
      assert r[0] == l[0] && Run(p, r) == 0 && r[0..] == r;
    }
  }

  /** `pat` stands at `k` in `s`. */
  predicate MatchAt(s: string, pat: string, k: int) {
    0 <= k && k + |pat| <= |s| && forall j | 0 <= j < |pat| :: s[k + j] == pat[j]
  }

  /** `s.find(pat)`: the first index where `pat` stands, or -1. */
  function Find(s: string, pat: string): (i: int)
    ensures i == -1 || MatchAt(s, pat, i)
    ensures forall k | 0 <= k && (i < 0 || k < i) :: !MatchAt(s, pat, k)
  {
    FindFrom(s, pat, 0)
  }

  /** `s.find(pat, start)`. */
  function FindFrom(s: string, pat: string, start: nat): (i: int)
    ensures i == -1 || (start <= i && MatchAt(s, pat, i))
    ensures forall k | start <= k && (i < 0 || k < i) :: !MatchAt(s, pat, k)
    decreases |s| - start
  {
    if MatchAt(s, pat, start) then start
    else if start >= |s| then -1
    else FindFrom(s, pat, start + 1)
  }

  lemma Assoc(a: string, b: string, c: string)
    ensures (a + b) + c == a + (b + c)
  {}
}
