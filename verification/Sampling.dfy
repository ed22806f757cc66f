/** One sample for every place where a pattern matches, for any pattern. */
module Sampling {

  /** The samples of the places of `s` where `starts` holds, in order. */
  function SamplesBy<T>(starts: string -> bool, sample: string -> T, s: string): seq<T>
    decreases |s|
  {
    if s == "" then [] else (if starts(s) then [sample(s)] else []) + SamplesBy(starts, sample, s[1..])
  }

  function CountBy(starts: string -> bool, s: string): nat
    decreases |s|
  {
    if s == "" then 0 else (if starts(s) then 1 else 0) + CountBy(starts, s[1..])
  }

  // ---- a search that resumes after each match ----

  /** `out` holds the samples of the places before `i`. */
  predicate SoFar<T(==)>(starts: string -> bool, sample: string -> T, text: string, i: nat, out: seq<T>) {
    i <= |text| && SamplesBy(starts, sample, text) == out + SamplesBy(starts, sample, text[i..])
  }

  /** No match starts strictly between two places. */
  predicate NoneBetween(starts: string -> bool, text: string, i: nat, m: nat)
    requires m <= |text|
  {
    forall k | i < k < m :: !starts(text[k..])
  }

  lemma DropOne(text: string, i: nat)
    requires i < |text|
    ensures text[i..][1..] == text[i + 1..]
  {}

  lemma {:induction false} SkipBy<T>(starts: string -> bool, sample: string -> T, text: string, i: nat, m: nat)
    requires i < m <= |text| && NoneBetween(starts, text, i, m)
    ensures SamplesBy(starts, sample, text[i + 1..]) == SamplesBy(starts, sample, text[m..])
    decreases m
  {
    if i + 1 < m {
      SkipBy(starts, sample, text, i, m - 1);
      DropOne(text, m - 1);
    }
  }

  lemma SoFarStarts<T>(starts: string -> bool, sample: string -> T, text: string)
    ensures SoFar(starts, sample, text, 0, [])
  {
    assert text[0..] == text;
  }

  lemma SoFarEnds<T>(starts: string -> bool, sample: string -> T, text: string, out: seq<T>)
    requires SoFar(starts, sample, text, |text|, out)
    ensures out == SamplesBy(starts, sample, text)
  {
    assert text[|text|..] == "";
  }

  /** A match is sampled, and nothing is lost by resuming where it ends. */
  lemma MatchSampled<T>(starts: string -> bool, sample: string -> T, text: string, i: nat, m: nat, out: seq<T>)
    requires SoFar(starts, sample, text, i, out)
    requires i < m <= |text| && starts(text[i..]) && NoneBetween(starts, text, i, m)
    ensures SoFar(starts, sample, text, m, out + [sample(text[i..])])
  {
    DropOne(text, i);
    SkipBy(starts, sample, text, i, m);
    Snoc(out, sample(text[i..]), SamplesBy(starts, sample, text[m..]));
  }

  lemma Snoc<T>(xs: seq<T>, x: T, ys: seq<T>)
    ensures xs + ([x] + ys) == (xs + [x]) + ys
  {}

  lemma NoMatchSampled<T>(starts: string -> bool, sample: string -> T, text: string, i: nat, out: seq<T>)
    requires SoFar(starts, sample, text, i, out) && i < |text| && !starts(text[i..])
    ensures SoFar(starts, sample, text, i + 1, out)
  {
    DropOne(text, i);
  }

  // ---- texts in parts ----

  /** What follows `a` neither makes nor breaks a match that starts in it. */
  predicate LocalTo(starts: string -> bool, a: string, t: string) {
    forall k | 0 <= k < |a| :: starts((a + t)[k..]) == starts(a[k..])
  }

  /** The samples taken in a part are as many as its matches, and the rest is sampled as it is. */
  lemma {:induction false} PartBy<T>(starts: string -> bool, sample: string -> T, a: string, t: string)
    requires LocalTo(starts, a, t)
    ensures |SamplesBy(starts, sample, a + t)| == CountBy(starts, a) + |SamplesBy(starts, sample, t)|
    ensures CountBy(starts, a) == 0 ==> SamplesBy(starts, sample, a + t) == SamplesBy(starts, sample, t)
    decreases |a|
  {
    if a == "" {
      assert a + t == t;
    } else {
      assert (a + t)[0..] == a + t && a[0..] == a;
      assert (a + t)[1..] == a[1..] + t;
      assert LocalTo(starts, a[1..], t) by {
        forall k | 0 <= k < |a[1..]| ensures starts((a[1..] + t)[k..]) == starts(a[1..][k..]) {
          assert (a[1..] + t)[k..] == (a + t)[k + 1..] && a[1..][k..] == a[k + 1..];
        }
      }
      PartBy(starts, sample, a[1..], t);
    }
  }

  lemma {:induction false} CountInTail(starts: string -> bool, a: string, b: string)
    ensures CountBy(starts, a + b) >= CountBy(starts, b)
    decreases |a|
  {
    if a == "" {
      assert a + b == b;
    } else {
      assert (a + b)[1..] == a[1..] + b;
      CountInTail(starts, a[1..], b);
    }
  }

  lemma {:induction false} NoneCounted(starts: string -> bool, s: string, k: nat)
    requires CountBy(starts, s) == 0 && k < |s|
    ensures !starts(s[k..])
    decreases |s|
  {
    if k == 0 {
      assert s[0..] == s;
    } else {
      assert s[1..][k - 1..] == s[k..];
      NoneCounted(starts, s[1..], k - 1);
    }
  }
}
