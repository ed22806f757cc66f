/** Recall injection: section anchors, the character budget, and the dedup by injected set. */
module Recall {
  import opened Text

  datatype Option<+T> = None | Some(value: T)

  // ---- _section_anchor ----

  /** One to six hashes and white space. */
  predicate IsHeading(l: string) {
    exists n | 1 <= n <= 6 :: n < |l| && IsSpace(l[n]) && forall i | 0 <= i < n :: l[i] == '#'
  }

  /** A heading is one to six hashes, white space and anything. */
  lemma HeadingExact(l: string)
    ensures IsHeading(l) <==>
            exists n | 1 <= n <= 6 :: n < |l| && IsSpace(l[n]) && l[..n] == "######"[..n]
  {
    forall n | 1 <= n <= 6 && n < |l|
      ensures l[..n] == "######"[..n] <==> forall i | 0 <= i < n :: l[i] == '#'
    {
      assert forall i | 0 <= i < n :: "######"[i] == '#' && l[..n][i] == l[i];
    }
  }

  /** Line indices that start a section: the first line, and every heading. */
  function Starts(heading: string -> bool, lines: seq<string>): seq<int> {
    if lines == [] then [] else
      var n := |lines| - 1;
      Starts(heading, lines[..n]) + (if n == 0 || heading(lines[n]) then [n] else [])
  }

  /** Section `k` runs from its start to the line before the next start. */
  function SectionEnd(starts: seq<int>, k: nat, n: nat): int
    requires k < |starts|
  {
    if k + 1 < |starts| then starts[k + 1] - 1 else n - 1
  }

  predicate Increasing(starts: seq<int>) { forall j, k | 0 <= j < k < |starts| :: starts[j] < starts[k] }

  lemma {:induction false} StartsExact(heading: string -> bool, lines: seq<string>)
    ensures forall i :: i in Starts(heading, lines) <==> 0 <= i < |lines| && (i == 0 || heading(lines[i]))
    ensures Increasing(Starts(heading, lines))
    ensures lines != [] ==> Starts(heading, lines) != [] && Starts(heading, lines)[0] == 0
    decreases |lines|
  {
    if lines != [] {
      var before := Starts(heading, lines[..|lines| - 1]);
      StartsExact(heading, lines[..|lines| - 1]);
      assert forall j | 0 <= j < |before| :: before[j] in before;
    }
  }

  /** Non-empty, in order, each ending where the next begins, from the first line to the last. */
  predicate Partition(starts: seq<int>, n: nat) {
    && starts != [] && starts[0] == 0 && Increasing(starts)
    && (forall k | 0 <= k < |starts| :: SectionWithin(starts, k, n))
    && (forall k | 0 <= k < |starts| - 1 :: Adjacent(starts, k, n))
    && SectionEnd(starts, |starts| - 1, n) == n - 1
  }

  predicate SectionWithin(starts: seq<int>, k: nat, n: nat)
    requires k < |starts|
  {
    0 <= starts[k] <= SectionEnd(starts, k, n) < n
  }

  predicate Adjacent(starts: seq<int>, k: nat, n: nat)
    requires k + 1 < |starts|
  {
    SectionEnd(starts, k, n) + 1 == starts[k + 1]
  }

  lemma StartWithin(heading: string -> bool, lines: seq<string>, k: nat)
    requires k < |Starts(heading, lines)|
    ensures 0 <= Starts(heading, lines)[k] < |lines|
  {
    StartsExact(heading, lines);
    assert Starts(heading, lines)[k] in Starts(heading, lines);
  }

  /** The heading sections of a document partition its lines. */
  lemma SectionsPartition(heading: string -> bool, lines: seq<string>)
    requires lines != []
    ensures Partition(Starts(heading, lines), |lines|)
  {
    StartsExact(heading, lines);
    var starts := Starts(heading, lines);
    forall k | 0 <= k < |starts| ensures SectionWithin(starts, k, |lines|) {
      StartWithin(heading, lines, k);
      if k + 1 < |starts| { StartWithin(heading, lines, k + 1); }
    }
  }

  /** Sections are disjoint and cover every line: each line is in exactly one of them. */
  lemma LineInOneSection(starts: seq<int>, n: nat, i: nat) returns (k: nat)
    requires Partition(starts, n) && i < n
    ensures k < |starts| && starts[k] <= i <= SectionEnd(starts, k, n)
    ensures forall j | 0 <= j < |starts| && starts[j] <= i <= SectionEnd(starts, j, n) :: j == k
  {
    k := 0;
    while k + 1 < |starts| && starts[k + 1] <= i
      invariant k < |starts| && starts[k] <= i
    {
      k := k + 1;
    }
    forall j | 0 <= j < |starts| && starts[j] <= i <= SectionEnd(starts, j, n) ensures j == k {
      EarlierEndsBefore(starts, n, j, k);
      EarlierEndsBefore(starts, n, k, j);
    }
  }

  lemma EarlierEndsBefore(starts: seq<int>, n: nat, j: nat, k: nat)
    requires Partition(starts, n) && j < |starts| && k < |starts|
    ensures j < k ==> SectionEnd(starts, j, n) < starts[k]
  {
    if j + 1 < k { assert starts[j + 1] < starts[k]; }
  }

  /** The query tokens found in section `k`. */
  function Score(hits: (int, int) -> nat, starts: seq<int>, n: nat, k: nat): nat
    requires k < |starts|
  {
    hits(starts[k], SectionEnd(starts, k, n))
  }

  /** The best section: the key compared is (hits, -start), so the earliest of the fullest wins. */
  method BestSection(hits: (int, int) -> nat, starts: seq<int>, n: nat) returns (best: nat)
    requires Partition(starts, n)
    ensures best < |starts| && forall k | 0 <= k < |starts| :: Score(hits, starts, n, k) <= Score(hits, starts, n, best)
    ensures forall k | 0 <= k < best :: Score(hits, starts, n, k) < Score(hits, starts, n, best)
  {
    best := 0;
    for k := 1 to |starts|
      invariant best < k
      invariant forall j | 0 <= j < k :: Score(hits, starts, n, j) <= Score(hits, starts, n, best)
      invariant forall j | 0 <= j < best :: Score(hits, starts, n, j) < Score(hits, starts, n, best)
    {
      var h, top := Score(hits, starts, n, k), Score(hits, starts, n, best);
      if h > top || (h == top && starts[k] < starts[best]) {
        best := k;
      }
    }
  }

  method FindStarts(heading: string -> bool, lines: seq<string>) returns (starts: seq<int>)
    ensures starts == Starts(heading, lines)
  {
    starts := [];
    for i := 0 to |lines|
      invariant starts == Starts(heading, lines[..i])
    {
      assert lines[..i + 1][..i] == lines[..i];
      if i == 0 || heading(lines[i]) {
        starts := starts + [i];
      }
    }
    assert lines[..|lines|] == lines;
  }

  ghost predicate IsAnchor(hits: (int, int) -> nat, starts: seq<int>, n: nat, best: nat, a: int, b: int) {
    && best < |starts| && a == starts[best] + 1 && b == SectionEnd(starts, best, n) + 1
    && (forall k | 0 <= k < |starts| :: Score(hits, starts, n, k) <= Score(hits, starts, n, best))
    && (forall k | 0 <= k < best :: Score(hits, starts, n, k) < Score(hits, starts, n, best))
  }

  /** `path:L<a>~L<b>`: lines counted from 1, the single line 1 for an empty file. */
  method SectionAnchor(heading: string -> bool, lines: seq<string>, hits: (int, int) -> nat) returns (a: int, b: int)
    ensures lines == [] ==> a == 1 && b == 1
    ensures lines != [] ==>
            1 <= a <= b <= |lines| && exists best :: IsAnchor(hits, Starts(heading, lines), |lines|, best, a, b)
  {
    if lines == [] {
      return 1, 1;
    }
    var starts := FindStarts(heading, lines);
    SectionsPartition(heading, lines);
    var best := BestSection(hits, starts, |lines|);
    a, b := starts[best] + 1, SectionEnd(starts, best, |lines|) + 1;
    assert SectionWithin(starts, best, |lines|);
    assert IsAnchor(hits, starts, |lines|, best, a, b);
  }

  /** The lines from `a` to `b`, joined by newlines. */
  function SectionText(lines: seq<string>, a: int, b: int): string
    decreases b - a
  {
    if !(0 <= a <= b < |lines|) then ""
    else if a == b then lines[a]
    else lines[a] + ("\n" + SectionText(lines, a + 1, b))
  }

  lemma Glued(x: string, t: string, y: string)
    ensures x + ("\n" + (t + ("\n" + y))) == (x + ("\n" + t)) + ("\n" + y)
  {}

  lemma FirstLine(lines: seq<string>, a: int, b: int)
    requires 0 <= a <= b < |lines|
    ensures SectionText(lines, a, b) == if a == b then lines[a] else lines[a] + ("\n" + SectionText(lines, a + 1, b))
  {}

  lemma LineInFront(lines: seq<string>, a: int, m: int, b: int, y: string)
    requires 0 <= a < m < b < |lines| && SectionText(lines, a + 1, b) == SectionText(lines, a + 1, m) + ("\n" + y)
    ensures SectionText(lines, a, b) == SectionText(lines, a, m) + ("\n" + y)
  {
    var t, whole := SectionText(lines, a + 1, m), SectionText(lines, a + 1, b);
    FirstLine(lines, a, b);
    FirstLine(lines, a, m);
    assert SectionText(lines, a, b) == lines[a] + ("\n" + whole);
    Glued(lines[a], t, y);
  }

  predicate CutBetween(lines: seq<string>, a: int, m: int, b: int) {
    SectionText(lines, a, b) == SectionText(lines, a, m) + ("\n" + SectionText(lines, m + 1, b))
  }

  lemma CutAtFirst(lines: seq<string>, a: int, b: int)
    requires 0 <= a < b < |lines|
    ensures SectionText(lines, a, a) == lines[a] && CutBetween(lines, a, a, b)
  {
    FirstLine(lines, a, a);
    FirstLine(lines, a, b);
  }

  /** A section's text is its lines with a newline between each two, wherever it is cut. */
  lemma {:induction false} SectionTextJoins(lines: seq<string>, a: int, m: int, b: int)
    requires 0 <= a <= m < b < |lines|
    ensures SectionText(lines, a, a) == lines[a] && CutBetween(lines, a, m, b)
    decreases m - a
  {
    CutAtFirst(lines, a, b);
    if a < m {
      SectionTextJoins(lines, a + 1, m, b);
      LineInFront(lines, a, m, b, SectionText(lines, m + 1, b));
    }
  }

  /** How many of the query's tokens a section holds; `tokens` is the set of tokens of a text. */
  function Hits(tokens: string -> set<string>, query: string, lines: seq<string>): (int, int) -> nat {
    (a: int, b: int) => |tokens(query) * tokens(SectionText(lines, a, b))|
  }

  /** The same with the hook's own heading pattern and count. */
  method AnchorOf(tokens: string -> set<string>, lines: seq<string>, query: string) returns (a: int, b: int)
    ensures lines == [] ==> a == 1 && b == 1
    ensures lines != [] ==> 1 <= a <= b <= |lines|
    ensures lines != [] ==>
            exists best :: IsAnchor(Hits(tokens, query, lines), Starts(IsHeading, lines), |lines|, best, a, b)
  {
    a, b := SectionAnchor(IsHeading, lines, Hits(tokens, query, lines));
  }

  /** Only the first section is anchored without holding a token of the query. */
  lemma NoOverlapIsFirst(tokens: string -> set<string>, lines: seq<string>, query: string, starts: seq<int>,
          best: nat, a: int, b: int)
    requires Partition(starts, |lines|) && IsAnchor(Hits(tokens, query, lines), starts, |lines|, best, a, b)
    requires tokens(query) !! tokens(SectionText(lines, starts[best], SectionEnd(starts, best, |lines|)))
    ensures best == 0 && a == 1
  {
    assert tokens(query) * tokens(SectionText(lines, starts[best], SectionEnd(starts, best, |lines|))) == {};
    assert Score(Hits(tokens, query, lines), starts, |lines|, 0) <= 0;
  }

  // ---- _guidance ----

  const MAX_INJECT_FILES := 3
  const MAX_INJECT_ITEMS := 5
  const MAX_INJECT_CHARS := 1200

  /** Length of `", ".join(items)`. */
  function JoinedLength(items: seq<string>): nat {
    if items == [] then 0 else if |items| == 1 then |items[0]|
    else JoinedLength(items[..|items| - 1]) + 2 + |items[|items| - 1]|
  }

  /** Length of the rendered block's own words; the query is quoted once among them. */
  const FRAME_CHARS := 345

  /** `" ".join(queries)`. */
  function Query(queries: seq<string>): string {
    if queries == [] then "" else if |queries| == 1 then queries[0] else queries[0] + (" " + Query(queries[1..]))
  }

  function Frame(queries: seq<string>): nat { FRAME_CHARS + |Query(queries)| }

  /** Length of the rendered block around the items; `frame` is everything but the items. */
  function Rendered(frame: nat, items: seq<string>): nat { frame + JoinedLength(items) }

  /** Items and queries are joined with their separators between each two. */
  lemma {:induction false} JoinedAdds(frame: nat, a: seq<string>, b: seq<string>)
    requires a != [] && b != []
    ensures JoinedLength(a + b) == JoinedLength(a) + |", "| + JoinedLength(b)
    ensures Rendered(frame, a + b) == Rendered(frame, a) + |", "| + JoinedLength(b)
    ensures |b| == 1 ==> JoinedLength(b) == |b[0]| && Rendered(frame, b) == frame + |b[0]|
    ensures JoinedLength([]) == 0
    decreases |b|
  {
    assert (a + b)[..|a + b| - 1] == a + b[..|b| - 1];
    if |b| > 1 {
      JoinedAdds(frame, a, b[..|b| - 1]);
    } else {
      assert a + b[..0] == a;
    }
  }

  lemma {:induction false} QueryAdds(a: seq<string>, b: seq<string>)
    requires a != [] && b != []
    ensures Query(a + b) == Query(a) + (" " + Query(b))
    ensures Frame(a + b) == Frame(a) + 1 + |Query(b)|
    ensures |b| == 1 ==> Query(b) == b[0] && Frame(b) == 345 + |b[0]|
    decreases |a|
  {
    assert (a + b)[1..] == a[1..] + b;
    if |a| > 1 {
      QueryAdds(a[1..], b);
      assert a[0] + (" " + (Query(a[1..]) + (" " + Query(b)))) == (a[0] + (" " + Query(a[1..]))) + (" " + Query(b));
    } else {
      assert a[1..] + b == b;
    }
  }

  lemma {:induction false} LongerRendersLonger(items: seq<string>, k: nat)
    requires 0 < k <= |items|
    ensures JoinedLength(items[..k]) <= JoinedLength(items)
    ensures k < |items| ==> JoinedLength(items[..k]) < JoinedLength(items)
    decreases |items|
  {
    if k < |items| {
      var init := items[..|items| - 1];
      LongerRendersLonger(init, k);
      assert init[..k] == items[..k];
    } else {
      assert items[..k] == items;
    }
  }

  /** The loop keeps the longest non-empty prefix that fits, or one item when none does. */
  method TrimToBudget(all: seq<string>, frame: nat) returns (items: seq<string>)
    ensures items <= all && (all != [] ==> items != [])
    ensures |items| > 1 ==> Rendered(frame, items) <= MAX_INJECT_CHARS
    ensures forall k | |items| < k <= |all| :: Rendered(frame, all[..k]) > MAX_INJECT_CHARS
  {
    items := all;
    assert all[..|all|] == all;
    while |items| > 1 && Rendered(frame, items) > MAX_INJECT_CHARS
      invariant items == all[..|items|] && |items| <= |all| && (all != [] ==> items != [])
      invariant forall k | |items| < k <= |all| :: Rendered(frame, all[..k]) > MAX_INJECT_CHARS
    {
      assert all[..|items|][..|items| - 1] == all[..|items| - 1];
      items := items[..|items| - 1];
    }
  }

  function Anchors(files: seq<string>, anchor: string -> string): seq<string> {
    seq(|files|, i requires 0 <= i < |files| => anchor(files[i]))
  }

  function Capped(files: seq<string>): seq<string> {
    if |files| <= MAX_INJECT_FILES then files else files[..MAX_INJECT_FILES]
  }

  /** At most three files are anchored: the first ones. */
  lemma FirstThree(files: seq<string>)
    ensures Capped(files) <= files && |Capped(files)| == if |files| < 3 then |files| else 3
  {}

  /** `_guidance`: the anchors of the first files, cut to the budget. */
  method Guidance(queries: seq<string>, files: seq<string>, anchor: string -> string) returns (items: seq<string>)
    ensures items <= Anchors(Capped(files), anchor) && (files != [] ==> items != [])
    ensures |items| > 1 ==> Rendered(Frame(queries), items) <= MAX_INJECT_CHARS
    ensures |items| < |Capped(files)| ==>
            Rendered(Frame(queries), Anchors(Capped(files), anchor)[..|items| + 1]) > MAX_INJECT_CHARS
  {
    var first := Capped(files);
    var all: seq<string> := [];
    for i := 0 to |first|
      invariant all == Anchors(first[..i], anchor)
    {
      all := all + [anchor(first[i])];
      assert first[..i + 1] == first[..i] + [first[i]];
      if |all| >= MAX_INJECT_ITEMS {
        break;
      }
    }
    assert first[..|first|] == first;
    items := TrimToBudget(all, Frame(queries));
  }

  /** So what is kept is a longest one: every longer prefix is over the budget too. */
  lemma OverBudgetStaysOver(frame: nat, all: seq<string>, k: nat, m: nat)
    requires 0 < k <= m <= |all| && Rendered(frame, all[..k]) > MAX_INJECT_CHARS
    ensures Rendered(frame, all[..m]) > MAX_INJECT_CHARS
  {
    assert all[..m][..k] == all[..k];
    LongerRendersLonger(all[..m], k);
  }

  // ---- dedup: what each worker was last shown ----

  /** Names with the digests of their contents; the hash of the list is taken as the list. */
  type Shown = seq<(string, string)>

  class Dedup {
    var workers: map<string, Shown>

    constructor ()
      ensures workers == map[]
    { workers := map[]; }

    method InjectionContext(key: string, items: Shown) returns (inject: bool)
      modifies this
      ensures workers == AfterCall(old(workers), key, items)
      ensures inject <==> Injects(old(workers), key, items)
    {
      if items == [] {
        return false;
      }
      if key in workers && workers[key] == items {
        return false;
      }
      workers := workers[key := items];
      inject := true;
    }
  }

  predicate Injects(workers: map<string, Shown>, key: string, items: Shown) {
    items != [] && !(key in workers && workers[key] == items)
  }

  function AfterCall(workers: map<string, Shown>, key: string, items: Shown): map<string, Shown> {
    if Injects(workers, key, items) then workers[key := items] else workers
  }

  datatype Call = Call(key: string, items: Shown)

  function AfterCalls(calls: seq<Call>): map<string, Shown> {
    if calls == [] then map[] else
      var c := calls[|calls| - 1];
      AfterCall(AfterCalls(calls[..|calls| - 1]), c.key, c.items)
  }

  /** The last non-empty set recalled for the worker, shown to it or not. */
  function LastRecalled(calls: seq<Call>, key: string): Shown {
    if calls == [] then [] else
      var c := calls[|calls| - 1];
      if c.key == key && c.items != [] then c.items else LastRecalled(calls[..|calls| - 1], key)
  }

  /** A worker is injected exactly when the set is not empty and differs from the last one recalled
      for it: workers do not disturb each other, and an empty recall does not reset anything. */
  lemma {:induction false} InjectedExactly(calls: seq<Call>, key: string, items: Shown)
    ensures Injects(AfterCalls(calls), key, items) <==> items != [] && items != LastRecalled(calls, key)
    decreases |calls|
  {
    LastIsStored(calls, key);
  }

  lemma {:induction false} LastIsStored(calls: seq<Call>, key: string)
    ensures if key in AfterCalls(calls) then AfterCalls(calls)[key] == LastRecalled(calls, key) != []
            else LastRecalled(calls, key) == []
    decreases |calls|
  {
    if calls != [] { LastIsStored(calls[..|calls| - 1], key); }
  }
}
