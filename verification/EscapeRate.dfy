/** The defect-escape document: the section of a release is replaced or appended; the cycle of a
    release is partitioned at its tag. */
module EscapeRate {
  import opened Text
  import opened Search

  // ---- append_row: `h` is the release's header, `next` what ends a section ----

  const NEXT := "\n### "

  function Header(release: string): string { "### " + (release + " ") }

  /** The section that `t` opens: up to the newline before the next heading, or all of it. */
  function Opened(next: string, t: string): string
    requires next != ""
  {
    var i := Find(t, next);
    if i < 0 then t else t[..i + 1]
  }

  function Rest(next: string, t: string): string
    requires next != ""
  {
    var i := Find(t, next);
    if i < 0 then "" else t[i + 1..]
  }

  /** The text before the release's section, and the text from it on. */
  function Before(text: string, h: string): string
    requires Find(text, h) >= 0
  {
    text[..Find(text, h)]
  }

  function Tail(text: string, h: string): string
    requires Find(text, h) >= 0
  {
    text[Find(text, h)..]
  }

  function Section(next: string, text: string, h: string): string
    requires Find(text, h) >= 0 && next != ""
  {
    Opened(next, Tail(text, h))
  }

  function After(next: string, text: string, h: string): string
    requires Find(text, h) >= 0 && next != ""
  {
    Rest(next, Tail(text, h))
  }

  predicate IsNewline(c: char) { c == '\n' }

  function Upsert(next: string, h: string, text: string, row: string): string
    requires next != ""
  {
    if Find(text, h) >= 0 then Before(text, h) + (row + ("\n" + After(next, text, h)))
    else TrimRight(IsNewline, text) + ("\n\n" + row)
  }

  method AppendRow(release: string, row: string, doc: string) returns (text: string)
    ensures text == Upsert(NEXT, Header(release), doc, row)
  {
    var start := Find(doc, Header(release));
    if start >= 0 {
      var end := Find(doc[start..], NEXT);
      var cut := if end == -1 then |doc| else start + end + 1;
      assert var end := Find(doc[start..], NEXT);
            Rest(NEXT, doc[start..]) == doc[if end == -1 then |doc| else start + end + 1..];
      text := doc[..start] + (row + ("\n" + doc[cut..]));
    } else {
      text := TrimRight(IsNewline, doc) + ("\n\n" + row);
    }
  }

  /** A newline, then the start of every header; headers are within one line. */
  predicate Headings(next: string, h: string) {
    && |next| > 1 && next[0] == '\n' && '\n' !in next[1..]
    && next[1..] <= h && '\n' !in h
  }

  lemma HeadersAreHeadings(release: string)
    requires '\n' !in release
    ensures Headings(NEXT, Header(release))
  {
    assert NEXT[1..] == "### ";
  }

  /** A row as `doc_row` writes it: its own header first, no other heading line, a newline last. */
  predicate IsRow(next: string, h: string, row: string) {
    Headings(next, h) && h <= row && row[|row| - 1] == '\n' && Find(row, next) < 0
  }

  // ---- searching ----

  predicate EndsLine(a: string) { a == "" || a[|a| - 1] == '\n' }

  // ---- replacing ----

  /** Replacing what stands from the first header on leaves the header first where it was. */
  lemma HeaderStays(a: string, was: string, now: string, h: string)
    requires h != "" && Find(a + was, h) == |a| && h <= now
    ensures Find(a + now, h) == |a|
  {
    CutAt(a, was);
    FindAgree(a + was, a + now, h, |a| + |h|);
  }

  /** No section end is found in a row, nor across its end. */
  lemma NoneInRow(next: string, h: string, row: string, b: string, k: nat)
    requires IsRow(next, h, row) && k < |row|
    ensures !MatchAt(row + ("\n" + b), next, k)
  {
    var u := row + ("\n" + b);
    if k + |next| <= |row| {
      SameMatch(u, row, k, next, |row|);
    } else {
      assert next[|row| - k] == next[1..][|row| - k - 1];
      NotAcross(u, next, k, |row|);
    }
  }

  lemma NewlineThen(next: string, b: string)
    requires |next| > 1 && next[0] == '\n' && (b == "" || next[1..] <= b)
    ensures Find("\n" + b, next) == if b == "" then -1 else 0
  {
    var c := "\n" + b;
    if b == "" {
      FindIs(c, next, -1);
    } else {
      assert c[1..] == b && next == [next[0]] + next[1..];
      MatchIsSlice(c, next, 0);
    }
  }

  /** The section a row opens is the row and one newline, whatever heading follows. */
  lemma RowOpens(next: string, h: string, row: string, b: string)
    requires IsRow(next, h, row) && (b == "" || next[1..] <= b)
    ensures var t := row + ("\n" + b); Opened(next, t) == row + "\n" && Rest(next, t) == b
  {
    forall k | 0 <= k < |row| ensures !MatchAt(row + ("\n" + b), next, k) {
      NoneInRow(next, h, row, b, k);
    }
    FindSkip(row, "\n" + b, next);
    NewlineThen(next, b);
    Regroup(row, b);
  }

  lemma Regroup(row: string, b: string)
    ensures row + ("\n" + b) == (row + "\n") + b
    ensures (row + ("\n" + b))[..|row| + 1] == row + "\n" && (row + ("\n" + b))[|row| + 1..] == b
  {}

  lemma PartsOf(h: string, a: string, t: string)
    requires Find(a + t, h) == |a|
    ensures Before(a + t, h) == a && Tail(a + t, h) == t
  {
    CutAt(a, t);
  }

  /** Replacement: the text before the section and the text after it are kept as they are, and the
      named section afterwards is the row (and a blank line). */
  lemma Replaces(next: string, h: string, text: string, row: string)
    requires IsRow(next, h, row) && Find(text, h) >= 0
    ensures var out := Upsert(next, h, text, row);
            && Find(out, h) == Find(text, h)
            && Before(out, h) == Before(text, h)
            && Section(next, out, h) == row + "\n"
            && After(next, out, h) == After(next, text, h)
  {
    var a, b := Before(text, h), After(next, text, h);
    assert text[..|a|] + text[|a|..] == text;
    HeaderStays(a, Tail(text, h), row + ("\n" + b), h);
    PartsOf(h, a, row + ("\n" + b));
    assert Rest(next, Tail(text, h)) == "" || next[1..] <= Rest(next, Tail(text, h)) by {
      var i := Find(Tail(text, h), next);
      if i >= 0 {
        MatchIsSlice(Tail(text, h), next, i);
        assert Tail(text, h)[i..i + |next|][1..] == Tail(text, h)[i + 1..][..|next| - 1];
      }
    }
    RowOpens(next, h, row, b);
  }

  // ---- appending ----

  lemma NotBeforeRow(next: string, h: string, kept: string, blanks: string, row: string, k: nat)
    requires IsRow(next, h, row) && Find(kept + blanks, h) < 0 && k < |kept + "\n\n"|
    ensures !MatchAt((kept + "\n\n") + row, h, k)
  {
    var out, text := (kept + "\n\n") + row, kept + blanks;
    if k + |h| <= |kept| {
      SameMatch(out, text, k, h, |kept|);
    } else {
      NotAcross(out, h, k, if k < |kept| then |kept| else k);
    }
  }

  lemma FoundAtRow(next: string, h: string, kept: string, blanks: string, row: string)
    requires IsRow(next, h, row) && Find(kept + blanks, h) < 0
    ensures var a := kept + "\n\n"; Find(a + row, h) == |a|
  {
    var a := kept + "\n\n";
    forall k | 0 <= k < |a| ensures !MatchAt(a + row, h, k) {
      NotBeforeRow(next, h, kept, blanks, row, k);
    }
    FindSkip(a, row, h);
  }

  lemma AppendedAt(next: string, h: string, text: string, row: string)
    requires IsRow(next, h, row) && Find(text, h) < 0
    ensures var a := TrimRight(IsNewline, text) + "\n\n";
            Upsert(next, h, text, row) == a + row && Find(a + row, h) == |a|
  {
    var kept := TrimRight(IsNewline, text);
    TrimRightSplit(IsNewline, text);
    FoundAtRow(next, h, kept, text[|kept|..], row);
    Assoc(kept, "\n\n", row);
  }

  /** Appending: the document up to its trailing newlines is kept, and the section is the row. */
  lemma Appends(next: string, h: string, text: string, row: string)
    requires IsRow(next, h, row) && Find(text, h) < 0
    ensures var out := Upsert(next, h, text, row);
            && Find(out, h) >= 0
            && Before(out, h) == TrimRight(IsNewline, text) + "\n\n"
            && Section(next, out, h) == row && After(next, out, h) == ""
  {
    AppendedAt(next, h, text, row);
    PartsOf(h, TrimRight(IsNewline, text) + "\n\n", row);
  }

  // ---- the fixed point ----

  lemma ReplacedAgain(next: string, h: string, text: string, row: string)
    requires next != "" && Find(text, h) >= 0 && Section(next, text, h) == row + "\n"
    ensures Upsert(next, h, text, row) == text
  {
    assert Opened(next, Tail(text, h)) + Rest(next, Tail(text, h)) == Tail(text, h);
    assert text[..Find(text, h)] + text[Find(text, h)..] == text;
    Regroup(row, After(next, text, h));
  }

  /** The upsert is a fixed point from its second application on, and already from its first exactly
      when the release was in the document. */
  lemma UpsertFixedPoint(next: string, h: string, text: string, row: string)
    requires IsRow(next, h, row)
    ensures var once := Upsert(next, h, text, row);
            var twice := Upsert(next, h, once, row);
            && Upsert(next, h, twice, row) == twice
            && (twice == once <==> Find(text, h) >= 0)
  {
    var once := Upsert(next, h, text, row);
    if Find(text, h) >= 0 {
      Replaces(next, h, text, row);
      ReplacedAgain(next, h, once, row);
    } else {
      Appends(next, h, text, row);
      Replaces(next, h, once, row);
      ReplacedAgain(next, h, Upsert(next, h, once, row), row);
      assert |row| != |row + "\n"|;
    }
  }

  // ---- compute_rate ----

  datatype Option<+T> = None | Some(value: T)

  datatype Issue = Issue(number: int, created: int)

  /** `since` is the cycle's start; without one the cycle is all history. */
  predicate InCycle(i: Issue, hasStart: bool, since: int) { !hasStart || i.created >= since }

  function Escaped(issues: seq<Issue>, tag: int, hasStart: bool, since: int): seq<int> {
    if issues == [] then [] else
      var i := issues[|issues| - 1];
      Escaped(issues[..|issues| - 1], tag, hasStart, since) +
          (if InCycle(i, hasStart, since) && i.created >= tag then [i.number] else [])
  }

  function CycleSize(issues: seq<Issue>, hasStart: bool, since: int): nat {
    if issues == [] then 0 else
      CycleSize(issues[..|issues| - 1], hasStart, since) +
          (if InCycle(issues[|issues| - 1], hasStart, since) then 1 else 0)
  }

  /** A number is listed exactly when an issue of the cycle with that number was created at or after
      the tag; and what is not listed was created before it. */
  lemma {:induction false} EscapedExactly(issues: seq<Issue>, tag: int, hasStart: bool, since: int, number: int)
    ensures number in Escaped(issues, tag, hasStart, since) <==>
            exists k | 0 <= k < |issues| ::
                issues[k].number == number && InCycle(issues[k], hasStart, since) && issues[k].created >= tag
    decreases |issues|
  {
    if issues != [] {
      var init, i := issues[..|issues| - 1], issues[|issues| - 1];
      EscapedExactly(init, tag, hasStart, since, number);
      assert forall k | 0 <= k < |init| :: init[k] == issues[k];
      assert issues[|issues| - 1] == i;
    }
  }

  /** The counts and the listed numbers of issues taken together are those of the parts, in order. */
  lemma {:induction false} IssuesAdd(a: seq<Issue>, b: seq<Issue>, tag: int, hasStart: bool, since: int)
    ensures CycleSize(a + b, hasStart, since) == CycleSize(a, hasStart, since) + CycleSize(b, hasStart, since)
    ensures Escaped(a + b, tag, hasStart, since) ==
            Escaped(a, tag, hasStart, since) + Escaped(b, tag, hasStart, since)
    decreases |b|
  {
    if b == [] {
      assert a + b == a;
    } else {
      assert (a + b)[..|a + b| - 1] == a + b[..|b| - 1];
      IssuesAdd(a, b[..|b| - 1], tag, hasStart, since);
    }
  }

  /** One issue counts unless it was created before the cycle's start, and escaped unless before the tag too. */
  lemma OneIssue(i: Issue, tag: int, hasStart: bool, since: int)
    ensures CycleSize([i], hasStart, since) == if hasStart && i.created < since then 0 else 1
    ensures Escaped([i], tag, hasStart, since) ==
            if (hasStart && i.created < since) || i.created < tag then [] else [i.number]
  {
    assert [i][..0] == [];
  }

  function Rate(part: nat, whole: nat): Option<real> {
    if whole > 0 then Some(part as real / whole as real * 100.0) else None
  }

  /** Every issue of the cycle is counted once, before or after the tag, and the listed escapes are
      exactly the ones after. The rate is the share of those, before rounding, and none without issues. */
  method ComputeRate(issues: seq<Issue>, tag: int, hasStart: bool, since: int)
    returns (total: nat, pre: nat, post: nat, escaped: seq<int>, rate: Option<real>)
    ensures total == pre + post == CycleSize(issues, hasStart, since)
    ensures escaped == Escaped(issues, tag, hasStart, since) && post == |escaped|
    ensures rate == Rate(post, total)
  {
    pre, post, escaped := 0, 0, [];
    for k := 0 to |issues|
      invariant pre + post == CycleSize(issues[..k], hasStart, since)
      invariant escaped == Escaped(issues[..k], tag, hasStart, since) && post == |escaped|
    {
      var it := issues[k];
      assert issues[..k + 1][..k] == issues[..k];
      if hasStart && it.created < since {
        continue;
      }
      if it.created < tag {
        pre := pre + 1;
      } else {
        post := post + 1;
        escaped := escaped + [it.number];
      }
    }
    assert issues[..|issues|] == issues;
    total := pre + post;
    rate := Rate(post, total);
  }

  /** The rate is the share of the escapes, in percent. */
  lemma RateIsShare(part: nat, whole: nat)
    requires part <= whole
    ensures Rate(part, whole).None? <==> whole == 0
    ensures whole > 0 ==> Rate(part, whole).value * whole as real == 100.0 * part as real
    ensures whole > 0 ==> 0.0 <= Rate(part, whole).value <= 100.0
  {
    if whole > 0 {
      var w, p := whole as real, part as real;
      assert p / w * w == p;
      assert 0.0 <= p / w <= 1.0;
    }
  }
}
