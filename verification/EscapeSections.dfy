/** What writing one release's row does to the sections of the other releases: the exact condition
    under which `append_row` leaves such a section as it was, for every document. */
module EscapeSections {
  import opened Text
  import opened Search
  import opened EscapeRate

  /** The release is still found, and its section is the same. */
  predicate Unchanged(next: string, text: string, out: string, other: string)
    requires next != "" && Find(text, other) >= 0
  {
    Find(out, other) >= 0 && Section(next, out, other) == Section(next, text, other)
  }

  // ---- headers that cannot overlap ----

  /** `a` moved `d` to the left of `b` disagrees with it somewhere. */
  predicate ClashAt(a: string, b: string, d: nat) {
    exists j :: 0 <= j < |b| && d + j < |a| && a[d + j] != b[j]
  }

  /** No match of `b` starts inside a match of `a`. */
  predicate Clash(a: string, b: string) { forall d: nat | d < |a| :: ClashAt(a, b, d) }

  lemma NotOver(s: string, a: string, b: string, k: nat, start: nat)
    requires Clash(a, b) && MatchAt(s, b, start) && k <= start < k + |a|
    ensures !MatchAt(s, a, k)
  {
    assert ClashAt(a, b, start - k);
    var j :| 0 <= j < |b| && start - k + j < |a| && a[start - k + j] != b[j];
    assert s[start + j] == b[j];
    NotAcross(s, a, k, start + j);
  }

  lemma NotInside(s: string, a: string, b: string, start: nat, k: nat)
    requires Clash(a, b) && MatchAt(s, a, start) && start <= k < start + |a|
    ensures !MatchAt(s, b, k)
  {
    assert ClashAt(a, b, k - start);
    var j :| 0 <= j < |b| && k - start + j < |a| && a[k - start + j] != b[j];
    assert s[start + (k - start + j)] == a[k - start + j];
    NotAcross(s, b, k, k + j);
  }

  /** Two headers neither of which can be found inside or across the other. */
  predicate Apart(a: string, b: string) { a != "" && b != "" && Clash(a, b) && Clash(b, a) }

  predicate LineStart(text: string, i: nat)
    requires i <= |text|
  {
    i == 0 || text[i - 1] == '\n'
  }

  /** The two headers are found apart from each other: by their names, whatever the text, or because
      both start their lines, at different places. */
  predicate FoundApart(text: string, h: string, other: string)
    requires Find(text, h) >= 0 && Find(text, other) >= 0
  {
    || Apart(h, other)
    || (Find(text, h) != Find(text, other) && LineStart(text, Find(text, h)) && LineStart(text, Find(text, other)))
  }

  // ---- agreement of the old and the new document ----

  lemma SameSection(next: string, other: string, text: string, out: string, n: nat)
    requires next != "" && Agree(text, out, n) && Find(text, other) >= 0 && Find(text, other) + |other| <= n
    requires Find(Tail(text, other), next) >= 0
    requires Find(text, other) + Find(Tail(text, other), next) + |next| <= n
    ensures Unchanged(next, text, out, other)
  {
    var p := Find(text, other);
    FindAgree(text, out, other, n);
    assert Agree(text[p..], out[p..], n - p);
    assert Opened(next, Tail(text, other)) == Opened(next, Tail(out, other)) by {
      FindAgree(Tail(text, other), Tail(out, other), next, n - p);
    }
  }

  lemma HeadAgrees(text: string, out: string, h: string, start: nat)
    requires start <= |text| && start <= |out| && text[..start] == out[..start]
    requires MatchAt(text, h, start) && MatchAt(out, h, start)
    ensures Agree(text, out, start + |h|)
  {
    forall i | 0 <= i < start + |h| ensures text[i] == out[i] {
      if i < start {
        assert text[i] == text[..start][i] == out[i];
      } else {
        assert text[start + (i - start)] == h[i - start] == out[start + (i - start)];
      }
    }
  }

  // ---- replacing: a header above ----

  /** The text is as it was down to the header of the replaced section. */
  lemma HeadKept(next: string, h: string, text: string, row: string)
    requires IsRow(next, h, row) && Find(text, h) >= 0
    ensures Agree(text, Upsert(next, h, text, row), Find(text, h) + |h|)
  {
    Replaces(next, h, text, row);
    HeadAgrees(text, Upsert(next, h, text, row), h, Find(text, h));
  }

  lemma EndsAbove(text: string, h: string, other: string)
    requires 0 <= Find(text, other) < Find(text, h) && FoundApart(text, h, other) && '\n' !in other
    ensures Find(text, other) + |other| <= Find(text, h)
  {
    var p, start := Find(text, other), Find(text, h);
    if Apart(h, other) {
      if start < p + |other| { NotOver(text, other, h, p, start); }
    } else {
      NotAcross(text, other, p, start - 1);
    }
  }

  /** Where no section ends in `u`, what follows `u` decides. */
  lemma OpenedSkip(next: string, u: string, t: string)
    requires next != "" && forall k | 0 <= k < |u| :: !MatchAt(u + t, next, k)
    ensures Opened(next, u + t) == u + Opened(next, t)
  {
    FindSkip(u, t, next);
    if Find(t, next) >= 0 { TakeAcross(u, t, Find(t, next) + 1); }
  }

  lemma TakeAcross(a: string, b: string, k: nat)
    requires k <= |b|
    ensures (a + b)[..|a| + k] == a + b[..k]
  {}

  lemma SliceThenTail(s: string, p: nat, start: nat)
    requires p <= start <= |s|
    ensures s[p..] == s[p..start] + s[start..]
  {}

  /** The quoting section is its text down to the quoted header, and the section found there. */
  lemma QuotingSection(next: string, h: string, other: string, text: string)
    requires next != "" && 0 <= Find(text, other) <= Find(text, h)
    requires Find(text, h) < Find(text, other) + |Section(next, text, other)|
    ensures Section(next, text, other) == text[Find(text, other)..Find(text, h)] + Section(next, text, h)
  {
    var p, start := Find(text, other), Find(text, h);
    SliceThenTail(text, p, start);
    assert forall k | 0 <= k < start - p :: !MatchAt(text[p..], next, k);
    OpenedSkip(next, text[p..start], text[start..]);
  }

  lemma NoEndKept(next: string, text: string, out: string, p: nat, start: nat, n: nat)
    requires |next| > 0 && p <= start && start - 1 + |next| <= n && Agree(text, out, n) && start <= n
    requires start - p < |Opened(next, text[p..])|
    ensures forall k | 0 <= k < start - p :: !MatchAt(out[p..], next, k)
  {
    assert forall k | 0 <= k < start - p :: !MatchAt(text[p..], next, k);
    assert Agree(text[p..], out[p..], n - p);
    forall k | 0 <= k < start - p ensures !MatchAt(out[p..], next, k) {
      SameMatch(text[p..], out[p..], k, next, n - p);
    }
  }

  /** A section that quotes the header ends, afterwards, with the row. */
  lemma QuotingAfter(next: string, h: string, other: string, text: string, row: string)
    requires IsRow(next, h, row) && Find(text, h) >= 0 && Find(text, other) >= 0
    requires Find(text, other) + |other| <= Find(text, h)
    requires Find(text, h) < Find(text, other) + |Section(next, text, other)|
    ensures var out := Upsert(next, h, text, row);
            Find(out, other) >= 0 && Section(next, out, other) == text[Find(text, other)..Find(text, h)] + (row + "\n")
  {
    var out, p, start := Upsert(next, h, text, row), Find(text, other), Find(text, h);
    HeadKept(next, h, text, row);
    FindAgree(text, out, other, start + |h|);
    assert |next[1..]| == |next| - 1;
    NoEndKept(next, text, out, p, start, start + |h|);
    Replaces(next, h, text, row);
    SliceThenTail(out, p, start);
    OpenedSkip(next, out[p..start], out[start..]);
    assert out[p..start] == text[p..start];
  }

  lemma SameEnds(u: string, a: string, b: string)
    ensures u + a == u + b <==> a == b
  {
    if u + a == u + b { assert (u + a)[|u|..] == a && (u + b)[|u|..] == b; }
  }

  /** A header above: its section is unchanged exactly when it ends above the replaced one, or the row
      was there already. */
  lemma AboveExact(next: string, h: string, other: string, text: string, row: string)
    requires IsRow(next, h, row) && Find(text, h) >= 0 && Find(text, other) >= 0
    requires Find(text, other) + |other| <= Find(text, h)
    ensures Unchanged(next, text, Upsert(next, h, text, row), other) <==>
            || Find(text, other) + |Section(next, text, other)| <= Find(text, h)
            || Section(next, text, h) == row + "\n"
  {
    if Find(text, other) + |Section(next, text, other)| <= Find(text, h) {
      assert Unchanged(next, text, Upsert(next, h, text, row), other) by {
        HeadKept(next, h, text, row);
        assert |next[1..]| == |next| - 1;
        SameSection(next, other, text, Upsert(next, h, text, row), Find(text, h) + |h|);
      }
    } else {
      QuotingSection(next, h, other, text);
      QuotingAfter(next, h, other, text, row);
      SameEnds(text[Find(text, other)..Find(text, h)], Section(next, text, h), row + "\n");
    }
  }

  // ---- replacing: a header below ----

  /** The new document down to the end of the row holds no header of the other release. */
  lemma NotInNew(h: string, other: string, a: string, row: string, b: string, k: nat)
    requires Clash(other, h) || EndsLine(a)
    requires other != "" && '\n' !in other && h <= row && Find(row, other) < 0
    requires Find(a + h, other) < 0 && k < |a| + |row| + 1
    ensures !MatchAt(a + (row + ("\n" + b)), other, k)
  {
    var out := a + (row + ("\n" + b));
    if k < |a| {
      if k + |other| <= |a| {
        SameMatch(out, a + h, k, other, |a|);
      } else if EndsLine(a) {
        NotAcross(out, other, k, |a| - 1);
      } else {
        NotOver(out, other, h, k, |a|);
      }
    } else {
      MatchAcross(a, row + ("\n" + b), other, k - |a|);
      if k - |a| + |other| <= |row| {
        SameMatch(row + ("\n" + b), row, k - |a|, other, |row|);
      } else {
        NotAcross(row + ("\n" + b), other, k - |a|, |row|);
      }
    }
  }

  /** The other release is found where it is found below the row. */
  lemma FoundInRest(h: string, other: string, a: string, row: string, b: string)
    requires Clash(other, h) || EndsLine(a)
    requires other != "" && '\n' !in other && h <= row && Find(row, other) < 0
    requires Find(a + h, other) < 0
    ensures var out := a + (row + ("\n" + b));
            && (Find(out, other) >= 0 <==> Find(b, other) >= 0)
            && (Find(b, other) >= 0 ==> Tail(out, other) == Tail(b, other))
  {
    var pre := a + (row + "\n");
    assert (a + (row + "\n")) + b == a + (row + ("\n" + b));
    forall k | 0 <= k < |pre| ensures !MatchAt(pre + b, other, k) {
      NotInNew(h, other, a, row, b, k);
    }
    FindSkip(pre, b, other);
    var i := Find(b, other);
    if i >= 0 {
      assert (pre + b)[|pre| + i..] == b[i..];
      assert Tail(pre + b, other) == b[i..];
    }
  }

  lemma OneLine(text: string, h: string, start: nat, i: int)
    requires MatchAt(text, h, start) && '\n' !in h
    ensures start <= i < start + |h| ==> text[i] != '\n'
  {
    if start <= i < start + |h| { assert text[start + (i - start)] == h[i - start] && h[i - start] in h; }
  }

  lemma NoneAbove(text: string, h: string, other: string)
    requires 0 <= Find(text, h) <= Find(text, other) && FoundApart(text, h, other) && '\n' !in h
    ensures Find(Before(text, h) + h, other) < 0
  {
    var start, p, s := Find(text, h), Find(text, other), Before(text, h) + h;
    assert Agree(text, s, start + |h|);
    OneLine(text, h, start, p - 1);
    forall k: nat ensures !MatchAt(s, other, k) {
      if Apart(h, other) && start <= k < start + |h| {
        NotInside(s, h, other, start, k);
      } else if k + |other| <= start + |h| {
        SameMatch(text, s, k, other, start + |h|);
      }
    }
    FindIs(s, other, -1);
  }

  /** What stands below a section is found in the text after it. */
  lemma FoundAfter(next: string, h: string, other: string, text: string)
    requires next != "" && Find(text, h) >= 0 && other != ""
    requires Find(text, h) + |Section(next, text, h)| <= Find(text, other)
    ensures Unchanged(next, text, After(next, text, h), other)
  {
    var e := Find(text, h) + |Section(next, text, h)|;
    assert After(next, text, h) == text[e..] by {
      RestFrom(next, text, Find(text, h));
    }
    FoundFrom(next, other, text, e);
  }

  lemma FoundFrom(next: string, other: string, text: string, e: nat)
    requires next != "" && e <= Find(text, other)
    ensures Unchanged(next, text, text[e..], other)
  {
    var p := Find(text, other);
    FindInTail(text, other, e);
    assert text[e..][p - e..] == text[p..];
    assert Tail(text[e..], other) == text[p..];
  }

  lemma RestFrom(next: string, text: string, start: nat)
    requires start <= |text| && next != ""
    ensures Rest(next, text[start..]) == text[start + |Opened(next, text[start..])|..]
  {}

  /** The text holds a header of the other release that opens `section`. */
  predicate Opens(next: string, text: string, other: string, section: string)
    requires next != ""
  {
    Find(text, other) >= 0 && Section(next, text, other) == section
  }

  /** A header below: its section is unchanged exactly when it starts where the replaced one has ended,
      or when the text after the replaced one holds another copy of it, and holds that one first. */
  lemma BelowExact(next: string, h: string, other: string, text: string, row: string)
    requires IsRow(next, h, row) && Headings(next, other) && Find(row, other) < 0
    requires 0 <= Find(text, h) <= Find(text, other) && FoundApart(text, h, other)
    ensures Unchanged(next, text, Upsert(next, h, text, row), other) <==>
            || Find(text, h) + |Section(next, text, h)| <= Find(text, other)
            || Opens(next, After(next, text, h), other, Section(next, text, other))
  {
    NoneAbove(text, h, other);
    assert Clash(other, h) || EndsLine(Before(text, h));
    FoundInRest(h, other, Before(text, h), row, After(next, text, h));
    if Find(text, h) + |Section(next, text, h)| <= Find(text, other) {
      FoundAfter(next, h, other, text);
    }
  }

  // ---- appending ----

  /** A match that ends in another character than a newline lies before the trailing newlines. */
  lemma BeforeBlanks(text: string, kept: nat, pat: string, k: nat)
    requires kept <= |text| && All(IsNewline, text[kept..]) && pat != "" && pat[|pat| - 1] != '\n'
    requires MatchAt(text, pat, k)
    ensures k + |pat| <= kept
  {
    assert text[k + (|pat| - 1)] == pat[|pat| - 1];
    LaterIsBlank(text, kept, k + |pat| - 1);
  }

  lemma LaterIsBlank(text: string, kept: nat, i: nat)
    requires kept <= |text| && All(IsNewline, text[kept..]) && i < |text|
    ensures i >= kept ==> text[i] == '\n'
  {
    if i >= kept { assert text[kept..][i - kept] in text[kept..]; }
  }

  lemma OtherHeaderKept(next: string, h: string, other: string, text: string, row: string)
    requires IsRow(next, h, row) && Headings(next, other) && Find(text, h) < 0 && Find(text, other) >= 0
    ensures var kept := TrimRight(IsNewline, text);
            var out := (kept + "\n\n") + row;
            && Agree(text, out, |kept|) && Upsert(next, h, text, row) == out
            && Find(text, other) + |other| <= |kept| && Find(out, other) == Find(text, other)
  {
    var kept := TrimRight(IsNewline, text);
    TrimRightSplit(IsNewline, text);
    BeforeBlanks(text, |kept|, other, Find(text, other));
    AppendedAt(next, h, text, row);
    FindAgree(text, (kept + "\n\n") + row, other, |kept|);
  }

  lemma EndsBeforeBlanks(next: string, text: string, kept: nat, p: nat)
    requires |next| > 1 && '\n' !in next[1..]
    requires kept <= |text| && All(IsNewline, text[kept..]) && p <= |text| && Find(text[p..], next) >= 0
    ensures p + Find(text[p..], next) + |next| <= kept
  {
    var k := p + Find(text[p..], next);
    MatchInTail(text, next, p, k - p);
    assert next[|next| - 1] == next[1..][|next| - 2];
    BeforeBlanks(text, kept, next, k);
  }

  /** A section that another heading ends is kept as it is. */
  lemma EarlierSectionKept(next: string, h: string, other: string, text: string, row: string)
    requires IsRow(next, h, row) && Headings(next, other) && Find(text, h) < 0 && Find(text, other) >= 0
    requires Find(Tail(text, other), next) >= 0
    ensures Unchanged(next, text, Upsert(next, h, text, row), other)
  {
    OtherHeaderKept(next, h, other, text, row);
    TrimRightSplit(IsNewline, text);
    var kept := |TrimRight(IsNewline, text)|;
    EndsBeforeBlanks(next, text, kept, Find(text, other));
    SameSection(next, other, text, Upsert(next, h, text, row), kept);
  }

  lemma NoneBeforeRow(next: string, h: string, u: string, blanks: string, row: string, k: nat)
    requires IsRow(next, h, row) && Find(u + blanks, next) < 0 && k < |u| + 1
    ensures !MatchAt((u + "\n") + ("\n" + row), next, k)
  {
    var t := (u + "\n") + ("\n" + row);
    if k + |next| <= |u| {
      SameMatch(t, u + blanks, k, next, |u|);
    } else {
      var i := if k < |u| then |u| else |u| + 1;
      assert next[i - k] == next[1..][i - k - 1];
      NotAcross(t, next, k, i);
    }
  }

  /** What the last section of a document becomes: up to its trailing newlines, and a blank line. */
  lemma LastOpens(next: string, h: string, u: string, blanks: string, row: string)
    requires IsRow(next, h, row) && Find(u + blanks, next) < 0
    ensures Opened(next, (u + "\n") + ("\n" + row)) == u + "\n\n"
  {
    var a, b := u + "\n", "\n" + row;
    forall k | 0 <= k < |a| ensures !MatchAt(a + b, next, k) {
      NoneBeforeRow(next, h, u, blanks, row, k);
    }
    FindSkip(a, b, next);
    NewlineThen(next, row);
    assert ((u + "\n") + ("\n" + row))[..|u| + 2] == u + "\n\n";
  }

  lemma KeptThenBlanks(text: string, p: nat)
    requires p <= |TrimRight(IsNewline, text)|
    ensures var kept := TrimRight(IsNewline, text);
            && |kept| <= |text| && text[p..] == kept[p..] + text[|kept|..]
            && (text[p..] == kept[p..] + "\n\n" <==> text == kept + "\n\n")
  {
    var kept := TrimRight(IsNewline, text);
    TrimRightSplit(IsNewline, text);
    var blanks := text[|kept|..];
    assert text[p..] == kept[p..] + blanks;
    SameEnds(kept[p..], blanks, "\n\n");
    SameEnds(kept, blanks, "\n\n");
  }

  /** The last section afterwards: the same up to its trailing newlines, and then a blank line. */
  lemma LastSectionAfter(next: string, h: string, other: string, text: string, row: string)
    requires IsRow(next, h, row) && Headings(next, other) && Find(text, h) < 0 && Find(text, other) >= 0
    requires Find(Tail(text, other), next) < 0
    ensures Find(text, other) <= |TrimRight(IsNewline, text)|
    ensures var out := Upsert(next, h, text, row);
            && Find(out, other) >= 0
            && Section(next, out, other) == TrimRight(IsNewline, text)[Find(text, other)..] + "\n\n"
  {
    var kept, p := TrimRight(IsNewline, text), Find(text, other);
    OtherHeaderKept(next, h, other, text, row);
    KeptThenBlanks(text, p);
    assert ((kept + "\n\n") + row)[p..] == (kept[p..] + "\n") + ("\n" + row);
    LastOpens(next, h, kept[p..], text[|kept|..], row);
  }

  /** Appending leaves a section as it is exactly when another heading ends it, or the document ends in
      exactly two newlines. */
  lemma AppendExact(next: string, h: string, other: string, text: string, row: string)
    requires IsRow(next, h, row) && Headings(next, other) && Find(text, h) < 0 && Find(text, other) >= 0
    ensures Unchanged(next, text, Upsert(next, h, text, row), other) <==>
            Find(Tail(text, other), next) >= 0 || text == TrimRight(IsNewline, text) + "\n\n"
  {
    if Find(Tail(text, other), next) >= 0 {
      EarlierSectionKept(next, h, other, text, row);
    } else {
      LastSectionAfter(next, h, other, text, row);
      KeptThenBlanks(text, Find(text, other));
    }
  }

  // ---- the exact condition ----

  /** The section of the other release is out of reach of the write: it ends above the replaced section,
      starts below it, or, when a row is appended, is closed by a heading or by two newlines. In the two
      further cases the write changes nothing: the replaced section is the row already, or the section
      that goes with it has a copy below. */
  predicate OutOfReach(next: string, h: string, other: string, text: string, row: string)
    requires next != "" && Find(text, other) >= 0
  {
    if Find(text, h) < 0 then
      Find(Tail(text, other), next) >= 0 || text == TrimRight(IsNewline, text) + "\n\n"
    else if Find(text, other) < Find(text, h) then
      Find(text, other) + |Section(next, text, other)| <= Find(text, h) || Section(next, text, h) == row + "\n"
    else
      || Find(text, h) + |Section(next, text, h)| <= Find(text, other)
      || Opens(next, After(next, text, h), other, Section(next, text, other))
  }

  /** Writing a row leaves another release's section as it was exactly when it is out of reach. */
  lemma OthersExact(next: string, h: string, other: string, text: string, row: string)
    requires IsRow(next, h, row) && Headings(next, other) && Find(row, other) < 0
    requires Find(text, other) >= 0 && (Find(text, h) >= 0 ==> FoundApart(text, h, other))
    ensures Unchanged(next, text, Upsert(next, h, text, row), other) <==> OutOfReach(next, h, other, text, row)
  {
    if Find(text, h) < 0 {
      AppendExact(next, h, other, text, row);
    } else if Find(text, other) < Find(text, h) {
      EndsAbove(text, h, other);
      AboveExact(next, h, other, text, row);
    } else {
      BelowExact(next, h, other, text, row);
    }
  }

  // ---- headers on lines of their own ----

  /** The section that starts at `p` ends no later than a heading line at `q`. */
  lemma EndsByHeading(next: string, text: string, p: nat, q: nat, h: string)
    requires Headings(next, h) && p < q <= |text| && LineStart(text, q) && MatchAt(text, h, q)
    ensures p + |Opened(next, text[p..])| <= q
  {
    assert MatchAt(text, next, q - 1) by {
      forall j | 0 <= j < |next| ensures text[q - 1 + j] == next[j] {
        if j > 0 { assert next[j] == next[1..][j - 1] == h[j - 1] == text[q + (j - 1)]; }
      }
    }
    MatchInTail(text, next, p, q - 1 - p);
    assert MatchAt(text[p..], next, q - 1 - p);
  }

  lemma LaterHeaderEnds(next: string, h: string, other: string, text: string, row: string)
    requires Headings(next, h) && Headings(next, other) && Find(text, h) >= 0 && Find(text, other) >= 0
    requires Find(text, h) != Find(text, other)
    requires var p, start := Find(text, other), Find(text, h); LineStart(text, if p < start then start else p)
    ensures OutOfReach(next, h, other, text, row)
  {
    var p, start := Find(text, other), Find(text, h);
    if p < start {
      EndsByHeading(next, text, p, start, h);
    } else {
      EndsByHeading(next, text, start, p, other);
    }
  }

  /** For any two headers that start their lines, also of names with blanks in them. */
  lemma OthersUnchanged(next: string, h: string, other: string, text: string, row: string)
    requires IsRow(next, h, row) && Headings(next, other) && Find(row, other) < 0
    requires Find(text, h) >= 0 && Find(text, other) >= 0 && Find(text, h) != Find(text, other)
    requires LineStart(text, Find(text, h)) && LineStart(text, Find(text, other))
    ensures Unchanged(next, text, Upsert(next, h, text, row), other)
  {
    OthersExact(next, h, other, text, row);
    LaterHeaderEnds(next, h, other, text, row);
  }
}
