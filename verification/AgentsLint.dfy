/** The marker lint of agent files: comment stripping, marker sections and the substance floor. */
module AgentsLint {
  import opened Text
  import opened Search
  import opened MarkerSections

  const OPENER := "<!--"
  const CLOSER := "-->"

  // ---- comment stripping ----

  /** The line without its first complete span, None when the two searches find none. */
  function CutSpan(s: string): (r: Option<string>)
    ensures r.Some? ==> |r.value| < |s|
  {
    var a := Find(s, OPENER);
    if a < 0 then None else
      var e := FindFrom(s, CLOSER, a + 4);
      if e < 0 then None else Some(s[..a] + s[e + 3..])
  }

  function StripComments(s: string): string
    decreases |s|
  {
    match CutSpan(s) case None => s case Some(t) => StripComments(t)
  }

  method StripInlineHtmlComments(line: string) returns (out: string)
    ensures out == StripComments(line)
  {
    out := line;
    while true
      invariant StripComments(out) == StripComments(line)
      decreases |out|
    {
      var s := Find(out, OPENER);
      if s == -1 {
        return;
      }
      var e := FindFrom(out, CLOSER, s + 4);
      if e == -1 {
        return;
      }
      out := out[..s] + out[e + 3..];
    }
  }

  /** An opener at `i` with a closer after it at `j`. */
  predicate Span(s: string, i: nat, j: nat) {
    i + 4 <= j && MatchAt(s, OPENER, i) && MatchAt(s, CLOSER, j)
  }

  predicate HasSpan(s: string) {
    exists i: nat, j: nat | i <= |s| && j <= |s| :: Span(s, i, j)
  }

  /** The two searches of the loop find a span exactly when there is one. */
  lemma SearchFindsSpan(s: string)
    ensures CutSpan(s).Some? <==> HasSpan(s)
  {
    var a := Find(s, OPENER);
    if CutSpan(s).Some? {
      assert Span(s, a, FindFrom(s, CLOSER, a + 4));
    }
  }

  lemma {:induction false} NothingToCut(s: string)
    ensures CutSpan(StripComments(s)).None?
    decreases |s|
  {
    if CutSpan(s).Some? { NothingToCut(CutSpan(s).value); }
  }

  lemma {:induction false} StripShortens(s: string)
    ensures |StripComments(s)| <= |s| && (CutSpan(s).Some? ==> |StripComments(s)| < |s|)
    decreases |s|
  {
    if CutSpan(s).Some? { StripShortens(CutSpan(s).value); }
  }

  /** No complete span is left, also when removing one brings another together; a line is left alone
      exactly when it has none; and stripping twice is stripping once. */
  lemma StripExact(s: string)
    ensures !HasSpan(StripComments(s))
    ensures StripComments(s) == s <==> !HasSpan(s)
    ensures StripComments(StripComments(s)) == StripComments(s)
  {
    NothingToCut(s);
    StripShortens(s);
    SearchFindsSpan(s);
    SearchFindsSpan(StripComments(s));
  }

  // ---- what stripping keeps ----

  /** Where the parts of a line with a comment lie in it. */
  lemma ParenSplit(s: string, a: string, c: string, b: string)
    requires s == a + (OPENER + (c + (CLOSER + b)))
    ensures |s| == |a| + |c| + |b| + 7 && s[..|a|] == a
    ensures s[|a| + 4..] == c + (CLOSER + b) && s[|a| + |c| + 7..] == b
  {
    var t := c + (CLOSER + b);
    assert (OPENER + t)[4..] == t;
    assert s[|a| + 4..] == t;
    assert t[|c| + 3..] == b;
    assert s[|a| + |c| + 7..] == t[|c| + 3..];
  }

  lemma StripStep(s: string, t: string)
    requires CutSpan(s) == Some(t)
    ensures StripComments(s) == StripComments(t)
  {}

  lemma FirstSpanCut(s: string, p: nat, n: nat, t: string)
    requires p + n + 7 <= |s| && t == s[..p] + s[p + n + 7..]
    requires Find(s, OPENER) == p && Find(s[p + 4..], CLOSER) == n
    ensures StripComments(s) == StripComments(t)
  {
    FindFromIs(s, CLOSER, p + 4);
    StripStep(s, t);
  }

  /** The first comment of a line is cut out and nothing else: the text before its opener and the text after
      its closer stay, and are stripped together. */
  lemma CommentCutOut(s: string, a: string, c: string, b: string)
    requires s == a + (OPENER + (c + (CLOSER + b)))
    requires Find(s, OPENER) == |a| && Find(c + (CLOSER + b), CLOSER) == |c|
    ensures StripComments(s) == StripComments(a + b)
  {
    ParenSplit(s, a, c, b);
    FirstSpanCut(s, |a|, |c|, a + b);
  }

  /** The comment after a text without an opener is cut out. */
  lemma PlainCutOut(f: string, c: string, b: string)
    requires Find(f, OPENER) < 0 && Find(c, CLOSER) < 0
    ensures StripComments(f + (OPENER + (c + (CLOSER + b)))) == StripComments(f + b)
  {
    FindBehind(f, OPENER, c + (CLOSER + b));
    FindEndBehind(c, CLOSER, b);
    CommentCutOut(f + (OPENER + (c + (CLOSER + b))), f, c, b);
  }

  /** Texts with a comment after each, and a last text. */
  function Commented(parts: seq<(string, string)>, last: string): string {
    if parts == [] then last
    else parts[0].0 + (OPENER + (parts[0].1 + (CLOSER + Commented(parts[1..], last))))
  }

  function Texts(parts: seq<(string, string)>, last: string): string {
    if parts == [] then last else parts[0].0 + Texts(parts[1..], last)
  }

  /** A line of texts and comments strips to its texts, whatever the comments say, when no comment holds a
      closer, the texts before the last comment hold no opener and no span is left among the texts. */
  lemma {:induction false} TextsAreKept(front: string, parts: seq<(string, string)>, last: string)
    requires forall p | p in parts :: Find(p.1, CLOSER) < 0
    requires parts == [] || Find(front + Texts(parts, ""), OPENER) < 0
    requires !HasSpan(front + Texts(parts, last))
    ensures StripComments(front + Commented(parts, last)) == front + Texts(parts, last)
    decreases |parts|
  {
    if parts == [] {
      SearchFindsSpan(front + last);
    } else {
      var x, c, b := front + parts[0].0, parts[0].1, Commented(parts[1..], last);
      assert parts[0] in parts && forall p | p in parts[1..] :: p in parts;
      FirstPart(front, parts, last);
      FindInPrefix(x, Texts(parts[1..], ""), OPENER);
      PlainCutOut(x, c, b);
      TextsAreKept(x, parts[1..], last);
    }
  }

  lemma FirstPart(front: string, parts: seq<(string, string)>, last: string)
    requires parts != []
    ensures var (x, c, b) := (front + parts[0].0, parts[0].1, Commented(parts[1..], last));
            && front + Commented(parts, last) == x + (OPENER + (c + (CLOSER + b)))
            && front + Texts(parts, last) == x + Texts(parts[1..], last)
            && front + Texts(parts, "") == x + Texts(parts[1..], "")
  {
    var t, u := parts[0].0, OPENER + (parts[0].1 + (CLOSER + Commented(parts[1..], last)));
    assert front + (t + u) == (front + t) + u;
    assert front + (t + Texts(parts[1..], last)) == (front + t) + Texts(parts[1..], last);
    assert front + (t + Texts(parts[1..], "")) == (front + t) + Texts(parts[1..], "");
  }

  // ---- an opener among the texts ----

  lemma Regroup(f: string, o: string, u: string, w: string)
    ensures (f + (o + u)) + w == f + (o + (u + w))
  {}

  /** A text cut at its first opener, and at the closer after it. */
  lemma AtOpener(x: string)
    requires Find(x, OPENER) >= 0
    ensures var p := Find(x, OPENER);
            p + 4 <= |x| && x == x[..p] + (OPENER + x[p + 4..]) && Find(x[..p], OPENER) < 0
  {
    var p := Find(x, OPENER);
    MatchIsSlice(x, OPENER, p);
    assert x == x[..p] + (x[p..p + 4] + x[p + 4..]);
    if Find(x[..p], OPENER) >= 0 {
      SameMatch(x, x[..p], Find(x[..p], OPENER), OPENER, p);
    }
  }

  lemma AtCloser(x: string)
    requires Find(x, CLOSER) >= 0
    ensures var n := Find(x, CLOSER);
            n + 3 <= |x| && x == x[..n] + (CLOSER + x[n + 3..]) && Find(x[..n], CLOSER) < 0
  {
    var n := Find(x, CLOSER);
    MatchIsSlice(x, CLOSER, n);
    assert x == x[..n] + (x[n..n + 3] + x[n + 3..]);
    if Find(x[..n], CLOSER) >= 0 {
      SameMatch(x, x[..n], Find(x[..n], CLOSER), CLOSER, n);
    }
  }

  /** A span in the text in front is cut whatever follows. */
  lemma CutInFront(f: string, c: string, v: string, w: string)
    requires Find(f, OPENER) < 0 && Find(c, CLOSER) < 0
    ensures StripComments((f + (OPENER + (c + (CLOSER + v)))) + w) == StripComments((f + v) + w)
  {
    Regroup(f, OPENER, c + (CLOSER + v), w);
    assert (c + (CLOSER + v)) + w == c + (CLOSER + (v + w));
    PlainCutOut(f, c, v + w);
    assert f + (v + w) == (f + v) + w;
  }

  /** An opener in front that nothing closes takes the comment's closer. */
  lemma CloserTaken(f: string, u: string, c: string, b: string)
    requires Find(f, OPENER) < 0 && Find(u, CLOSER) < 0 && Find(OPENER + c, CLOSER) < 0
    ensures StripComments((f + (OPENER + u)) + (OPENER + (c + (CLOSER + b)))) == StripComments(f + b)
  {
    Regroup(f, OPENER, u, OPENER + (c + (CLOSER + b)));
    Regroup(u, OPENER, c, CLOSER + b);
    JointLacks(u, OPENER + c, CLOSER);
    PlainCutOut(f, u + (OPENER + c), b);
  }

  /** Whatever stands in front of a comment, the comment goes; of the text in front a part stays, all of it
      only if it holds no opener. */
  lemma {:induction false} CommentGoes(x: string, c: string, b: string) returns (y: string)
    requires Find(OPENER + c, CLOSER) < 0
    ensures StripComments(x + (OPENER + (c + (CLOSER + b)))) == StripComments(y + b)
    ensures if Find(x, OPENER) < 0 then y == x else |y| < |x|
    decreases |x|
  {
    var p := Find(x, OPENER);
    if p < 0 {
      FindInSuffix(OPENER, c, CLOSER);
      PlainCutOut(x, c, b);
      y := x;
    } else {
      AtOpener(x);
      var f, u := x[..p], x[p + 4..];
      var n := Find(u, CLOSER);
      if n < 0 {
        CloserTaken(f, u, c, b);
        y := f;
      } else {
        AtCloser(u);
        CutInFront(f, u[..n], u[n + 3..], OPENER + (c + (CLOSER + b)));
        y := CommentGoes(f + u[n + 3..], c, b);
      }
    }
  }

  /** No comment holds a closer, not even together with its opener's dashes. */
  predicate Proper(parts: seq<(string, string)>) {
    forall p | p in parts :: Find(OPENER + p.1, CLOSER) < 0
  }

  lemma {:induction false} NoLongerThanTexts(front: string, parts: seq<(string, string)>, last: string)
    requires Proper(parts)
    ensures |StripComments(front + Commented(parts, last))| <= |front| + |Texts(parts, last)|
    decreases |parts|
  {
    if parts == [] {
      StripShortens(front + last);
    } else {
      FirstPart(front, parts, last);
      var y := CommentGoes(front + parts[0].0, parts[0].1, Commented(parts[1..], last));
      NoLongerThanTexts(y, parts[1..], last);
    }
  }

  lemma {:induction false} OpenerLosesText(front: string, parts: seq<(string, string)>, last: string)
    requires Proper(parts) && parts != [] && Find(front + Texts(parts, ""), OPENER) >= 0
    ensures |StripComments(front + Commented(parts, last))| < |front| + |Texts(parts, last)|
    decreases |parts|
  {
    var x := front + parts[0].0;
    FirstPart(front, parts, last);
    var y := CommentGoes(x, parts[0].1, Commented(parts[1..], last));
    if Find(x, OPENER) >= 0 || parts[1..] == [] {
      assert parts[1..] == [] ==> x + Texts(parts[1..], "") == x;
      NoLongerThanTexts(y, parts[1..], last);
    } else {
      OpenerLosesText(x, parts[1..], last);
    }
  }

  /** When a line of texts and comments strips to exactly its texts: no opener stands among the texts before
      the last comment, and the texts put together hold no span. */
  lemma TextsAreKeptExactly(parts: seq<(string, string)>, last: string)
    requires Proper(parts) && parts != []
    ensures StripComments(Commented(parts, last)) == Texts(parts, last)
            <==> (Find(Texts(parts, ""), OPENER) < 0 && !HasSpan(Texts(parts, last)))
  {
    forall p | p in parts ensures Find(p.1, CLOSER) < 0 { FindInSuffix(OPENER, p.1, CLOSER); }
    assert "" + Commented(parts, last) == Commented(parts, last) && "" + Texts(parts, last) == Texts(parts, last);
    assert "" + Texts(parts, "") == Texts(parts, "");
    StripExact(Commented(parts, last));
    if Find(Texts(parts, ""), OPENER) >= 0 {
      OpenerLosesText("", parts, last);
    } else if !HasSpan(Texts(parts, last)) {
      TextsAreKept("", parts, last);
    }
  }

  lemma NoSpanWithout(s: string)
    requires '>' !in s
    ensures !HasSpan(s) && StripComments(s) == s
  {
    Lacks(s, CLOSER, 2);
    SearchFindsSpan(s);
  }

  /** So that no span is among the texts is not enough: here an opener among them takes the comment's closer. */
  lemma OpenerTakesCloser()
    ensures !HasSpan("<!-- xy") && StripComments("<!-- x" + (OPENER + ("c" + (CLOSER + "y")))) == "y"
  {
    NoSpanWithout("<!-- xy");
    NoSpanWithout("y");
    Lacks("", OPENER, 0);
    Lacks(" x", CLOSER, 0);
    Lacks(OPENER + "c", CLOSER, 2);
    CloserTaken("", " x", "c", "y");
    assert "" + (OPENER + " x") == "<!-- x" && "" + "y" == "y";
  }

  // ---- lines ----

  function Name(e: Element): string {
    match e
    case PlanToExecute => "plan-to-execute"
    case StatusSync => "status-sync"
    case ToolDiscovery => "tool-discovery"
  }

  /** What follows the element's name closes the marker. */
  predicate ClosesMarker(s: string) {
    var r := TrimLeft(IsSpace, s);
    CLOSER <= r && All(IsSpace, r[3..])
  }

  /** What stands behind the comment opener and the label. */
  function Labelled(line: string): Option<string> {
    var r0 := TrimLeft(IsSpace, line);
    if !(OPENER <= r0) then None else
      var r1 := TrimLeft(IsSpace, r0[4..]);
      if !("contract:" <= r1) then None else Some(TrimLeft(IsSpace, r1[9..]))
  }

  predicate Names(e: Element, r: string) { Name(e) <= r && ClosesMarker(r[|Name(e)|..]) }

  function MarkerOf(line: string): Option<Element> {
    match Labelled(line)
    case None => None
    case Some(r) =>
      if Names(PlanToExecute, r) then Some(PlanToExecute)
      else if Names(StatusSync, r) then Some(StatusSync)
      else if Names(ToolDiscovery, r) then Some(ToolDiscovery)
      else None
  }

  predicate IsFence(line: string) {
    var r := TrimLeft(IsSpace, line);
    "```" <= r || "~~~" <= r
  }

  predicate Substantive(line: string) { Strip(StripComments(line)) != "" }

  // ---- the lines the lint looks for ----

  predicate Blank(s: string) { All(IsSpace, s) }

  lemma LeadingBlanks(s: string)
    ensures Blank(s[..Run(IsSpace, s)]) && s == s[..Run(IsSpace, s)] + TrimLeft(IsSpace, s)
  {
    var n := Run(IsSpace, s);
    forall i | 0 <= i < n ensures IsSpace(s[i]) { InRun(IsSpace, s, i); }
  }

  lemma BehindBlanks(a: string, lit: string, rest: string)
    requires Blank(a) && lit != "" && !IsSpace(lit[0])
    ensures TrimLeft(IsSpace, a + (lit + rest)) == lit + rest && lit <= lit + rest && (lit + rest)[|lit|..] == rest
  {
    RunIs(IsSpace, a, lit + rest);
  }

  lemma PrefixSplits(lit: string, s: string)
    requires lit <= s
    ensures s == lit + s[|lit|..]
  {}

  predicate Closing(s: string, a: string, b: string) { Blank(a) && Blank(b) && s == a + (CLOSER + b) }

  lemma ClosingExact(s: string)
    ensures ClosesMarker(s) <==> exists a, b :: Closing(s, a, b)
  {
    LeadingBlanks(s);
    var r := TrimLeft(IsSpace, s);
    if ClosesMarker(s) {
      PrefixSplits(CLOSER, r);
      assert Closing(s, s[..Run(IsSpace, s)], r[3..]);
    }
    forall a, b | Closing(s, a, b) ensures ClosesMarker(s) { BehindBlanks(a, CLOSER, b); }
  }

  /** Blanks, the opener, blanks, the label, blanks, and then `r`. */
  predicate LabelLine(line: string, a: string, b: string, c: string, r: string) {
    Blank(a) && Blank(b) && Blank(c) && line == a + (OPENER + (b + ("contract:" + (c + r))))
  }

  lemma LabelRead(line: string, a: string, x: string, b: string, y: string)
    requires Blank(a) && Blank(b) && line == a + (OPENER + x) && x == b + ("contract:" + y)
    ensures Labelled(line) == Some(TrimLeft(IsSpace, y))
  {
    BehindBlanks(a, OPENER, x);
    BehindBlanks(b, "contract:", y);
  }

  lemma LabelWritten(line: string) returns (a: string, b: string, c: string)
    requires Labelled(line).Some?
    ensures LabelLine(line, a, b, c, Labelled(line).value)
  {
    var r0 := TrimLeft(IsSpace, line);
    var x := r0[4..];
    var r1 := TrimLeft(IsSpace, x);
    LeadingBlanks(line);
    LeadingBlanks(x);
    LeadingBlanks(r1[9..]);
    PrefixSplits(OPENER, r0);
    PrefixSplits("contract:", r1);
    a, b, c := line[..Run(IsSpace, line)], x[..Run(IsSpace, x)], r1[9..][..Run(IsSpace, r1[9..])];
  }

  lemma OneName(e: Element, f: Element, t: string)
    ensures Names(f, Name(e) + t) <==> e == f && ClosesMarker(t)
    ensures !IsSpace(Name(e)[0])
  {
    assert (Name(e) + t)[0] == Name(e)[0] && (Name(e) + t)[|Name(e)|..] == t;
    assert e != f ==> Name(f)[0] != Name(e)[0];
  }

  /** A line of the label, the element's name and what closes the marker. */
  predicate MarkerLine(line: string, e: Element, a: string, b: string, c: string, t: string) {
    LabelLine(line, a, b, c, Name(e) + t) && ClosesMarker(t)
  }

  lemma MarkerNamed(line: string, e: Element, t: string)
    requires Labelled(line) == Some(Name(e) + t) && ClosesMarker(t)
    ensures MarkerOf(line) == Some(e)
  {
    OneName(e, PlanToExecute, t);
    OneName(e, StatusSync, t);
    OneName(e, ToolDiscovery, t);
  }

  lemma MarkerRead(line: string, e: Element, a: string, b: string, c: string, t: string)
    requires MarkerLine(line, e, a, b, c, t)
    ensures MarkerOf(line) == Some(e)
  {
    LabelRead(line, a, b + ("contract:" + (c + (Name(e) + t))), b, c + (Name(e) + t));
    OneName(e, e, t);
    RunIs(IsSpace, c, Name(e) + t);
    MarkerNamed(line, e, t);
  }

  lemma MarkerIsNamed(line: string, e: Element)
    requires MarkerOf(line) == Some(e)
    ensures Labelled(line).Some? && Names(e, Labelled(line).value)
  {}

  lemma NameFirst(line: string, a: string, b: string, c: string, r: string, e: Element)
    requires LabelLine(line, a, b, c, r) && Names(e, r)
    ensures MarkerLine(line, e, a, b, c, r[|Name(e)|..])
  {
    PrefixSplits(Name(e), r);
  }

  lemma MarkerWritten(line: string, e: Element) returns (a: string, b: string, c: string, t: string)
    requires MarkerOf(line) == Some(e)
    ensures MarkerLine(line, e, a, b, c, t)
  {
    MarkerIsNamed(line, e);
    var r := Labelled(line).value;
    t := r[|Name(e)|..];
    a, b, c := LabelWritten(line);
    NameFirst(line, a, b, c, r, e);
  }

  /** A line is the marker of an element exactly when it reads so from end to end. */
  lemma MarkerExact(line: string, e: Element)
    ensures MarkerOf(line) == Some(e) <==> exists a, b, c, t :: MarkerLine(line, e, a, b, c, t)
  {
    if MarkerOf(line) == Some(e) {
      var a, b, c, t := MarkerWritten(line, e);
    } else if a, b, c, t :| MarkerLine(line, e, a, b, c, t) {
      MarkerRead(line, e, a, b, c, t);
    }
  }

  lemma ElementNames()
    ensures Name(PlanToExecute) == "plan-to-execute" && Name(StatusSync) == "status-sync"
    ensures Name(ToolDiscovery) == "tool-discovery"
  {}

  predicate FenceLine(line: string, a: string, mark: string, t: string) {
    Blank(a) && mark in ["```", "~~~"] && line == a + (mark + t)
  }

  /** A fence line is blanks, three backticks or three tildes, and anything. */
  lemma FenceExact(line: string)
    ensures IsFence(line) <==> exists a, mark, t :: FenceLine(line, a, mark, t)
  {
    var r := TrimLeft(IsSpace, line);
    if IsFence(line) {
      var mark := if "```" <= r then "```" else "~~~";
      LeadingBlanks(line);
      PrefixSplits(mark, r);
      assert FenceLine(line, line[..Run(IsSpace, line)], mark, r[3..]);
    }
    forall a, mark, t | FenceLine(line, a, mark, t) ensures IsFence(line) {
      assert mark == "```" || mark == "~~~";
      BehindBlanks(a, mark, t);
    }
  }

  /** A line counts exactly when something other than blanks is left of it without its comments. */
  lemma SubstantiveExact(line: string)
    ensures Substantive(line) <==> exists c | c in StripComments(line) :: !IsSpace(c)
  {
    var s := StripComments(line);
    var r := TrimLeft(IsSpace, s);
    LeadingBlanks(s);
    TrimRightSplit(IsSpace, r);
    if Strip(s) != "" {
      assert r[0] in s && !IsSpace(r[0]);
    } else {
      assert Blank(r);
    }
  }

  const READER := Reader(IsFence, MarkerOf, Substantive)

  /** `lint_text` on the lines of one file. */
  method LintFile(lines: seq<string>) returns (violations: seq<Violation>)
    ensures violations == Lint(READER, lines)
  {
    violations := LintText(READER, lines);
  }
}
