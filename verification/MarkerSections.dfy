/** Marker sections and the substance floor, for any way of reading a line. */
module MarkerSections {

  datatype Option<+T> = None | Some(value: T)

  datatype Element = PlanToExecute | StatusSync | ToolDiscovery

  const MIN_CONTENT_LINES := 2

  /** How a line reads: a fence, a marker of an element, text that counts. */
  datatype Reader = Reader(fence: string -> bool, marker: string -> Option<Element>, substantive: string -> bool)

  /** Whether the lines end inside a fenced block. */
  predicate Fenced(r: Reader, lines: seq<string>) {
    lines != [] && (Fenced(r, lines[..|lines| - 1]) != r.fence(lines[|lines| - 1]))
  }

  function FenceLines(r: Reader, lines: seq<string>): nat {
    if lines == [] then 0 else (if r.fence(lines[0]) then 1 else 0) + FenceLines(r, lines[1..])
  }

  lemma {:induction false} FenceLinesSnoc(r: Reader, lines: seq<string>, x: string)
    ensures FenceLines(r, lines + [x]) == FenceLines(r, lines) + (if r.fence(x) then 1 else 0)
    decreases |lines|
  {
    if lines == [] {
      assert lines + [x] == [x];
    } else {
      assert (lines + [x])[1..] == lines[1..] + [x];
      FenceLinesSnoc(r, lines[1..], x);
    }
  }

  /** Lines end inside a fenced block exactly when they hold an odd number of fences. */
  lemma {:induction false} FencedIsOdd(r: Reader, lines: seq<string>)
    ensures Fenced(r, lines) <==> FenceLines(r, lines) % 2 == 1
    decreases |lines|
  {
    if lines != [] {
      var init := lines[..|lines| - 1];
      assert lines == init + [lines[|lines| - 1]];
      FenceLinesSnoc(r, init, lines[|lines| - 1]);
      FencedIsOdd(r, init);
    }
  }

  function MarkerAt(r: Reader, lines: seq<string>, i: nat): Option<Element>
    requires i < |lines|
  {
    if r.fence(lines[i]) || Fenced(r, lines[..i]) then None else r.marker(lines[i])
  }

  // ---- a document as the lint sees it: which lines are markers, and which count ----

  datatype Doc = Doc(size: nat, mark: nat -> Option<Element>, counts: nat -> bool)

  function DocOf(r: Reader, lines: seq<string>): Doc {
    Doc(|lines|,
        (i: nat) => if i < |lines| then MarkerAt(r, lines, i) else None,
        (i: nat) => i < |lines| && r.substantive(lines[i]))
  }

  /** The marked lines before `n`, in order. */
  function Markers(d: Doc, n: nat): seq<(nat, Element)> {
    if n == 0 then [] else
      Markers(d, n - 1) + (match d.mark(n - 1) case None => [] case Some(e) => [(n - 1, e)])
  }

  /** The first marker line from `i` on, or the end. */
  function NextMarker(d: Doc, i: nat): (j: nat)
    requires i <= d.size
    ensures i <= j <= d.size
    decreases d.size - i
  {
    if i == d.size || d.mark(i).Some? then i else NextMarker(d, i + 1)
  }

  function Substance(d: Doc, a: nat, b: nat): nat
    requires a <= b
    decreases b
  {
    if a == b then 0 else Substance(d, a, b - 1) + (if d.counts(b - 1) then 1 else 0)
  }

  /** Substantive lines between the marker at `i` and the next one. */
  function SectionSubstance(d: Doc, i: nat): nat
    requires i < d.size
  {
    Substance(d, i + 1, NextMarker(d, i + 1))
  }

  datatype Violation = MissingMarker(e: Element) | Hollow(e: Element, line: nat, found: nat)

  /** What line `i` adds to the report. */
  function HollowAt(d: Doc, e: Element, i: nat): seq<Violation>
    requires i < d.size
  {
    if d.mark(i) == Some(e) && SectionSubstance(d, i) < MIN_CONTENT_LINES
    then [Hollow(e, i, SectionSubstance(d, i))] else []
  }

  function Hollows(d: Doc, e: Element, n: nat): seq<Violation>
    requires n <= d.size
  {
    if n == 0 then [] else Hollows(d, e, n - 1) + HollowAt(d, e, n - 1)
  }

  predicate HasMarker(d: Doc, e: Element) { exists i | 0 <= i < d.size :: d.mark(i) == Some(e) }

  function LintElement(d: Doc, e: Element): seq<Violation> {
    if HasMarker(d, e) then Hollows(d, e, d.size) else [MissingMarker(e)]
  }

  function LintDoc(d: Doc): seq<Violation> {
    LintElement(d, PlanToExecute) + (LintElement(d, StatusSync) + LintElement(d, ToolDiscovery))
  }

  function Lint(r: Reader, lines: seq<string>): seq<Violation> { LintDoc(DocOf(r, lines)) }

  /** A line marks an element exactly when it reads as its marker, is no fence and stands in no fenced block. */
  lemma MarkedExactly(r: Reader, lines: seq<string>, i: nat, e: Element)
    ensures DocOf(r, lines).mark(i) == Some(e) <==>
            i < |lines| && !r.fence(lines[i]) && FenceLines(r, lines[..i]) % 2 == 0 && r.marker(lines[i]) == Some(e)
    ensures DocOf(r, lines).counts(i) <==> i < |lines| && r.substantive(lines[i])
    ensures DocOf(r, lines).size == |lines|
  {
    if i < |lines| { FencedIsOdd(r, lines[..i]); }
  }

  // ---- the lint in place ----

  method MarkerSpans(r: Reader, lines: seq<string>) returns (spans: seq<(nat, Element)>)
    ensures spans == Markers(DocOf(r, lines), |lines|)
  {
    spans := [];
    var fenced := false;
    for i := 0 to |lines|
      invariant spans == Markers(DocOf(r, lines), i) && fenced == Fenced(r, lines[..i])
    {
      assert DocOf(r, lines).mark(i) == MarkerAt(r, lines, i);
      assert lines[..i + 1][..i] == lines[..i];
      if r.fence(lines[i]) {
        fenced := !fenced;
        continue;
      }
      if fenced {
        continue;
      }
      var m := r.marker(lines[i]);
      if m.Some? {
        spans := spans + [(i, m.value)];
      }
    }
  }

  lemma {:induction false} MarkersAreMarkers(d: Doc, n: nat, i: nat, e: Element)
    ensures (i, e) in Markers(d, n) <==> i < n && d.mark(i) == Some(e)
    decreases n
  {
    if n > 0 { MarkersAreMarkers(d, n - 1, i, e); }
  }

  lemma {:induction false} NextMarkerIs(d: Doc, i: nat)
    requires i <= d.size
    ensures forall k | i <= k < NextMarker(d, i) :: d.mark(k).None?
    ensures NextMarker(d, i) < d.size ==> d.mark(NextMarker(d, i)).Some?
    decreases d.size - i
  {
    if i < d.size && d.mark(i).None? { NextMarkerIs(d, i + 1); }
  }

  lemma ListedIsMarker(d: Doc, spans: seq<(nat, Element)>, k: nat)
    requires spans == Markers(d, d.size) && k < |spans|
    ensures spans[k].0 < d.size && d.mark(spans[k].0) == Some(spans[k].1)
  {
    MarkersAreMarkers(d, d.size, spans[k].0, spans[k].1);
    assert spans[k] in spans;
  }

  /** The least marker line after `start` in the list of spans, or the end. */
  method SectionEnd(d: Doc, spans: seq<(nat, Element)>, start: nat) returns (end: nat)
    requires spans == Markers(d, d.size) && start < d.size
    ensures end == NextMarker(d, start + 1)
  {
    end := d.size;
    for k := 0 to |spans|
      invariant start < end <= d.size
      invariant end < d.size ==> d.mark(end).Some?
      invariant forall j | 0 <= j < k :: spans[j].0 > start ==> end <= spans[j].0
    {
      if spans[k].0 > start && spans[k].0 < end {
        ListedIsMarker(d, spans, k);
        end := spans[k].0;
      }
    }
    LeastIsNext(d, spans, start, end);
  }

  lemma LeastIsNext(d: Doc, spans: seq<(nat, Element)>, start: nat, end: nat)
    requires spans == Markers(d, d.size) && start < end <= d.size && (end < d.size ==> d.mark(end).Some?)
    requires forall j | 0 <= j < |spans| :: spans[j].0 > start ==> end <= spans[j].0
    ensures end == NextMarker(d, start + 1)
  {
    NextMarkerIs(d, start + 1);
    var next := NextMarker(d, start + 1);
    if next < d.size {
      MarkersAreMarkers(d, d.size, next, d.mark(next).value);
      assert (next, d.mark(next).value) in spans;
      assert end <= next;
    }
  }

  method CountSubstance(r: Reader, lines: seq<string>, start: nat, end: nat) returns (content: nat)
    requires start <= end <= |lines|
    ensures content == Substance(DocOf(r, lines), start, end)
  {
    content := 0;
    for j := start to end
      invariant content == Substance(DocOf(r, lines), start, j)
    {
      if r.substantive(lines[j]) {
        content := content + 1;
      }
    }
  }

  /** One occurrence of a marker: its section is hollow when fewer lines count than the floor. */
  method LintMarker(r: Reader, lines: seq<string>, spans: seq<(nat, Element)>, k: nat)
    returns (violations: seq<Violation>)
    requires spans == Markers(DocOf(r, lines), |lines|) && k < |spans|
    ensures spans[k].0 < |lines| && violations == HollowAt(DocOf(r, lines), spans[k].1, spans[k].0)
  {
    var d := DocOf(r, lines);
    ListedIsMarker(d, spans, k);
    var start := spans[k].0;
    var end := SectionEnd(d, spans, start);
    var content := CountSubstance(r, lines, start + 1, end);
    violations := if content < MIN_CONTENT_LINES then [Hollow(spans[k].1, start, content)] else [];
  }

  /** The contributions of the listed markers of one element. */
  function CollectIn(adds: nat -> seq<Violation>, e: Element, spans: seq<(nat, Element)>): seq<Violation> {
    if spans == [] then [] else
      var (start, of) := spans[|spans| - 1];
      CollectIn(adds, e, spans[..|spans| - 1]) + (if of == e then adds(start) else [])
  }

  function Adds(d: Doc, e: Element): nat -> seq<Violation> {
    (i: nat) => if i < d.size then HollowAt(d, e, i) else []
  }

  lemma CollectSnoc(adds: nat -> seq<Violation>, e: Element, spans: seq<(nat, Element)>, x: (nat, Element))
    ensures CollectIn(adds, e, spans + [x]) == CollectIn(adds, e, spans) + (if x.1 == e then adds(x.0) else [])
  {
    assert (spans + [x])[..|spans|] == spans;
  }

  function Collect(adds: nat -> seq<Violation>, n: nat): seq<Violation> {
    if n == 0 then [] else Collect(adds, n - 1) + adds(n - 1)
  }

  /** Lines that are no marker of the element add nothing. */
  lemma {:induction false} CollectMarkers(d: Doc, adds: nat -> seq<Violation>, e: Element, n: nat)
    requires forall i: nat | i < n && d.mark(i) != Some(e) :: adds(i) == []
    ensures CollectIn(adds, e, Markers(d, n)) == Collect(adds, n)
    decreases n
  {
    if n > 0 {
      var i, m := n - 1, d.mark(n - 1);
      CollectMarkers(d, adds, e, i);
      if m.Some? {
        CollectSnoc(adds, e, Markers(d, i), (i, m.value));
      } else {
        assert Markers(d, n) == Markers(d, i);
      }
    }
  }

  lemma {:induction false} CollectHollows(d: Doc, e: Element, n: nat)
    requires n <= d.size
    ensures Collect(Adds(d, e), n) == Hollows(d, e, n)
    decreases n
  {
    if n > 0 { CollectHollows(d, e, n - 1); }
  }

  lemma HollowsInMarkers(d: Doc, e: Element)
    ensures CollectIn(Adds(d, e), e, Markers(d, d.size)) == Hollows(d, e, d.size)
  {
    CollectMarkers(d, Adds(d, e), e, d.size);
    CollectHollows(d, e, d.size);
  }

  lemma HasMarkerListed(d: Doc, e: Element, spans: seq<(nat, Element)>)
    requires spans == Markers(d, d.size)
    ensures HasMarker(d, e) <==> exists k | 0 <= k < |spans| :: spans[k].1 == e
  {
    if k :| 0 <= k < |spans| && spans[k].1 == e {
      ListedIsMarker(d, spans, k);
    }
    if i :| 0 <= i < d.size && d.mark(i) == Some(e) {
      MarkersAreMarkers(d, d.size, i, e);
      var k :| 0 <= k < |spans| && spans[k] == (i, e);
    }
  }

  method LintOne(r: Reader, lines: seq<string>, spans: seq<(nat, Element)>, element: Element)
    returns (violations: seq<Violation>)
    requires spans == Markers(DocOf(r, lines), |lines|)
    ensures violations == LintElement(DocOf(r, lines), element)
  {
    ghost var d := DocOf(r, lines);
    violations := [];
    var found := false;
    for k := 0 to |spans|
      invariant violations == CollectIn(Adds(d, element), element, spans[..k])
      invariant found <==> exists j | 0 <= j < k :: spans[j].1 == element
    {
      assert spans[..k + 1][..k] == spans[..k];
      ListedIsMarker(d, spans, k);
      if spans[k].1 == element {
        found := true;
        var vs := LintMarker(r, lines, spans, k);
        violations := violations + vs;
      }
    }
    assert spans[..|spans|] == spans;
    HollowsInMarkers(d, element);
    HasMarkerListed(d, element, spans);
    if !found {
      violations := [MissingMarker(element)];
    }
  }

  method LintText(r: Reader, lines: seq<string>) returns (violations: seq<Violation>)
    ensures violations == Lint(r, lines)
  {
    var spans := MarkerSpans(r, lines);
    var a := LintOne(r, lines, spans, PlanToExecute);
    var b := LintOne(r, lines, spans, StatusSync);
    var c := LintOne(r, lines, spans, ToolDiscovery);
    violations := a + (b + c);
  }

  // ---- what a report says ----

  /** Line `k` stands in the section of the marker at `i`: no marker from behind `i` up to it. */
  predicate InSection(d: Doc, i: nat, k: int) {
    i < k < d.size && forall j: nat | i < j <= k :: d.mark(j).None?
  }

  function Counting(d: Doc, a: nat, b: nat): set<int> { set k | a <= k < b && d.counts(k) }

  /** The lines that count in the section of the marker at `i`. */
  function SectionLines(d: Doc, i: nat): set<int> { set k | i < k < d.size && InSection(d, i, k) && d.counts(k) }

  lemma {:induction false} SubstanceCounts(d: Doc, a: nat, b: nat)
    requires a <= b
    ensures Substance(d, a, b) == |Counting(d, a, b)|
    decreases b
  {
    if a < b {
      SubstanceCounts(d, a, b - 1);
      assert Counting(d, a, b) == Counting(d, a, b - 1) + if d.counts(b - 1) then {b - 1} else {};
    }
  }

  lemma SectionCounts(d: Doc, i: nat)
    requires i < d.size
    ensures SectionSubstance(d, i) == |SectionLines(d, i)|
  {
    var next := NextMarker(d, i + 1);
    NextMarkerIs(d, i + 1);
    SubstanceCounts(d, i + 1, next);
    assert Counting(d, i + 1, next) == SectionLines(d, i);
  }

  /** What the report may say: an element has no marker, or a marker's section holds fewer than two lines
      that count. */
  predicate Rightly(d: Doc, v: Violation) {
    match v
    case MissingMarker(e) => forall i: nat | i < d.size :: d.mark(i) != Some(e)
    case Hollow(e, i, n) => i < d.size && d.mark(i) == Some(e) && n == |SectionLines(d, i)| && n < 2
  }

  lemma {:induction false} HollowsListed(d: Doc, e: Element, n: nat, v: Violation)
    requires n <= d.size
    ensures v in Hollows(d, e, n) <==> v.Hollow? && v.e == e && v.line < n && Rightly(d, v)
    decreases n
  {
    if n > 0 {
      HollowsListed(d, e, n - 1, v);
      SectionCounts(d, n - 1);
      if v.Hollow? && v.line < d.size { SectionCounts(d, v.line); }
    }
  }

  /** The report says everything it may say, and nothing else. */
  lemma ReportExact(r: Reader, lines: seq<string>, v: Violation)
    ensures v in Lint(r, lines) <==> Rightly(DocOf(r, lines), v)
  {
    var d := DocOf(r, lines);
    HollowsListed(d, PlanToExecute, d.size, v);
    HollowsListed(d, StatusSync, d.size, v);
    HollowsListed(d, ToolDiscovery, d.size, v);
    match v.e case PlanToExecute => case StatusSync => case ToolDiscovery =>
  }

  function Place(e: Element): nat { match e case PlanToExecute => 0 case StatusSync => 1 case ToolDiscovery => 2 }

  predicate Earlier(v: Violation, w: Violation) {
    Place(v.e) < Place(w.e) || (v.e == w.e && v.Hollow? && w.Hollow? && v.line < w.line)
  }

  predicate InOrder(vs: seq<Violation>) { forall j, k | 0 <= j < k < |vs| :: Earlier(vs[j], vs[k]) }

  predicate AllOf(vs: seq<Violation>, e: Element) { forall v | v in vs :: v.e == e }

  lemma {:induction false} HollowsInOrder(d: Doc, e: Element, n: nat)
    requires n <= d.size
    ensures InOrder(Hollows(d, e, n)) && AllOf(Hollows(d, e, n), e)
    decreases n
  {
    if n > 0 {
      var before := Hollows(d, e, n - 1);
      HollowsInOrder(d, e, n - 1);
      forall j | 0 <= j < |before| ensures before[j].Hollow? && before[j].line < n - 1 {
        HollowsListed(d, e, n - 1, before[j]);
      }
    }
  }

  lemma OrderConcat(vs: seq<Violation>, e: Element, ws: seq<Violation>)
    requires InOrder(vs) && AllOf(vs, e) && InOrder(ws) && forall w | w in ws :: Place(e) < Place(w.e)
    ensures InOrder(vs + ws)
  {}

  /** The report names the elements in the contract's order, and the markers of each from the top down. */
  lemma ReportOrder(r: Reader, lines: seq<string>)
    ensures InOrder(Lint(r, lines))
  {
    var d := DocOf(r, lines);
    HollowsInOrder(d, PlanToExecute, d.size);
    HollowsInOrder(d, StatusSync, d.size);
    HollowsInOrder(d, ToolDiscovery, d.size);
    var later := LintElement(d, StatusSync) + LintElement(d, ToolDiscovery);
    OrderConcat(LintElement(d, StatusSync), StatusSync, LintElement(d, ToolDiscovery));
    OrderConcat(LintElement(d, PlanToExecute), PlanToExecute, later);
  }

  // ---- what an empty report means ----

  lemma {:induction false} HollowsEmpty(d: Doc, e: Element, n: nat)
    requires n <= d.size
    ensures Hollows(d, e, n) == [] <==>
            forall i | 0 <= i < n && d.mark(i) == Some(e) :: SectionSubstance(d, i) >= MIN_CONTENT_LINES
    decreases n
  {
    if n > 0 { HollowsEmpty(d, e, n - 1); }
  }

  /** The sections of one element all reach the floor. */
  predicate Floor(d: Doc, e: Element) {
    forall i | 0 <= i < d.size && d.mark(i) == Some(e) :: SectionSubstance(d, i) >= MIN_CONTENT_LINES
  }

  predicate Kept(d: Doc, e: Element) { HasMarker(d, e) && Floor(d, e) }

  /** No violation exactly when every element has a marker and every marker section, of whichever
      element, reaches the floor. */
  lemma CleanExactly(r: Reader, lines: seq<string>)
    ensures Lint(r, lines) == [] <==> forall e: Element :: Kept(DocOf(r, lines), e)
  {
    var d := DocOf(r, lines);
    assert LintDoc(d) == [] <==>
            LintElement(d, PlanToExecute) == [] && LintElement(d, StatusSync) == []
                && LintElement(d, ToolDiscovery) == [];
    forall e: Element ensures LintElement(d, e) == [] <==> Kept(d, e) {
      assert LintElement(d, e) == [] <==> Kept(d, e) by {
        HollowsEmpty(d, e, d.size);
      }
    }
    if LintDoc(d) == [] {
      forall e: Element ensures Kept(d, e) {
        match e { case PlanToExecute => case StatusSync => case ToolDiscovery => }
      }
    }
  }

  // ---- documents that differ by padding ----

  predicate Blank(d: Doc, i: nat) { d.mark(i).None? && !d.counts(i) }

  predicate SameLine(long: Doc, short: Doc, m: nat, i: nat) {
    long.mark(m) == short.mark(i) && long.counts(m) == short.counts(i)
  }

  /** `long` is `short` with `gap` blank lines inserted at `at`. */
  predicate Padded(long: Doc, short: Doc, at: nat, gap: nat) {
    && at <= short.size && long.size == short.size + gap
    && (forall i: nat | i < short.size :: SameLine(long, short, Shifted(at, gap, i), i))
    && (forall i: nat | at <= i < at + gap :: Blank(long, i))
  }

  function Shifted(at: nat, gap: nat, i: nat): nat { if i < at then i else i + gap }

  lemma {:induction false} NextMarkerInPad(long: Doc, short: Doc, at: nat, gap: nat, i: nat)
    requires Padded(long, short, at, gap) && at <= i <= at + gap
    ensures NextMarker(long, i) == NextMarker(long, at + gap)
    decreases at + gap - i
  {
    if i < at + gap {
      assert Blank(long, i);
      NextMarkerInPad(long, short, at, gap, i + 1);
    }
  }

  lemma {:induction false} NextMarkerPadded(long: Doc, short: Doc, at: nat, gap: nat, i: nat)
    requires Padded(long, short, at, gap) && i <= short.size
    ensures NextMarker(long, Shifted(at, gap, i)) == Shifted(at, gap, NextMarker(short, i))
    decreases short.size - i
  {
    if i < short.size {
      assert SameLine(long, short, Shifted(at, gap, i), i);
      if short.mark(i).None? {
        NextMarkerPadded(long, short, at, gap, i + 1);
        if i + 1 == at { NextMarkerInPad(long, short, at, gap, at); }
      }
    }
  }

  lemma {:induction false} SubstanceInPad(long: Doc, short: Doc, at: nat, gap: nat, start: nat, end: nat)
    requires Padded(long, short, at, gap) && start <= at <= end <= at + gap
    ensures Substance(long, start, end) == Substance(long, start, at)
    decreases end
  {
    if end > at {
      assert Blank(long, end - 1);
      SubstanceInPad(long, short, at, gap, start, end - 1);
    }
  }

  lemma {:induction false} SubstanceBefore(long: Doc, short: Doc, at: nat, gap: nat, start: nat, end: nat)
    requires Padded(long, short, at, gap) && start < at && start <= end <= short.size
    ensures Substance(long, start, Shifted(at, gap, end)) == Substance(short, start, end)
    decreases end
  {
    if start < end {
      SubstanceBefore(long, short, at, gap, start, end - 1);
      assert SameLine(long, short, Shifted(at, gap, end - 1), end - 1);
      if end == at { SubstanceInPad(long, short, at, gap, start, at + gap); }
    }
  }

  lemma {:induction false} SubstanceAfter(long: Doc, short: Doc, at: nat, gap: nat, start: nat, end: nat)
    requires Padded(long, short, at, gap) && at <= start <= end <= short.size
    ensures Substance(long, start + gap, end + gap) == Substance(short, start, end)
    decreases end
  {
    if start < end {
      SubstanceAfter(long, short, at, gap, start, end - 1);
      assert SameLine(long, short, Shifted(at, gap, end - 1), end - 1);
    }
  }

  lemma {:induction false} SubstanceOverPad(long: Doc, short: Doc, at: nat, gap: nat, end: nat)
    requires Padded(long, short, at, gap) && at + gap <= end
    ensures Substance(long, at, end) == Substance(long, at + gap, end)
    decreases end
  {
    if end > at + gap {
      SubstanceOverPad(long, short, at, gap, end - 1);
    } else {
      SubstanceInPad(long, short, at, gap, at, end);
    }
  }

  lemma SectionBelow(long: Doc, short: Doc, at: nat, gap: nat, i: nat)
    requires Padded(long, short, at, gap) && at <= i < short.size
    ensures SectionSubstance(long, i + gap) == SectionSubstance(short, i)
  {
    NextMarkerPadded(long, short, at, gap, i + 1);
    SubstanceAfter(long, short, at, gap, i + 1, NextMarker(short, i + 1));
  }

  lemma SectionAtPad(long: Doc, short: Doc, at: nat, gap: nat, i: nat)
    requires Padded(long, short, at, gap) && i + 1 == at
    ensures SectionSubstance(long, i) == SectionSubstance(short, i)
  {
    var end := NextMarker(short, at);
    NextMarkerPadded(long, short, at, gap, at);
    NextMarkerInPad(long, short, at, gap, at);
    SubstanceAfter(long, short, at, gap, at, end);
    SubstanceOverPad(long, short, at, gap, end + gap);
  }

  lemma SectionPadded(long: Doc, short: Doc, at: nat, gap: nat, i: nat)
    requires Padded(long, short, at, gap) && i < short.size
    ensures SectionSubstance(long, Shifted(at, gap, i)) == SectionSubstance(short, i)
  {
    if i + 1 < at {
      assert SectionSubstance(long, i) == SectionSubstance(short, i) by {
        NextMarkerPadded(long, short, at, gap, i + 1);
        SubstanceBefore(long, short, at, gap, i + 1, NextMarker(short, i + 1));
      }
    } else if i + 1 == at {
      SectionAtPad(long, short, at, gap, i);
    } else {
      SectionBelow(long, short, at, gap, i);
    }
  }

  // ---- their reports ----

  function Relocate(at: nat, gap: nat, vs: seq<Violation>): seq<Violation> {
    seq(|vs|, i requires 0 <= i < |vs| => if vs[i].Hollow? then vs[i].(line := Shifted(at, gap, vs[i].line)) else vs[i])
  }

  lemma RelocateConcat(at: nat, gap: nat, xs: seq<Violation>, ys: seq<Violation>)
    ensures Relocate(at, gap, xs + ys) == Relocate(at, gap, xs) + Relocate(at, gap, ys)
  {}

  lemma {:induction false} HollowsInPad(long: Doc, short: Doc, at: nat, gap: nat, e: Element, n: nat)
    requires Padded(long, short, at, gap) && at <= n <= at + gap
    ensures Hollows(long, e, n) == Hollows(long, e, at)
    decreases n
  {
    if n > at {
      assert Blank(long, n - 1);
      HollowsInPad(long, short, at, gap, e, n - 1);
    }
  }

  /** The reports agree up to every line above the padding. */
  lemma {:induction false} HollowsAbove(long: Doc, short: Doc, at: nat, gap: nat, e: Element, n: nat)
    requires Padded(long, short, at, gap) && n <= at
    ensures Hollows(long, e, n) == Relocate(at, gap, Hollows(short, e, n))
    decreases n
  {
    if n > 0 {
      HollowsAbove(long, short, at, gap, e, n - 1);
      HollowsStep(long, short, at, gap, e, n - 1, n - 1);
    }
  }

  /** The hollow lines of the longer document before `m` are those of the shorter one before `n`. */
  predicate SameHollows(long: Doc, short: Doc, at: nat, gap: nat, e: Element, n: nat, m: nat)
    requires n <= short.size && m <= long.size
  {
    Hollows(long, e, m) == Relocate(at, gap, Hollows(short, e, n))
  }

  /** And, at a distance, up to every line below it. */
  lemma {:induction false} HollowsBelow(long: Doc, short: Doc, at: nat, gap: nat, e: Element, n: nat, m: nat)
    requires Padded(long, short, at, gap) && at <= n <= short.size && m == n + gap
    ensures SameHollows(long, short, at, gap, e, n, m)
    decreases n
  {
    if n == at {
      HollowsAbove(long, short, at, gap, e, at);
      HollowsInPad(long, short, at, gap, e, m);
    } else {
      HollowsBelow(long, short, at, gap, e, n - 1, m - 1);
      HollowsStep(long, short, at, gap, e, n - 1, m - 1);
    }
  }

  lemma HollowsStep(long: Doc, short: Doc, at: nat, gap: nat, e: Element, i: nat, m: nat)
    requires Padded(long, short, at, gap) && i < short.size && m == Shifted(at, gap, i)
    requires SameHollows(long, short, at, gap, e, i, m)
    ensures SameHollows(long, short, at, gap, e, i + 1, m + 1)
  {
    assert HollowAt(long, e, Shifted(at, gap, i)) == Relocate(at, gap, HollowAt(short, e, i)) by {
      assert SameLine(long, short, Shifted(at, gap, i), i);
      SectionPadded(long, short, at, gap, i);
    }
    RelocateConcat(at, gap, Hollows(short, e, i), HollowAt(short, e, i));
  }

  lemma HasMarkerPadded(long: Doc, short: Doc, at: nat, gap: nat, e: Element)
    requires Padded(long, short, at, gap)
    ensures HasMarker(long, e) <==> HasMarker(short, e)
  {
    if i :| 0 <= i < short.size && short.mark(i) == Some(e) {
      assert SameLine(long, short, Shifted(at, gap, i), i);
    }
    if j :| 0 <= j < long.size && long.mark(j) == Some(e) {
      assert at <= j < at + gap ==> Blank(long, j);
      var i := if j < at then j else j - gap;
      assert SameLine(long, short, Shifted(at, gap, i), i);
    }
  }

  lemma ElementPadded(long: Doc, short: Doc, at: nat, gap: nat, e: Element)
    requires Padded(long, short, at, gap)
    ensures LintElement(long, e) == Relocate(at, gap, LintElement(short, e))
  {
    HasMarkerPadded(long, short, at, gap, e);
    HollowsBelow(long, short, at, gap, e, short.size, long.size);
  }

  lemma LintPadded(long: Doc, short: Doc, at: nat, gap: nat)
    requires Padded(long, short, at, gap)
    ensures LintDoc(long) == Relocate(at, gap, LintDoc(short))
  {
    ElementPadded(long, short, at, gap, PlanToExecute);
    ElementPadded(long, short, at, gap, StatusSync);
    ElementPadded(long, short, at, gap, ToolDiscovery);
    var p, s, t := LintElement(short, PlanToExecute), LintElement(short, StatusSync), LintElement(short, ToolDiscovery);
    RelocateConcat(at, gap, s, t);
    RelocateConcat(at, gap, p, s + t);
  }

  // ---- padding cannot fake or destroy substance ----

  /** Blank or comment-only, and neither a marker nor a fence. */
  predicate Inert(r: Reader, line: string) { !r.substantive(line) && !r.fence(line) && r.marker(line).None? }

  predicate AllInert(r: Reader, pad: seq<string>) { forall x | x in pad :: Inert(r, x) }

  lemma FencedSnoc(r: Reader, lines: seq<string>, x: string)
    ensures Fenced(r, lines + [x]) == (Fenced(r, lines) != r.fence(x))
  {
    assert (lines + [x])[..|lines|] == lines;
  }

  /** Fences count up from the left, whatever inert lines stand between. */
  lemma {:induction false} FencedOver(r: Reader, a: seq<string>, pad: seq<string>)
    requires AllInert(r, pad)
    ensures Fenced(r, a + pad) == Fenced(r, a)
    decreases |pad|
  {
    if pad == [] {
      assert a + pad == a;
    } else {
      var rest, x := pad[..|pad| - 1], pad[|pad| - 1];
      assert Inert(r, x);
      assert a + pad == (a + rest) + [x];
      FencedOver(r, a, rest);
      FencedSnoc(r, a + rest, x);
    }
  }

  lemma {:induction false} FencedThen(r: Reader, a: seq<string>, c: seq<string>, b: seq<string>)
    requires Fenced(r, a) == Fenced(r, c)
    ensures Fenced(r, a + b) == Fenced(r, c + b)
    decreases |b|
  {
    if b == [] {
      assert a + b == a && c + b == c;
    } else {
      var rest, x := b[..|b| - 1], b[|b| - 1];
      assert a + b == (a + rest) + [x] && c + b == (c + rest) + [x];
      FencedThen(r, a, c, rest);
      FencedSnoc(r, a + rest, x);
      FencedSnoc(r, c + rest, x);
    }
  }

  predicate SameContext(r: Reader, s: seq<string>, t: seq<string>, m: nat, i: nat) {
    m < |s| && i < |t| && s[m] == t[i] && Fenced(r, s[..m]) == Fenced(r, t[..i])
  }

  lemma ContextBelow(r: Reader, a: seq<string>, c: seq<string>, b: seq<string>, m: nat, i: nat)
    requires |c| <= i < |c| + |b| && m == |a| + (i - |c|) && Fenced(r, a) == Fenced(r, c)
    ensures SameContext(r, a + b, c + b, m, i)
  {
    var k := i - |c|;
    TakeAcross(a, b, k);
    TakeAcross(c, b, k);
    FencedThen(r, a, c, b[..k]);
    ContextIs(r, a + b, c + b, m, i, a + b[..k], c + b[..k]);
  }

  lemma ContextIs(r: Reader, s: seq<string>, t: seq<string>, m: nat, i: nat, above: seq<string>, over: seq<string>)
    requires m < |s| && i < |t| && s[m] == t[i] && s[..m] == above && t[..i] == over
             && Fenced(r, above) == Fenced(r, over)
    ensures SameContext(r, s, t, m, i)
  {}

  lemma TakeAcross(a: seq<string>, b: seq<string>, k: nat)
    requires k < |b|
    ensures (a + b)[..|a| + k] == a + b[..k] && (a + b)[|a| + k] == b[k]
  {}

  lemma LinePadded(r: Reader, a: seq<string>, pad: seq<string>, b: seq<string>, i: nat)
    requires AllInert(r, pad) && i < |a| + |b|
    ensures SameLine(DocOf(r, (a + pad) + b), DocOf(r, a + b), Shifted(|a|, |pad|, i), i)
  {
    var m := Shifted(|a|, |pad|, i);
    if i < |a| {
      assert (a + pad) + b == a + (pad + b);
      assert SameContext(r, a + (pad + b), a + b, i, i) by {
        assert (a + (pad + b))[..i] == a[..i] == (a + b)[..i];
      }
    } else {
      FencedOver(r, a, pad);
      ContextBelow(r, a + pad, a, b, m, i);
    }
    assert SameLine(DocOf(r, (a + pad) + b), DocOf(r, a + b), m, i);
  }

  lemma PaddedDocs(r: Reader, a: seq<string>, pad: seq<string>, b: seq<string>)
    requires AllInert(r, pad)
    ensures Padded(DocOf(r, (a + pad) + b), DocOf(r, a + b), |a|, |pad|)
  {
    var long, short := DocOf(r, (a + pad) + b), DocOf(r, a + b);
    forall i: nat | i < short.size ensures SameLine(long, short, Shifted(|a|, |pad|, i), i) {
      LinePadded(r, a, pad, b, i);
    }
    forall i: nat | |a| <= i < |a| + |pad| ensures Blank(long, i) {
      assert Blank(DocOf(r, (a + pad) + b), i) by {
        assert ((a + pad) + b)[i] == pad[i - |a|] && Inert(r, pad[i - |a|]);
      }
    }
  }

  /** Inserting blank or comment-only lines anywhere changes the report in its line numbers only. */
  lemma PaddingChangesNothing(r: Reader, a: seq<string>, pad: seq<string>, b: seq<string>)
    requires AllInert(r, pad)
    ensures Lint(r, a + pad + b) == Relocate(|a|, |pad|, Lint(r, a + b))
  {
    PaddedDocs(r, a, pad, b);
    LintPadded(DocOf(r, a + pad + b), DocOf(r, a + b), |a|, |pad|);
  }
}
