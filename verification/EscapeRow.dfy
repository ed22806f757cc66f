/** The row `doc_row` writes, the headers of releases, and what writing one release's row does to the
    section of another, in the code's own patterns. */
module EscapeRow {
  import opened Text
  import opened Search
  import opened EscapeRate
  import opened EscapeSections

  // ---- doc_row ----

  function Decimal(n: nat): (s: string)
    ensures s != "" && forall c | c in s :: '0' <= c <= '9'
  {
    if n < 10 then [n as char + '0'] else Decimal(n / 10) + [(n % 10) as char + '0']
  }

  function Str(n: int): string { if n < 0 then "-" + Decimal(0 - n) else Decimal(n) }

  /** `'; #'.join` over the numbers. */
  function Numbers(ns: seq<int>): string {
    if ns == [] then "" else if |ns| == 1 then Str(ns[0]) else Str(ns[0]) + ("; #" + Numbers(ns[1..]))
  }

  /** The lines after the first, each on its own, and the newline at the end. */
  function Lines(items: seq<string>): (r: string)
    ensures r != ""
  {
    if items == [] then "\n" else "\n" + (items[0] + Lines(items[1..]))
  }

  const PRE := "- Pre-release bug issues: "
  const POST := "- Post-release bug issues: "
  const RATE := "- Escape rate: "
  const NOTES := "- Notes: automated row "
  const SOURCE := "(devkit/escape_rate.py)"

  /** What a row says: the date of the tag, the counts, the listed escapes and the rate's text. */
  datatype Row = Row(tag: string, pre: int, post: int, escaped: seq<int>, rate: string)

  function Items(r: Row): seq<string> {
    [PRE + Str(r.pre),
     POST + (Str(r.post) + (" (#" + ((if r.escaped == [] then "-" else Numbers(r.escaped)) + ")"))),
     RATE + r.rate,
     NOTES + SOURCE]
  }

  function DocRow(release: string, r: Row): string {
    Header(release) + (("(tag " + (r.tag + ")")) + Lines(Items(r)))
  }

  /** The number a text of digits stands for. */
  function ValueOf(s: string): int {
    if s == "" then 0 else 10 * ValueOf(s[..|s| - 1]) + (s[|s| - 1] as int - '0' as int)
  }

  /** A number's digits stand for it, and none is superfluous. */
  lemma {:induction false} DecimalExact(n: nat)
    ensures ValueOf(Decimal(n)) == n && (Decimal(n)[0] == '0' <==> n == 0) && (n == 0 ==> |Decimal(n)| == 1)
    decreases n
  {
    if n >= 10 {
      DecimalExact(n / 10);
      assert Decimal(n)[..|Decimal(n)| - 1] == Decimal(n / 10);
    } else {
      assert Decimal(n)[..0] == "";
    }
  }

  lemma SignExact(n: int)
    ensures if n < 0 then Str(n) == "-" + Decimal(0 - n) else Str(n)[0] != '-' && Str(n) == Decimal(n)
  {
    var d := Decimal(if n < 0 then 0 - n else n);
    assert d[0] in d;
  }

  lemma ListedEscapes()
    ensures Numbers([7, -19]) == "7; #-19"
  {
    assert Decimal(1) == "1" && Decimal(19) == Decimal(1) + "9";
    assert [7, -19][1..] == [-19] && Numbers([-19]) == "-19";
  }

  lemma PostLine(post: string)
    ensures POST + (post + (" (#" + ("-" + ")"))) == POST + (post + " (#-)")
    ensures "- Pre" <= PRE && "- Post" <= POST && "- Escape" <= RATE
  {
    assert " (#" + ("-" + ")") == " (#-)";
  }

  /** Each count stands in its own line, and the listed escapes, or a dash, behind theirs. */
  lemma RowLines(r: Row)
    ensures |Items(r)| == 4 && Items(r)[0] == PRE + Str(r.pre) && Items(r)[2] == RATE + r.rate
    ensures Items(r)[3] == NOTES + SOURCE
    ensures Items(r)[1] == POST + (Str(r.post) +
            if r.escaped == [] then " (#-)" else " (#" + (Numbers(r.escaped) + ")"))
    ensures "- Pre" <= PRE && "- Post" <= POST && "- Escape" <= RATE
  {
    PostLine(Str(r.post));
  }

  lemma TwoLines()
    ensures Lines(["a", "b"]) == "\na\nb\n"
  {
    assert Lines(["b"]) == "\nb\n" && ["a", "b"][1..] == ["b"];
  }

  /** The row is its header, the tag's date in brackets and its lines. */
  lemma RowStands(release: string, r: Row)
    ensures var first := Header(release) + ("(tag " + (r.tag + ")"));
            first <= DocRow(release, r) && DocRow(release, r)[|first|..] == Lines(Items(r))
  {
    Assoc(Header(release), "(tag " + (r.tag + ")"), Lines(Items(r)));
    CutAt(Header(release) + ("(tag " + (r.tag + ")")), Lines(Items(r)));
  }

  /** A date and a rate hold neither a newline nor a hash. */
  predicate Tidy(s: string) { '\n' !in s && '#' !in s }

  predicate WfRow(r: Row) { Tidy(r.tag) && Tidy(r.rate) }

  /** Within one line, and hashes stand alone. */
  predicate Tame(s: string) {
    && '\n' !in s && (s != "" ==> s[0] != '#')
    && forall k | 0 <= k < |s| - 1 && s[k] == '#' :: s[k + 1] != '#'
  }

  lemma TidyTame(s: string)
    requires Tidy(s)
    ensures Tame(s)
  {
    assert forall k | 0 <= k < |s| :: s[k] in s;
  }

  lemma TameCat(a: string, b: string)
    requires Tame(a) && Tame(b)
    ensures Tame(a + b)
  {
    var s := a + b;
    forall k | 0 <= k < |s| - 1 && s[k] == '#' ensures s[k + 1] != '#' {
      if k >= |a| { assert b[k - |a|] == s[k] && b[k + 1 - |a|] == s[k + 1]; }
    }
  }

  lemma StrTame(n: int)
    ensures Tame(Str(n))
  {
    var d := Decimal(if n < 0 then 0 - n else n);
    TidyTame(d);
    TidyTame("-");
    TameCat("-", d);
  }

  lemma {:induction false} NumbersTame(ns: seq<int>)
    ensures Tame(Numbers(ns))
    decreases |ns|
  {
    if ns != [] {
      StrTame(ns[0]);
      NumbersTame(ns[1..]);
      MarksTame();
      TameCat("; #", Numbers(ns[1..]));
      TameCat(Str(ns[0]), "; #" + Numbers(ns[1..]));
    }
  }

  lemma RateTidy()
    ensures Tidy(RATE)
  {}

  lemma NotesTidy()
    ensures Tidy(NOTES)
  {}

  lemma SourceTidy()
    ensures Tidy(SOURCE)
  {}

  lemma WordsTame()
    ensures Tame(PRE) && Tame(POST) && Tame(RATE) && Tame(NOTES + SOURCE)
  {
    assert Tidy(PRE);
    TidyTame(PRE);
    assert Tidy(POST);
    TidyTame(POST);
    RateTidy();
    TidyTame(RATE);
    NotesTidy();
    TidyTame(NOTES);
    SourceTidy();
    TidyTame(SOURCE);
    TameCat(NOTES, SOURCE);
  }

  lemma MarksTame()
    ensures Tame(" (#") && Tame("(tag ") && Tame(")") && Tame("-") && Tame("; #")
  {}

  lemma PostTame(post: int, list: string)
    requires Tame(list)
    ensures Tame(POST + (Str(post) + (" (#" + (list + ")"))))
  {
    WordsTame();
    MarksTame();
    StrTame(post);
    TameCat(list, ")");
    TameCat(" (#", list + ")");
    TameCat(Str(post), " (#" + (list + ")"));
    TameCat(POST, Str(post) + (" (#" + (list + ")")));
  }

  predicate IsItem(l: string) { l != "" && l[0] == '-' && Tame(l) }

  lemma ItemsAreItems(r: Row)
    requires WfRow(r)
    ensures forall l | l in Items(r) :: IsItem(l)
  {
    WordsTame();
    MarksTame();
    StrTame(r.pre);
    TameCat(PRE, Str(r.pre));
    NumbersTame(r.escaped);
    PostTame(r.post, if r.escaped == [] then "-" else Numbers(r.escaped));
    TidyTame(r.rate);
    TameCat(RATE, r.rate);
  }

  /** Every newline but the last is followed by a dash; hashes stand alone. */
  predicate Calm(s: string) {
    && (forall k | 0 <= k < |s| - 1 && s[k] == '\n' :: s[k + 1] == '-')
    && (forall k | 0 <= k < |s| - 1 && s[k] == '#' :: s[k + 1] != '#')
  }

  lemma TameThenCalm(a: string, b: string)
    requires Tame(a) && Calm(b) && (b != "" ==> b[0] != '#')
    ensures Calm(a + b)
  {
    var s := a + b;
    assert forall k | 0 <= k < |a| :: a[k] in a;
    forall k | 0 <= k < |s| - 1 ensures (s[k] == '\n' ==> s[k + 1] == '-') && (s[k] == '#' ==> s[k + 1] != '#') {
      if k >= |a| { assert b[k - |a|] == s[k] && b[k + 1 - |a|] == s[k + 1]; }
    }
  }

  lemma NewlineThenCalm(b: string)
    requires Calm(b) && b != "" && b[0] == '-'
    ensures Calm("\n" + b)
  {
    var s := "\n" + b;
    forall k | 0 <= k < |s| - 1 ensures (s[k] == '\n' ==> s[k + 1] == '-') && (s[k] == '#' ==> s[k + 1] != '#') {
      if k >= 1 { assert b[k - 1] == s[k] && b[k] == s[k + 1]; }
    }
  }

  lemma {:induction false} LinesCalm(items: seq<string>)
    requires forall l | l in items :: IsItem(l)
    ensures var r := Lines(items); Calm(r) && r[0] == '\n' && r[|r| - 1] == '\n'
    decreases |items|
  {
    if items != [] {
      assert IsItem(items[0]) by { assert items[0] in items; }
      LinesCalm(items[1..]);
      TameThenCalm(items[0], Lines(items[1..]));
      NewlineThenCalm(items[0] + Lines(items[1..]));
    }
  }

  /** The row after its header. */
  lemma RowTail(r: Row)
    requires WfRow(r)
    ensures var t := ("(tag " + (r.tag + ")")) + Lines(Items(r));
            Calm(t) && t[0] == '(' && |t| > 1 && t[|t| - 1] == '\n'
  {
    MarksTame();
    TidyTame(r.tag);
    TameCat(r.tag, ")");
    TameCat("(tag ", r.tag + ")");
    ItemsAreItems(r);
    LinesCalm(Items(r));
    TameThenCalm("(tag " + (r.tag + ")"), Lines(Items(r)));
  }

  // ---- headers ----

  lemma NewlineAfterHeader(h: string, t: string)
    requires '\n' !in h && Calm(t)
    ensures forall k | 0 <= k < |h + t| - 1 && (h + t)[k] == '\n' :: (h + t)[k + 1] == '-'
  {
    var s := h + t;
    assert forall k | 0 <= k < |h| :: h[k] in h;
    forall k | 0 <= k < |s| - 1 && s[k] == '\n' ensures s[k + 1] == '-' {
      if k >= |h| { assert t[k - |h|] == s[k] && t[k + 1 - |h|] == s[k + 1]; }
    }
  }

  lemma NeverFollows(s: string, pat: string)
    requires |pat| > 1 && forall k | 0 <= k < |s| - 1 && s[k] == pat[0] :: s[k + 1] != pat[1]
    ensures Find(s, pat) < 0
  {
    forall k: nat ensures !MatchAt(s, pat, k) {
      NotAcross(s, pat, k, k);
      NotAcross(s, pat, k, k + 1);
    }
    FindIs(s, pat, -1);
  }

  /** The row of a release satisfies what the upsert theorems ask of it. */
  lemma DocRowIsRow(release: string, r: Row)
    requires '\n' !in release && WfRow(r)
    ensures IsRow(NEXT, Header(release), DocRow(release, r))
  {
    HeadersAreHeadings(release);
    RowTail(r);
    var h, t := Header(release), ("(tag " + (r.tag + ")")) + Lines(Items(r));
    NewlineAfterHeader(h, t);
    NeverFollows(h + t, NEXT);
  }

  // ---- which headers can be told apart ----

  const MARK := "### "

  function FirstDifference(a: string, b: string): (i: nat)
    ensures i <= |a| && i <= |b| && a[..i] == b[..i] && (i < |a| && i < |b| ==> a[i] != b[i])
  {
    if a == "" || b == "" || a[0] != b[0] then 0 else
      var i := 1 + FirstDifference(a[1..], b[1..]);
      assert a[..i] == [a[0]] + a[1..][..i - 1] && b[..i] == [b[0]] + b[1..][..i - 1];
      i
  }

  lemma DifferInside(a: string, b: string)
    requires !(a <= b) && !(b <= a)
    ensures ClashAt(a, b, 0)
  {
    var i := FirstDifference(a, b);
    assert a == a[..|a|] && b == b[..|b|];
    assert i < |a| && i < |b| && a[0 + i] != b[i];
  }

  /** Past its own start a header runs into another one only where the mark stands in it again. */
  lemma ClashLater(a: string, b: string, d: nat)
    requires 0 < d < |Header(a)| && !MatchAt(Header(a), MARK, d)
    ensures ClashAt(Header(a), Header(b), d)
  {
    var h, o := Header(a), Header(b);
    if d + 4 <= |h| {
      var j :| 0 <= j < 4 && h[d + j] != MARK[j];
      assert o[j] == MARK[j];
    } else {
      var j := |h| - 1 - d;
      assert h[d + j] == ' ' && o[j] == '#';
    }
  }

  /** Headers are told apart, whatever the text, when neither begins the other and the mark stands in
      each only at its start. */
  lemma HeadersApart(a: string, b: string)
    requires !(Header(a) <= Header(b)) && !(Header(b) <= Header(a))
    requires forall d | 0 < d :: !MatchAt(Header(a), MARK, d) && !MatchAt(Header(b), MARK, d)
    ensures Apart(Header(a), Header(b))
  {
    HeaderClash(a, b);
    HeaderClash(b, a);
  }

  lemma HeaderClash(a: string, b: string)
    requires !(Header(a) <= Header(b)) && !(Header(b) <= Header(a))
    requires forall d | 0 < d :: !MatchAt(Header(a), MARK, d)
    ensures Clash(Header(a), Header(b))
  {
    forall d: nat | d < |Header(a)| ensures ClashAt(Header(a), Header(b), d) {
      if d == 0 { DifferInside(Header(a), Header(b)); } else { ClashLater(a, b, d); }
    }
  }

  predicate EndsInHashes(release: string) { |release| >= 3 && release[|release| - 3..] == "###" }

  lemma NameInHeader(a: string)
    ensures forall k | 0 <= k < |a| :: Header(a)[4 + k] == a[k] && a[k] in a
    ensures Header(a)[4..4 + |a|] == a && |Header(a)| == |a| + 5 && Header(a)[4 + |a|] == ' '
  {}

  /** Without blanks in the name the mark can stand again only at the very end. */
  lemma MarkAtEnd(a: string, d: nat)
    requires ' ' !in a && 0 < d && MatchAt(Header(a), MARK, d)
    ensures EndsInHashes(a)
  {
    var h := Header(a);
    NameInHeader(a);
    assert h[d + 0] == MARK[0] && h[d + 1] == MARK[1] && h[d + 2] == MARK[2] && h[d + 3] == MARK[3];
    assert h[3] == ' ';
    assert d + 3 == 4 + |a| && d >= 4;
    assert a[|a| - 3..] == h[d..d + 3] == "###";
  }

  lemma HashesRunOn(a: string, b: string)
    requires EndsInHashes(a)
    ensures !Clash(Header(a), Header(b))
  {
    var h, d := Header(a), |Header(a)| - 4;
    assert h[d..] == a[|a| - 3..] + " " == MARK;
    forall j | 0 <= j < |Header(b)| && d + j < |h| ensures h[d + j] == Header(b)[j] {
      assert h[d + j] == h[d..][j];
    }
    assert !ClashAt(h, Header(b), d);
  }

  lemma BegunIsSame(a: string, b: string)
    requires ' ' !in b && Header(a) <= Header(b)
    ensures a == b
  {
    NameInHeader(a);
    NameInHeader(b);
    assert Header(b)[4 + |a|] == ' ';
    assert |a| == |b|;
    assert Header(a)[4..4 + |a|] == Header(b)[4..4 + |a|];
  }

  /** Names without blanks, as tags are: the headers of two are told apart exactly when the names differ
      and neither ends in three hashes. */
  lemma TagsApartExactly(a: string, b: string)
    requires ' ' !in a && ' ' !in b
    ensures Apart(Header(a), Header(b)) <==> a != b && !EndsInHashes(a) && !EndsInHashes(b)
  {
    if EndsInHashes(a) {
      HashesRunOn(a, b);
    } else if EndsInHashes(b) {
      HashesRunOn(b, a);
    } else if a == b {
      assert !ClashAt(Header(a), Header(b), 0);
    } else {
      if Header(a) <= Header(b) { BegunIsSame(a, b); }
      if Header(b) <= Header(a) { BegunIsSame(b, a); }
      forall d | 0 < d ensures !MatchAt(Header(a), MARK, d) && !MatchAt(Header(b), MARK, d) {
        if MatchAt(Header(a), MARK, d) { MarkAtEnd(a, d); }
        if MatchAt(Header(b), MARK, d) { MarkAtEnd(b, d); }
      }
      HeadersApart(a, b);
    }
  }

  /** Two releases on one line each whose headers are told apart. */
  predicate Distinct(a: string, b: string) {
    '\n' !in a && '\n' !in b && Apart(Header(a), Header(b))
  }

  /** No row holds the header of another release. */
  lemma RowQuotesNobody(release: string, other: string, r: Row)
    requires Distinct(release, other) && WfRow(r)
    ensures Find(DocRow(release, r), Header(other)) < 0
  {
    RowTail(r);
    var h, o, t := Header(release), Header(other), ("(tag " + (r.tag + ")")) + Lines(Items(r));
    assert MatchAt(h + t, h, 0);
    assert o[0] == '#' && o[1] == '#';
    forall k: nat ensures !MatchAt(h + t, o, k) {
      if k < |h| {
        NotInside(h + t, h, o, 0, k);
      } else {
        MatchAcross(h, t, o, k - |h|);
        NotAcross(t, o, k - |h|, k - |h|);
        NotAcross(t, o, k - |h|, k - |h| + 1);
      }
    }
    FindIs(h + t, o, -1);
  }

  // ---- append_row on real rows ----

  /** For every document that holds another release: writing a row leaves that release's section as it
      was exactly when the section is out of the write's reach. */
  lemma AppendRowExact(release: string, other: string, text: string, r: Row)
    requires Distinct(release, other) && WfRow(r)
    requires Find(text, Header(other)) >= 0
    ensures var row := DocRow(release, r);
            Unchanged(NEXT, text, Upsert(NEXT, Header(release), text, row), Header(other)) <==>
            OutOfReach(NEXT, Header(release), Header(other), text, row)
  {
    DocRowIsRow(release, r);
    HeadersAreHeadings(other);
    RowQuotesNobody(release, other, r);
    OthersExact(NEXT, Header(release), Header(other), text, DocRow(release, r));
  }

  /** In particular replacing a row disturbs nobody as soon as the LATER of the two headers starts its
      line, which is how the rows themselves are written. */
  lemma HeadersOnTheirLines(release: string, other: string, text: string, r: Row)
    requires Distinct(release, other) && WfRow(r)
    requires Find(text, Header(release)) >= 0 && Find(text, Header(other)) >= 0
    requires var p, start := Find(text, Header(other)), Find(text, Header(release));
             LineStart(text, if p < start then start else p)
    ensures Unchanged(NEXT, text, Upsert(NEXT, Header(release), text, DocRow(release, r)), Header(other))
  {
    var h, o := Header(release), Header(other);
    var p, start := Find(text, o), Find(text, h);
    AppendRowExact(release, other, text, r);
    HeadersAreHeadings(release);
    HeadersAreHeadings(other);
    if p == start { NotInside(text, h, o, start, p); }
    LaterHeaderEnds(NEXT, h, o, text, DocRow(release, r));
  }

  // ---- the failing side ----

  /** A header inside a section is what gets replaced: in every document in which the section of one
      release holds the header of another, wherever on its line, that section is cut there and ends in
      the row; it is as it was exactly when what stood there already was the row. */
  lemma QuotingIsReplaced(release: string, other: string, text: string, r: Row)
    requires Distinct(release, other) && WfRow(r)
    requires 0 <= Find(text, Header(other)) < Find(text, Header(release))
    requires Find(text, Header(release)) < Find(text, Header(other)) + |Section(NEXT, text, Header(other))|
    ensures var h, o, row := Header(release), Header(other), DocRow(release, r);
            var out := Upsert(NEXT, h, text, row);
            && Find(out, o) >= 0 && Section(NEXT, out, o) == text[Find(text, o)..Find(text, h)] + (row + "\n")
            && (Unchanged(NEXT, text, out, o) <==> Section(NEXT, text, h) == row + "\n")
  {
    var h, o, row := Header(release), Header(other), DocRow(release, r);
    DocRowIsRow(release, r);
    EndsAbove(text, h, o);
    QuotingAfter(NEXT, h, o, text, row);
    AboveExact(NEXT, h, o, text, row);
  }

  /** Such documents are there for any two releases. */
  function QuotingDocument(release: string, other: string): string {
    Header(other) + ("(tag 2026-01-01)\n- as in " + (Header(release) + "(tag 2026-02-01)\n"))
  }

  lemma QuotingFinds(release: string, other: string)
    requires Distinct(release, other)
    ensures var doc := QuotingDocument(release, other);
            && Find(doc, Header(other)) == 0 && Find(doc, Header(release)) > 0
            && Find(doc, NEXT) < 0 && doc[|doc| - 2] == ')'
  {
    var h, o, doc := Header(release), Header(other), QuotingDocument(release, other);
    var mid := "(tag 2026-01-01)\n- as in ";
    assert MatchAt(doc, o, 0);
    assert doc == (o + mid) + (h + "(tag 2026-02-01)\n");
    MatchAcross(o + mid, h + "(tag 2026-02-01)\n", h, 0);
    assert MatchAt(doc, h, |o + mid|);
    NotInside(doc, o, h, 0, 0);
    QuotingHasNoEnd(release, other);
  }

  lemma QuotingHasNoEnd(release: string, other: string)
    requires '\n' !in release && '\n' !in other
    ensures Find(QuotingDocument(release, other), NEXT) < 0
  {
    var h, o := Header(release), Header(other);
    var a, b := "(tag 2026-01-01)", "(tag 2026-02-01)\n";
    assert Calm(b);
    NewlineAfterHeader("- as in " + h, b);
    var line := ("- as in " + h) + b;
    NewlineAfterLine(o + a, line);
    assert QuotingDocument(release, other) == (o + a) + ("\n" + line);
    NeverFollows((o + a) + ("\n" + line), NEXT);
  }

  lemma NewlineAfterLine(a: string, line: string)
    requires '\n' !in a && line != "" && line[0] == '-'
    requires forall k | 0 <= k < |line| - 1 && line[k] == '\n' :: line[k + 1] == '-'
    ensures var s := a + ("\n" + line); forall k | 0 <= k < |s| - 1 && s[k] == '\n' :: s[k + 1] == '-'
  {
    var s := a + ("\n" + line);
    assert forall k | 0 <= k < |a| :: a[k] in a;
    forall k | 0 <= k < |s| - 1 && s[k] == '\n' ensures s[k + 1] == '-' {
      if k > |a| { assert line[k - |a| - 1] == s[k] && line[k - |a|] == s[k + 1]; }
    }
  }

  lemma QuotingSpans(release: string, other: string)
    requires Distinct(release, other)
    ensures var doc := QuotingDocument(release, other);
            && Find(doc, Header(other)) == 0 && Find(doc, Header(release)) > 0
            && Section(NEXT, doc, Header(other)) == doc
            && Section(NEXT, doc, Header(release)) == doc[Find(doc, Header(release))..]
  {
    var doc := QuotingDocument(release, other);
    QuotingFinds(release, other);
    assert doc[0..] == doc;
    FindInTail(doc, NEXT, Find(doc, Header(release)));
  }

  lemma QuotingDocumentChanges(release: string, other: string, r: Row)
    requires Distinct(release, other) && WfRow(r)
    ensures var doc := QuotingDocument(release, other);
            && Find(doc, Header(other)) == 0
            && !Unchanged(NEXT, doc, Upsert(NEXT, Header(release), doc, DocRow(release, r)), Header(other))
  {
    var doc, h, row := QuotingDocument(release, other), Header(release), DocRow(release, r);
    QuotingFinds(release, other);
    QuotingSpans(release, other);
    QuotingIsReplaced(release, other, doc, r);
    DocRowIsRow(release, r);
    assert doc[Find(doc, h)..] != row + "\n" by {
      var t := doc[Find(doc, h)..];
      assert t[|t| - 2] == ')' && (row + "\n")[|row + "\n"| - 2] == '\n';
    }
  }

  /** One such document, in full. */
  lemma QuotedHeaderIsReplaced()
    ensures var doc := "### v1 " + ("(tag 2026-01-01)\n- as in " + ("### v2 " + "(tag 2026-02-01)\n"));
            var row := DocRow("v2", Row("2026-03-01", 3, 1, [7], "25.0%"));
            Find(doc, Header("v1")) == 0 && !Unchanged(NEXT, doc, Upsert(NEXT, Header("v2"), doc, row), Header("v1"))
  {
    assert Header("v1") == "### v1 " && Header("v2") == "### v2 ";
    assert "v1"[1] == '1' && "v2"[1] == '2';
    TagsApartExactly("v2", "v1");
    QuotingDocumentChanges("v2", "v1", Row("2026-03-01", 3, 1, [7], "25.0%"));
  }

  /** Where headers are not told apart: a release's header begins the header of one whose name goes on
      after a blank. Found there, the two sections are one, and it is that section the row takes. */
  lemma BlankNameIsTaken(release: string, more: string, text: string, r: Row)
    requires '\n' !in release && WfRow(r)
    requires Find(text, Header(release + (" " + more))) >= 0
    requires Find(text, Header(release)) == Find(text, Header(release + (" " + more)))
    ensures var h, o := Header(release), Header(release + (" " + more));
            var out := Upsert(NEXT, h, text, DocRow(release, r));
            && Section(NEXT, text, h) == Section(NEXT, text, o)
            && Find(out, h) == Find(text, o) && Section(NEXT, out, h) == DocRow(release, r) + "\n"
  {
    DocRowIsRow(release, r);
    Replaces(NEXT, Header(release), text, DocRow(release, r));
  }
}
