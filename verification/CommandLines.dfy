/** Command lines of several segments: the walk treats each segment by itself, wherever a wrapped command
    stands, and what the single tokens mean to it. */
module CommandLines {
  import opened Text
  import opened CommandWalker
  import opened WrapperStacks

  // ---- the splitting law ----

  predicate SeparatorChar(c: char) { c in ['&', '|', ';', '\n'] }

  /** The six separators between the segments of a line. */
  const SEPARATORS := ["&&", "||", ";", "|", "\n", "&"]

  /** What `f` makes of each segment of a line, in turn. */
  function PerSegment(f: string -> seq<string>, segments: seq<string>): seq<string> {
    if segments == [] then [] else f(segments[0]) + PerSegment(f, segments[1..])
  }

  function LineWords(f: string -> seq<string>, s: string): seq<string> { PerSegment(f, SplitSegments(s)) }

  lemma FirstSegment(f: string -> seq<string>, s: string, first: string, t: string)
    requires SplitSegments(s) == [first] + SplitSegments(t)
    ensures LineWords(f, s) == f(first) + LineWords(f, t)
  {
    assert ([first] + SplitSegments(t))[1..] == SplitSegments(t);
  }

  /** A separator at the start of a line adds nothing, alone or as half of a double one. */
  lemma {:induction false} LeadingSeparator(f: string -> seq<string>, c: char, u: string)
    requires f("") == [] && SeparatorChar(c)
    ensures LineWords(f, [c] + u) == LineWords(f, u)
    decreases |u|
  {
    var s := [c] + u;
    if Separator(s) == 2 {
      assert s[2..] == u[1..] && u == [c] + u[1..];
      FirstSegment(f, s, "", u[1..]);
      LeadingSeparator(f, c, u[1..]);
    } else {
      assert Separator(s) == 1 && s[1..] == u;
      FirstSegment(f, s, "", u);
    }
  }

  lemma FreeHead(c: char, r: string)
    requires !SeparatorChar(c)
    ensures SplitSegments([c] + r) == [[c] + SplitSegments(r)[0]] + SplitSegments(r)[1..]
  {
    var s := [c] + r;
    assert Separator(s) == 0 && s[1..] == r;
  }

  lemma Prepend(p: string, first: string, more: seq<string>)
    requires p != ""
    ensures var all := [p[1..] + first] + more; [[p[0]] + all[0]] + all[1..] == [p + first] + more
  {
    assert [p[0]] + (p[1..] + first) == p + first;
  }

  /** Text without separators goes to the front of the first segment of what follows. */
  lemma {:induction false} FreePrefix(p: string, t: string)
    requires NoSeparator(p)
    ensures SplitSegments(p + t) == [p + SplitSegments(t)[0]] + SplitSegments(t)[1..]
    decreases |p|
  {
    if p == "" {
      assert p + t == t && "" + SplitSegments(t)[0] == SplitSegments(t)[0];
    } else {
      assert p[0] in p && forall c | c in p[1..] :: c in p;
      assert p + t == [p[0]] + (p[1..] + t);
      FreeHead(p[0], p[1..] + t);
      FreePrefix(p[1..], t);
      Prepend(p, SplitSegments(t)[0], SplitSegments(t)[1..]);
    }
  }

  /** A separator ends the segment in front of it: `u` is what stands behind the separator. */
  lemma FirstEnds(p: string, s: string) returns (u: string)
    requires NoSeparator(p) && Separator(s) > 0
    ensures SplitSegments(p + s) == [p] + SplitSegments(u) && SplitSegments(s) == [""] + SplitSegments(u)
  {
    u := s[Separator(s)..];
    FreePrefix(p, s);
    assert ([""] + SplitSegments(u))[1..] == SplitSegments(u) && p + "" == p;
  }

  lemma WidthOf(sep: string, t: string)
    requires sep in SEPARATORS && (sep == "&" || sep == "|" ==> !(sep <= t))
    ensures Separator(sep + t) == |sep| && (sep + t)[|sep|..] == t
  {
    var s := sep + t;
    assert sep in ["&&", "||", ";", "|", "\n", "&"];
    assert sep == "&" || sep == "|" ==> (sep <= t <==> t != "" && t[0] == sep[0]);
    assert |sep| == 1 && t != "" ==> s[1] == t[0];
  }

  /** Every separator ends its segment and is dropped with it: the longest one that stands there, so `&&` and
      `||` leave no empty segment behind. */
  lemma SegmentsExact(p: string, sep: string, t: string)
    requires NoSeparator(p) && sep in SEPARATORS && (sep == "&" || sep == "|" ==> !(sep <= t))
    ensures SplitSegments(p + (sep + t)) == [p] + SplitSegments(t)
  {
    WidthOf(sep, t);
    FreePrefix(p, sep + t);
    assert SplitSegments(sep + t) == [""] + SplitSegments(t) && p + "" == p;
    assert ([""] + SplitSegments(t))[1..] == SplitSegments(t);
  }

  lemma FreeThenSeparator(f: string -> seq<string>, p: string, c: char, t: string)
    requires f("") == [] && NoSeparator(p) && SeparatorChar(c)
    ensures LineWords(f, p + ([c] + t)) == f(p) + LineWords(f, t)
  {
    assert Separator([c] + t) > 0;
    var u := FirstEnds(p, [c] + t);
    FirstSegment(f, p + ([c] + t), p, u);
    FirstSegment(f, [c] + t, "", u);
    LeadingSeparator(f, c, t);
  }

  lemma FreeLine(f: string -> seq<string>, p: string)
    requires NoSeparator(p)
    ensures LineWords(f, p) == f(p)
  {
    OneSegment(p);
    assert [p][1..] == [] && f(p) + [] == f(p);
  }

  function FreeRun(s: string): (n: nat)
    ensures n <= |s| && NoSeparator(s[..n]) && (n < |s| ==> SeparatorChar(s[n]))
  {
    if s == "" || SeparatorChar(s[0]) then 0 else
      var n := FreeRun(s[1..]);
      assert s[..n + 1] == [s[0]] + s[1..][..n];
      n + 1
  }

  /** `w` gives a segment's words for a segment, and takes a line apart at its first separator. */
  ghost predicate TakesApart(f: string -> seq<string>, w: string -> seq<string>) {
    && (forall p :: NoSeparator(p) ==> AloneAt(f, w, p))
    && (forall p, c, t :: NoSeparator(p) && SeparatorChar(c) ==> ApartAt(f, w, p, c, t))
  }

  predicate AloneAt(f: string -> seq<string>, w: string -> seq<string>, p: string) { w(p) == f(p) }

  predicate ApartAt(f: string -> seq<string>, w: string -> seq<string>, p: string, c: char, t: string) {
    w(p + ([c] + t)) == f(p) + w(t)
  }

  lemma LineTakesApart(f: string -> seq<string>, w: string -> seq<string>)
    requires f("") == [] && w == (s => LineWords(f, s))
    ensures TakesApart(f, w)
  {
    forall p | NoSeparator(p) ensures AloneAt(f, w, p) { FreeLine(f, p); }
    forall p, c, t | NoSeparator(p) && SeparatorChar(c) ensures ApartAt(f, w, p, c, t) {
      FreeThenSeparator(f, p, c, t);
    }
  }

  lemma PastSeparator(f: string -> seq<string>, w: string -> seq<string>, a: string, n: nat, r: string)
    requires TakesApart(f, w) && n < |a| && NoSeparator(a[..n]) && SeparatorChar(a[n])
    ensures w(a + r) == f(a[..n]) + w(a[n + 1..] + r)
  {
    assert a + r == a[..n] + ([a[n]] + (a[n + 1..] + r));
    assert ApartAt(f, w, a[..n], a[n], a[n + 1..] + r);
  }

  lemma {:induction false} ApartEverywhere(f: string -> seq<string>, w: string -> seq<string>,
                                           a: string, c: char, b: string)
    requires TakesApart(f, w) && SeparatorChar(c)
    ensures w(a + ([c] + b)) == w(a) + w(b)
    decreases |a|
  {
    var n := FreeRun(a);
    if n == |a| {
      assert a[..n] == a && AloneAt(f, w, a) && ApartAt(f, w, a, c, b);
    } else {
      PastSeparator(f, w, a, n, [c] + b);
      PastSeparator(f, w, a, n, "");
      assert a + "" == a && a[n + 1..] + "" == a[n + 1..];
      ApartEverywhere(f, w, a[n + 1..], c, b);
    }
  }

  lemma LineSplitsAt(f: string -> seq<string>, a: string, c: char, b: string)
    requires f("") == [] && SeparatorChar(c)
    ensures LineWords(f, a + ([c] + b)) == LineWords(f, a) + LineWords(f, b)
  {
    var w := s => LineWords(f, s);
    LineTakesApart(f, w);
    ApartEverywhere(f, w, a, c, b);
  }

  lemma LineSplitsBy(f: string -> seq<string>, a: string, sep: string, b: string)
    requires f("") == [] && sep in SEPARATORS
    ensures LineWords(f, a + (sep + b)) == LineWords(f, a) + LineWords(f, b)
  {
    assert sep in ["&&", "||", ";", "|", "\n", "&"];
    var c := sep[0];
    if |sep| == 2 {
      assert a + (sep + b) == a + ([c] + ([c] + b));
      LineSplitsAt(f, a, c, [c] + b);
      LeadingSeparator(f, c, b);
    } else {
      assert sep == [c];
      LineSplitsAt(f, a, c, b);
    }
  }

  // ---- command words ----

  function SegmentWords(v: Words): string -> seq<string> { s => Unwrap(v, SplitWords(Strip(s))) }

  lemma NoWords(v: Words)
    ensures SegmentWords(v)("") == []
  {
    assert Strip("") == "" && SplitWords("") == [];
  }

  lemma {:induction false} WordsPerSegment(v: Words, segments: seq<string>, limit: nat)
    requires forall s | s in segments :: |s| <= limit
    ensures WordsOf(v, segments, limit) == PerSegment(SegmentWords(v), segments)
    decreases |segments|
  {
    if segments != [] { WordsPerSegment(v, segments[1..], limit); }
  }

  lemma AsLine(v: Words, s: string)
    ensures CommandWords(v, s) == LineWords(SegmentWords(v), s)
  {
    WordsPerSegment(v, SplitSegments(s), |s|);
  }

  /** A piece without separators is one segment. */
  lemma FreePiece(v: Words, p: string)
    requires NoSeparator(p)
    ensures CommandWords(v, p) == Unwrap(v, SplitWords(Strip(p)))
  {
    AsLine(v, p);
    FreeLine(SegmentWords(v), p);
  }

  /** At each of the six separators the words of the line are those of its two sides, whatever they are. */
  lemma SplitsAtSeparator(v: Words, a: string, sep: string, b: string)
    requires sep in SEPARATORS
    ensures CommandWords(v, a + (sep + b)) == CommandWords(v, a) + CommandWords(v, b)
  {
    NoWords(v);
    AsLine(v, a + (sep + b));
    AsLine(v, a);
    AsLine(v, b);
    LineSplitsBy(SegmentWords(v), a, sep, b);
  }

  /** Pieces with a separator between each two. */
  function Chained(pieces: seq<string>, seps: seq<string>): string
    requires |pieces| == |seps| + 1
  {
    if seps == [] then pieces[0] else pieces[0] + (seps[0] + Chained(pieces[1..], seps[1..]))
  }

  function WordsOfEach(v: Words, pieces: seq<string>): seq<string> {
    if pieces == [] then [] else CommandWords(v, pieces[0]) + WordsOfEach(v, pieces[1..])
  }

  /** The splitting law: the words of a line are the words of its pieces, in order. */
  lemma {:induction false} SplittingLaw(v: Words, pieces: seq<string>, seps: seq<string>)
    requires |pieces| == |seps| + 1 && forall x | x in seps :: x in SEPARATORS
    ensures CommandWords(v, Chained(pieces, seps)) == WordsOfEach(v, pieces)
    decreases |seps|
  {
    if seps == [] {
      assert pieces == [pieces[0]] && pieces[1..] == [];
      assert CommandWords(v, pieces[0]) + [] == CommandWords(v, pieces[0]);
    } else {
      assert seps[0] in seps && forall x | x in seps[1..] :: x in seps;
      SplitsAtSeparator(v, pieces[0], seps[0], Chained(pieces[1..], seps[1..]));
      SplittingLaw(v, pieces[1..], seps[1..]);
    }
  }

  /** And so of the string a shell is given. */
  lemma ShellStringSplits(v: Words, tokens: seq<string>, pieces: seq<string>, seps: seq<string>)
    requires IsShellCall(v, tokens) && !EnvAssign(tokens[0])
    requires |pieces| == |seps| + 1 && forall x | x in seps :: x in SEPARATORS
    requires ShellPayload(tokens[2..]) == Chained(pieces, seps)
    ensures Unwrap(v, tokens) == WordsOfEach(v, pieces)
  {
    SplittingLaw(v, pieces, seps);
  }

  // ---- wrapped commands anywhere in a line ----

  /** A command behind a stack of wrappers, and what follows it. */
  datatype Wrapped = Wrapped(layers: seq<Layer>, c: Command, rest: seq<string>)

  predicate WfWrapped(v: Words, w: Wrapped) {
    WfStack(v, w.layers) && WfCommand(v, w.c) && CleanStack(w.layers, w.c, w.rest)
  }

  function Shown(w: Wrapped): string { Join(Line("", w.layers, w.c, w.rest)) }

  function AllShown(ws: seq<Wrapped>): seq<string> {
    if ws == [] then [] else [Shown(ws[0])] + AllShown(ws[1..])
  }

  function Cores(ws: seq<Wrapped>): seq<string> {
    if ws == [] then [] else [Normalize(ws[0].c.core)] + Cores(ws[1..])
  }

  lemma WordsOfFirst(v: Words, piece: string, more: seq<string>)
    ensures WordsOfEach(v, [piece] + more) == CommandWords(v, piece) + WordsOfEach(v, more)
  {
    assert ([piece] + more)[1..] == more;
  }

  lemma {:induction false} EachFound(v: Words, ws: seq<Wrapped>)
    requires forall w | w in ws :: WfWrapped(v, w)
    ensures WordsOfEach(v, AllShown(ws)) == Cores(ws) && |AllShown(ws)| == |ws|
    decreases |ws|
  {
    if ws != [] {
      var w := ws[0];
      assert w in ws && WfWrapped(v, w) && forall x | x in ws[1..] :: x in ws;
      EachFound(v, ws[1..]);
      WordsOfFirst(v, Shown(w), AllShown(ws[1..]));
      WrappedCommandFound(v, w.layers, w.c, w.rest);
    }
  }

  /** A line of wrapped commands has the bare commands' words, one for each and in order. A shell string of
      several commands is such a line: its opening quote hangs on the first command, its closing quote on
      the end of the last, and the separators inside it split the line like any others. */
  lemma EveryWrappedFound(v: Words, ws: seq<Wrapped>, seps: seq<string>)
    requires |ws| == |seps| + 1 && (forall x | x in seps :: x in SEPARATORS) && forall w | w in ws :: WfWrapped(v, w)
    ensures |AllShown(ws)| == |ws| && CommandWords(v, Chained(AllShown(ws), seps)) == Cores(ws)
  {
    EachFound(v, ws);
    SplittingLaw(v, AllShown(ws), seps);
  }

  lemma MiddlePiece(v: Words, before: string, opening: string, piece: string, closing: string, after: string)
    requires opening in SEPARATORS && closing in SEPARATORS
    ensures CommandWords(v, before + (opening + (piece + (closing + after)))) ==
            CommandWords(v, before) + (CommandWords(v, piece) + CommandWords(v, after))
  {
    SplitsAtSeparator(v, piece, closing, after);
    SplitsAtSeparator(v, before, opening, piece + (closing + after));
  }

  /** A wrapped analysis binary is found in any segment of any line. */
  lemma HookFindsBinaryAnywhere(before: string, opening: string, w: Wrapped, closing: string, after: string)
    requires opening in SEPARATORS && closing in SEPARATORS && WfStack(HOOK_WORDS, w.layers)
    requires CleanStack(w.layers, w.c, w.rest) && All(IsQuote, w.c.pre) && All(IsQuote, w.c.post)
    requires Head(w.c.core) && !IsQuote(w.c.core[|w.c.core| - 1]) && Normalize(w.c.core) in HOOK_WORDS.binaries
    ensures CommandWords(HOOK_WORDS, before + (opening + (Shown(w) + (closing + after)))) ==
            CommandWords(HOOK_WORDS, before) + ([Normalize(w.c.core)] + CommandWords(HOOK_WORDS, after))
  {
    HookFindsBinary(w.layers, w.c, w.rest);
    MiddlePiece(HOOK_WORDS, before, opening, Shown(w), closing, after);
  }

  // ---- single tokens ----

  /** White space between tokens splits, whatever white space it is and wherever it stands. */
  lemma {:induction false} WordsAtSpace(a: string, c: char, b: string)
    requires IsSpace(c)
    ensures SplitWords(a + ([c] + b)) == SplitWords(a) + SplitWords(b)
    decreases |a|
  {
    var s := a + ([c] + b);
    if a == "" {
      assert s[0] == c && s[1..] == b;
    } else if IsSpace(a[0]) {
      assert s[1..] == a[1..] + ([c] + b);
      WordsAtSpace(a[1..], c, b);
    } else {
      var n := Run(IsNonSpace, a);
      RunAcross(IsNonSpace, a, [c] + b);
      assert s[..n] == a[..n] && s[n..] == a[n..] + ([c] + b);
      WordsAtSpace(a[n..], c, b);
      assert ([a[..n]] + SplitWords(a[n..])) + SplitWords(b) == [a[..n]] + (SplitWords(a[n..]) + SplitWords(b));
    }
  }

  predicate IsName(s: string) { s != "" && !IsAsciiDigit(s[0]) && All(IsNameChar, s) }

  /** An assignment is a name, an equals sign and any value. */
  lemma AssignExact(t: string)
    ensures EnvAssign(t) <==> exists name, value :: IsName(name) && t == name + ("=" + value)
  {
    if EnvAssign(t) {
      var n := Run(IsNameChar, t);
      forall i | 0 <= i < n ensures IsNameChar(t[..n][i]) { InRun(IsNameChar, t, i); }
      assert IsName(t[..n]) && t == t[..n] + ("=" + t[n + 1..]);
    }
    if name, value :| IsName(name) && t == name + ("=" + value) {
      RunIs(IsNameChar, name, "=" + value);
    }
  }

  /** A name is letters, digits and underscores, and no digit comes first. */
  lemma NamesAre(s: string)
    ensures IsName(s) <==>
            s != "" && !('0' <= s[0] <= '9')
            && forall c | c in s :: c == '_' || 'a' <= c <= 'z' || 'A' <= c <= 'Z' || '0' <= c <= '9'
  {
    assert All(IsNameChar, s) <==> forall c | c in s :: IsNameChar(c);
  }

  lemma {:induction false} DropDotIs(a: string, b: string)
    requires '.' !in a
    ensures DropDot(a + ("." + b)) == a + b && DropDot(a) == a
    decreases |a|
  {
    var s := a + ("." + b);
    if a == "" {
      assert s[1..] == b && s[0] == '.';
    } else {
      assert s[0] == a[0] && a[0] in a && s[1..] == a[1..] + ("." + b) && a == [a[0]] + a[1..];
      DropDotIs(a[1..], b);
      assert [a[0]] + (a[1..] + b) == a + b;
    }
  }

  /** Digits with at most one dot before, between or after them. */
  predicate NumberOf(t: string, a: string, b: string) {
    All(IsAsciiDigit, a + b) && a + b != "" && (t == a + b || t == a + ("." + b))
  }

  lemma NumberIsNumeric(t: string, a: string, b: string)
    requires NumberOf(t, a, b)
    ensures IsNumeric(t)
  {
    assert '.' !in a + b && forall c | c in a :: c in a + b;
    DropDotIs(a, b);
    DropDotIs(a + b, "");
  }

  lemma FirstDot(t: string) returns (a: string, b: string)
    requires '.' in t
    ensures '.' !in a && t == a + ("." + b)
  {
    if t[0] == '.' {
      a, b := "", t[1..];
    } else {
      assert t == [t[0]] + t[1..];
      var c, d := FirstDot(t[1..]);
      a, b := [t[0]] + c, d;
    }
  }

  /** What `t.replace(".", "", 1).isdigit()` accepts. */
  lemma NumericExact(t: string)
    ensures IsNumeric(t) <==> exists a, b :: NumberOf(t, a, b)
  {
    forall a, b | NumberOf(t, a, b) ensures IsNumeric(t) { NumberIsNumeric(t, a, b); }
    if IsNumeric(t) {
      if '.' in t {
        var a, b := FirstDot(t);
        DropDotIs(a, b);
        assert NumberOf(t, a, b);
      } else {
        DropDotIs(t, "");
        assert t + "" == t && NumberOf(t, t, "");
      }
    }
  }

  /** What a flagged wrapper's walk skips: flags, and numbers. */
  lemma OptionExact(t: string)
    ensures IsOption(t) <==> "-" <= t || exists a, b :: NumberOf(t, a, b)
  {
    NumericExact(t);
  }

  lemma {:induction false} BaseNameIs(dir: string, base: string)
    requires dir == "" || dir[|dir| - 1] in ['/', '\\']
    requires '/' !in base && '\\' !in base
    ensures BaseName(dir + base) == base
    decreases |base|
  {
    var s := dir + base;
    if base != "" {
      assert s[|s| - 1] == base[|base| - 1] && base[|base| - 1] in base;
      assert s[..|s| - 1] == dir + base[..|base| - 1] && base == base[..|base| - 1] + [base[|base| - 1]];
      BaseNameIs(dir, base[..|base| - 1]);
    } else {
      assert s == dir;
    }
  }

  predicate ProgramSuffix(s: string) { Lower(s) in [".bat", ".exe", ".cmd"] }

  /** The command word of a program's path: no quotes, brackets or negation around it, no directory of
      either style, no program suffix in any case, and the rest in lower case. */
  lemma NormalizePath(pre: string, dir: string, base: string, suffix: string, post: string)
    requires All(IsDecoration, pre) && All(IsDecoration, post)
    requires dir == "" || dir[|dir| - 1] in ['/', '\\']
    requires '/' !in base && '\\' !in base
    requires suffix == "" ==> |base| < 4 || !ProgramSuffix(base[|base| - 4..])
    requires suffix != "" ==> ProgramSuffix(suffix)
    requires var path := dir + (base + suffix);
             path != "" && !IsDecoration(path[0]) && !IsDecoration(path[|path| - 1])
    ensures Normalize(pre + ((dir + (base + suffix)) + post)) == Lower(base)
  {
    SuffixEnds(base, suffix);
    TrimPath(pre, dir + (base + suffix), post);
    BaseNameIs(dir, base + suffix);
  }

  lemma SuffixEnds(base: string, suffix: string)
    requires '/' !in base && '\\' !in base
    requires suffix == "" ==> |base| < 4 || !ProgramSuffix(base[|base| - 4..])
    requires suffix != "" ==> ProgramSuffix(suffix)
    ensures var s := base + suffix; '/' !in s && '\\' !in s && DropSuffix(s) == base
  {
    var s := base + suffix;
    if suffix == "" {
      assert s == base;
    } else {
      assert Lower(suffix) in [".bat", ".exe", ".cmd"];
      assert |suffix| == |Lower(suffix)| == 4;
      forall i | 0 <= i < 4 ensures suffix[i] !in ['/', '\\'] {
        assert LowerChar(suffix[i]) == Lower(suffix)[i];
      }
      assert s[|s| - 4..] == suffix && s[..|s| - 4] == base;
    }
  }

  lemma TrimPath(pre: string, path: string, post: string)
    requires All(IsDecoration, pre) && All(IsDecoration, post)
    requires path != "" && !IsDecoration(path[0]) && !IsDecoration(path[|path| - 1])
    ensures Trim(IsDecoration, pre + (path + post)) == path
  {
    RunIs(IsDecoration, pre, path + post);
    TrimRightIs(IsDecoration, path, post);
  }

  /** What hugs a word, and what a shell string is freed of at both ends. */
  lemma Decorations()
    ensures forall c :: IsDecoration(c) <==> c == '(' || c == ')' || c == '!' || IsQuote(c)
    ensures forall c :: IsQuote(c) <==> c == '\'' || c == '"'
    ensures Lower("AZaz09-_.[@") == "azaz09-_.[@"
  {}

  // ---- what ends the walk ----

  /** A shell without `-c` is itself the command word. */
  lemma ShellAlone(v: Words, tokens: seq<string>)
    requires tokens != [] && !EnvAssign(tokens[0])
    requires Normalize(tokens[0]) in v.shells - v.wrappers - v.flagged && Normalize(tokens[0]) != ""
    requires |tokens| == 1 || Strip(tokens[1]) != "-c"
    ensures Unwrap(v, tokens) == [Normalize(tokens[0])]
  {}

  lemma {:induction false} OnlyFlags(v: Words, before: seq<string>, flags: seq<Flag>)
    requires forall f | f in flags :: WfFlag(v, f)
    ensures SkipFlags(v, before + FlagTokens(flags), |before|) == |before| + |FlagTokens(flags)|
    decreases |flags|
  {
    if flags != [] {
      var f, more := flags[0], FlagTokens(flags[1..]);
      assert WfFlag(v, f) && forall x | x in flags[1..] :: x in flags;
      assert before + (OwnTokens(f) + more) == (before + OwnTokens(f)) + more;
      assert (before + (OwnTokens(f) + more))[|before|] == f.f;
      OnlyFlags(v, before + OwnTokens(f), flags[1..]);
    }
  }

  /** A wrapper with flags only, the operand of the last included, wraps nothing. */
  lemma NothingWrapped(v: Words, l: Layer)
    requires l.Plain? && WfLayer(v, l)
    ensures Unwrap(v, [l.t] + FlagTokens(l.flags)) == []
  {
    var tokens := [l.t] + FlagTokens(l.flags);
    LayerWord(v, l);
    OnlyFlags(v, [l.t], l.flags);
    assert tokens[0] == l.t && tokens[SkipFlags(v, tokens, 1)..] == [];
  }
}
