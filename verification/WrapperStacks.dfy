/** The walk sees through every stack of wrappers: what stands in front of a command, and how deep it
    is quoted, never changes the command word that is found. */
module WrapperStacks {
  import opened Text
  import opened CommandWalker

  datatype Flag = Lone(f: string) | Valued(f: string, operand: string)

  datatype Layer =
    | Assign(t: string)                        // NAME=value
    | Plain(t: string, flags: seq<Flag>)       // sudo -u user, xargs -0, ...
    | Flagged(t: string, options: seq<string>) // timeout 60, nice -n 10, ...
    | Shell(t: string, quote: string)          // sh -c '...

  /** The command token: its text between quotes that may hug it. */
  datatype Command = Command(pre: string, core: string, post: string)

  function Token(c: Command): string { c.pre + (c.core + c.post) }

  function OwnTokens(f: Flag): seq<string> {
    match f case Lone(t) => [t] case Valued(t, operand) => [t, operand]
  }

  function FlagTokens(flags: seq<Flag>): seq<string> {
    if flags == [] then []
    else OwnTokens(flags[0]) + FlagTokens(flags[1..])
  }

  function Args(l: Layer): seq<string> {
    match l
    case Assign(_) => []
    case Plain(_, flags) => FlagTokens(flags)
    case Flagged(_, options) => options
    case Shell(_, _) => ["-c"]
  }

  function OpenQuote(l: Layer): string { if l.Shell? then l.quote else "" }

  /** The tokens in front of the command; `a` hangs on the first token of what follows. */
  function Front(a: string, layers: seq<Layer>): seq<string>
    decreases |layers|
  {
    if layers == [] then []
    else [a + layers[0].t] + (Args(layers[0]) + Front(OpenQuote(layers[0]), layers[1..]))
  }

  /** The opening quotes that end up on the command token itself. */
  function Pending(a: string, layers: seq<Layer>): string
    decreases |layers|
  {
    if layers == [] then a else Pending(OpenQuote(layers[0]), layers[1..])
  }

  /** Every closing quote is part of `c.post` or of `rest`, like any other text after the command. */
  function Line(a: string, layers: seq<Layer>, c: Command, rest: seq<string>): seq<string> {
    Front(a, layers) + ([Pending(a, layers) + Token(c)] + rest)
  }

  // ---- which stacks: the tables decide, nothing else ----

  predicate Head(t: string) { t != "" && !IsQuote(t[0]) && !EnvAssign(t) && !IsOption(t) }

  /** The word between quotes that may hug it: the text without those that open it. */
  predicate HeadWord(t: string) { Head(TrimLeft(IsQuote, t)) }

  predicate WfFlag(v: Words, f: Flag) {
    IsFlag(f.f) && (f.Valued? <==> f.f in v.valueFlags)
  }

  predicate WfLayer(v: Words, l: Layer) {
    match l
    case Assign(t) => EnvAssign(t)
    case Plain(t, flags) =>
      HeadWord(t) && Normalize(t) in v.wrappers - v.flagged - v.shells && forall f | f in flags :: WfFlag(v, f)
    case Flagged(t, options) =>
      HeadWord(t) && Normalize(t) in v.flagged - v.shells && forall o | o in options :: IsOption(o)
    case Shell(t, quote) => HeadWord(t) && Normalize(t) in v.shells && All(IsQuote, quote)
  }

  predicate WfCommand(v: Words, c: Command) {
    && All(IsQuote, c.pre) && All(IsQuote, c.post)
    && Head(c.core) && !IsQuote(c.core[|c.core| - 1])
    && Normalize(c.core) != "" && Normalize(c.core) !in v.wrappers + v.flagged + v.shells
  }

  predicate WfStack(v: Words, layers: seq<Layer>) { forall l | l in layers :: WfLayer(v, l) }

  predicate HasShell(layers: seq<Layer>) { exists l :: l in layers && l.Shell? }

  predicate IsCleanChar(c: char) { !IsSpace(c) && c !in ['&', '|', ';', '\n'] }

  /** A token as splitting a segment gives it: not empty, no white space, no separator. */
  predicate Clean(t: string) { t != "" && All(IsCleanChar, t) }

  predicate AllClean(ts: seq<string>) { forall t | t in ts :: Clean(t) }

  // ---- tokens ----

  lemma QuotesAreClean(q: string)
    requires All(IsQuote, q)
    ensures All(IsCleanChar, q)
  {}

  /** Hugging quotes do not change the command word. */
  lemma NormalizeQuoted(pre: string, t: string, post: string)
    requires All(IsQuote, pre) && All(IsQuote, post)
    ensures Normalize(pre + (t + post)) == Normalize(t)
  {
    assert All(IsDecoration, pre);
    assert All(IsDecoration, post);
    TrimLeftAcross(IsDecoration, pre, t + post);
    TrimTail(IsDecoration, t, post);
  }

  lemma TrimTail(p: char -> bool, t: string, post: string)
    requires All(p, post)
    ensures Trim(p, t + post) == Trim(p, t)
  {
    RunBefore(p, t, post);
    if Run(p, t) < |t| {
      assert (t + post)[Run(p, t)..] == TrimLeft(p, t) + post;
      TrimRightAcross(p, TrimLeft(p, t), post);
    } else {
      assert post + "" == post && TrimLeft(p, t) == "";
      TrimLeftAcross(p, post, "");
    }
  }

  lemma EnvAssignQuoted(pre: string, t: string, post: string)
    requires All(IsQuote, pre) && All(IsQuote, post) && Head(t)
    ensures !EnvAssign(pre + (t + post))
  {
    if pre != "" {
      assert (pre + (t + post))[0] == pre[0] && pre[0] in pre;
      assert Run(IsNameChar, pre + (t + post)) == 0;
    } else {
      assert pre + (t + post) == t + post;
      if post == "" {
        assert t + post == t;
      } else {
        assert post[0] in post && (t + post)[0] == t[0];
        RunAcross(IsNameChar, t, post);
      }
    }
  }

  lemma {:induction false} DropDotChars(t: string)
    ensures forall c | c in t && c != '.' :: c in DropDot(t)
    decreases |t|
  {
    if t != "" && t[0] != '.' {
      assert t == [t[0]] + t[1..];
      DropDotChars(t[1..]);
    }
  }

  lemma OptionQuoted(pre: string, t: string, post: string)
    requires All(IsQuote, pre) && All(IsQuote, post) && Head(t)
    ensures !IsOption(pre + (t + post))
  {
    var s := pre + (t + post);
    if pre == "" && post == "" {
      assert s == t;
    } else {
      var q := if pre != "" then pre[0] else post[0];
      assert IsQuote(q) && q in s;
      DropDotChars(s);
      assert pre != "" ==> s[0] == pre[0] && pre[0] in pre;
    }
  }

  lemma AssignIsHead(t: string)
    requires EnvAssign(t)
    ensures t != "" && !IsQuote(t[0]) && !IsOption(t)
  {
    assert IsNameChar(t[0]);
    DropDotChars(t);
    assert t[0] in t;
  }

  // ---- joining and splitting clean tokens ----

  lemma CleanEnds(t: string)
    requires Clean(t)
    ensures !IsSpace(t[0]) && !IsSpace(t[|t| - 1])
  {
    assert t[0] in t && t[|t| - 1] in t;
  }

  lemma LastChar(a: string, b: string)
    requires b != ""
    ensures (a + b)[|a + b| - 1] == b[|b| - 1]
  {}

  lemma {:induction false} JoinedEnds(ts: seq<string>)
    requires ts != [] && forall t | t in ts :: t != ""
    ensures ts[0] in ts && ts[|ts| - 1] in ts
    ensures var s, z := Join(ts), ts[|ts| - 1]; s != "" && s[0] == ts[0][0] && s[|s| - 1] == z[|z| - 1]
    decreases |ts|
  {
    if |ts| > 1 {
      assert (forall t | t in ts[1..] :: t in ts) && ts[1..][|ts[1..]| - 1] == ts[|ts| - 1];
      JoinedEnds(ts[1..]);
      LastChar(ts[0], " " + Join(ts[1..]));
      LastChar(" ", Join(ts[1..]));
    }
  }

  lemma JoinEnds(ts: seq<string>)
    requires ts != [] && AllClean(ts)
    ensures Join(ts) != "" && Clean(ts[0]) && Clean(ts[|ts| - 1])
    ensures Join(ts)[0] == ts[0][0] && Join(ts)[|Join(ts)| - 1] == ts[|ts| - 1][|ts[|ts| - 1]| - 1]
    ensures !IsSpace(Join(ts)[0]) && !IsSpace(Join(ts)[|Join(ts)| - 1])
  {
    JoinedEnds(ts);
    CleanEnds(ts[0]);
    CleanEnds(ts[|ts| - 1]);
  }

  lemma {:induction false} SplitJoin(ts: seq<string>)
    requires AllClean(ts)
    ensures SplitWords(Join(ts)) == ts
    decreases |ts|
  {
    if ts != [] {
      var t := ts[0];
      assert t in ts && t[0] in t && forall x | x in ts[1..] :: x in ts;
      assert ts == [t] + ts[1..];
      var tail := if |ts| == 1 then "" else " " + Join(ts[1..]);
      assert Join(ts) == t + tail;
      RunIs(IsNonSpace, t, tail);
      assert (t + tail)[..|t|] == t && (t + tail)[|t|..] == tail;
      if |ts| > 1 {
        assert tail[1..] == Join(ts[1..]);
        SplitJoin(ts[1..]);
      }
    }
  }

  predicate NoSeparator(s: string) { forall c | c in s :: c !in ['&', '|', ';', '\n'] }

  lemma {:induction false} OneSegment(s: string)
    requires NoSeparator(s)
    ensures SplitSegments(s) == [s]
    decreases |s|
  {
    if s != "" {
      assert s[0] in s && forall c | c in s[1..] :: c in s;
      assert s == [s[0]] + s[1..];
      OneSegment(s[1..]);
    }
  }

  lemma {:induction false} JoinHasNoSeparator(ts: seq<string>)
    requires forall t | t in ts :: All(IsCleanChar, t)
    ensures NoSeparator(Join(ts))
    decreases |ts|
  {
    if ts != [] {
      assert ts[0] in ts && forall t | t in ts[1..] :: t in ts;
      JoinHasNoSeparator(ts[1..]);
    }
  }

  lemma {:induction false} JoinLast(init: seq<string>, x: string, z: string)
    ensures Join(init + [x + z]) == Join(init + [x]) + z
    ensures init != [] ==> Join(init + [""]) == Join(init) + " "
    decreases |init|
  {
    if init != [] {
      assert (init + [x + z])[1..] == init[1..] + [x + z] && (init + [x])[1..] == init[1..] + [x];
      assert (init + [""])[1..] == init[1..] + [""];
      JoinLast(init[1..], x, z);
    }
  }

  lemma PayloadText(p: string, h: string, init: seq<string>, l: string, z: string, ts: seq<string>)
    requires [h] + ts == init + [l + z]
    ensures Join([p + h] + ts) == p + (Join(init + [l]) + z)
  {
    JoinLast(init, l, z);
    assert Join([p + h] + ts) == p + Join([h] + ts) by {
      assert ([p + h] + ts)[1..] == ts && ([h] + ts)[1..] == ts;
      if ts != [] {
        assert (p + h) + (" " + Join(ts)) == p + (h + (" " + Join(ts)));
      }
    }
  }

  lemma OneSegmentText(ts: seq<string>)
    requires forall t | t in ts :: All(IsCleanChar, t)
    ensures SplitSegments(Join(ts)) == [Join(ts)]
  {
    JoinHasNoSeparator(ts);
    OneSegment(Join(ts));
  }

  /** The text of clean tokens, closed or with a last blank left behind. */
  lemma ClosedText(kept: seq<string>)
    requires kept != [] && AllClean(kept)
    ensures Strip(Join(kept)) == Join(kept) && Strip(Join(kept) + " ") == Join(kept)
  {
    var s := Join(kept);
    JoinEnds(kept);
    TrimNothing(IsSpace, s);
    assert All(IsSpace, " ") && Run(IsSpace, s + " ") == 0 && (s + " ")[0..] == s + " ";
    TrimRightIs(IsSpace, s, " ");
  }

  lemma OpenText(init: seq<string>, l: string)
    requires AllClean(init) && (if l == "" then init != [] else Clean(l))
    ensures var s, kept := Join(init + [l]), if l == "" then init else init + [l];
            && Strip(s) == Join(kept) && SplitWords(Join(kept)) == kept && SplitSegments(s) == [s]
            && s != "" && kept[0] != "" && s[0] == kept[0][0] && !IsSpace(s[0])
  {
    var s, kept := Join(init + [l]), if l == "" then init else init + [l];
    JoinLast(init, l, "");
    ClosedText(kept);
    JoinEnds(kept);
    SplitJoin(kept);
    OneSegmentText(init + [l]);
  }

  lemma OpenTextEnd(init: seq<string>, l: string)
    requires AllClean(init) && (if l == "" then init != [] else Clean(l))
    ensures var s := Join(init + [l]); s != "" && s[|s| - 1] == if l == "" then ' ' else l[|l| - 1]
  {
    if l == "" {
      JoinLast(init, l, "");
    } else {
      JoinEnds(init + [l]);
    }
  }

  lemma FirstChar(h: string, init: seq<string>, l: string, z: string, ts: seq<string>)
    requires h != "" && (init == [] ==> l != "") && [h] + ts == init + [l + z]
    ensures var kept := if l == "" then init else init + [l];
            kept[0] != "" ==> kept[0][0] == h[0]
  {
    assert (init + [l + z])[0] == h;
    assert init == [] ==> (l + z)[0] == l[0];
    assert init != [] ==> init[0] == h;
  }

  lemma OpenEdges(h: string, init: seq<string>, l: string, z: string, ts: seq<string>)
    requires Clean(h) && !IsQuote(h[0]) && AllClean(init) && [h] + ts == init + [l + z]
    requires if l == "" then init != [] && z != "" else Clean(l) && !IsQuote(l[|l| - 1])
    ensures var s := Join(init + [l]);
            && s != "" && !IsQuote(s[0]) && !IsSpace(s[0]) && !IsQuote(s[|s| - 1])
            && (IsSpace(s[|s| - 1]) ==> z != "")
  {
    OpenText(init, l);
    OpenTextEnd(init, l);
    FirstChar(h, init, l, z, ts);
  }

  lemma StripQuotedPayload(p: string, s: string, z: string)
    requires All(IsQuote, p) && All(IsQuote, z) && s != "" && !IsQuote(s[0]) && !IsSpace(s[0]) && !IsQuote(s[|s| - 1])
    requires IsSpace(s[|s| - 1]) ==> z != ""
    ensures Trim(IsQuote, Strip(p + (s + z))) == s
  {
    var t := p + (s + z);
    assert z != "" ==> z[|z| - 1] in z && t[|t| - 1] == z[|z| - 1];
    assert p != "" ==> p[0] in p && t[0] == p[0];
    TrimNothing(IsSpace, t);
    RunIs(IsQuote, p, s + z);
    TrimRightIs(IsQuote, s, z);
  }

  /** What the shell branch makes of its tokens: opening quotes off the first, closing quotes off the
      last, and the last dropped when nothing else was in it. */
  lemma PayloadTokens(p: string, h: string, init: seq<string>, l: string, z: string, ts: seq<string>)
    requires All(IsQuote, p) && All(IsQuote, z) && Clean(h) && !IsQuote(h[0]) && AllClean(init)
    requires if l == "" then init != [] && z != "" else Clean(l) && !IsQuote(l[|l| - 1])
    requires [h] + ts == init + [l + z]
    ensures var payload := ShellPayload([p + h] + ts);
            && SplitSegments(payload) == [payload]
            && SplitWords(Strip(payload)) == if l == "" then init else init + [l]
  {
    PayloadText(p, h, init, l, z, ts);
    OpenEdges(h, init, l, z, ts);
    StripQuotedPayload(p, Join(init + [l]), z);
    OpenText(init, l);
  }

  // ---- transparency ----

  predicate CleanLayer(l: Layer) { Clean(l.t) && AllClean(Args(l)) }

  /** The parts of a stack inside a shell string, as whitespace splitting leaves them. */
  predicate CleanStack(layers: seq<Layer>, c: Command, rest: seq<string>) {
    (forall l | l in layers :: CleanLayer(l)) && Clean(c.core) && AllClean(rest)
  }

  lemma AllCleanConcat(a: seq<string>, b: seq<string>)
    requires AllClean(a) && AllClean(b)
    ensures AllClean(a + b)
  {}

  lemma {:induction false} PendingIsQuotes(v: Words, a: string, layers: seq<Layer>)
    requires All(IsQuote, a) && WfStack(v, layers)
    ensures All(IsQuote, Pending(a, layers))
    decreases |layers|
  {
    if layers != [] {
      assert WfLayer(v, layers[0]) && forall l | l in layers[1..] :: l in layers;
      PendingIsQuotes(v, OpenQuote(layers[0]), layers[1..]);
    }
  }

  lemma {:induction false} FrontIsClean(v: Words, a: string, layers: seq<Layer>)
    requires All(IsQuote, a) && WfStack(v, layers) && forall l | l in layers :: CleanLayer(l)
    ensures AllClean(Front(a, layers))
    decreases |layers|
  {
    if layers != [] {
      var l := layers[0];
      assert WfLayer(v, l) && CleanLayer(l) && forall x | x in layers[1..] :: x in layers;
      FrontIsClean(v, OpenQuote(l), layers[1..]);
      QuotesAreClean(a);
      AllCleanConcat(Args(l), Front(OpenQuote(l), layers[1..]));
      AllCleanConcat([a + l.t], Args(l) + Front(OpenQuote(l), layers[1..]));
    }
  }

  lemma TokenIsClean(a: string, c: Command)
    requires All(IsQuote, a) && All(IsQuote, c.pre) && All(IsQuote, c.post) && Clean(c.core)
    ensures Clean(a + Token(c))
  {
    QuotesAreClean(a);
    QuotesAreClean(c.pre);
    QuotesAreClean(c.post);
  }

  /** Everything after the first token. */
  function AfterFirst(layers: seq<Layer>, c: Command, rest: seq<string>): seq<string> {
    if layers == [] then rest
    else Args(layers[0]) + (Front(OpenQuote(layers[0]), layers[1..]) + ([Pending("", layers) + Token(c)] + rest))
  }

  lemma LineSplits(a: string, layers: seq<Layer>, c: Command, rest: seq<string>)
    ensures Line(a, layers, c, rest) ==
            [a + if layers == [] then Token(c) else layers[0].t] + AfterFirst(layers, c, rest)
  {
    if layers == [] {
      assert Line(a, layers, c, rest) == [a + Token(c)] + rest;
    } else {
      var args, front, tail := Args(layers[0]), Front(OpenQuote(layers[0]), layers[1..]),
          [Pending(a, layers) + Token(c)] + rest;
      assert ([a + layers[0].t] + (args + front)) + tail == [a + layers[0].t] + (args + (front + tail));
    }
  }

  /** A text in quotes, cut after the quotes that open it. */
  lemma CutQuotes(t: string) returns (pre: string, core: string)
    ensures pre == t[..Run(IsQuote, t)] && core == TrimLeft(IsQuote, t) && t == pre + core && All(IsQuote, pre)
  {
    pre, core := t[..Run(IsQuote, t)], TrimLeft(IsQuote, t);
    forall i | 0 <= i < |pre| ensures IsQuote(pre[i]) {
      InRun(IsQuote, t, i);
    }
    assert All(IsQuote, pre);
  }

  lemma LayerWord(v: Words, l: Layer)
    requires WfLayer(v, l)
    ensures l.t != "" && !IsOption(l.t) && (!l.Assign? ==> !EnvAssign(l.t))
  {
    if l.Assign? {
      AssignIsHead(l.t);
    } else {
      var pre, core := CutQuotes(l.t);
      assert core + "" == core;
      EnvAssignQuoted(pre, core, "");
      OptionQuoted(pre, core, "");
    }
  }

  /** A layer whose word has lost the quotes that open it. */
  function Bare(l: Layer): Layer { l.(t := TrimLeft(IsQuote, l.t)) }

  lemma BareLayer(v: Words, l: Layer)
    requires WfLayer(v, l) && CleanLayer(l)
    ensures WfLayer(v, Bare(l)) && CleanLayer(Bare(l)) && !IsQuote(Bare(l).t[0])
    ensures Args(Bare(l)) == Args(l) && OpenQuote(Bare(l)) == OpenQuote(l)
  {
    var pre, core := CutQuotes(l.t);
    if l.Assign? {
      AssignIsHead(l.t);
      assert pre == "" && core == l.t;
    } else {
      assert core + "" == core;
      NormalizeQuoted(pre, core, "");
      assert core[0..] == core;
      assert forall x | x in core :: x in l.t;
    }
  }

  function BareFirst(layers: seq<Layer>): seq<Layer> {
    if layers == [] then [] else [Bare(layers[0])] + layers[1..]
  }

  lemma BareStack(v: Words, layers: seq<Layer>, c: Command, rest: seq<string>)
    requires WfStack(v, layers) && CleanStack(layers, c, rest)
    ensures WfStack(v, BareFirst(layers)) && CleanStack(BareFirst(layers), c, rest) && |BareFirst(layers)| == |layers|
    ensures AfterFirst(BareFirst(layers), c, rest) == AfterFirst(layers, c, rest)
  {
    if layers != [] {
      assert WfLayer(v, layers[0]) && CleanLayer(layers[0]);
      BareLayer(v, layers[0]);
      var bare := BareFirst(layers);
      assert bare[0] == Bare(layers[0]) && bare[1..] == layers[1..];
      assert forall l | l in bare :: l == bare[0] || l in layers;
    }
  }

  /** The pending quotes `a` reach only the first token: the first layer's word or the command token. */
  lemma FirstToken(v: Words, a: string, layers: seq<Layer>, c: Command, rest: seq<string>)
    returns (p: string, h: string, d: Command)
    requires All(IsQuote, a) && WfStack(v, layers) && WfCommand(v, c) && CleanStack(layers, c, rest)
    ensures All(IsQuote, p) && Clean(h) && !IsQuote(h[0]) && WfCommand(v, d) && d.core == c.core
    ensures Line(a, layers, c, rest) == [p + h] + AfterFirst(layers, d, rest)
    ensures Line("", BareFirst(layers), d, rest) == [h] + AfterFirst(layers, d, rest)
  {
    if layers == [] {
      p, h, d := FirstIsCommand(v, a, c, rest);
    } else {
      p, h := FirstIsLayer(v, a, layers, c, rest);
      d := c;
    }
  }

  lemma FirstIsCommand(v: Words, a: string, c: Command, rest: seq<string>) returns (p: string, h: string, d: Command)
    requires All(IsQuote, a) && WfCommand(v, c) && CleanStack([], c, rest)
    ensures All(IsQuote, p) && Clean(h) && !IsQuote(h[0]) && WfCommand(v, d) && d.core == c.core
    ensures Line(a, [], c, rest) == [p + h] + rest && Line("", [], d, rest) == [h] + rest
  {
    p, d := a + c.pre, c.(pre := "");
    h := c.core + c.post;
    assert "" + Token(c.(pre := "")) == c.core + c.post && a + Token(c) == (a + c.pre) + (c.core + c.post);
    TokenIsClean("", d);
    LineSplits(a, [], c, rest);
    LineSplits("", [], d, rest);
  }

  lemma FirstIsLayer(v: Words, a: string, layers: seq<Layer>, c: Command, rest: seq<string>)
    returns (p: string, h: string)
    requires All(IsQuote, a) && WfStack(v, layers) && layers != [] && CleanStack(layers, c, rest)
    ensures All(IsQuote, p) && Clean(h) && !IsQuote(h[0])
    ensures Line(a, layers, c, rest) == [p + h] + AfterFirst(layers, c, rest)
    ensures Line("", BareFirst(layers), c, rest) == [h] + AfterFirst(layers, c, rest)
  {
    assert WfLayer(v, layers[0]) && CleanLayer(layers[0]);
    var pre, core := CutQuotes(layers[0].t);
    p, h := a + pre, core;
    BareLayer(v, layers[0]);
    BareLine(v, a, layers, c, rest);
    assert a + layers[0].t == p + h;
  }

  lemma BareLine(v: Words, a: string, layers: seq<Layer>, c: Command, rest: seq<string>)
    requires WfStack(v, layers) && layers != [] && CleanStack(layers, c, rest)
    ensures Line(a, layers, c, rest) == [a + layers[0].t] + AfterFirst(layers, c, rest)
    ensures Line("", BareFirst(layers), c, rest) == [TrimLeft(IsQuote, layers[0].t)] + AfterFirst(layers, c, rest)
  {
    var h := TrimLeft(IsQuote, layers[0].t);
    BareStack(v, layers, c, rest);
    LineSplits(a, layers, c, rest);
    LineSplits("", BareFirst(layers), c, rest);
    assert "" + h == h;
  }

  lemma AppendLast(front: seq<string>, token: string, before: seq<string>, x: string)
    ensures front + ([token] + (before + [x])) == (front + ([token] + before)) + [x]
  {}

  /** Closing quotes come off the last token only: here the command's own. */
  lemma LastIsCommand(v: Words, layers: seq<Layer>, c: Command) returns (init: seq<string>, l: string, d: Command)
    requires WfStack(v, layers) && WfCommand(v, c) && CleanStack(layers, c, [])
    ensures AllClean(init) && Clean(l) && !IsQuote(l[|l| - 1]) && WfCommand(v, d) && d.core == c.core
    ensures Line("", layers, c, []) == init + [l + c.post] && Line("", layers, d, []) == init + [l]
  {
    var a := Pending("", layers);
    PendingIsQuotes(v, "", layers);
    FrontIsClean(v, "", layers);
    init, d := Front("", layers), c.(post := "");
    l := a + Token(d);
    TokenIsClean(a, d);
    TokenEnds(a, c);
    assert [l] + [] == [l];
  }

  lemma TokenEnds(a: string, c: Command)
    requires c.core != ""
    ensures a + Token(c) == (a + Token(c.(post := ""))) + c.post
    ensures var l := a + Token(c.(post := "")); l[|l| - 1] == c.core[|c.core| - 1]
  {
    assert c.core + "" == c.core;
    assert (a + (c.pre + c.core)) + c.post == a + (c.pre + (c.core + c.post));
  }

  /** And here a later token's. */
  lemma LastIsLater(v: Words, layers: seq<Layer>, c: Command, rest: seq<string>)
    returns (init: seq<string>, l: string, z: string, r: seq<string>)
    requires WfStack(v, layers) && WfCommand(v, c) && CleanStack(layers, c, rest) && rest != []
    ensures All(IsQuote, z) && AllClean(init) && init != []
            && (if l == "" then z != "" else Clean(l) && !IsQuote(l[|l| - 1]))
    ensures AllClean(r) && Line("", layers, c, rest) == init + [l + z]
    ensures Line("", layers, c, r) == if l == "" then init else init + [l]
  {
    var front, token := Front("", layers), Pending("", layers) + Token(c);
    var before, last := rest[..|rest| - 1], rest[|rest| - 1];
    assert rest == before + [last] && AllClean(before);
    l, z := SplitQuotes(last);
    init := front + ([token] + before);
    r := if l == "" then before else before + [l];
    AppendLast(front, token, before, last);
    AppendLast(front, token, before, l);
    LineFrontClean(v, layers, c, before);
  }

  lemma SplitQuotes(t: string) returns (l: string, z: string)
    requires Clean(t)
    ensures t == l + z && All(IsQuote, z) && (if l == "" then z != "" else Clean(l) && !IsQuote(l[|l| - 1]))
  {
    TrimRightSplit(IsQuote, t);
    TrimRightEnds(IsQuote, t);
    l := TrimRight(IsQuote, t);
    z := t[|l|..];
    assert forall x | x in l :: x in t;
  }

  lemma LineFrontClean(v: Words, layers: seq<Layer>, c: Command, rest: seq<string>)
    requires WfStack(v, layers) && WfCommand(v, c) && CleanStack(layers, c, rest)
    ensures AllClean(Line("", layers, c, rest))
  {
    PendingIsQuotes(v, "", layers);
    FrontIsClean(v, "", layers);
    TokenIsClean(Pending("", layers), c);
    AllCleanConcat([Pending("", layers) + Token(c)], rest);
    AllCleanConcat(Front("", layers), [Pending("", layers) + Token(c)] + rest);
  }

  /** The walk of a quoted stack is the walk of the stack, with the quotes gone. */
  lemma ShellStringWalks(v: Words, quote: string, layers: seq<Layer>, c: Command, rest: seq<string>)
    returns (d: Command, r: seq<string>)
    requires All(IsQuote, quote) && WfStack(v, layers) && WfCommand(v, c) && CleanStack(layers, c, rest)
    ensures WfCommand(v, d) && d.core == c.core
    ensures |BareFirst(layers)| == |layers| && WfStack(v, BareFirst(layers)) && CleanStack(BareFirst(layers), d, r)
    ensures var payload := ShellPayload(Line(quote, layers, c, rest));
            SplitSegments(payload) == [payload] && SplitWords(Strip(payload)) == Line("", BareFirst(layers), d, r)
  {
    var p, h, e := FirstToken(v, quote, layers, c, rest);
    var more, bare := AfterFirst(layers, e, rest), BareFirst(layers);
    BareStack(v, layers, e, rest);
    if rest == [] {
      var init, l, f := LastIsCommand(v, bare, e);
      PayloadTokens(p, h, init, l, e.post, more);
      d, r := f, [];
    } else {
      var init, l, z, s := LastIsLater(v, bare, e, rest);
      PayloadTokens(p, h, init, l, z, more);
      d, r := e, s;
    }
  }

  lemma LineCons(a: string, layers: seq<Layer>, c: Command, rest: seq<string>)
    requires layers != []
    ensures Line(a, layers, c, rest) ==
            [a + layers[0].t] + (Args(layers[0]) + Line(OpenQuote(layers[0]), layers[1..], c, rest))
  {
    var args, front := Args(layers[0]), Front(OpenQuote(layers[0]), layers[1..]);
    var tail := [Pending(a, layers) + Token(c)] + rest;
    assert ([a + layers[0].t] + (args + front)) + tail == [a + layers[0].t] + (args + (front + tail));
  }

  lemma CommandQuoted(v: Words, c: Command)
    requires WfCommand(v, c)
    ensures !EnvAssign("" + Token(c)) && !IsOption("" + Token(c)) && Normalize("" + Token(c)) == Normalize(c.core)
  {
    assert "" + Token(c) == Token(c);
    EnvAssignQuoted(c.pre, c.core, c.post);
    OptionQuoted(c.pre, c.core, c.post);
    NormalizeQuoted(c.pre, c.core, c.post);
  }

  /** Neither a flag nor an option opens a stack. */
  lemma LineStart(v: Words, layers: seq<Layer>, c: Command, rest: seq<string>)
    requires WfStack(v, layers) && WfCommand(v, c)
    ensures Line("", layers, c, rest) != [] && !IsOption(Line("", layers, c, rest)[0])
  {
    LineSplits("", layers, c, rest);
    if layers == [] {
      CommandQuoted(v, c);
    } else {
      LayerWord(v, layers[0]);
      assert "" + layers[0].t == layers[0].t;
    }
  }

  lemma {:induction false} SkipOptionsOver(before: seq<string>, options: seq<string>, tail: seq<string>)
    requires (forall o | o in options :: IsOption(o)) && tail != [] && !IsOption(tail[0])
    ensures SkipOptions(before + (options + tail), |before|) == |before| + |options|
    decreases |options|
  {
    var tokens := before + (options + tail);
    if options == [] {
      assert tokens[|before|] == tail[0];
    } else {
      assert tokens[|before|] == options[0] && options[0] in options && forall o | o in options[1..] :: o in options;
      assert tokens == (before + [options[0]]) + (options[1..] + tail);
      SkipOptionsOver(before + [options[0]], options[1..], tail);
    }
  }

  lemma Regrouped(before: seq<string>, own: seq<string>, more: seq<string>, tail: seq<string>)
    ensures before + ((own + more) + tail) == before + (own + (more + tail))
    ensures before + ((own + more) + tail) == (before + own) + (more + tail)
  {}

  lemma {:induction false} SkipFlagsOver(v: Words, before: seq<string>, flags: seq<Flag>, tail: seq<string>)
    requires (forall f | f in flags :: WfFlag(v, f)) && tail != [] && !IsFlag(tail[0])
    ensures SkipFlags(v, before + (FlagTokens(flags) + tail), |before|) == |before| + |FlagTokens(flags)|
    decreases |flags|
  {
    if flags == [] {
      assert (before + (FlagTokens(flags) + tail))[|before|] == tail[0];
    } else {
      var f, more := flags[0], FlagTokens(flags[1..]);
      assert WfFlag(v, f) && forall x | x in flags[1..] :: x in flags;
      Regrouped(before, OwnTokens(f), more, tail);
      assert (before + (OwnTokens(f) + (more + tail)))[|before|] == f.f;
      SkipFlagsOver(v, before + OwnTokens(f), flags[1..], tail);
    }
  }

  lemma FlagsWalk(v: Words, l: Layer, tail: seq<string>)
    requires l.Plain? && WfLayer(v, l) && tail != [] && !IsOption(tail[0])
    ensures Unwrap(v, [l.t] + (Args(l) + tail)) == Unwrap(v, tail)
  {
    LayerWord(v, l);
    SkipFlagsOver(v, [l.t], l.flags, tail);
    TokensAt(l.t, Args(l), tail);
    var tokens := [l.t] + (Args(l) + tail);
    assert Unwrap(v, tokens) == Unwrap(v, tokens[SkipFlags(v, tokens, 1)..]);
  }

  lemma TokensAt(t: string, args: seq<string>, tail: seq<string>)
    ensures var tokens := [t] + (args + tail); tokens[0] == t && tokens[1 + |args|..] == tail
  {}

  lemma OptionsWalk(v: Words, l: Layer, tail: seq<string>)
    requires l.Flagged? && WfLayer(v, l) && tail != [] && !IsOption(tail[0])
    ensures Unwrap(v, [l.t] + (Args(l) + tail)) == Unwrap(v, tail)
  {
    LayerWord(v, l);
    SkipOptionsOver([l.t], l.options, tail);
    TokensAt(l.t, Args(l), tail);
    var tokens := [l.t] + (Args(l) + tail);
    assert Unwrap(v, tokens) == Unwrap(v, tokens[SkipOptions(tokens, 1)..]);
  }

  /** One wrapper layer is walked over. */
  lemma LayerWalks(v: Words, l: Layer, tail: seq<string>)
    requires WfLayer(v, l) && !l.Shell? && tail != [] && !IsOption(tail[0])
    ensures Unwrap(v, [l.t] + (Args(l) + tail)) == Unwrap(v, tail)
  {
    if l.Plain? {
      FlagsWalk(v, l, tail);
    } else if l.Flagged? {
      OptionsWalk(v, l, tail);
    } else {
      var tokens := [l.t] + (Args(l) + tail);
      assert tokens[0] == l.t && tokens[1..] == tail;
    }
  }

  lemma DashC()
    ensures Strip("-c") == "-c"
  {
    TrimNothing(IsSpace, "-c");
  }

  lemma ShellCallWalks(v: Words, l: Layer, inner: seq<string>)
    requires WfLayer(v, l) && l.Shell?
    ensures var payload := ShellPayload(inner);
            SplitSegments(payload) == [payload] ==>
                Unwrap(v, [l.t] + (Args(l) + inner)) == Unwrap(v, SplitWords(Strip(payload)))
  {
    var tokens, payload := [l.t] + (Args(l) + inner), ShellPayload(inner);
    DashC();
    LayerWord(v, l);
    assert tokens[0] == l.t && tokens[1] == "-c" && tokens[2..] == inner;
    assert IsShellCall(v, tokens);
    if SplitSegments(payload) == [payload] {
      assert [payload][1..] == [];
      assert WordsOf(v, [payload], |payload|) == Unwrap(v, SplitWords(Strip(payload))) + WordsOf(v, [], |payload|);
    }
  }

  /** Transparency. Whatever stack of assignments, wrappers with flags, flagged wrappers with options,
      and quoted `sh -c` strings stands in front of a command, and whatever follows the command, the
      walk yields the command word of the bare command. */
  lemma {:induction false} StackIsTransparent(v: Words, layers: seq<Layer>, c: Command, rest: seq<string>)
    requires WfStack(v, layers) && WfCommand(v, c) && (HasShell(layers) ==> CleanStack(layers, c, rest))
    ensures Unwrap(v, Line("", layers, c, rest)) == [Normalize(c.core)]
    decreases |layers|
  {
    if layers == [] {
      LineSplits("", layers, c, rest);
      CommandQuoted(v, c);
    } else {
      var l, ls := layers[0], layers[1..];
      assert WfLayer(v, l) && forall x | x in ls :: x in layers;
      LineCons("", layers, c, rest);
      assert "" + l.t == l.t;
      if l.Shell? {
        assert HasShell(layers);
        var d, r := ShellStringWalks(v, l.quote, ls, c, rest);
        StackIsTransparent(v, BareFirst(ls), d, r);
        ShellCallWalks(v, l, Line(l.quote, ls, c, rest));
      } else {
        StackIsTransparent(v, ls, c, rest);
        LineStart(v, ls, c, rest);
        LayerWalks(v, l, Line("", ls, c, rest));
      }
    }
  }

  /** The same of a whole command line: its only command word is the wrapped command's, so a wrapped
      analysis binary is found exactly when the bare one is. */
  lemma WrappedCommandFound(v: Words, layers: seq<Layer>, c: Command, rest: seq<string>)
    requires WfStack(v, layers) && WfCommand(v, c) && CleanStack(layers, c, rest)
    ensures CommandWords(v, Join(Line("", layers, c, rest))) == [Normalize(c.core)]
  {
    var ts := Line("", layers, c, rest);
    var s := Join(ts);
    LineFrontClean(v, layers, c, rest);
    ClosedText(ts);
    SplitJoin(ts);
    OneSegmentText(ts);
    StackIsTransparent(v, layers, c, rest);
    assert [s][1..] == [];
    assert WordsOf(v, [s], |s|) == Unwrap(v, SplitWords(Strip(s))) + WordsOf(v, [], |s|);
  }

  lemma HookTables()
    ensures HOOK_WORDS.binaries !! HOOK_WORDS.wrappers + HOOK_WORDS.flagged + HOOK_WORDS.shells
    ensures "" !in HOOK_WORDS.binaries
  {}

  /** With the hook's own tables no wrapper hides an analysis binary: behind any stack of them it is the one
      command word of the line. */
  lemma HookFindsBinary(layers: seq<Layer>, c: Command, rest: seq<string>)
    requires WfStack(HOOK_WORDS, layers) && CleanStack(layers, c, rest)
    requires All(IsQuote, c.pre) && All(IsQuote, c.post) && Head(c.core) && !IsQuote(c.core[|c.core| - 1])
    requires Normalize(c.core) in HOOK_WORDS.binaries
    ensures CommandWords(HOOK_WORDS, Join(Line("", layers, c, rest))) == [Normalize(c.core)]
  {
    HookTables();
    WrappedCommandFound(HOOK_WORDS, layers, c, rest);
  }
}
