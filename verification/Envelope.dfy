/** Dispatch envelopes in prose: where they start, which texts they are, and what they say. */
module Envelope {
  import opened Json
  import opened JsonUnique
  import opened JsonScan
  import opened Sampling
  import opened Scanner
  import opened Text

  // ---- json.loads, idealised as the inverse of printing ----

  /** A Python string: its code points (which may be lone surrogates). */
  type PyStr = seq<nat>

  datatype Val = VNull | VBool(b: bool) | VInt(n: int) | VFloat(text: string) | VStr(s: PyStr)
               | VList(items: seq<Val>) | VDict(dict: map<PyStr, Val>)

  function HexDigit(c: char): nat
    requires IsHexDigit(c)
  {
    if IsDigit(c) then c as int - '0' as int
    else if 'a' <= c <= 'f' then c as int - 'a' as int + 10
    else c as int - 'A' as int + 10
  }

  function CodeUnit(x: StrChar): nat {
    match x
    case Unescaped(c) => c as int
    case Short(c) => if c == 'b' then 8 else if c == 'f' then 12 else if c == 'n' then 10
                     else if c == 'r' then 13 else if c == 't' then 9 else c as int
    case Hex(h) =>
      if |h| == 4 && forall c | c in h :: IsHexDigit(c)
      then 4096 * HexDigit(h[0]) + 256 * HexDigit(h[1]) + 16 * HexDigit(h[2]) + HexDigit(h[3]) else 0
  }

  predicate IsPair(xs: seq<StrChar>) {
    |xs| >= 2 && xs[0].Hex? && xs[1].Hex? && 0xD800 <= CodeUnit(xs[0]) < 0xDC00 && 0xDC00 <= CodeUnit(xs[1]) < 0xE000
  }

  function Decode(xs: seq<StrChar>): PyStr {
    if xs == [] then []
    else if IsPair(xs) then
      [0x10000 + (CodeUnit(xs[0]) - 0xD800) * 0x400 + (CodeUnit(xs[1]) - 0xDC00)] + Decode(xs[2..])
    else [CodeUnit(xs[0])] + Decode(xs[1..])
  }

  function Digits(s: string): nat {
    if s == "" then 0 else
      var c := s[|s| - 1];
      10 * Digits(s[..|s| - 1]) + (if IsDigit(c) then c as int - '0' as int else 0)
  }

  function NumberMeaning(text: string): Val {
    if exists c | c in text :: c in ['.', 'e', 'E'] then VFloat(text)
    else if text != "" && text[0] == '-' then VInt(0 - Digits(text[1..]))
    else VInt(Digits(text))
  }

  function Meaning(j: Json): Val {
    match j
    case JNull => VNull
    case JTrue => VBool(true)
    case JFalse => VBool(false)
    case JNumber(text) => NumberMeaning(text)
    case JString(chars) => VStr(Decode(chars))
    case JArray(items) => VList(MeaningItems(items))
    case JObject(members) => VDict(MeaningMembers(members))
  }

  function MeaningItems(items: Items): seq<Val> {
    match items
    case NoItems(_) => []
    case LastItem(_, v, _) => [Meaning(v)]
    case MoreItems(_, v, _, rest) => [Meaning(v)] + MeaningItems(rest)
  }

  /** The last of several members with one key wins. */
  function MeaningMembers(members: Members): map<PyStr, Val> {
    match members
    case NoMembers(_) => map[]
    case LastMember(m) => map[Decode(m.key) := Meaning(m.value)]
    case MoreMembers(m, rest) => map[Decode(m.key) := Meaning(m.value)] + MeaningMembers(rest)
  }

  // ---- what the escapes, numbers and members of RFC 8259 (sections 4 to 7) stand for ----

  lemma Escapes()
    ensures CodeUnit(Short('b')) == 8 && CodeUnit(Short('t')) == 9 && CodeUnit(Short('n')) == 10
    ensures CodeUnit(Short('f')) == 12 && CodeUnit(Short('r')) == 13
    ensures forall c | c in ['"', '\\', '/'] :: CodeUnit(Short(c)) == c as int
  {}

  lemma HexDigits(k: nat)
    requires k < 16
    ensures IsHexDigit("0123456789abcdef"[k]) && HexDigit("0123456789abcdef"[k]) == k
    ensures IsHexDigit("0123456789ABCDEF"[k]) && HexDigit("0123456789ABCDEF"[k]) == k
  {}

  /** Four digits are read in base sixteen, the first the highest. */
  lemma HexUnit(a: char, b: char, c: char, d: char)
    requires IsHexDigit(a) && IsHexDigit(b) && IsHexDigit(c) && IsHexDigit(d)
    ensures CodeUnit(Hex([a, b, c, d])) == 16 * (16 * (16 * HexDigit(a) + HexDigit(b)) + HexDigit(c)) + HexDigit(d)
  {
    var h := [a, b, c, d];
    assert h[0] == a && h[1] == b && h[2] == c && h[3] == d;
  }

  /** Two surrogates are one code point, a lone one stays itself. */
  lemma Surrogates(high: StrChar, low: StrChar, point: nat)
    requires high.Hex? && low.Hex? && 0x10000 <= point < 0x110000
    requires CodeUnit(high) == 0xD800 + (point - 0x10000) / 0x400 && CodeUnit(low) == 0xDC00 + (point - 0x10000) % 0x400
    ensures Decode([high, low]) == [point]
    ensures Decode([high]) == [CodeUnit(high)] && Decode([low, high]) == [CodeUnit(low), CodeUnit(high)]
  {
    assert [high, low][2..] == [] && [high][1..] == [] && [low, high][1..] == [high];
  }

  /** Digits are read in base ten, the last the lowest. */
  lemma DigitsAppend(s: string, c: char)
    requires IsDigit(c)
    ensures Digits(s + [c]) == 10 * Digits(s) + (c as int - '0' as int) && Digits("") == 0
  {
    assert (s + [c])[..|s|] == s;
  }

  /** A number with a fraction or an exponent stays its text, every other is an integer with its sign. */
  lemma NumberExact(digits: string, text: string)
    requires IsDigits(digits)
    ensures NumberMeaning(digits) == VInt(Digits(digits)) && NumberMeaning("-" + digits) == VInt(0 - Digits(digits))
    ensures '.' in text || 'e' in text || 'E' in text ==> NumberMeaning(text) == VFloat(text)
  {
    assert digits[0] in digits && ("-" + digits)[1..] == digits;
    assert forall c | c in "-" + digits :: c == '-' || c in digits;
  }

  lemma ItemsInOrder(a: Json, b: Json)
    ensures MeaningItems(MoreItems("", a, "", LastItem("", b, ""))) == [Meaning(a), Meaning(b)]
    ensures MeaningItems(NoItems("")) == []
  {}

  /** Of two members with one key the later counts, with two keys both. */
  lemma LaterMemberWins(m: Member, n: Member)
    ensures MeaningMembers(MoreMembers(m, LastMember(n))) ==
            map[Decode(m.key) := Meaning(m.value)][Decode(n.key) := Meaning(n.value)]
    ensures MeaningMembers(NoMembers("")) == map[]
  {
    var k, l, v, w := Decode(m.key), Decode(n.key), Meaning(m.value), Meaning(n.value);
    assert MeaningMembers(LastMember(n)) == map[l := w];
    assert map[k := v] + map[l := w] == map[k := v][l := w];
  }

  ghost predicate IsText(t: string, j: Json) { Wf(j) && Print(j) == t }

  ghost function Loads(t: string): Option<Val> {
    if exists j :: IsText(t, j) then
      var j :| IsText(t, j); Some(Meaning(j))
    else None
  }

  lemma LoadsInvertsPrint(j: Json)
    requires Wf(j)
    ensures Loads(Print(j)) == Some(Meaning(j))
  {
    assert IsText(Print(j), j);
    forall i | IsText(Print(j), i) ensures i == j { Unambiguous(i, j); }
  }

  // ---- the start pattern ----

  const NAME := "kunglao_dispatch"
  const QUOTED := "\"kunglao_dispatch\""

  predicate ColonNext(s: string) { Run(IsSpace, s) < |s| && s[Run(IsSpace, s)] == ':' }

  predicate NameNext(s: string) { QUOTED <= s && ColonNext(s[|QUOTED|..]) }

  /** The start pattern matches at the start of `s`. */
  predicate Starts(s: string) { s != "" && s[0] == '{' && NameNext(TrimLeft(IsSpace, s[1..])) }

  /** Length of that match, 0 when there is none. */
  function MatchLength(s: string): (n: nat)
    ensures n <= |s| && (n > 0 <==> Starts(s))
  {
    if !Starts(s) then 0 else
      var r := TrimLeft(IsSpace, s[1..]);
      (|s| - |r|) + |QUOTED| + Run(IsSpace, r[|QUOTED|..]) + 1
  }

  lemma NameRead(s: string, b: string, t: string)
    requires All(IsSpace, b) && s == QUOTED + (b + (":" + t))
    ensures NameNext(s) && Run(IsSpace, s[|QUOTED|..]) == |b| && Run(IsSpace, s) == 0
  {
    assert s[|QUOTED|..] == b + (":" + t) && s[0] == '"';
    RunIs(IsSpace, b, ":" + t);
  }

  /** The pattern matches a brace, the quoted name and a colon, with any white space between the three, and the
      match ends at the colon. */
  lemma MatchRead(a: string, b: string, t: string)
    requires All(IsSpace, a) && All(IsSpace, b)
    ensures var s := "{" + (a + (QUOTED + (b + (":" + t))));
            Starts(s) && MatchLength(s) == 1 + |a| + |QUOTED| + |b| + 1 && s[MatchLength(s)..] == t
  {
    var x := QUOTED + (b + (":" + t));
    var s := "{" + (a + x);
    NameRead(x, b, t);
    RunIs(IsSpace, a, x);
    assert s[1..] == a + x && TrimLeft(IsSpace, s[1..]) == x;
    assert s[1 + |a|..] == x && x[|QUOTED| + |b| + 1..] == t;
    assert s[1 + |a| + |QUOTED| + |b| + 1..] == x[|QUOTED| + |b| + 1..];
  }

  /** A match has one opening brace, its first character: matches never overlap. */
  lemma OneBracePerMatch(s: string, k: nat)
    requires 0 < k < MatchLength(s)
    ensures s[k] != '{'
  {
    var a := 1 + Run(IsSpace, s[1..]);
    if k < a {
      NoBraceInRun(s[1..], k - 1);
    } else {
      assert s[k] == s[a..][k - a] && s[1..][a - 1..] == s[a..];
      NoBraceAfterLead(s[a..], k - a);
    }
  }

  lemma NoBraceInRun(s: string, k: nat)
    requires k < Run(IsSpace, s)
    ensures s[k] != '{'
  {
    InRun(IsSpace, s, k);
  }

  lemma NoBraceAfterLead(r: string, k: nat)
    requires NameNext(r) && k < |QUOTED| + Run(IsSpace, r[|QUOTED|..]) + 1
    ensures r[k] != '{'
  {
    if k < |QUOTED| {
      assert k < |QUOTED| ==> QUOTED[k] != '{' && QUOTED[k] != '}';
    } else {
      var u, j := r[|QUOTED|..], k - |QUOTED|;
      if j < Run(IsSpace, u) { NoBraceInRun(u, j); }
      assert r[k] == u[j];
    }
  }

  lemma NameAcross(r: string, tail: string)
    requires tail != "" && (tail[0] == '{' || tail[0] == '}')
    ensures NameNext(r + tail) == NameNext(r)
  {
    if |r| < |QUOTED| {
      assert |r| < |QUOTED| ==> QUOTED[|r|] != '{' && QUOTED[|r|] != '}';
      assert (r + tail)[|r|] == tail[0];
    } else {
      var u := r[|QUOTED|..];
      assert (r + tail)[..|QUOTED|] == r[..|QUOTED|] && (r + tail)[|QUOTED|..] == u + tail;
      RunAcross(IsSpace, u, tail);
    }
  }

  /** No match runs across a brace: what follows one cannot make or break a match before it. */
  lemma NoMatchAcross(u: string, c: char, t: string)
    requires u != "" && (c == '{' || c == '}')
    ensures Starts(u + ([c] + t)) == Starts(u)
  {
    var tail := [c] + t;
    assert (u + tail)[1..] == u[1..] + tail && (u + tail)[0] == u[0];
    TrimAcross(u[1..], tail);
    NameAcross(TrimLeft(IsSpace, u[1..]), tail);
  }

  lemma TrimAcross(u: string, tail: string)
    requires tail != "" && !IsSpace(tail[0])
    ensures TrimLeft(IsSpace, u + tail) == TrimLeft(IsSpace, u) + tail
  {
    RunAcross(IsSpace, u, tail);
  }

  // ---- all envelopes of a document ----

  /** The text sampled at a match, None when the braces never balance. */
  function Sample(s: string): Option<string> {
    var n := Scan(Outside(0), s);
    if n < 0 then None else Some(s[..n])
  }

  /** One sample per position where the pattern matches. */
  function Samples(s: string): seq<Option<string>> { SamplesBy(Starts, Sample, s) }

  function CountStarts(s: string): nat { CountBy(Starts, s) }

  /** What is sampled at `i` is what the scanner's end there cuts out. */
  lemma SampleAt(text: string, i: nat)
    requires i < |text|
    ensures var end := BalancedEnd(text, i); Sample(text[i..]) == if end < 0 then None else Some(text[i..end])
  {
    var n := Scan(Outside(0), text[i..]);
    if n >= 0 { assert text[i..i + n] == text[i..][..n]; }
  }

  /** A pattern, as where it starts and how long its match is there. */
  datatype Pattern = Pattern(starts: string -> bool, length: string -> nat)

  /** A match fits in its text, and no other starts inside it. */
  ghost predicate GoodPattern(p: Pattern) {
    forall s :: p.length(s) <= |s| && (p.length(s) > 0 <==> p.starts(s)) && NoneBetween(p.starts, s, 0, p.length(s))
  }

  lemma EnvelopePatternIsGood()
    ensures GoodPattern(Pattern(Starts, MatchLength))
  {
    forall s ensures NoneBetween(Starts, s, 0, MatchLength(s)) {
      forall k | 0 < k < MatchLength(s) ensures !Starts(s[k..]) {
        OneBracePerMatch(s, k);
      }
    }
  }

  lemma NoneInMatch(p: Pattern, text: string, i: nat)
    requires GoodPattern(p) && i < |text|
    ensures i + p.length(text[i..]) <= |text| && NoneBetween(p.starts, text, i, i + p.length(text[i..]))
  {
    var s := text[i..];
    assert NoneBetween(p.starts, s, 0, p.length(s));
    forall k | i < k < i + p.length(s) ensures !p.starts(text[k..]) {
      assert s[k - i..] == text[k..];
    }
  }

  lemma SearchStep(p: Pattern, text: string, i: nat, out: seq<Option<string>>)
    requires GoodPattern(p) && i < |text| && SoFar(p.starts, Sample, text, i, out)
    ensures var n, end := p.length(text[i..]), BalancedEnd(text, i);
            if n > 0 then SoFar(p.starts, Sample, text, i + n, out + [if end < 0 then None else Some(text[i..end])])
            else SoFar(p.starts, Sample, text, i + 1, out)
  {
    var n := p.length(text[i..]);
    NoneInMatch(p, text, i);
    if n > 0 {
      SampleAt(text, i);
      MatchSampled(p.starts, Sample, text, i, i + n, out);
    } else {
      NoMatchSampled(p.starts, Sample, text, i, out);
    }
  }

  /** The search resumes where the match ended. */
  method SearchSamples(p: Pattern, text: string) returns (out: seq<Option<string>>)
    requires GoodPattern(p)
    ensures out == SamplesBy(p.starts, Sample, text)
  {
    out := [];
    var i := 0;
    SoFarStarts(p.starts, Sample, text);
    while i < |text|
      invariant i >= 0 && SoFar(p.starts, Sample, text, i, out)
    {
      var n := p.length(text[i..]);
      SearchStep(p, text, i, out);
      if n > 0 {
        var end := BalancedJsonAt(text, i);
        out := out + [if end < 0 then None else Some(text[i..end])];
        i := i + n;
      } else {
        i := i + 1;
      }
    }
    SoFarEnds(p.starts, Sample, text, out);
  }

  method EnvelopeSamples(text: string) returns (out: seq<Option<string>>)
    ensures out == Samples(text)
  {
    EnvelopePatternIsGood();
    out := SearchSamples(Pattern(Starts, MatchLength), text);
  }

  // ---- documents: prose interleaved with printed envelopes ----

  function Plain(s: string): seq<StrChar> { seq(|s|, i requires 0 <= i < |s| => Unescaped(s[i])) }

  /** An object whose first key is the envelope's name, written without escapes. */
  ghost predicate IsEnvelope(members: Members) {
    WfMembers(members) && !members.NoMembers? && members.m.key == Plain(NAME)
  }

  function EnvelopeText(members: Members): string { Print(JObject(members)) }

  function Document(prose: seq<string>, envelopes: seq<Members>): string
    requires |prose| == |envelopes| + 1
  {
    if envelopes == [] then prose[0]
    else prose[0] + (EnvelopeText(envelopes[0]) + Document(prose[1..], envelopes[1..]))
  }

  function Texts(envelopes: seq<Members>): seq<Option<string>> {
    if envelopes == [] then [] else [Some(EnvelopeText(envelopes[0]))] + Texts(envelopes[1..])
  }

  lemma {:induction false} PrintPlain(s: string)
    ensures PrintChars(Plain(s)) == s
    decreases |s|
  {
    if s != "" {
      assert Plain(s)[1..] == Plain(s[1..]);
      PrintPlain(s[1..]);
    }
  }

  lemma WsIsSpace(ws: string, tail: string)
    requires IsWs(ws) && tail != "" && !IsSpace(tail[0])
    ensures Run(IsSpace, ws + tail) == |ws|
  {
    RunIs(IsSpace, ws, tail);
  }

  /** What follows the opening brace of a printed envelope. */
  lemma EnvelopeOpens(members: Members, t: string)
    requires IsEnvelope(members)
    ensures var m, u := members.m, EnvelopeText(members) + t;
            && u != "" && u[0] == '{' && u[1..] == m.lead + (PrintStr(m.key) + ColonTail(m, MemberTail(members, t)))
  {
    Regroup('{', PrintMembers(members), '}', t);
    SplitMembers(members, t);
    SplitMember(members.m, MemberTail(members, t));
    assert EnvelopeText(members) + t == Enclose('{', PrintMembers(members), '}', t);
  }

  lemma NameSkipsLead(m: Member, close: string)
    requires WfMember(m) && PrintChars(m.key) == NAME
    ensures var r := PrintStr(m.key) + ColonTail(m, close);
            TrimLeft(IsSpace, m.lead + r) == r && NameNext(r)
  {
    var r := PrintStr(m.key) + ColonTail(m, close);
    assert r[0] == '"';
    WsIsSpace(m.lead, r);
    assert NameNext(r) by {
      QuotedName();
      WsIsSpace(m.beforeColon, [':'] + (m.afterColon + (Print(m.value) + (m.trail + close))));
      assert (QUOTED + ColonTail(m, close))[|QUOTED|..] == ColonTail(m, close);
    }
  }

  lemma QuotedName()
    ensures "\"" + (NAME + "\"") == QUOTED
  {}

  lemma SampleIsEnvelope(members: Members, t: string)
    requires WfMembers(members)
    ensures Sample(EnvelopeText(members) + t) == Some(EnvelopeText(members))
  {
    var u := EnvelopeText(members) + t;
    ObjectEndExact("", members, t);
    assert "" + EnvelopeText(members) + t == u && u[0..] == u;
  }

  /** The pattern matches where a printed envelope starts, and the scanner samples all of it. */
  lemma EnvelopeSampled(members: Members, t: string)
    requires IsEnvelope(members)
    ensures Starts(EnvelopeText(members) + t) && Sample(EnvelopeText(members) + t) == Some(EnvelopeText(members))
  {
    assert Starts(EnvelopeText(members) + t) by {
      var m, close := members.m, MemberTail(members, t);
      EnvelopeOpens(members, t);
      PrintPlain(NAME);
      NameSkipsLead(m, close);
    }
    SampleIsEnvelope(members, t);
  }

  /** Text before a brace contributes its own starts and no others. */
  lemma LocalBeforeBrace(p: string, t: string)
    requires t == "" || t[0] == '{' || t[0] == '}'
    ensures LocalTo(Starts, p, t)
  {
    forall k | 0 <= k < |p| ensures Starts((p + t)[k..]) == Starts(p[k..]) {
      assert (p + t)[k..] == p[k..] + t;
      StartsBeforeBrace(p[k..], t);
    }
  }

  lemma StartsBeforeBrace(u: string, t: string)
    requires u != "" && (t == "" || t[0] == '{' || t[0] == '}')
    ensures Starts(u + t) == Starts(u)
  {
    if t == "" {
      assert u + t == u;
    } else {
      assert t == [t[0]] + t[1..];
      NoMatchAcross(u, t[0], t[1..]);
    }
  }

  /** The starts inside a text that ends in a brace do not depend on what follows. */
  lemma LocalToBrace(u: string, t: string)
    ensures LocalTo(Starts, u + "}", t)
  {
    var a := u + "}";
    forall k | 0 <= k < |a| ensures Starts((a + t)[k..]) == Starts(a[k..]) {
      if k < |u| {
        assert (a + t)[k..] == u[k..] + (['}'] + t) && a[k..] == u[k..] + (['}'] + "");
        NoMatchAcross(u[k..], '}', t);
        NoMatchAcross(u[k..], '}', "");
      } else {
        assert (a + t)[k..][0] == '}' && a[k..][0] == '}';
      }
    }
  }

  lemma SamplesOfEnvelope(members: Members, t: string)
    requires IsEnvelope(members)
    ensures |Samples(EnvelopeText(members) + t)| == CountStarts(EnvelopeText(members)) + |Samples(t)|
    ensures CountStarts(EnvelopeText(members)) >= 1
    ensures CountStarts(EnvelopeText(members)) == 1 ==>
            Samples(EnvelopeText(members) + t) == [Some(EnvelopeText(members))] + Samples(t)
  {
    EnvelopeSampled(members, t);
    EnvelopeSampled(members, "");
    var e := EnvelopeText(members);
    assert e + "" == e;
    SamplesOfBraces(e, PrintMembers(members), t);
  }

  lemma SamplesOfBraces(e: string, u: string, t: string)
    requires e == "{" + (u + "}") && Starts(e) && Starts(e + t) && Sample(e + t) == Some(e)
    ensures CountStarts(e) == 1 + CountStarts(u + "}")
    ensures |Samples(e + t)| == CountStarts(e) + |Samples(t)|
    ensures CountStarts(u + "}") == 0 ==> Samples(e + t) == [Some(e)] + Samples(t)
  {
    SplitEnvelope(u, t);
    assert SamplesBy(Starts, Sample, e) == [Sample(e)] + SamplesBy(Starts, Sample, u + "}");
    assert CountBy(Starts, e) == 1 + CountBy(Starts, u + "}");
    assert SamplesBy(Starts, Sample, e + t) == [Sample(e + t)] + SamplesBy(Starts, Sample, (u + "}") + t);
    LocalToBrace(u, t);
    PartBy(Starts, Sample, u + "}", t);
  }

  lemma SplitEnvelope(u: string, t: string)
    ensures ("{" + (u + "}"))[1..] == u + "}" && (("{" + (u + "}")) + t)[1..] == (u + "}") + t
  {}

  function TotalStarts(envelopes: seq<Members>): nat {
    if envelopes == [] then 0 else CountStarts(EnvelopeText(envelopes[0])) + TotalStarts(envelopes[1..])
  }

  predicate SingleStarts(envelopes: seq<Members>) {
    forall i | 0 <= i < |envelopes| :: CountStarts(EnvelopeText(envelopes[i])) == 1
  }

  lemma SingleStartsSplit(envelopes: seq<Members>)
    requires envelopes != []
    ensures SingleStarts(envelopes) <==> CountStarts(EnvelopeText(envelopes[0])) == 1 && SingleStarts(envelopes[1..])
  {
    var es := envelopes[1..];
    assert forall i | 0 <= i < |es| :: es[i] == envelopes[i + 1];
    assert forall i | 1 <= i < |envelopes| :: envelopes[i] == es[i - 1];
  }

  lemma SamplesOfPart(p: string, e: Members, rest: string)
    requires CountStarts(p) == 0 && IsEnvelope(e)
    ensures var all := Samples(p + (EnvelopeText(e) + rest));
            && |all| == CountStarts(EnvelopeText(e)) + |Samples(rest)|
            && (CountStarts(EnvelopeText(e)) == 1 ==> all == [Some(EnvelopeText(e))] + Samples(rest))
    ensures CountStarts(EnvelopeText(e)) >= 1
  {
    LocalBeforeBrace(p, EnvelopeText(e) + rest);
    PartBy(Starts, Sample, p, EnvelopeText(e) + rest);
    SamplesOfEnvelope(e, rest);
  }

  lemma {:induction false} SamplesOfDocument(prose: seq<string>, envelopes: seq<Members>)
    requires |prose| == |envelopes| + 1 && (forall p | p in prose :: CountStarts(p) == 0)
    requires forall i | 0 <= i < |envelopes| :: IsEnvelope(envelopes[i])
    ensures |Samples(Document(prose, envelopes))| == TotalStarts(envelopes) >= |envelopes|
    ensures SingleStarts(envelopes) <==> TotalStarts(envelopes) == |envelopes|
    ensures SingleStarts(envelopes) ==> Samples(Document(prose, envelopes)) == Texts(envelopes)
    decreases |envelopes|
  {
    if envelopes == [] {
      assert Samples(prose[0]) == [] by {
        LocalBeforeBrace(prose[0], "");
        PartBy(Starts, Sample, prose[0], "");
        assert prose[0] + "" == prose[0];
      }
    } else {
      assert forall p | p in prose[1..] :: p in prose;
      SamplesOfDocument(prose[1..], envelopes[1..]);
      SamplesOfPart(prose[0], envelopes[0], Document(prose[1..], envelopes[1..]));
      SingleStartsSplit(envelopes);
    }
  }

  /** `_envelope_samples` returns exactly the printed envelopes, in order, if and only if none of
      them holds the start pattern a second time. */
  lemma DocumentSamplesExact(prose: seq<string>, envelopes: seq<Members>)
    requires |prose| == |envelopes| + 1 && (forall p | p in prose :: CountStarts(p) == 0)
    requires forall i | 0 <= i < |envelopes| :: IsEnvelope(envelopes[i])
    ensures Samples(Document(prose, envelopes)) == Texts(envelopes) <==> SingleStarts(envelopes)
  {
    SamplesOfDocument(prose, envelopes);
    TextsLength(envelopes);
  }

  lemma TextsLength(envelopes: seq<Members>)
    ensures |Texts(envelopes)| == |envelopes|
  {}

  // ---- the failing side: an envelope inside an envelope ----

  lemma PullOut(lead: string, key: string, before: string, after: string, rest: string)
    ensures lead + (key + (before + ([':'] + (after + rest)))) == (lead + (key + (before + ([':'] + after)))) + rest
  {}

  /** The text of an envelope's first value, and what surrounds it. */
  lemma ValueInside(members: Members) returns (a: string, b: string)
    requires IsEnvelope(members)
    ensures EnvelopeText(members)[1..] == a + (Print(members.m.value) + b)
  {
    var m, close := members.m, MemberTail(members, "");
    Regroup('{', PrintMembers(members), '}', "");
    SplitMembers(members, "");
    SplitMember(m, close);
    assert EnvelopeText(members) + "" == EnvelopeText(members);
    a := m.lead + (PrintStr(m.key) + (m.beforeColon + ([':'] + m.afterColon)));
    b := m.trail + close;
    PullOut(m.lead, PrintStr(m.key), m.beforeColon, m.afterColon, Print(m.value) + b);
  }

  /** An envelope whose value is an envelope has a second start. */
  lemma NestedStarts(outer: Members, inner: Members)
    requires IsEnvelope(outer) && IsEnvelope(inner) && outer.m.value == JObject(inner)
    ensures CountStarts(EnvelopeText(outer)) >= 2
  {
    var e := EnvelopeText(outer);
    var a, b := ValueInside(outer);
    CountInTail(Starts, a, EnvelopeText(inner) + b);
    EnvelopeSampled(inner, b);
    EnvelopeSampled(outer, "");
    assert e + "" == e;
  }

  /** The envelope that wraps another, without white space. */
  function Nest(inner: Members): Members {
    LastMember(Member("", Plain(NAME), "", "", JObject(inner), ""))
  }

  /** So the failing side is there for every envelope: wrap it, and the samples of the document that
      holds the wrapping are not its envelopes; two are taken of one. */
  lemma NestedSampledTwice(inner: Members)
    requires IsEnvelope(inner)
    ensures IsEnvelope(Nest(inner)) && |Samples(EnvelopeText(Nest(inner)))| >= 2
    ensures Samples(Document(["", ""], [Nest(inner)])) != Texts([Nest(inner)])
  {
    var outer := Nest(inner);
    assert WfChars(Plain(NAME)) && WfMember(outer.m);
    NestedStarts(outer, inner);
    SamplesOfEnvelope(outer, "");
    assert EnvelopeText(outer) + "" == EnvelopeText(outer);
    assert CountStarts("") == 0;
    DocumentSamplesExact(["", ""], [outer]);
    assert !SingleStarts([outer]) by { assert CountStarts(EnvelopeText([outer][0])) != 1; }
  }

  // ---- reading the payload ----

  /** Python built-ins on decoded values, left open where JSON does not fix them. */
  datatype Builtins = Builtins(toInt: Val -> Option<int>, toText: Val -> PyStr, isDigit: nat -> bool,
    isSpace: nat -> bool)

  ghost predicate Sane(py: Builtins) {
    && (forall n :: py.toInt(VInt(n)) == Some(n))
    && (forall s :: py.toText(VStr(s)) == s)
  }

  function CodePoints(s: string): PyStr { seq(|s|, i requires 0 <= i < |s| => s[i] as nat) }

  function PyLStrip(py: Builtins, s: PyStr): PyStr {
    if s != [] && py.isSpace(s[0]) then PyLStrip(py, s[1..]) else s
  }

  function PyRStrip(py: Builtins, s: PyStr): PyStr {
    if s != [] && py.isSpace(s[|s| - 1]) then PyRStrip(py, s[..|s| - 1]) else s
  }

  function PyStrip(py: Builtins, s: PyStr): PyStr { PyRStrip(py, PyLStrip(py, s)) }

  function ToolNames(py: Builtins, items: seq<Val>): seq<PyStr> {
    if items == [] then [] else
      var name := PyStrip(py, py.toText(items[0]));
      (if name == [] then [] else [name]) + ToolNames(py, items[1..])
  }

  // ---- the names a tool list shows ----

  predicate Blank(py: Builtins, s: PyStr) { forall c | c in s :: py.isSpace(c) }

  predicate Trimmed(py: Builtins, s: PyStr) { s != [] && !py.isSpace(s[0]) && !py.isSpace(s[|s| - 1]) }

  predicate Padded(py: Builtins, text: PyStr, a: PyStr, name: PyStr, b: PyStr) {
    Blank(py, a) && Blank(py, b) && text == a + (name + b)
  }

  /** The item's text is the name, between blanks. */
  ghost predicate Shows(py: Builtins, item: Val, name: PyStr) {
    Trimmed(py, name) && exists a, b :: Padded(py, py.toText(item), a, name, b)
  }

  /** The items show the names in order, with items of blank text anywhere between them. */
  ghost predicate Lists(py: Builtins, items: seq<Val>, names: seq<PyStr>) {
    if items == [] then names == [] else
      || (Blank(py, py.toText(items[0])) && Lists(py, items[1..], names))
      || (names != [] && Shows(py, items[0], names[0]) && Lists(py, items[1..], names[1..]))
  }

  lemma {:induction false} LStripBlank(py: Builtins, a: PyStr, s: PyStr)
    requires Blank(py, a)
    ensures PyLStrip(py, a + s) == PyLStrip(py, s)
    decreases |a|
  {
    if a == [] {
      assert a + s == s;
    } else {
      assert (a + s)[1..] == a[1..] + s && a[0] in a && forall c | c in a[1..] :: c in a;
      LStripBlank(py, a[1..], s);
    }
  }

  lemma {:induction false} RStripBlank(py: Builtins, s: PyStr, b: PyStr)
    requires Blank(py, b)
    ensures PyRStrip(py, s + b) == PyRStrip(py, s)
    decreases |b|
  {
    if b == [] {
      assert s + b == s;
    } else {
      var c := b[..|b| - 1];
      assert (s + b)[..|s + b| - 1] == s + c && b[|b| - 1] in b && forall x | x in c :: x in b;
      RStripBlank(py, s, c);
    }
  }

  lemma StripPadded(py: Builtins, text: PyStr, a: PyStr, name: PyStr, b: PyStr)
    requires Trimmed(py, name) && Padded(py, text, a, name, b)
    ensures PyStrip(py, text) == name
  {
    LStripBlank(py, a, name + b);
    assert (name + b)[0] == name[0] && PyLStrip(py, name + b) == name + b;
    RStripBlank(py, name, b);
  }

  lemma StripBlank(py: Builtins, s: PyStr)
    requires Blank(py, s)
    ensures PyStrip(py, s) == []
  {
    LStripBlank(py, s, []);
    assert s + [] == s;
  }

  lemma {:induction false} LStripSplit(py: Builtins, s: PyStr) returns (a: PyStr)
    ensures Blank(py, a) && s == a + PyLStrip(py, s)
    ensures PyLStrip(py, s) == [] || !py.isSpace(PyLStrip(py, s)[0])
    decreases |s|
  {
    if s != [] && py.isSpace(s[0]) {
      var c := LStripSplit(py, s[1..]);
      a := [s[0]] + c;
      assert s == [s[0]] + s[1..];
    } else {
      a := [];
    }
  }

  lemma {:induction false} RStripSplit(py: Builtins, s: PyStr) returns (b: PyStr)
    ensures Blank(py, b) && s == PyRStrip(py, s) + b
    ensures PyRStrip(py, s) == [] || !py.isSpace(PyRStrip(py, s)[|PyRStrip(py, s)| - 1])
    decreases |s|
  {
    if s != [] && py.isSpace(s[|s| - 1]) {
      var c := RStripSplit(py, s[..|s| - 1]);
      b := c + [s[|s| - 1]];
      assert s == s[..|s| - 1] + [s[|s| - 1]];
    } else {
      b := [];
    }
  }

  /** Every text is blank, or its bare part between blanks. */
  lemma BlankOrPadded(py: Builtins, s: PyStr)
    ensures Blank(py, s) || (Trimmed(py, PyStrip(py, s)) && exists a, b :: Padded(py, s, a, PyStrip(py, s), b))
  {
    var a := LStripSplit(py, s);
    var b := RStripSplit(py, PyLStrip(py, s));
    if PyStrip(py, s) != [] {
      assert PyStrip(py, s)[0] == PyLStrip(py, s)[0];
      assert Padded(py, s, a, PyStrip(py, s), b);
    } else {
      assert s == a + b;
    }
  }

  lemma ShowsIsStrip(py: Builtins, item: Val, name: PyStr)
    ensures Shows(py, item, name) <==> (!Blank(py, py.toText(item)) && name == PyStrip(py, py.toText(item)))
    ensures Blank(py, py.toText(item)) <==> PyStrip(py, py.toText(item)) == []
  {
    var text := py.toText(item);
    BlankOrPadded(py, text);
    if Blank(py, text) { StripBlank(py, text); }
    if Shows(py, item, name) {
      var a, b :| Padded(py, text, a, name, b);
      StripPadded(py, text, a, name, b);
    }
  }

  lemma ConsIs<T>(x: T, rest: seq<T>, names: seq<T>)
    ensures [x] + rest == names <==> (names != [] && names[0] == x && names[1..] == rest)
  {
    assert ([x] + rest)[1..] == rest;
    if names != [] { assert names == [names[0]] + names[1..]; }
  }

  /** The names read from a tool list are the names it shows: all of them, in order, and nothing else. */
  lemma {:induction false} ToolNamesExact(py: Builtins, items: seq<Val>, names: seq<PyStr>)
    ensures ToolNames(py, items) == names <==> Lists(py, items, names)
    decreases |items|
  {
    if items != [] {
      var name, rest := PyStrip(py, py.toText(items[0])), items[1..];
      ShowsIsStrip(py, items[0], name);
      if name == [] {
        ToolNamesExact(py, rest, names);
      } else {
        ConsIs(name, ToolNames(py, rest), names);
        if names != [] { ToolNamesExact(py, rest, names[1..]); }
      }
      if names != [] { ShowsIsStrip(py, items[0], names[0]); }
    }
  }

  /** A list of printed names shows them. */
  lemma {:induction false} PrintedNamesListed(py: Builtins, names: seq<PyStr>, items: seq<Val>)
    requires Sane(py) && |items| == |names|
    requires forall i | 0 <= i < |names| :: Trimmed(py, names[i]) && items[i] == VStr(names[i])
    ensures Lists(py, items, names)
    decreases |names|
  {
    if names != [] {
      assert Padded(py, py.toText(items[0]), [], names[0], []) by { assert names[0] == [] + (names[0] + []); }
      PrintedNamesListed(py, names[1..], items[1..]);
    }
  }

  /** An item of blank text changes nothing, wherever it stands. */
  lemma {:induction false} BlankAnywhere(py: Builtins, before: seq<Val>, blank: Val, after: seq<Val>)
    requires Blank(py, py.toText(blank))
    ensures ToolNames(py, before + [blank] + after) == ToolNames(py, before + after)
    decreases |before|
  {
    var s := before + [blank] + after;
    if before == [] {
      StripBlank(py, py.toText(blank));
      assert s[0] == blank && s[1..] == after && before + after == after;
    } else {
      assert s[0] == before[0] && s[1..] == before[1..] + [blank] + after;
      assert (before + after)[0] == before[0] && (before + after)[1..] == before[1..] + after;
      BlankAnywhere(py, before[1..], blank, after);
    }
  }

  function Get(dict: map<PyStr, Val>, key: string): Option<Val> {
    if CodePoints(key) in dict then Some(dict[CodePoints(key)]) else None
  }

  function IntField(py: Builtins, dict: map<PyStr, Val>, key: string): Option<int> {
    match Get(dict, key) case None => Some(0) case Some(v) => py.toInt(v)
  }

  predicate IsClaimId(py: Builtins, s: PyStr) {
    |s| >= 3 && s[0] == 'C' as nat && s[1] == '-' as nat && forall c | c in s[2..] :: py.isDigit(c)
  }

  const ENVELOPE_FIELDS := {CodePoints("version"), CodePoints("claim"), CodePoints("tier"), CodePoints("tools")}

  /** `Raised` is the exception of `int()` on a version or tier that has no integer value. */
  datatype Reading = NoDispatch | Raised | Dispatch(tier: int, tools: seq<PyStr>, claim: PyStr, meta: map<PyStr, Val>)

  function ReadPayload(py: Builtins, payload: map<PyStr, Val>): Reading {
    match IntField(py, payload, "version")
    case None => Raised
    case Some(version) =>
      if version != 1 && version != 2 then NoDispatch else
      match IntField(py, payload, "tier")
      case None => Raised
      case Some(tier) =>
        match Get(payload, "claim")
        case Some(VStr(claim)) =>
          if !IsClaimId(py, claim) || !(1 <= tier <= 3) then NoDispatch else
          var tools := match Get(payload, "tools")
                       case Some(VList(items)) => ToolNames(py, items)
                       case _ => [];
          Dispatch(tier, tools, claim, payload - ENVELOPE_FIELDS)
        case _ => NoDispatch
  }

  /** The first match of the start pattern, the scanner's object there, decoded. */
  ghost function EnvelopePayload(text: string): Option<map<PyStr, Val>> {
    if text == "" then None
    else if Starts(text) then
      match Sample(text)
      case None => None
      case Some(t) =>
        match Loads(t)
        case Some(VDict(dict)) =>
          (match Get(dict, NAME) case Some(VDict(payload)) => Some(payload) case _ => None)
        case _ => None
    else EnvelopePayload(text[1..])
  }

  ghost function ParseDispatchJson(py: Builtins, text: string): Reading {
    match EnvelopePayload(text)
    case None => NoDispatch
    case Some(payload) => ReadPayload(py, payload)
  }

  lemma {:induction false} PayloadAfterProse(p: string, t: string)
    requires CountStarts(p) == 0 && t != "" && t[0] == '{'
    ensures EnvelopePayload(p + t) == EnvelopePayload(t)
    decreases |p|
  {
    if p == "" {
      assert p + t == t;
    } else {
      assert (p + t)[1..] == p[1..] + t && t == [t[0]] + t[1..];
      NoMatchAcross(p, t[0], t[1..]);
      PayloadAfterProse(p[1..], t);
    }
  }

  /** The payload of a well-formed dispatch: version, claim, tier, tools and any further fields. */
  function PayloadOf(version: int, claim: PyStr, tier: int, tools: seq<Val>, meta: map<PyStr, Val>): map<PyStr, Val> {
    meta + map[CodePoints("version") := VInt(version), CodePoints("claim") := VStr(claim),
               CodePoints("tier") := VInt(tier), CodePoints("tools") := VList(tools)]
  }

  lemma FieldsDiffer()
    ensures |CodePoints("version")| == 7 && |CodePoints("claim")| == 5 && |CodePoints("tier")| == 4
    ensures |CodePoints("tools")| == 5 && CodePoints("claim")[0] != CodePoints("tools")[0]
  {}

  lemma PayloadFields(version: int, claim: PyStr, tier: int, tools: seq<Val>, meta: map<PyStr, Val>)
    requires meta.Keys !! ENVELOPE_FIELDS
    ensures var payload := PayloadOf(version, claim, tier, tools, meta);
            && Get(payload, "version") == Some(VInt(version)) && Get(payload, "claim") == Some(VStr(claim))
            && Get(payload, "tier") == Some(VInt(tier)) && Get(payload, "tools") == Some(VList(tools))
            && payload - ENVELOPE_FIELDS == meta
  {
    FieldsDiffer();
  }

  /** A payload is read to the names its tools show, exactly when version, claim id and tier are in range. */
  lemma ReadPayloadOf(py: Builtins, version: int, claim: PyStr, tier: int, tools: seq<Val>, names: seq<PyStr>,
                      meta: map<PyStr, Val>)
    requires Sane(py) && meta.Keys !! ENVELOPE_FIELDS && Lists(py, tools, names)
    ensures ReadPayload(py, PayloadOf(version, claim, tier, tools, meta)) ==
            if 1 <= version <= 2 && IsClaimId(py, claim) && 1 <= tier <= 3
            then Dispatch(tier, names, claim, meta) else NoDispatch
  {
    PayloadFields(version, claim, tier, tools, meta);
    ToolNamesExact(py, tools, names);
  }

  /** Tools that are no list, or missing, are read as no tools; the other fields as ever. */
  lemma NoToolList(py: Builtins, payload: map<PyStr, Val>)
    requires Get(payload, "tools").None? || !Get(payload, "tools").value.VList?
    ensures ReadPayload(py, payload) == ReadPayload(py, payload[CodePoints("tools") := VList([])])
    ensures ReadPayload(py, payload).Dispatch? ==> ReadPayload(py, payload).tools == []
  {
    FieldsDiffer();
    var p := payload[CodePoints("tools") := VList([])];
    assert p - ENVELOPE_FIELDS == payload - ENVELOPE_FIELDS;
    assert Get(p, "version") == Get(payload, "version") && Get(p, "tier") == Get(payload, "tier");
    assert Get(p, "claim") == Get(payload, "claim") && Get(p, "tools") == Some(VList([]));
  }

  /** The field is there and `int()` rejects its value. */
  predicate NoInteger(py: Builtins, payload: map<PyStr, Val>, key: string) {
    CodePoints(key) in payload && py.toInt(payload[CodePoints(key)]).None?
  }

  /** The other fields must be there, and the claim be text. `int()` raises on the version before anything
      else is read, on the tier only once the version is one of the two, and not on a missing field. */
  lemma MissingOrBad(py: Builtins, payload: map<PyStr, Val>)
    ensures ReadPayload(py, payload).Dispatch? ==>
              forall key | key in ["version", "claim", "tier"] :: CodePoints(key) in payload
    ensures ReadPayload(py, payload).Dispatch? ==> payload[CodePoints("claim")].VStr?
    ensures ReadPayload(py, payload).Raised? <==>
            (|| NoInteger(py, payload, "version")
             || (IntField(py, payload, "version") in [Some(1), Some(2)] && NoInteger(py, payload, "tier")))
  {
    assert forall key | key in ["version", "claim", "tier"] :: key == "version" || key == "claim" || key == "tier";
  }

  /** A claim id is "C-" and at least one digit. */
  lemma ClaimIds(py: Builtins, digits: PyStr, s: PyStr)
    ensures IsClaimId(py, CodePoints("C-") + digits) <==> (digits != [] && forall c | c in digits :: py.isDigit(c))
    ensures IsClaimId(py, s) ==> CodePoints("C-") <= s
  {
    assert (CodePoints("C-") + digits)[2..] == digits;
  }

  /** The envelope round trip: after prose without the start pattern, the first printed envelope is
      the one read, whatever follows it, and its fields come back. */
  lemma DispatchRoundTrip(py: Builtins, prose: string, envelope: Members, rest: string, version: int, claim: PyStr,
                          tier: int, tools: seq<Val>, names: seq<PyStr>, meta: map<PyStr, Val>)
    requires Sane(py) && meta.Keys !! ENVELOPE_FIELDS && Lists(py, tools, names)
    requires CountStarts(prose) == 0 && IsEnvelope(envelope)
    requires Get(MeaningMembers(envelope), NAME) == Some(VDict(PayloadOf(version, claim, tier, tools, meta)))
    ensures ParseDispatchJson(py, prose + (EnvelopeText(envelope) + rest)) ==
            if 1 <= version <= 2 && IsClaimId(py, claim) && 1 <= tier <= 3
            then Dispatch(tier, names, claim, meta) else NoDispatch
  {
    var t := EnvelopeText(envelope) + rest;
    PayloadAfterProse(prose, t);
    EnvelopeSampled(envelope, rest);
    LoadsInvertsPrint(JObject(envelope));
    ReadPayloadOf(py, version, claim, tier, tools, names, meta);
  }

  /** Only the first place where the pattern matches counts, and of it only the sample: if nothing is sampled
      there, or the sample is no JSON, there is no dispatch whatever follows. */
  lemma FirstStartDecides(py: Builtins, prose: string, t: string, u: string)
    requires CountStarts(prose) == 0 && Starts(t) && Starts(u)
    ensures Sample(t) == Sample(u) ==> ParseDispatchJson(py, prose + t) == ParseDispatchJson(py, u)
    ensures Sample(t).None? || Loads(Sample(t).value).None? ==> ParseDispatchJson(py, prose + t) == NoDispatch
  {
    PayloadAfterProse(prose, t);
  }
}
