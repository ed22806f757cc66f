/** The scanner against the JSON grammar: it stops exactly at the end of an embedded object. */
module JsonScan {
  import opened Json
  import opened Scanner

  /** Reading `t` at depth `d`, outside strings, leaves the scanner where it was. */
  ghost predicate Skips(d: int, t: string) { forall s: string :: SkipsAt(d, t, s) }

  predicate SkipsAt(d: int, t: string, s: string) {
    Scan(Outside(d), t + s) == Shift(|t|, Scan(Outside(d), s))
  }

  lemma SkipsCat(d: int, a: string, b: string)
    requires Skips(d, a) && Skips(d, b)
    ensures Skips(d, a + b)
  {
    forall s: string ensures SkipsAt(d, a + b, s) {
      assert SkipsAt(d, a, b + s) && SkipsAt(d, b, s);
      assert (a + b) + s == a + (b + s);
    }
  }

  predicate Inert(t: string) {
    forall c | c in t :: c != '"' && c != '{' && c != '}'
  }

  lemma InertSkips(d: int, t: string)
    requires Inert(t)
    ensures Skips(d, t)
  {
    forall s: string ensures SkipsAt(d, t, s) {
      SkipInert(d, t, s);
    }
  }

  lemma {:induction false} SkipInert(d: int, t: string, s: string)
    requires Inert(t)
    ensures Scan(Outside(d), t + s) == Shift(|t|, Scan(Outside(d), s))
    decreases |t|
  {
    if t == "" {
      assert t + s == s;
    } else {
      assert (t + s)[1..] == t[1..] + s && t[0] in t;
      assert forall c | c in t[1..] :: c in t;
      SkipInert(d, t[1..], s);
    }
  }

  // ---- strings ----

  lemma {:induction false} SkipChars(d: int, xs: seq<StrChar>, s: string)
    requires WfChars(xs)
    ensures Scan(State(d, true, false), PrintChars(xs) + s) == Shift(|PrintChars(xs)|, Scan(State(d, true, false), s))
    decreases |xs|
  {
    if xs == [] {
      assert PrintChars(xs) + s == s;
    } else {
      var x, u := xs[0], PrintChars(xs[1..]) + s;
      assert PrintChars(xs) + s == PrintStrChar(x) + u;
      SkipChars(d, xs[1..], s);
      SkipStrChar(d, x, u);
    }
  }

  lemma {:induction false} SkipUnescaped(d: int, t: string, s: string)
    requires forall c | c in t :: c != '"' && c != '\\'
    ensures Scan(State(d, true, false), t + s) == Shift(|t|, Scan(State(d, true, false), s))
    decreases |t|
  {
    if t == "" {
      assert t + s == s;
    } else {
      assert (t + s)[1..] == t[1..] + s && t[0] in t;
      assert forall c | c in t[1..] :: c in t;
      SkipUnescaped(d, t[1..], s);
    }
  }

  lemma SkipEscape(d: int, c: char, u: string)
    ensures Scan(State(d, true, false), ['\\', c] + u) == Shift(2, Scan(State(d, true, false), u))
  {
    var t := ['\\', c] + u;
    assert t[1..] == [c] + u && t[1..][1..] == u;
  }

  lemma SkipStrChar(d: int, x: StrChar, u: string)
    requires WfStrChar(x)
    ensures Scan(State(d, true, false), PrintStrChar(x) + u) == Shift(|PrintStrChar(x)|, Scan(State(d, true, false), u))
  {
    match x {
      case Unescaped(c) => SkipUnescaped(d, [c], u);
      case Short(c) => SkipEscape(d, c, u);
      case Hex(h) =>
        assert PrintStrChar(x) + u == ['\\', 'u'] + (h + u);
        SkipEscape(d, 'u', h + u);
        SkipUnescaped(d, h, u);
    }
  }

  lemma StrSkips(d: int, xs: seq<StrChar>)
    requires WfChars(xs)
    ensures Skips(d, PrintStr(xs))
  {
    forall s: string ensures SkipsAt(d, PrintStr(xs), s) {
      SkipChars(d, xs, "\"" + s);
      assert SkipsAt(d, "\"" + (PrintChars(xs) + "\""), s) by {
        var u := PrintChars(xs) + ("\"" + s);
        OpenQuote(d, u);
        assert ("\"" + s)[1..] == s;
        Reassociate("\"", PrintChars(xs), "\"", s);
      }
    }
  }

  lemma OpenQuote(d: int, u: string)
    ensures Scan(Outside(d), "\"" + u) == Shift(1, Scan(State(d, true, false), u))
  {
    assert ("\"" + u)[1..] == u;
  }

  // ---- numbers ----

  predicate NumberChars(t: string) { forall c | c in t :: IsNumberChar(c) }

  lemma NumberCharsCat(a: string, b: string)
    requires NumberChars(a) && NumberChars(b)
    ensures NumberChars(a + b)
  {}

  lemma FracChars(n: Number)
    requires WfNumber(n)
    ensures NumberChars(n.whole) && NumberChars(n.frac)
  {
    assert n.frac == "" || n.frac == ['.'] + n.frac[1..];
  }

  lemma ExpChars(n: Number)
    requires WfNumber(n)
    ensures NumberChars(n.exp)
  {
    assert n.exp == "" || n.exp == n.exp[..1] + n.exp[1..];
    assert |n.exp| > 2 ==> n.exp == n.exp[..2] + n.exp[2..];
  }

  lemma NumberIsInert(text: string)
    requires IsNumber(text)
    ensures text != "" && (text[0] == '-' || IsDigit(text[0]))
    ensures NumberChars(text) && Inert(text)
  {
    var n :| WfNumber(n) && PrintNumber(n) == text;
    FracChars(n);
    ExpChars(n);
    var sign := if n.minus then "-" else "";
    NumberCharsCat(sign, n.whole);
    NumberCharsCat(sign + n.whole, n.frac);
    NumberCharsCat(sign + n.whole + n.frac, n.exp);
  }

  // ---- the generalised statement: a value read at depth d >= 1 leaves the scanner where it was ----

  /** A pair of braces around what is skipped one level deeper. */
  lemma BracesSkip(d: int, u: string)
    requires d >= 1 && Skips(d + 1, u)
    ensures Skips(d, "{" + (u + "}"))
  {
    forall s: string ensures SkipsAt(d, "{" + (u + "}"), s) {
      assert SkipsAt(d + 1, u, "}" + s);
      BracesSkipAt(d, u, s);
    }
  }

  lemma BracesSkipAt(d: int, u: string, s: string)
    requires d >= 1 && SkipsAt(d + 1, u, "}" + s)
    ensures SkipsAt(d, "{" + (u + "}"), s)
  {
    assert (("{" + (u + "}")) + s)[1..] == u + ("}" + s);
    assert ("}" + s)[1..] == s;
  }

  lemma {:induction false} SkipValue(d: int, j: Json)
    requires d >= 1 && Wf(j)
    ensures Skips(d, Print(j))
    decreases j, 0
  {
    match j {
      case JNull => InertSkips(d, "null");
      case JTrue => InertSkips(d, "true");
      case JFalse => InertSkips(d, "false");
      case JNumber(text) => NumberIsInert(text); InertSkips(d, text);
      case JString(chars) => StrSkips(d, chars);
      case JArray(items) =>
        SkipItems(d, items);
        InertSkips(d, "[");
        InertSkips(d, "]");
        SkipsCat(d, PrintItems(items), "]");
        SkipsCat(d, "[", PrintItems(items) + "]");
      case JObject(members) =>
        SkipMembers(d + 1, members);
        BracesSkip(d, PrintMembers(members));
    }
  }

  lemma {:induction false} SkipItems(d: int, items: Items)
    requires d >= 1 && WfItems(items)
    ensures Skips(d, PrintItems(items))
    decreases items, 0
  {
    match items {
      case NoItems(pad) => InertSkips(d, pad);
      case LastItem(lead, v, trail) => SkipPadded(d, lead, v, trail);
      case MoreItems(lead, v, trail, rest) =>
        SkipPadded(d, lead, v, trail);
        InertSkips(d, ",");
        SkipItems(d, rest);
        SkipsCat(d, ",", PrintItems(rest));
        SkipsCat(d, lead + (Print(v) + trail), "," + PrintItems(rest));
        Reassociate(lead, Print(v), trail, "," + PrintItems(rest));
    }
  }

  lemma Reassociate(a: string, b: string, c: string, e: string)
    ensures (a + (b + c)) + e == a + (b + (c + e))
  {}

  lemma {:induction false} SkipPadded(d: int, lead: string, v: Json, trail: string)
    requires d >= 1 && IsWs(lead) && Wf(v) && IsWs(trail)
    ensures Skips(d, lead + (Print(v) + trail))
    decreases v, 1
  {
    InertSkips(d, lead);
    InertSkips(d, trail);
    SkipValue(d, v);
    SkipsCat(d, Print(v), trail);
    SkipsCat(d, lead, Print(v) + trail);
  }

  lemma {:induction false} SkipMember(d: int, m: Member)
    requires d >= 1 && WfMember(m)
    ensures Skips(d, PrintMember(m))
    decreases m, 1
  {
    SkipPadded(d, m.afterColon, m.value, m.trail);
    var rest := m.afterColon + (Print(m.value) + m.trail);
    InertSkips(d, ":");
    SkipsCat(d, ":", rest);
    InertSkips(d, m.beforeColon);
    SkipsCat(d, m.beforeColon, ":" + rest);
    StrSkips(d, m.key);
    SkipsCat(d, PrintStr(m.key), m.beforeColon + (":" + rest));
    InertSkips(d, m.lead);
    SkipsCat(d, m.lead, PrintStr(m.key) + (m.beforeColon + (":" + rest)));
  }

  lemma {:induction false} SkipMembers(d: int, members: Members)
    requires d >= 1 && WfMembers(members)
    ensures Skips(d, PrintMembers(members))
    decreases members, 2
  {
    match members {
      case NoMembers(pad) => InertSkips(d, pad);
      case LastMember(m) => SkipMember(d, m);
      case MoreMembers(m, rest) =>
        SkipMember(d, m);
        InertSkips(d, ",");
        SkipMembers(d, rest);
        SkipsCat(d, ",", PrintMembers(rest));
        SkipsCat(d, PrintMember(m), "," + PrintMembers(rest));
    }
  }

  /** Exactness: every RFC 8259 text of every object, in any prose. */
  lemma ObjectEndExact(p: string, members: Members, s: string)
    requires WfMembers(members)
    ensures BalancedEnd(p + Print(JObject(members)) + s, |p|) == |p| + |Print(JObject(members))|
  {
    var t := Print(JObject(members));
    SkipMembers(1, members);
    ObjectScan(PrintMembers(members), s);
    assert (p + t + s)[|p|..] == t + s;
  }

  lemma ObjectScan(u: string, s: string)
    requires Skips(1, u)
    ensures Scan(Outside(0), ("{" + (u + "}")) + s) == |u| + 2
  {
    var t := ("{" + (u + "}")) + s;
    assert t[1..] == u + ("}" + s);
    assert SkipsAt(1, u, "}" + s);
  }
}
