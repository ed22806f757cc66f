/** The grammar of module Json is unambiguous: a text has at most one tree. So reading a printed
    object back is a function, which is how `json.loads` is idealised here. */
module JsonUnique {
  import opened Json
  import opened JsonScan
  import opened Text

  predicate WsChar(c: char) { c in [' ', '\t', '\n', '\r'] }

  predicate StartsNonWs(s: string) { s != "" && !WsChar(s[0]) }

  predicate EndsValue(s: string) { s == "" || !IsNumberChar(s[0]) }

  lemma Cut(a: string, b: string, s: string, t: string)
    requires |a| == |b| && a + s == b + t
    ensures a == b && s == t
  {
    assert a == (a + s)[..|a|] && b == (b + t)[..|b|];
    assert s == (a + s)[|a|..] && t == (b + t)[|b|..];
  }

  /** The end of a run of characters is fixed by the first character outside the run. */
  lemma UniqueRun(p: char -> bool, a: string, b: string, s: string, t: string)
    requires (forall c | c in a :: p(c)) && (forall c | c in b :: p(c))
    requires (s == "" || !p(s[0])) && (t == "" || !p(t[0])) && a + s == b + t
    ensures a == b && s == t
  {
    RunIs(p, a, s);
    RunIs(p, b, t);
    Cut(a, b, s, t);
  }

  lemma UniqueWs(a: string, b: string, s: string, t: string)
    requires IsWs(a) && IsWs(b) && StartsNonWs(s) && StartsNonWs(t) && a + s == b + t
    ensures a == b && s == t
  {
    UniqueRun(WsChar, a, b, s, t);
  }

  /** `s` between two fixed characters and before `rest`. */
  function Enclose(l: char, s: string, r: char, rest: string): string {
    [l] + (s + ([r] + rest))
  }

  lemma Regroup(l: char, s: string, r: char, rest: string)
    ensures ([l] + (s + [r])) + rest == Enclose(l, s, r, rest)
  {
    assert (s + [r]) + rest == s + ([r] + rest);
  }

  lemma UniqueStrChar(x: StrChar, y: StrChar, s: string, t: string)
    requires WfStrChar(x) && WfStrChar(y) && PrintStrChar(x) + s == PrintStrChar(y) + t
    ensures x == y && s == t
  {
    var a, b := PrintStrChar(x), PrintStrChar(y);
    assert (a + s)[0] == a[0] == b[0] == (b + t)[0];
    if !x.Unescaped? {
      assert (a + s)[1] == a[1] == b[1] == (b + t)[1];
    }
    assert |a| == |b|;
    assert a == (a + s)[..|a|] == (b + t)[..|b|] == b;
    assert s == (a + s)[|a|..] == t;
    if x.Hex? { assert x.h == a[2..] == b[2..]; }
  }

  lemma SplitChars(xs: seq<StrChar>, s: string) returns (rest: string)
    requires WfChars(xs) && xs != []
    ensures WfStrChar(xs[0]) && WfChars(xs[1..]) && rest == PrintChars(xs[1..]) + (['"'] + s)
    ensures PrintChars(xs) + (['"'] + s) == PrintStrChar(xs[0]) + rest
    ensures (PrintChars(xs) + (['"'] + s))[0] != '"'
  {
    rest := PrintChars(xs[1..]) + (['"'] + s);
    assert xs[0] in xs;
    assert forall x | x in xs[1..] :: x in xs;
  }

  lemma {:induction false} UniqueChars(xs: seq<StrChar>, ys: seq<StrChar>, s: string, t: string)
    requires WfChars(xs) && WfChars(ys) && PrintChars(xs) + (['"'] + s) == PrintChars(ys) + (['"'] + t)
    ensures xs == ys && s == t
    decreases |xs|
  {
    if xs == [] && ys == [] {
      assert PrintChars(xs) + (['"'] + s) == "\"" + s && PrintChars(ys) + (['"'] + t) == "\"" + t;
      Cut("\"", "\"", s, t);
    } else if xs == [] {
      var _ := SplitChars(ys, t);
      assert false;
    } else if ys == [] {
      var _ := SplitChars(xs, s);
      assert false;
    } else {
      var u := SplitChars(xs, s);
      var v := SplitChars(ys, t);
      UniqueStrChar(xs[0], ys[0], u, v);
      UniqueChars(xs[1..], ys[1..], s, t);
      assert xs == [xs[0]] + xs[1..] && ys == [ys[0]] + ys[1..];
    }
  }

  lemma UniqueStr(xs: seq<StrChar>, ys: seq<StrChar>, s: string, t: string)
    requires WfChars(xs) && WfChars(ys) && PrintStr(xs) + s == PrintStr(ys) + t
    ensures xs == ys && s == t
  {
    Regroup('"', PrintChars(xs), '"', s);
    Regroup('"', PrintChars(ys), '"', t);
    Cut("\"", "\"", PrintChars(xs) + (['"'] + s), PrintChars(ys) + (['"'] + t));
    UniqueChars(xs, ys, s, t);
  }

  function Kind(c: char): nat {
    if c == 'n' then 0 else if c == 't' then 1 else if c == 'f' then 2
    else if c == '"' then 4 else if c == '[' then 5 else if c == '{' then 6
    else if c == '-' || IsDigit(c) then 3 else 7
  }

  function KindOf(j: Json): nat {
    match j
    case JNull => 0 case JTrue => 1 case JFalse => 2
    case JNumber(_) => 3 case JString(_) => 4 case JArray(_) => 5 case JObject(_) => 6
  }

  lemma FirstChar(j: Json)
    requires Wf(j)
    ensures Print(j) != "" && Kind(Print(j)[0]) == KindOf(j) && !WsChar(Print(j)[0])
  {
    if j.JNumber? { NumberIsInert(j.text); }
  }

  lemma {:induction false} UniqueValue(i: Json, j: Json, s: string, t: string)
    requires Wf(i) && Wf(j) && EndsValue(s) && EndsValue(t) && Print(i) + s == Print(j) + t
    ensures i == j && s == t
    decreases i, 0
  {
    assert KindOf(i) == KindOf(j) by {
      FirstChar(i);
      FirstChar(j);
      assert (Print(i) + s)[0] == Print(i)[0] && (Print(j) + t)[0] == Print(j)[0];
    }
    match i {
      case JNumber(text) => assert text == j.text && s == t by {
        NumberIsInert(text);
        NumberIsInert(j.text);
        UniqueRun(IsNumberChar, text, j.text, s, t);
      }
      case JString(chars) => UniqueStr(chars, j.chars, s, t);
      case JArray(items) =>
        Regroup('[', PrintItems(items), ']', s);
        Regroup('[', PrintItems(j.items), ']', t);
        Cut("[", "[", PrintItems(items) + ([']'] + s), PrintItems(j.items) + ([']'] + t));
        UniqueItems(items, j.items, s, t);
      case JObject(members) =>
        Regroup('{', PrintMembers(members), '}', s);
        Regroup('{', PrintMembers(j.members), '}', t);
        Cut("{", "{", PrintMembers(members) + (['}'] + s), PrintMembers(j.members) + (['}'] + t));
        UniqueMembers(members, j.members, s, t);
      case _ => Cut(Print(i), Print(j), s, t);
    }
  }

  lemma {:induction false} UniquePadded(la: string, i: Json, ta: string, lb: string, j: Json, tb: string, s: string,
          t: string)
    requires IsWs(la) && Wf(i) && IsWs(ta) && IsWs(lb) && Wf(j) && IsWs(tb)
    requires StartsNonWs(s) && EndsValue(s) && StartsNonWs(t) && EndsValue(t)
    requires la + (Print(i) + (ta + s)) == lb + (Print(j) + (tb + t))
    ensures la == lb && i == j && ta == tb && s == t
    decreases i, 1
  {
    FirstChar(i);
    FirstChar(j);
    UniqueWs(la, lb, Print(i) + (ta + s), Print(j) + (tb + t));
    assert ta != "" ==> ta[0] in ta;
    assert tb != "" ==> tb[0] in tb;
    UniqueValue(i, j, ta + s, tb + t);
    UniqueWs(ta, tb, s, t);
  }

  // ---- arrays ----

  /** What follows the last white space of the first item (or of the empty array's padding). */
  function ItemTail(a: Items, s: string): string {
    if a.MoreItems? then [','] + (PrintItems(a.rest) + ([']'] + s)) else [']'] + s
  }

  lemma SplitItems(a: Items, s: string)
    requires WfItems(a) && !a.NoItems?
    ensures PrintItems(a) + ([']'] + s) == a.lead + (Print(a.item) + (a.trail + ItemTail(a, s)))
  {
    var v, close := Print(a.item), [']'] + s;
    if a.MoreItems? {
      var more := [','] + PrintItems(a.rest);
      Assoc(a.lead, v + (a.trail + more), close);
      Assoc(v, a.trail + more, close);
      Assoc(a.trail, more, close);
      Assoc([','], PrintItems(a.rest), close);
    } else {
      Assoc(a.lead, v + a.trail, close);
      Assoc(v, a.trail, close);
    }
  }

  lemma EmptyItems(a: Items, b: Items, s: string, t: string)
    requires WfItems(a) && WfItems(b) && PrintItems(a) + ([']'] + s) == PrintItems(b) + ([']'] + t)
    requires a.NoItems?
    ensures a == b && s == t
  {
    if b.NoItems? {
      UniqueWs(a.pad, b.pad, [']'] + s, [']'] + t);
      Cut("]", "]", s, t);
    } else {
      SplitItems(b, t);
      FirstChar(b.item);
      UniqueWs(a.pad, b.lead, [']'] + s, Print(b.item) + (b.trail + ItemTail(b, t)));
      assert false;
    }
  }

  lemma {:induction false} UniqueItems(a: Items, b: Items, s: string, t: string)
    requires WfItems(a) && WfItems(b) && PrintItems(a) + ([']'] + s) == PrintItems(b) + ([']'] + t)
    ensures a == b && s == t
    decreases a, 0
  {
    if a.NoItems? {
      EmptyItems(a, b, s, t);
    } else if b.NoItems? {
      EmptyItems(b, a, t, s);
    } else {
      var ea, eb := ItemTail(a, s), ItemTail(b, t);
      SplitItems(a, s);
      SplitItems(b, t);
      UniquePadded(a.lead, a.item, a.trail, b.lead, b.item, b.trail, ea, eb);
      assert ea[0] == eb[0];
      Cut(ea[..1], eb[..1], ea[1..], eb[1..]) by { assert ea == ea[..1] + ea[1..] && eb == eb[..1] + eb[1..]; }
      if a.MoreItems? {
        UniqueItems(a.rest, b.rest, s, t);
      }
    }
  }

  // ---- objects ----

  function ColonTail(m: Member, s: string): string {
    m.beforeColon + ([':'] + (m.afterColon + (Print(m.value) + (m.trail + s))))
  }

  lemma SplitMember(m: Member, s: string)
    ensures PrintMember(m) + s == m.lead + (PrintStr(m.key) + ColonTail(m, s))
  {
    var r := m.afterColon + (Print(m.value) + m.trail);
    assert r + s == m.afterColon + (Print(m.value) + (m.trail + s));
    assert (m.beforeColon + ([':'] + r)) + s == m.beforeColon + ([':'] + (r + s));
    assert (PrintStr(m.key) + (m.beforeColon + ([':'] + r))) + s == PrintStr(m.key) + ColonTail(m, s);
  }

  lemma {:induction false} UniqueMember(a: Member, b: Member, s: string, t: string)
    requires WfMember(a) && WfMember(b) && StartsNonWs(s) && EndsValue(s) && StartsNonWs(t) && EndsValue(t)
    requires PrintMember(a) + s == PrintMember(b) + t
    ensures a == b && s == t
    decreases a, 1
  {
    var va, vb := a.afterColon + (Print(a.value) + (a.trail + s)), b.afterColon + (Print(b.value) + (b.trail + t));
    SplitMember(a, s);
    SplitMember(b, t);
    UniqueWs(a.lead, b.lead, PrintStr(a.key) + ColonTail(a, s), PrintStr(b.key) + ColonTail(b, t));
    UniqueStr(a.key, b.key, ColonTail(a, s), ColonTail(b, t));
    UniqueWs(a.beforeColon, b.beforeColon, [':'] + va, [':'] + vb);
    Cut(":", ":", va, vb);
    UniquePadded(a.afterColon, a.value, a.trail, b.afterColon, b.value, b.trail, s, t);
  }

  function MemberTail(a: Members, s: string): string {
    if a.MoreMembers? then [','] + (PrintMembers(a.rest) + (['}'] + s)) else ['}'] + s
  }

  lemma SplitMembers(a: Members, s: string)
    requires WfMembers(a) && !a.NoMembers?
    ensures PrintMembers(a) + (['}'] + s) == PrintMember(a.m) + MemberTail(a, s)
  {
    if a.MoreMembers? {
      assert (PrintMember(a.m) + ([','] + PrintMembers(a.rest))) + (['}'] + s) == PrintMember(a.m) + MemberTail(a, s);
    }
  }

  lemma EmptyMembers(a: Members, b: Members, s: string, t: string)
    requires WfMembers(a) && WfMembers(b) && PrintMembers(a) + (['}'] + s) == PrintMembers(b) + (['}'] + t)
    requires a.NoMembers?
    ensures a == b && s == t
  {
    if b.NoMembers? {
      UniqueWs(a.pad, b.pad, ['}'] + s, ['}'] + t);
      Cut("}", "}", s, t);
    } else {
      SplitMembers(b, t);
      SplitMember(b.m, MemberTail(b, t));
      UniqueWs(a.pad, b.m.lead, ['}'] + s, PrintStr(b.m.key) + ColonTail(b.m, MemberTail(b, t)));
      assert false;
    }
  }

  lemma {:induction false} UniqueMembers(a: Members, b: Members, s: string, t: string)
    requires WfMembers(a) && WfMembers(b) && PrintMembers(a) + (['}'] + s) == PrintMembers(b) + (['}'] + t)
    ensures a == b && s == t
    decreases a, 0
  {
    if a.NoMembers? {
      EmptyMembers(a, b, s, t);
    } else if b.NoMembers? {
      EmptyMembers(b, a, t, s);
    } else {
      var ea, eb := MemberTail(a, s), MemberTail(b, t);
      SplitMembers(a, s);
      SplitMembers(b, t);
      UniqueMember(a.m, b.m, ea, eb);
      assert ea[0] == eb[0];
      Cut(ea[..1], eb[..1], ea[1..], eb[1..]) by { assert ea == ea[..1] + ea[1..] && eb == eb[..1] + eb[1..]; }
      if a.MoreMembers? {
        UniqueMembers(a.rest, b.rest, s, t);
      }
    }
  }

  /** No text is printed by two trees. */
  lemma Unambiguous(i: Json, j: Json)
    requires Wf(i) && Wf(j) && Print(i) == Print(j)
    ensures i == j
  {
    assert Print(i) + "" == Print(i) && Print(j) + "" == Print(j);
    UniqueValue(i, j, "", "");
  }
}
