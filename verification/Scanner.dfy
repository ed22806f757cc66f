/** `_balanced_json_at`: the four-variable scanner that finds the end of a JSON object in prose. */
module Scanner {

  // ---- the scanner's own steps ----

  datatype State = State(depth: int, inStr: bool, escape: bool)

  function Outside(depth: int): State { State(depth, false, false) }

  function Next(st: State, ch: char): State {
    if st.inStr then
      if st.escape then st.(escape := false)
      else if ch == '\\' then st.(escape := true)
      else if ch == '"' then st.(inStr := false)
      else st
    else if ch == '"' then st.(inStr := true)
    else if ch == '{' then st.(depth := st.depth + 1)
    else if ch == '}' then st.(depth := st.depth - 1)
    else st
  }

  predicate Closes(st: State, ch: char) {
    !st.inStr && ch == '}' && st.depth == 1
  }

  function Shift(k: nat, n: int): int { if n < 0 then -1 else k + n }

  /** How many characters of `s` the scanner reads from state `st` before it returns, or -1. */
  function Scan(st: State, s: string): (n: int)
    ensures n == -1 || 0 < n <= |s|
    decreases |s|
  {
    if s == "" then -1
    else if Closes(st, s[0]) then 1
    else Shift(1, Scan(Next(st, s[0]), s[1..]))
  }

  function BalancedEnd(text: string, start: nat): (end: int)
    ensures end == -1 || start < end <= |text|
  {
    if start < |text| then Shift(start, Scan(Outside(0), text[start..])) else -1
  }

  method BalancedJsonAt(text: string, start: nat) returns (end: int)
    ensures end == BalancedEnd(text, start)
  {
    var depth, inStr, escape := 0, false, false;
    var i := start;
    while i < |text|
      invariant start <= i
      invariant i <= |text| || i == start
      invariant i <= |text| ==> BalancedEnd(text, start) == Shift(i, Scan(State(depth, inStr, escape), text[i..]))
    {
      var ch := text[i];
      assert text[i..][1..] == text[i + 1..];
      if inStr {
        if escape {
          escape := false;
        } else if ch == '\\' {
          escape := true;
        } else if ch == '"' {
          inStr := false;
        }
      } else {
        if ch == '"' {
          inStr := true;
        } else if ch == '{' {
          depth := depth + 1;
        } else if ch == '}' {
          depth := depth - 1;
          if depth == 0 {
            return i + 1;
          }
        }
      }
      i := i + 1;
    }
    end := -1;
  }

  // ---- an independent reading: lexemes, and the balance of braces outside string literals ----

  datatype StrAtom = Raw(c: char) | Escaped(c: char)
  datatype Lexeme = Mark(c: char) | Literal(body: seq<StrAtom>)

  predicate WfLexeme(x: Lexeme) {
    match x
    case Mark(c) => c != '"'
    case Literal(body) => forall a | a in body :: a.Raw? ==> a.c != '"' && a.c != '\\'
  }

  predicate WfLexemes(xs: seq<Lexeme>) { forall x | x in xs :: WfLexeme(x) }

  function AtomText(a: StrAtom): string {
    if a.Raw? then [a.c] else ['\\', a.c]
  }

  function BodyText(body: seq<StrAtom>): string {
    if body == [] then "" else AtomText(body[0]) + BodyText(body[1..])
  }

  function LexemeText(x: Lexeme): string {
    match x
    case Mark(c) => [c]
    case Literal(body) => "\"" + (BodyText(body) + "\"")
  }

  function LexemesText(xs: seq<Lexeme>): string {
    if xs == [] then "" else LexemeText(xs[0]) + LexemesText(xs[1..])
  }

  function Weight(x: Lexeme): int {
    if x == Mark('{') then 1 else if x == Mark('}') then -1 else 0
  }

  function Balance(xs: seq<Lexeme>): int {
    if xs == [] then 0 else Weight(xs[0]) + Balance(xs[1..])
  }

  /** Starts with a brace; balance zero at the end and at least one after every proper prefix. */
  predicate Closed(xs: seq<Lexeme>) {
    xs != [] && xs[0] == Mark('{') && Balance(xs) == 0 && forall k | 0 < k < |xs| :: Balance(xs[..k]) >= 1
  }

  predicate ClosedPrefix(xs: seq<Lexeme>, s: string) {
    WfLexemes(xs) && Closed(xs) && LexemesText(xs) <= s
  }

  /** From depth `d`, reading `xs` first brings the depth to zero at its very end. */
  predicate Descends(d: int, xs: seq<Lexeme>)
    decreases |xs|
  {
    xs != [] &&
    var d' := d + Weight(xs[0]);
    if |xs| == 1 then d' == 0 else d' >= 1 && Descends(d', xs[1..])
  }

  lemma {:induction false} DescendsIsClosed(d: int, xs: seq<Lexeme>)
    ensures Descends(d, xs) <==>
            xs != [] && d + Balance(xs) == 0 && forall k | 0 < k < |xs| :: d + Balance(xs[..k]) >= 1
    decreases |xs|
  {
    if |xs| > 1 {
      var d', ys := d + Weight(xs[0]), xs[1..];
      DescendsIsClosed(d', ys);
      forall k | 0 < k < |xs| ensures d + Balance(xs[..k]) == d' + Balance(ys[..k - 1]) {
        assert xs[..k][0] == xs[0] && xs[..k][1..] == ys[..k - 1];
      }
      if Descends(d, xs) {
        forall k | 0 < k < |xs| ensures d + Balance(xs[..k]) >= 1 {
          if k == 1 { assert ys[..0] == []; } else { assert d' + Balance(ys[..k - 1]) >= 1; }
        }
      } else if d + Balance(xs) == 0 && forall k | 0 < k < |xs| :: d + Balance(xs[..k]) >= 1 {
        assert d + Balance(xs[..1]) >= 1 && ys[..0] == [];
        forall j | 0 < j < |ys| ensures d' + Balance(ys[..j]) >= 1 {
          assert d + Balance(xs[..j + 1]) >= 1;
        }
        assert false;
      }
    } else if |xs| == 1 {
      assert xs[1..] == [];
    }
  }

  // ---- scanning one lexeme ----

  lemma {:induction false} ScanBody(d: int, body: seq<StrAtom>, s: string)
    requires WfLexeme(Literal(body))
    ensures Scan(State(d, true, false), BodyText(body) + ("\"" + s)) == Shift(|BodyText(body)| + 1, Scan(Outside(d), s))
  {
    if body == [] {
      var t := "\"" + s;
      assert BodyText(body) + t == t && t[1..] == s;
    } else {
      var u := BodyText(body[1..]) + ("\"" + s);
      assert BodyText(body) + ("\"" + s) == AtomText(body[0]) + u;
      assert forall x | x in body[1..] :: x in body;
      ScanBody(d, body[1..], s);
      ScanAtom(d, body[0], u);
    }
  }

  lemma ScanAtom(d: int, a: StrAtom, u: string)
    requires a.Raw? ==> a.c != '"' && a.c != '\\'
    ensures Scan(State(d, true, false), AtomText(a) + u) == Shift(|AtomText(a)|, Scan(State(d, true, false), u))
  {
    var t := AtomText(a) + u;
    if a.Raw? {
      assert t[1..] == u;
    } else {
      assert t[1..] == [a.c] + u && t[1..][1..] == u;
    }
  }

  lemma ScanLexeme(d: int, x: Lexeme, s: string)
    requires d >= 1 && WfLexeme(x)
    ensures Scan(Outside(d), LexemeText(x) + s) ==
            if d + Weight(x) == 0 then 1 else Shift(|LexemeText(x)|, Scan(Outside(d + Weight(x)), s))
  {
    match x {
      case Mark(c) => assert ([c] + s)[1..] == s;
      case Literal(body) => ScanLiteral(d, body, s);
    }
  }

  lemma ScanLiteral(d: int, body: seq<StrAtom>, s: string)
    requires WfLexeme(Literal(body))
    ensures Scan(Outside(d), LexemeText(Literal(body)) + s) == Shift(|LexemeText(Literal(body))|, Scan(Outside(d), s))
  {
    var t := LexemeText(Literal(body)) + s;
    assert t[0] == '"' && t[1..] == BodyText(body) + ("\"" + s);
    ScanBody(d, body, s);
  }

  // ---- completeness: a closed prefix is found, and found at its own length ----

  lemma {:induction false} ScanDescending(d: int, xs: seq<Lexeme>, s: string)
    requires d >= 1 && WfLexemes(xs) && Descends(d, xs)
    ensures Scan(Outside(d), LexemesText(xs) + s) == |LexemesText(xs)|
    decreases |xs|
  {
    var rest := LexemesText(xs[1..]) + s;
    assert LexemesText(xs) + s == LexemeText(xs[0]) + rest;
    ScanLexeme(d, xs[0], rest);
    if |xs| == 1 {
      assert xs[1..] == [] && xs == [xs[0]];
    } else {
      assert forall x | x in xs[1..] :: x in xs;
      ScanDescending(d + Weight(xs[0]), xs[1..], s);
    }
  }

  lemma ScanClosedPrefix(xs: seq<Lexeme>, s: string)
    requires ClosedPrefix(xs, s)
    ensures Scan(Outside(0), s) == |LexemesText(xs)| && s != "" && s[0] == '{'
  {
    var tail := s[|LexemesText(xs)|..];
    assert s == LexemesText(xs) + tail;
    ScanClosed(xs, tail);
  }

  lemma ScanClosed(xs: seq<Lexeme>, tail: string)
    requires WfLexemes(xs) && Closed(xs)
    ensures Scan(Outside(0), LexemesText(xs) + tail) == |LexemesText(xs)| && LexemesText(xs) != ""
            && LexemesText(xs)[0] == '{'
  {
    DescendsIsClosed(0, xs);
    assert LexemesText(xs) == "{" + LexemesText(xs[1..]);
    ScanOpening(LexemesText(xs[1..]), tail);
    assert forall x | x in xs[1..] :: x in xs;
    ScanDescending(1, xs[1..], tail);
  }

  lemma ScanOpening(t: string, tail: string)
    ensures Scan(Outside(0), ("{" + t) + tail) == Shift(1, Scan(Outside(1), t + tail))
  {
    assert (("{" + t) + tail)[1..] == t + tail;
  }

  // ---- soundness: what the scanner returns is the end of a closed prefix ----

  lemma {:induction false} ScanInLiteral(d: int, s: string) returns (body: seq<StrAtom>, k: nat)
    requires Scan(State(d, true, false), s) > 0
    ensures WfLexeme(Literal(body)) && 0 < k <= |s| && s[..k] == BodyText(body) + "\""
    ensures Scan(Outside(d), s[k..]) > 0 && Scan(State(d, true, false), s) == k + Scan(Outside(d), s[k..])
    decreases |s|
  {
    if s[0] == '"' {
      body, k := [], 1;
    } else {
      var a, m := FirstAtom(d, s);
      var more, j := ScanInLiteral(d, s[m..]);
      body, k := [a] + more, m + j;
      JoinCuts(s, m, j);
      BodyCons(a, more);
    }
  }

  lemma BodyCons(a: StrAtom, more: seq<StrAtom>)
    requires a.Raw? ==> a.c != '"' && a.c != '\\'
    ensures BodyText([a] + more) + "\"" == AtomText(a) + (BodyText(more) + "\"")
    ensures WfLexeme(Literal(more)) ==> WfLexeme(Literal([a] + more))
  {
    var body := [a] + more;
    assert body[0] == a && body[1..] == more;
  }

  /** The first character or escape pair of a literal the scanner gets through. */
  lemma FirstAtom(d: int, s: string) returns (a: StrAtom, m: nat)
    requires Scan(State(d, true, false), s) > 0 && s[0] != '"'
    ensures (a.Raw? ==> a.c != '"' && a.c != '\\') && 0 < m <= |s| && s[..m] == AtomText(a)
    ensures Scan(State(d, true, false), s[m..]) > 0
            && Scan(State(d, true, false), s) == m + Scan(State(d, true, false), s[m..])
  {
    a, m := Raw(s[0]), 1;
    if s[0] == '\\' {
      assert s[1..] != "";
      a, m := Escaped(s[1]), 2;
      assert s[1..][1..] == s[2..];
    }
  }

  lemma JoinCuts(s: string, m: nat, j: nat)
    requires m + j <= |s|
    ensures s[..m + j] == s[..m] + s[m..][..j] && s[m..][j..] == s[m + j..]
  {}

  /** The lexeme that starts `s`, when the scanner gets past it. */
  lemma FirstLexeme(d: int, s: string) returns (x: Lexeme, k: nat)
    requires d >= 1 && Scan(Outside(d), s) > 0
    ensures WfLexeme(x) && 0 < k <= |s| && s[..k] == LexemeText(x)
    ensures s == LexemeText(x) + s[k..]
  {
    if s[0] == '"' {
      x, k := FirstLiteral(d, s);
    } else {
      x, k := Mark(s[0]), 1;
    }
    assert s == s[..k] + s[k..];
  }

  lemma FirstLiteral(d: int, s: string) returns (x: Lexeme, k: nat)
    requires d >= 1 && Scan(Outside(d), s) > 0 && s[0] == '"'
    ensures WfLexeme(x) && 0 < k <= |s| && s[..k] == LexemeText(x)
  {
    var body, j := ScanInLiteral(d, s[1..]);
    x, k := Literal(body), j + 1;
    assert s[..j + 1] == [s[0]] + s[1..][..j];
  }

  /** What starts `s` has been read up to its end. */
  ghost predicate Found(d: int, xs: seq<Lexeme>, s: string) {
    && Scan(Outside(d), s) > 0
    && WfLexemes(xs) && Descends(d, xs) && LexemesText(xs) == s[..Scan(Outside(d), s)]
  }

  lemma {:induction false} ScanFound(d: int, s: string) returns (xs: seq<Lexeme>)
    requires d >= 1 && Scan(Outside(d), s) > 0
    ensures Found(d, xs, s)
    decreases |s|
  {
    var x, k := FirstLexeme(d, s);
    var rest := s[k..];
    ScanLexeme(d, x, rest);
    if d + Weight(x) == 0 {
      xs := [x];
      assert Found(d, [x], LexemeText(x) + rest) by {
        ScanLexeme(d, x, rest);
        assert [x][1..] == [] && LexemesText([x]) == LexemeText(x) + "";
        assert (LexemeText(x) + rest)[..1] == LexemeText(x);
      }
    } else {
      var more := ScanFound(d + Weight(x), rest);
      xs := [x] + more;
      FoundCons(d, x, more, rest);
    }
  }

  lemma FoundCons(d: int, x: Lexeme, more: seq<Lexeme>, rest: string)
    requires d >= 1 && WfLexeme(x) && d + Weight(x) >= 1 && Found(d + Weight(x), more, rest)
    ensures Found(d, [x] + more, LexemeText(x) + rest)
  {
    ScanLexeme(d, x, rest);
    assert ([x] + more)[1..] == more;
    TakeAcross(LexemeText(x), rest, Scan(Outside(d + Weight(x)), rest));
  }

  lemma TakeAcross(a: string, b: string, n: nat)
    requires n <= |b|
    ensures (a + b)[..|a| + n] == a + b[..n]
  {}

  /** The scanner returns n exactly when a closed lexeme sequence of n characters starts the text,
      and -1 exactly when none does: the reading of the text after the object plays no part. */
  lemma BalancedEndExact(text: string, start: nat, e: nat)
    requires start < |text| && text[start] == '{'
    ensures BalancedEnd(text, start) == e <==>
            exists xs :: ClosedPrefix(xs, text[start..]) && start + |LexemesText(xs)| == e
    ensures BalancedEnd(text, start) == -1 <==> !exists xs :: ClosedPrefix(xs, text[start..])
  {
    var s := text[start..];
    forall xs | ClosedPrefix(xs, s) ensures BalancedEnd(text, start) == start + |LexemesText(xs)| {
      ScanClosedPrefix(xs, s);
    }
    if BalancedEnd(text, start) >= 0 {
      var xs := ClosedPrefixFound(s);
    }
  }

  lemma ClosedPrefixFound(s: string) returns (xs: seq<Lexeme>)
    requires s != "" && s[0] == '{' && Scan(Outside(0), s) > 0
    ensures ClosedPrefix(xs, s)
  {
    var more := ScanFound(1, s[1..]);
    xs := [Mark('{')] + more;
    assert xs[1..] == more;
    DescendsIsClosed(0, xs);
    var n := Scan(Outside(1), s[1..]);
    assert s[..n + 1] == "{" + s[1..][..n];
    assert LexemesText(xs) == "{" + LexemesText(more);
  }

  /** Only the characters up to the returned index matter. */
  lemma {:induction false} ScanIgnoresTail(st: State, s: string, tail: string)
    requires Scan(st, s) > 0
    ensures Scan(st, s[..Scan(st, s)] + tail) == Scan(st, s)
    decreases |s|
  {
    var n := Scan(st, s);
    var t := s[..n] + tail;
    if !Closes(st, s[0]) {
      ScanIgnoresTail(Next(st, s[0]), s[1..], tail);
      assert t[1..] == s[1..][..n - 1] + tail;
    }
  }
}
