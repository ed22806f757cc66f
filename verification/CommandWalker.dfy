/** The walk that finds the command words of a shell line through wrapper words and `sh -c`. */
module CommandWalker {
  import opened Text

  datatype Option<+T> = None | Some(value: T)

  /** The word tables. The walk is proved for any tables; these are the hook's own. */
  datatype Words = Words(binaries: set<string>, wrappers: set<string>, flagged: set<string>, shells: set<string>,
    valueFlags: set<string>)

  const HOOK_WORDS := Words(
    {"jadx", "apktool", "baksmali", "ghidra", "ghidrarun", "analyzeheadless",
     "idat64", "ida64", "frida", "frida-server", "strings3", "diec", "floss"},
    {"nohup", "command", "exec", "time", "env", "xargs", "sudo", "doas", "pkexec"},
    {"timeout", "nice", "ionice", "stdbuf"},
    {"sh", "bash", "dash", "ksh", "zsh"},
    {"-u", "-g", "--user", "--group"})

  // ---- splitting ----

  predicate IsNonSpace(c: char) { !IsSpace(c) }

  /** `str.split()`. */
  function SplitWords(s: string): seq<string>
    decreases |s|
  {
    if s == "" then []
    else if IsSpace(s[0]) then SplitWords(s[1..])
    else
      var n := Run(IsNonSpace, s);
      [s[..n]] + SplitWords(s[n..])
  }

  /** Length of the segment separator at the start of `s`: `&&`, `||`, `;`, `|`, newline or `&`. */
  function Separator(s: string): (n: nat)
    ensures n <= |s|
  {
    if "&&" <= s || "||" <= s then 2
    else if s != "" && s[0] in [';', '|', '\n', '&'] then 1
    else 0
  }

  function SplitSegments(s: string): (pieces: seq<string>)
    ensures pieces != [] && forall x | x in pieces :: |x| <= |s|
    decreases |s|
  {
    if s == "" then [""]
    else if Separator(s) > 0 then [""] + SplitSegments(s[Separator(s)..])
    else
      var rest := SplitSegments(s[1..]);
      [[s[0]] + rest[0]] + rest[1..]
  }

  function Join(tokens: seq<string>): string {
    if tokens == [] then "" else if |tokens| == 1 then tokens[0] else tokens[0] + (" " + Join(tokens[1..]))
  }

  function Weight(tokens: seq<string>): nat {
    if tokens == [] then 0 else |tokens[0]| + 1 + Weight(tokens[1..])
  }

  lemma {:induction false} SplitWeight(s: string)
    ensures Weight(SplitWords(s)) <= |s| + 1
    decreases |s|
  {
    if s != "" {
      if IsSpace(s[0]) {
        SplitWeight(s[1..]);
      } else {
        var n := Run(IsNonSpace, s);
        SplitWeight(s[n..]);
        if n < |s| {
          var t := s[n..];
          assert SplitWords(t) == SplitWords(t[1..]);
          SplitWeight(t[1..]);
        }
        assert ([s[..n]] + SplitWords(s[n..]))[1..] == SplitWords(s[n..]);
      }
    }
  }

  lemma {:induction false} JoinWeight(tokens: seq<string>)
    ensures |Join(tokens)| <= Weight(tokens)
    decreases |tokens|
  {
    if |tokens| > 1 { JoinWeight(tokens[1..]); }
  }

  lemma {:induction false} SuffixWeight(tokens: seq<string>, i: nat)
    requires i <= |tokens|
    ensures Weight(tokens[i..]) + i <= Weight(tokens)
    decreases i
  {
    if i > 0 {
      SuffixWeight(tokens[1..], i - 1);
      assert tokens[1..][i - 1..] == tokens[i..];
    } else {
      assert tokens[0..] == tokens;
    }
  }

  lemma TrimShortens(p: char -> bool, s: string)
    ensures |Trim(p, s)| <= |s|
  {
    TrimRightEnds(p, TrimLeft(p, s));
  }

  // ---- one token ----

  predicate IsAsciiLetter(c: char) { 'a' <= c <= 'z' || 'A' <= c <= 'Z' }
  predicate IsAsciiDigit(c: char) { '0' <= c <= '9' }
  predicate IsNameChar(c: char) { IsAsciiLetter(c) || IsAsciiDigit(c) || c == '_' }

  /** `NAME=...` */
  predicate EnvAssign(t: string) {
    t != "" && !IsAsciiDigit(t[0]) && 0 < Run(IsNameChar, t) < |t| && t[Run(IsNameChar, t)] == '='
  }

  predicate IsDecoration(c: char) { c in ['(', ')', '!', '"', '\''] }
  predicate IsQuote(c: char) { c == '"' || c == '\'' }

  function BaseName(s: string): string {
    if s == "" then ""
    else if s[|s| - 1] == '/' || s[|s| - 1] == '\\' then ""
    else BaseName(s[..|s| - 1]) + [s[|s| - 1]]
  }

  function LowerChar(c: char): char { if 'A' <= c <= 'Z' then c + 32 as char else c }

  function Lower(s: string): string { seq(|s|, i requires 0 <= i < |s| => LowerChar(s[i])) }

  function DropSuffix(s: string): string {
    if |s| >= 4 && Lower(s[|s| - 4..]) in {".bat", ".exe", ".cmd"} then s[..|s| - 4] else s
  }

  function Normalize(t: string): string { Lower(DropSuffix(BaseName(Trim(IsDecoration, t)))) }

  function DropDot(t: string): string {
    if t == "" then "" else if t[0] == '.' then t[1..] else [t[0]] + DropDot(t[1..])
  }

  predicate IsNumeric(t: string) { DropDot(t) != "" && All(IsAsciiDigit, DropDot(t)) }

  predicate IsFlag(t: string) { t != "" && t[0] == '-' }

  predicate IsOption(t: string) { IsFlag(t) || IsNumeric(t) }

  // ---- the walk ----

  function SkipOptions(tokens: seq<string>, i: nat): (j: nat)
    requires i <= |tokens|
    ensures i <= j <= |tokens|
    decreases |tokens| - i
  {
    if i < |tokens| && IsOption(tokens[i]) then SkipOptions(tokens, i + 1) else i
  }

  function SkipFlags(v: Words, tokens: seq<string>, i: nat): (j: nat)
    requires i <= |tokens|
    ensures i <= j <= |tokens|
    decreases |tokens| - i
  {
    if i < |tokens| && IsFlag(tokens[i]) then
      SkipFlags(v, tokens, if tokens[i] in v.valueFlags && i + 1 < |tokens| then i + 2 else i + 1)
    else i
  }

  function ShellPayload(tokens: seq<string>): string { Trim(IsQuote, Strip(Join(tokens))) }

  predicate IsShellCall(v: Words, tokens: seq<string>) {
    |tokens| > 1 && Normalize(tokens[0]) in v.shells && Strip(tokens[1]) == "-c"
  }

  lemma PayloadSmaller(tokens: seq<string>)
    requires |tokens| >= 2
    ensures |ShellPayload(tokens[2..])| + 1 < Weight(tokens)
  {
    var rest := tokens[2..];
    JoinWeight(rest);
    SuffixWeight(tokens, 2);
    TrimShortens(IsSpace, Join(rest));
    TrimShortens(IsQuote, Strip(Join(rest)));
  }

  function Unwrap(v: Words, tokens: seq<string>): seq<string>
    decreases Weight(tokens), 0, 0
  {
    if tokens == [] then []
    else if EnvAssign(tokens[0]) then Unwrap(v, tokens[1..])
    else if IsShellCall(v, tokens) then
      PayloadSmaller(tokens);
      var payload := ShellPayload(tokens[2..]);
      WordsOf(v, SplitSegments(payload), |payload|)
    else if Normalize(tokens[0]) in v.flagged then
      var i := SkipOptions(tokens, 1);
      SuffixWeight(tokens, i);
      Unwrap(v, tokens[i..])
    else if Normalize(tokens[0]) in v.wrappers then
      var i := SkipFlags(v, tokens, 1);
      SuffixWeight(tokens, i);
      Unwrap(v, tokens[i..])
    else if Normalize(tokens[0]) != "" then [Normalize(tokens[0])]
    else []
  }

  /** The words of each segment in turn; no segment is longer than `limit`. */
  function WordsOf(v: Words, segments: seq<string>, limit: nat): seq<string>
    requires forall s | s in segments :: |s| <= limit
    decreases limit + 1, 1, |segments|
  {
    if segments == [] then [] else
      var s := Strip(segments[0]);
      TrimShortens(IsSpace, segments[0]);
      SplitWeight(s);
      Unwrap(v, SplitWords(s)) + WordsOf(v, segments[1..], limit)
  }

  function CommandWords(v: Words, cmd: string): seq<string> { WordsOf(v, SplitSegments(cmd), |cmd|) }

  lemma AtSuffix(tokens: seq<string>, i: nat)
    requires i < |tokens|
    ensures tokens[i..][0] == tokens[i] && tokens[i..][1..] == tokens[i + 1..] && |tokens[i..]| == |tokens| - i
    ensures i + 1 < |tokens| ==> tokens[i..][1] == tokens[i + 1] && tokens[i..][2..] == tokens[i + 2..]
  {}

  lemma ShellStep(v: Words, tokens: seq<string>, i: nat)
    requires i < |tokens| && !EnvAssign(tokens[i]) && IsShellCall(v, tokens[i..])
    ensures var payload := ShellPayload(tokens[i + 2..]);
            Unwrap(v, tokens[i..]) == WordsOf(v, SplitSegments(payload), |payload|) && |payload| + 1 < Weight(tokens)
  {
    AtSuffix(tokens, i);
    PayloadSmaller(tokens[i..]);
    SuffixWeight(tokens, i);
  }

  lemma FlaggedAt(v: Words, tokens: seq<string>, i: nat)
    requires i < |tokens| && !EnvAssign(tokens[i]) && !IsShellCall(v, tokens[i..]) && Normalize(tokens[i]) in v.flagged
    ensures Unwrap(v, tokens[i..]) == Unwrap(v, tokens[SkipOptions(tokens, i + 1)..])
  {
    assert tokens[i..][0] == tokens[i];
    OptionsEnd(tokens, i);
    assert Unwrap(v, tokens[i..]) == Unwrap(v, tokens[i..][SkipOptions(tokens[i..], 1)..]);
  }

  lemma OptionsEnd(tokens: seq<string>, i: nat)
    requires i < |tokens|
    ensures tokens[i..][SkipOptions(tokens[i..], 1)..] == tokens[SkipOptions(tokens, i + 1)..]
  {
    SkipOptionsShift(tokens, i, 1);
    assert tokens[i..][SkipOptions(tokens[i..], 1)..] == tokens[i + SkipOptions(tokens[i..], 1)..];
  }

  lemma FlagsEnd(v: Words, tokens: seq<string>, i: nat)
    requires i < |tokens|
    ensures tokens[i..][SkipFlags(v, tokens[i..], 1)..] == tokens[SkipFlags(v, tokens, i + 1)..]
  {
    SkipFlagsShift(v, tokens, i, 1);
    assert tokens[i..][SkipFlags(v, tokens[i..], 1)..] == tokens[i + SkipFlags(v, tokens[i..], 1)..];
  }

  lemma PlainAt(v: Words, tokens: seq<string>, i: nat)
    requires i < |tokens| && !EnvAssign(tokens[i]) && !IsShellCall(v, tokens[i..])
    requires Normalize(tokens[i]) in v.wrappers - v.flagged
    ensures Unwrap(v, tokens[i..]) == Unwrap(v, tokens[SkipFlags(v, tokens, i + 1)..])
  {
    assert tokens[i..][0] == tokens[i];
    FlagsEnd(v, tokens, i);
    assert Unwrap(v, tokens[i..]) == Unwrap(v, tokens[i..][SkipFlags(v, tokens[i..], 1)..]);
  }

  lemma LastAt(v: Words, tokens: seq<string>, i: nat)
    requires i < |tokens| && !IsShellCall(v, tokens[i..])
             && (EnvAssign(tokens[i]) || Normalize(tokens[i]) !in v.flagged + v.wrappers)
    ensures Unwrap(v, tokens[i..]) ==
            if EnvAssign(tokens[i]) then Unwrap(v, tokens[i + 1..])
            else if Normalize(tokens[i]) != "" then [Normalize(tokens[i])] else []
  {
    AtSuffix(tokens, i);
  }

  lemma WordStep(v: Words, tokens: seq<string>, i: nat)
    requires i < |tokens| && !IsShellCall(v, tokens[i..])
    ensures Unwrap(v, tokens[i..]) ==
            if EnvAssign(tokens[i]) then Unwrap(v, tokens[i + 1..])
            else if Normalize(tokens[i]) in v.flagged then Unwrap(v, tokens[SkipOptions(tokens, i + 1)..])
            else if Normalize(tokens[i]) in v.wrappers then Unwrap(v, tokens[SkipFlags(v, tokens, i + 1)..])
            else if Normalize(tokens[i]) != "" then [Normalize(tokens[i])] else []
  {
    if EnvAssign(tokens[i]) {
      LastAt(v, tokens, i);
    } else if Normalize(tokens[i]) in v.flagged {
      FlaggedAt(v, tokens, i);
    } else if Normalize(tokens[i]) in v.wrappers {
      PlainAt(v, tokens, i);
    } else {
      LastAt(v, tokens, i);
    }
  }

  lemma {:induction false} SkipOptionsShift(tokens: seq<string>, i: nat, k: nat)
    requires i + k <= |tokens|
    ensures SkipOptions(tokens, i + k) == i + SkipOptions(tokens[i..], k)
    decreases |tokens| - k
  {
    if i + k < |tokens| && IsOption(tokens[i + k]) { SkipOptionsShift(tokens, i, k + 1); }
  }

  lemma {:induction false} SkipFlagsShift(v: Words, tokens: seq<string>, i: nat, k: nat)
    requires i + k <= |tokens|
    ensures SkipFlags(v, tokens, i + k) == i + SkipFlags(v, tokens[i..], k)
    decreases |tokens| - k
  {
    if i + k < |tokens| && IsFlag(tokens[i + k]) {
      SkipFlagsShift(v, tokens, i, if tokens[i + k] in v.valueFlags && i + k + 1 < |tokens| then k + 2 else k + 1);
    }
  }

  method ConsumeOptions(tokens: seq<string>, start: nat) returns (i: nat)
    requires start <= |tokens|
    ensures i == SkipOptions(tokens, start)
  {
    i := start;
    while i < |tokens| && IsOption(tokens[i])
      invariant i <= |tokens| && SkipOptions(tokens, i) == SkipOptions(tokens, start)
    {
      i := i + 1;
    }
  }

  method ConsumeFlags(v: Words, tokens: seq<string>, start: nat) returns (i: nat)
    requires start <= |tokens|
    ensures i == SkipFlags(v, tokens, start)
  {
    i := start;
    while i < |tokens| && IsFlag(tokens[i])
      invariant i <= |tokens| && SkipFlags(v, tokens, i) == SkipFlags(v, tokens, start)
    {
      if tokens[i] in v.valueFlags && i + 1 < |tokens| {
        i := i + 1;
      }
      i := i + 1;
    }
  }

  method UnwrapSegment(v: Words, tokens: seq<string>) returns (words: seq<string>)
    ensures words == Unwrap(v, tokens)
    decreases Weight(tokens), 0, 0
  {
    words := [];
    var i := 0;
    assert tokens[0..] == tokens;
    while i < |tokens|
      invariant 0 <= i <= |tokens|
      invariant Unwrap(v, tokens) == Unwrap(v, tokens[i..])
    {
      AtSuffix(tokens, i);
      var w := Normalize(tokens[i]);
      if !EnvAssign(tokens[i]) && w in v.shells && i + 1 < |tokens| && Strip(tokens[i + 1]) == "-c" {
        ShellStep(v, tokens, i);
        var payload := ShellPayload(tokens[i + 2..]);
        words := WalkSegments(v, SplitSegments(payload), |payload|);
        return;
      }
      if EnvAssign(tokens[i]) {
        i := i + 1;
        continue;
      }
      WordStep(v, tokens, i);
      if w in v.flagged {
        i := ConsumeOptions(tokens, i + 1);
        continue;
      }
      if w in v.wrappers {
        i := ConsumeFlags(v, tokens, i + 1);
        continue;
      }
      if w != "" {
        words := [w];
      }
      return;
    }
    assert tokens[i..] == [];
  }

  lemma SegmentStep(v: Words, segments: seq<string>, limit: nat, j: nat, words: seq<string>)
    requires j < |segments| && forall s | s in segments :: |s| <= limit
    ensures var s := Strip(segments[j]);
            && Weight(SplitWords(s)) <= limit + 1
            && words + WordsOf(v, segments[j..], limit) ==
                (words + Unwrap(v, SplitWords(s))) + WordsOf(v, segments[j + 1..], limit)
            && (SplitWords(s) == [] ==> words + Unwrap(v, SplitWords(s)) == words)
  {
    AtSuffix(segments, j);
    assert segments[j] in segments;
    TrimShortens(IsSpace, segments[j]);
    SplitWeight(Strip(segments[j]));
  }

  method WalkSegments(v: Words, segments: seq<string>, ghost limit: nat) returns (words: seq<string>)
    requires forall s | s in segments :: |s| <= limit
    ensures words == WordsOf(v, segments, limit)
    decreases limit + 1, 1, |segments|
  {
    words := [];
    assert segments[0..] == segments;
    for j := 0 to |segments|
      invariant words + WordsOf(v, segments[j..], limit) == WordsOf(v, segments, limit)
    {
      var tokens := SplitWords(Strip(segments[j]));
      SegmentStep(v, segments, limit, j, words);
      if tokens != [] {
        var more := UnwrapSegment(v, tokens);
        words := words + more;
      }
    }
    assert segments[|segments|..] == [];
  }

  method SegmentCommandWords(v: Words, cmd: string) returns (words: seq<string>)
    ensures words == CommandWords(v, cmd)
  {
    words := WalkSegments(v, SplitSegments(cmd), |cmd|);
  }

  method MatchAnalysisBinary(v: Words, cmd: string) returns (hit: Option<string>)
    ensures hit.None? <==> forall w | w in CommandWords(v, cmd) :: w !in v.binaries
    ensures hit.Some? ==>
            exists i :: 0 <= i < |CommandWords(v, cmd)|
                        && CommandWords(v, cmd)[i] == hit.value && hit.value in v.binaries
                                      && forall j | 0 <= j < i :: CommandWords(v, cmd)[j] !in v.binaries
  {
    var words := SegmentCommandWords(v, cmd);
    for i := 0 to |words|
      invariant forall j | 0 <= j < i :: words[j] !in v.binaries
    {
      if words[i] in v.binaries {
        return Some(words[i]);
      }
    }
    hit := None;
  }
}
