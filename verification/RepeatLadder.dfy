/** The repeat-block ladder of facts writes: a streak per file and rule, with rungs at 3 and 5. */
module RepeatLadder {

  datatype Option<+T> = None | Some(value: T)

  const WARN_AT := 3
  const ESCALATE_AT := 5

  datatype Finding = Finding(isError: bool, rule: string, msg: string)
  datatype Target = Target(file: string, errors: seq<Finding>, warnings: seq<Finding>)
  datatype Call = Call(targets: seq<Target>, clean: seq<string>)

  type Ladder = map<string, map<string, nat>>

  function Rules(t: Target): set<string> { set e | e in t.errors :: e.rule }

  function Streak(ladder: Ladder, file: string, rule: string): nat {
    if file in ladder && rule in ladder[file] then ladder[file][rule] else 0
  }

  /** One call never names a file twice. */
  predicate WfCall(c: Call) {
    && (forall i, j | 0 <= i < j < |c.targets| :: c.targets[i].file != c.targets[j].file)
    && (forall t | t in c.targets :: t.file !in c.clean)
  }

  predicate Breaks(c: Call, file: string, rule: string) {
    exists t :: t in c.targets && t.file == file && rule in Rules(t)
  }

  function Advanced(ladder: Ladder, c: Call, file: string, rule: string): nat {
    if file in c.clean then 0
    else Streak(ladder, file, rule) + (if Breaks(c, file, rule) then 1 else 0)
  }

  function RungRules(ladder: Ladder, t: Target, n: nat): set<string> {
    set r | r in Rules(t) && Streak(ladder, t.file, r) == n
  }

  function Rung(ladder: Ladder, targets: seq<Target>, n: nat): seq<(string, set<string>)> {
    if targets == [] then [] else
      var t := targets[|targets| - 1];
      Rung(ladder, targets[..|targets| - 1], n) +
          (if RungRules(ladder, t, n) != {} then [(t.file, RungRules(ladder, t, n))] else [])
  }

  function Firsts(ladder: Ladder, targets: seq<Target>): seq<Target> {
    if targets == [] then [] else
      var t := targets[|targets| - 1];
      Firsts(ladder, targets[..|targets| - 1]) + (if RungRules(ladder, t, 1) != {} then [t] else [])
  }

  // ---- `evaluate`: which files of a command count, and as what ----

  function Lower(s: string): string {
    seq(|s|, i requires 0 <= i < |s| => if 'A' <= s[i] <= 'Z' then s[i] + 32 as char else s[i])
  }

  function ErrorsOf(fs: seq<Finding>): seq<Finding> {
    if fs == [] then [] else ErrorsOf(fs[..|fs| - 1]) + (if fs[|fs| - 1].isError then [fs[|fs| - 1]] else [])
  }

  function WarningsOf(fs: seq<Finding>): seq<Finding> {
    if fs == [] then [] else WarningsOf(fs[..|fs| - 1]) + (if fs[|fs| - 1].isError then [] else [fs[|fs| - 1]])
  }

  lemma {:induction false} PartitionKeepsAll(fs: seq<Finding>)
    ensures forall f :: f in ErrorsOf(fs) <==> f in fs && f.isError
    ensures forall f :: f in WarningsOf(fs) <==> f in fs && !f.isError
    decreases |fs|
  {
    if fs != [] {
      var init, last := fs[..|fs| - 1], fs[|fs| - 1];
      PartitionKeepsAll(init);
      assert fs == init + [last];
    }
  }

  lemma {:induction false} NoFindings(fs: seq<Finding>)
    ensures fs == [] <==> ErrorsOf(fs) == [] && WarningsOf(fs) == []
    decreases |fs|
  {
    if fs != [] { NoFindings(fs[..|fs| - 1]); }
  }

  /** None for a name that is unsafe, is no file, or whose lint raised. */
  type Lint = string -> Option<seq<Finding>>

  /** The last mention is the first of its file, up to case, and its lint ran. */
  predicate LastCounts(mentions: seq<string>, lint: Lint)
    requires mentions != []
  {
    var last := mentions[|mentions| - 1];
    lint(last).Some? && forall m | m in mentions[..|mentions| - 1] :: Lower(m) != Lower(last)
  }

  function TargetsOf(mentions: seq<string>, lint: Lint): seq<Target> {
    if mentions == [] then [] else
      var last := mentions[|mentions| - 1];
      TargetsOf(mentions[..|mentions| - 1], lint) +
      (if LastCounts(mentions, lint) && lint(last).value != []
       then [Target(last, ErrorsOf(lint(last).value), WarningsOf(lint(last).value))] else [])
  }

  function CleanOf(mentions: seq<string>, lint: Lint): seq<string> {
    if mentions == [] then [] else
      var last := mentions[|mentions| - 1];
      CleanOf(mentions[..|mentions| - 1], lint) +
          (if LastCounts(mentions, lint) && lint(last).value == [] then [last] else [])
  }

  function Seen(mentions: seq<string>): set<string> { set m | m in mentions :: Lower(m) }

  lemma MentionStep(mentions: seq<string>, lint: Lint, i: nat)
    requires i < |mentions|
    ensures var rel, counts := mentions[i], Lower(mentions[i]) !in Seen(mentions[..i]) && lint(mentions[i]).Some?;
            && Seen(mentions[..i + 1]) == Seen(mentions[..i]) + {Lower(rel)}
            && TargetsOf(mentions[..i + 1], lint) ==
               TargetsOf(mentions[..i], lint) +
               (if counts && lint(rel).value != []
                then [Target(rel, ErrorsOf(lint(rel).value), WarningsOf(lint(rel).value))] else [])
            && CleanOf(mentions[..i + 1], lint) ==
               CleanOf(mentions[..i], lint) + (if counts && lint(rel).value == [] then [rel] else [])
  {
    var now := mentions[..i + 1];
    assert now == mentions[..i] + [mentions[i]] && now[..i] == mentions[..i];
    assert LastCounts(now, lint) <==> Lower(mentions[i]) !in Seen(mentions[..i]) && lint(mentions[i]).Some?;
  }

  method Evaluate(mentions: seq<string>, lint: Lint) returns (c: Call)
    ensures c == Call(TargetsOf(mentions, lint), CleanOf(mentions, lint))
  {
    var targets: seq<Target>, clean: seq<string>, seen: set<string> := [], [], {};
    for i := 0 to |mentions|
      invariant seen == Seen(mentions[..i])
      invariant targets == TargetsOf(mentions[..i], lint) && clean == CleanOf(mentions[..i], lint)
    {
      var rel := mentions[i];
      MentionStep(mentions, lint, i);
      if Lower(rel) in seen {
        continue;
      }
      seen := seen + {Lower(rel)};
      if lint(rel).None? {
        continue;
      }
      var errors, warnings := ErrorsOf(lint(rel).value), WarningsOf(lint(rel).value);
      NoFindings(lint(rel).value);
      if errors != [] || warnings != [] {
        targets := targets + [Target(rel, errors, warnings)];
      } else {
        clean := clean + [rel];
      }
    }
    assert mentions[..|mentions|] == mentions;
    c := Call(targets, clean);
  }

  predicate FirstMention(mentions: seq<string>, i: int) {
    0 <= i < |mentions| && forall j | 0 <= j < i :: Lower(mentions[j]) != Lower(mentions[i])
  }

  /** No earlier mention is of this file, up to case. */
  predicate FirstNamed(mentions: seq<string>, name: string) {
    exists i | 0 <= i < |mentions| :: FirstMention(mentions, i) && mentions[i] == name
  }

  lemma FirstMentionSnoc(mentions: seq<string>, i: nat)
    requires i < |mentions|
    ensures var n := |mentions| - 1;
            FirstMention(mentions, i) <==>
            if i < n then FirstMention(mentions[..n], i)
            else forall m | m in mentions[..n] :: Lower(m) != Lower(mentions[n])
  {
    var init := mentions[..|mentions| - 1];
    assert forall j | 0 <= j < |init| :: init[j] == mentions[j] && mentions[j] in init;
  }

  lemma FirstNamedSnoc(mentions: seq<string>, name: string)
    requires mentions != []
    ensures var init, last := mentions[..|mentions| - 1], mentions[|mentions| - 1];
            FirstNamed(mentions, name) <==>
            FirstNamed(init, name) || (last == name && forall m | m in init :: Lower(m) != Lower(last))
  {
    forall i | 0 <= i < |mentions| { FirstMentionSnoc(mentions, i); }
  }

  /** A file is a target exactly when its first mention has findings, split into errors and warnings, and clean
      exactly when that mention has none; later mentions and names whose lint raised count for nothing. */
  lemma {:induction false} ClassifiedExactly(mentions: seq<string>, lint: Lint, t: Target)
    ensures t in TargetsOf(mentions, lint) <==>
            && FirstNamed(mentions, t.file) && lint(t.file).Some? && lint(t.file) != Some([])
            && t == Target(t.file, ErrorsOf(lint(t.file).value), WarningsOf(lint(t.file).value))
    ensures t.file in CleanOf(mentions, lint) <==> FirstNamed(mentions, t.file) && lint(t.file) == Some([])
    decreases |mentions|
  {
    if mentions != [] {
      ClassifiedExactly(mentions[..|mentions| - 1], lint, t);
      FirstNamedSnoc(mentions, t.file);
    }
  }

  /** Targets and clean files come in the order of their mentions. */
  lemma {:induction false} LaterMentionsAppend(first: seq<string>, later: seq<string>, lint: Lint)
    ensures TargetsOf(first, lint) <= TargetsOf(first + later, lint)
    ensures CleanOf(first, lint) <= CleanOf(first + later, lint)
    decreases |later|
  {
    if later == [] {
      assert first + later == first;
    } else {
      assert (first + later)[..|first + later| - 1] == first + later[..|later| - 1];
      LaterMentionsAppend(first, later[..|later| - 1], lint);
    }
  }

  lemma {:induction false} ErrorsAdd(a: seq<Finding>, b: seq<Finding>)
    ensures ErrorsOf(a + b) == ErrorsOf(a) + ErrorsOf(b)
    decreases |b|
  {
    if b == [] {
      assert a + b == a;
    } else {
      assert (a + b)[..|a + b| - 1] == a + b[..|b| - 1];
      ErrorsAdd(a, b[..|b| - 1]);
    }
  }

  lemma {:induction false} WarningsAdd(a: seq<Finding>, b: seq<Finding>)
    ensures WarningsOf(a + b) == WarningsOf(a) + WarningsOf(b)
    decreases |b|
  {
    if b == [] {
      assert a + b == a;
    } else {
      assert (a + b)[..|a + b| - 1] == a + b[..|b| - 1];
      WarningsAdd(a, b[..|b| - 1]);
    }
  }

  lemma {:induction false} NoneLost(fs: seq<Finding>)
    ensures |ErrorsOf(fs)| + |WarningsOf(fs)| == |fs|
    decreases |fs|
  {
    if fs != [] { NoneLost(fs[..|fs| - 1]); }
  }

  /** Splitting findings keeps their order and number. */
  lemma FindingsAdd(a: seq<Finding>, b: seq<Finding>)
    ensures ErrorsOf(a + b) == ErrorsOf(a) + ErrorsOf(b) && WarningsOf(a + b) == WarningsOf(a) + WarningsOf(b)
    ensures |ErrorsOf(a)| + |WarningsOf(a)| == |a|
  {
    ErrorsAdd(a, b);
    WarningsAdd(a, b);
    NoneLost(a);
  }

  lemma {:induction false} RungAdds(ladder: Ladder, a: seq<Target>, b: seq<Target>, n: nat)
    ensures Rung(ladder, a + b, n) == Rung(ladder, a, n) + Rung(ladder, b, n)
    decreases |b|
  {
    if b == [] {
      assert a + b == a;
    } else {
      assert (a + b)[..|a + b| - 1] == a + b[..|b| - 1];
      RungAdds(ladder, a, b[..|b| - 1], n);
    }
  }

  lemma {:induction false} FirstsAdd(ladder: Ladder, a: seq<Target>, b: seq<Target>)
    ensures Firsts(ladder, a + b) == Firsts(ladder, a) + Firsts(ladder, b)
    decreases |b|
  {
    if b == [] {
      assert a + b == a;
    } else {
      assert (a + b)[..|a + b| - 1] == a + b[..|b| - 1];
      FirstsAdd(ladder, a, b[..|b| - 1]);
    }
  }

  /** The lists of a call come in the order of its targets. */
  lemma ListsAdd(ladder: Ladder, a: seq<Target>, b: seq<Target>, n: nat)
    ensures Rung(ladder, a + b, n) == Rung(ladder, a, n) + Rung(ladder, b, n)
    ensures Firsts(ladder, a + b) == Firsts(ladder, a) + Firsts(ladder, b)
  {
    RungAdds(ladder, a, b, n);
    FirstsAdd(ladder, a, b);
  }

  lemma StreakReads(ladder: Ladder, file: string, rule: string, n: nat)
    ensures Streak(ladder[file := map[rule := n]], file, rule) == n
    ensures file !in ladder ==> Streak(ladder, file, rule) == 0
  {}

  lemma LowerLetters()
    ensures Lower("AZaz09-_.[@") == "azaz09-_.[@"
  {}

  lemma {:induction false} FilesAreMentioned(mentions: seq<string>, lint: Lint)
    ensures forall t | t in TargetsOf(mentions, lint) :: t.file in mentions
    ensures forall f | f in CleanOf(mentions, lint) :: f in mentions
    decreases |mentions|
  {
    if mentions != [] {
      FilesAreMentioned(mentions[..|mentions| - 1], lint);
      assert forall m | m in mentions[..|mentions| - 1] :: m in mentions;
    }
  }

  /** One call never names a file twice, and a file with warnings only is a target, not clean. */
  lemma {:induction false} EvaluateWellFormed(mentions: seq<string>, lint: Lint)
    ensures WfCall(Call(TargetsOf(mentions, lint), CleanOf(mentions, lint)))
    ensures forall f | f in CleanOf(mentions, lint) :: lint(f) == Some([])
    decreases |mentions|
  {
    if mentions != [] {
      var init, last := mentions[..|mentions| - 1], mentions[|mentions| - 1];
      EvaluateWellFormed(init, lint);
      FilesAreMentioned(init, lint);
      if LastCounts(mentions, lint) {
        assert forall m | m in init :: Lower(m) != Lower(last);
        assert last !in init;
      }
    }
  }

  // ---- the ladder ----

  /** The streaks of the rules the target breaks are one longer, all others are as they were. */
  ghost predicate AdvancedBy(before: Ladder, t: Target, after: Ladder) {
    forall f, r :: Streak(after, f, r) == Streak(before, f, r) + (if f == t.file && r in Rules(t) then 1 else 0)
  }

  lemma NothingBroken(ladder: Ladder, t: Target)
    requires t.errors == []
    ensures AdvancedBy(ladder, t, ladder)
  {
    assert Rules(t) == {};
  }

  /** One call of the ladder, as far as `Streak` can tell. */
  ghost predicate Follows(before: Ladder, c: Call, after: Ladder) {
    forall f, r :: Streak(after, f, r) == Advanced(before, c, f, r)
  }

  lemma ResetFollows(before: Ladder, clean: seq<string>, after: Ladder)
    requires forall f :: f in after <==> f in before && f !in clean
    requires forall f | f in after :: after[f] == before[f]
    ensures Follows(before, Call([], clean), after)
  {}

  class Blocks {
    var ladder: Ladder

    constructor ()
      ensures ladder == map[]
    { ladder := map[]; }

    method Reset(clean: seq<string>)
      modifies this
      ensures forall f :: f in ladder <==> f in old(ladder) && f !in clean
      ensures forall f | f in ladder :: ladder[f] == old(ladder)[f]
    {
      for i := 0 to |clean|
        invariant forall f :: f in ladder <==> f in old(ladder) && f !in clean[..i]
        invariant forall f | f in ladder :: ladder[f] == old(ladder)[f]
      {
        ladder := ladder - {clean[i]};
      }
    }

    method Advance(t: Target)
      modifies this
      ensures AdvancedBy(old(ladder), t, ladder)
    {
      var rec := if t.file in ladder then ladder[t.file] else map[];
      ghost var rec0 := rec;
      var left := Rules(t);
      while left != {}
        invariant left <= Rules(t)
        invariant forall r ::
                  (if r in rec then rec[r] else 0) ==
                  (if r in rec0 then rec0[r] else 0) + (if r in Rules(t) - left then 1 else 0)
        decreases |left|
      {
        var rule :| rule in left;
        rec := rec[rule := (if rule in rec then rec[rule] else 0) + 1];
        left := left - {rule};
      }
      ladder := ladder[t.file := rec];
    }

    method ApplyRepeatLadder(c: Call)
      returns (first: seq<Target>, warned: seq<(string, set<string>)>, escalated: seq<(string, set<string>)>)
      requires WfCall(c)
      modifies this
      ensures Follows(old(ladder), c, ladder)
      ensures first == Firsts(ladder, c.targets) && warned == Rung(ladder, c.targets, WARN_AT)
              && escalated == Rung(ladder, c.targets, ESCALATE_AT)
    {
      Reset(c.clean);
      ResetFollows(old(ladder), c.clean, ladder);
      first, warned, escalated := [], [], [];
      for i := 0 to |c.targets|
        invariant Follows(old(ladder), Call(c.targets[..i], c.clean), ladder)
        invariant first == Firsts(ladder, c.targets[..i]) && warned == Rung(ladder, c.targets[..i], WARN_AT)
        invariant escalated == Rung(ladder, c.targets[..i], ESCALATE_AT)
      {
        var t := c.targets[i];
        ghost var before := ladder;
        if t.errors != [] {
          Advance(t);
        } else {
          NothingBroken(ladder, t);
        }
        TargetStep(old(ladder), c, i, before, ladder);
        if RungRules(ladder, t, 1) != {} {
          first := first + [t];
        }
        var atWarn := RungRules(ladder, t, WARN_AT);
        if atWarn != {} {
          warned := warned + [(t.file, atWarn)];
        }
        var crossed := RungRules(ladder, t, ESCALATE_AT);
        if crossed != {} {
          escalated := escalated + [(t.file, crossed)];
        }
      }
      assert c.targets[..|c.targets|] == c.targets && Call(c.targets, c.clean) == c;
    }
  }

  lemma BreaksSnoc(c: Call, i: nat, f: string, r: string)
    requires i < |c.targets| && WfCall(c)
    ensures Breaks(Call(c.targets[..i + 1], c.clean), f, r) <==>
            Breaks(Call(c.targets[..i], c.clean), f, r) || (c.targets[i].file == f && r in Rules(c.targets[i]))
    ensures c.targets[i].file == f ==> !Breaks(Call(c.targets[..i], c.clean), f, r) && f !in c.clean
  {
    var init, t := c.targets[..i], c.targets[i];
    assert c.targets[..i + 1] == init + [t] && t in c.targets;
    if c.targets[i].file == f && r in Rules(t) {
      assert t in c.targets[..i + 1];
    }
    if Breaks(Call(init, c.clean), f, r) {
      var u :| u in init && u.file == f && r in Rules(u);
      assert u in c.targets[..i + 1];
    }
  }

  lemma TargetStep(start: Ladder, c: Call, i: nat, before: Ladder, after: Ladder)
    requires i < |c.targets| && WfCall(c) && Follows(start, Call(c.targets[..i], c.clean), before)
    requires AdvancedBy(before, c.targets[i], after)
    ensures Follows(start, Call(c.targets[..i + 1], c.clean), after)
    ensures Firsts(after, c.targets[..i + 1]) ==
            Firsts(before, c.targets[..i]) + (if RungRules(after, c.targets[i], 1) != {} then [c.targets[i]] else [])
    ensures forall n | n == WARN_AT || n == ESCALATE_AT ::
      Rung(after, c.targets[..i + 1], n) ==
      Rung(before, c.targets[..i], n) +
          (if RungRules(after, c.targets[i], n) != {} then [(c.targets[i].file, RungRules(after, c.targets[i], n))]
          else [])
  {
    forall f, r ensures Streak(after, f, r) == Advanced(start, Call(c.targets[..i + 1], c.clean), f, r) {
      BreaksSnoc(c, i, f, r);
      assert Streak(before, f, r) == Advanced(start, Call(c.targets[..i], c.clean), f, r);
    }
    OthersSame(before, after, c.targets[..i], c.targets[i]);
    assert c.targets[..i + 1][..i] == c.targets[..i];
  }

  lemma {:induction false} OthersSame(a: Ladder, b: Ladder, targets: seq<Target>, t: Target)
    requires forall u | u in targets :: u.file != t.file
    requires forall f, r | f != t.file :: Streak(a, f, r) == Streak(b, f, r)
    ensures Firsts(a, targets) == Firsts(b, targets)
    ensures Rung(a, targets, WARN_AT) == Rung(b, targets, WARN_AT)
            && Rung(a, targets, ESCALATE_AT) == Rung(b, targets, ESCALATE_AT)
    decreases |targets|
  {
    if targets != [] {
      var init, u := targets[..|targets| - 1], targets[|targets| - 1];
      assert u in targets && forall x | x in init :: x in targets;
      OthersSame(a, b, init, t);
      assert forall n :: RungRules(a, u, n) == RungRules(b, u, n);
    }
  }

  // ---- history ----

  /** Calls since the last clean one of the file, that blocked it on the rule. */
  function BlockedSince(history: seq<Call>, file: string, rule: string): nat {
    if history == [] then 0 else
      var last := history[|history| - 1];
      if file in last.clean then 0
      else BlockedSince(history[..|history| - 1], file, rule) + (if Breaks(last, file, rule) then 1 else 0)
  }

  /** The ladders left by the calls of a history, one after the other, from the empty ladder. */
  ghost predicate LadderRun(history: seq<Call>, ladders: seq<Ladder>) {
    && |ladders| == |history| + 1 && ladders[0] == map[]
    && forall i | 0 <= i < |history| :: Follows(ladders[i], history[i], ladders[i + 1])
  }

  /** The stored streak is the history it stands for. */
  lemma {:induction false} LadderRefinesHistory(history: seq<Call>, ladders: seq<Ladder>, file: string, rule: string)
    requires LadderRun(history, ladders)
    ensures Streak(ladders[|history|], file, rule) == BlockedSince(history, file, rule)
    decreases |history|
  {
    if history != [] {
      var n := |history| - 1;
      LadderRefinesHistory(history[..n], ladders[..n + 1], file, rule);
      assert Follows(ladders[n], history[n], ladders[n + 1]);
    }
  }

  /** The call at `i` is the `n`-th since a clean write that blocks the file on the rule. */
  predicate Reaches(history: seq<Call>, i: nat, file: string, rule: string, n: nat)
    requires i < |history|
  {
    Breaks(history[i], file, rule) && file !in history[i].clean && BlockedSince(history[..i + 1], file, rule) == n
  }

  // ---- what the calls emit ----

  predicate Listed(rung: seq<(string, set<string>)>, file: string, rule: string) {
    exists p :: p in rung && p.0 == file && rule in p.1
  }

  predicate ListedFirst(first: seq<Target>, file: string) { exists t :: t in first && t.file == file }

  lemma {:induction false} RungLists(ladder: Ladder, targets: seq<Target>, n: nat, file: string, rule: string)
    ensures Listed(Rung(ladder, targets, n), file, rule) <==>
            exists t :: t in targets && t.file == file && rule in RungRules(ladder, t, n)
    decreases |targets|
  {
    if targets != [] {
      var init, t := targets[..|targets| - 1], targets[|targets| - 1];
      RungLists(ladder, init, n, file, rule);
      assert targets == init + [t];
      if t.file == file && rule in RungRules(ladder, t, n) {
        assert (t.file, RungRules(ladder, t, n)) in Rung(ladder, targets, n);
      }
    }
  }

  lemma {:induction false} FirstsList(ladder: Ladder, targets: seq<Target>, file: string)
    ensures ListedFirst(Firsts(ladder, targets), file) <==>
            exists t, r :: t in targets && t.file == file && r in RungRules(ladder, t, 1)
    decreases |targets|
  {
    if targets != [] {
      var init, t := targets[..|targets| - 1], targets[|targets| - 1];
      FirstsList(ladder, init, file);
      assert targets == init + [t];
      if t.file == file && RungRules(ladder, t, 1) != {} {
        assert t in Firsts(ladder, targets);
        var r :| r in RungRules(ladder, t, 1);
      }
    }
  }

  /** A run of well-formed calls with the ladders they leave. */
  ghost predicate GoodRun(history: seq<Call>, ladders: seq<Ladder>) {
    LadderRun(history, ladders) && forall c | c in history :: WfCall(c)
  }

  lemma StreakAt(history: seq<Call>, ladders: seq<Ladder>, i: nat, file: string, rule: string)
    requires LadderRun(history, ladders) && i < |history|
    ensures Streak(ladders[i + 1], file, rule) == BlockedSince(history[..i + 1], file, rule)
  {
    LadderRefinesHistory(history[..i + 1], ladders[..i + 2], file, rule);
  }

  /** The call at `i` emits the pair under rung `n`, as `warned` and `escalated` list it. */
  ghost predicate Emits(history: seq<Call>, ladders: seq<Ladder>, i: nat, file: string, rule: string, n: nat)
    requires |ladders| == |history| + 1 && i < |history|
  {
    Listed(Rung(ladders[i + 1], history[i].targets, n), file, rule)
  }

  /** A rung lists a pair exactly on the call that blocks it for the `n`-th time since a clean write. */
  lemma EmitsExactly(history: seq<Call>, ladders: seq<Ladder>, i: nat, file: string, rule: string, n: nat)
    requires GoodRun(history, ladders) && i < |history|
    ensures Emits(history, ladders, i, file, rule, n) <==> Reaches(history, i, file, rule, n)
  {
    RungLists(ladders[i + 1], history[i].targets, n, file, rule);
    StreakAt(history, ladders, i, file, rule);
    assert history[i] in history;
  }

  /** And a file is listed under `first` exactly on a call that blocks it on some rule for the first time. */
  lemma FirstExactly(history: seq<Call>, ladders: seq<Ladder>, i: nat, file: string)
    requires GoodRun(history, ladders) && i < |history|
    ensures ListedFirst(Firsts(ladders[i + 1], history[i].targets), file) <==>
            exists r :: Reaches(history, i, file, r, 1)
  {
    var call, ladder := history[i], ladders[i + 1];
    FirstsList(ladder, call.targets, file);
    assert call in history;
    if r :| Reaches(history, i, file, r, 1) {
      StreakAt(history, ladders, i, file, r);
      var t :| t in call.targets && t.file == file && r in Rules(t);
      assert r in RungRules(ladder, t, 1);
    }
    if t, r :| t in call.targets && t.file == file && r in RungRules(ladder, t, 1) {
      StreakAt(history, ladders, i, file, r);
      assert Breaks(call, file, r);
      assert Reaches(history, i, file, r, 1);
    }
  }

  // ---- how often ----

  predicate CleanBetween(history: seq<Call>, i: nat, j: nat, file: string)
    requires i <= j < |history|
  {
    exists k :: i < k <= j && file in history[k].clean
  }

  lemma {:induction false} NeverShrinks(history: seq<Call>, i: nat, j: nat, file: string, rule: string)
    requires i <= j < |history| && !CleanBetween(history, i, j, file)
    ensures BlockedSince(history[..i + 1], file, rule) <= BlockedSince(history[..j + 1], file, rule)
    ensures i < j && Breaks(history[j], file, rule) ==>
            BlockedSince(history[..i + 1], file, rule) < BlockedSince(history[..j + 1], file, rule)
    decreases j - i
  {
    if i < j {
      assert history[..j + 1][..j] == history[..j];
      NeverShrinks(history, i, j - 1, file, rule);
      assert file !in history[j].clean;
    }
  }

  /** Between two clean writes of a file each pair is warned at most once and escalated at most once. */
  lemma ReportedOnce(history: seq<Call>, ladders: seq<Ladder>, i: nat, j: nat, file: string, rule: string, n: nat)
    requires GoodRun(history, ladders) && i < j < |history|
    requires Emits(history, ladders, i, file, rule, n) && Emits(history, ladders, j, file, rule, n)
    ensures CleanBetween(history, i, j, file)
  {
    EmitsExactly(history, ladders, i, file, rule, n);
    EmitsExactly(history, ladders, j, file, rule, n);
    if !CleanBetween(history, i, j, file) {
      NeverShrinks(history, i, j, file, rule);
    }
  }

  lemma {:induction false} CallThatReaches(history: seq<Call>, file: string, rule: string, n: nat) returns (i: nat)
    requires 0 < n <= BlockedSince(history, file, rule)
    ensures i < |history| && Reaches(history, i, file, rule, n) && !CleanBetween(history, i, |history| - 1, file)
    decreases |history|
  {
    var last := |history| - 1;
    assert history[..last + 1] == history;
    if BlockedSince(history, file, rule) == n && Breaks(history[last], file, rule) {
      i := last;
    } else {
      i := CallThatReaches(history[..last], file, rule, n);
      assert history[..last][..i + 1] == history[..i + 1];
      assert forall k | i < k <= last - 1 :: history[..last][k] == history[k];
      assert file !in history[last].clean;
    }
  }

  /** And it is emitted at a rung as soon as it has been blocked that often: `i` is the call. */
  lemma ReportedWhenReached(history: seq<Call>, ladders: seq<Ladder>, file: string, rule: string, n: nat)
    returns (i: nat)
    requires GoodRun(history, ladders) && 0 < n <= Streak(ladders[|history|], file, rule)
    ensures i < |history| && Emits(history, ladders, i, file, rule, n) && !CleanBetween(history, i, |history| - 1, file)
  {
    LadderRefinesHistory(history, ladders, file, rule);
    i := CallThatReaches(history, file, rule, n);
    EmitsExactly(history, ladders, i, file, rule, n);
  }

  function BrokenSince(history: seq<Call>, file: string): set<string> {
    if history == [] then {} else
      var last := history[|history| - 1];
      var broken := set t, r | t in last.targets && t.file == file && r in Rules(t) :: r;
      if file in last.clean then {} else BrokenSince(history[..|history| - 1], file) + broken
  }

  /** Calls since the last clean one whose `first` lists the file. */
  ghost function FirstsSince(history: seq<Call>, ladders: seq<Ladder>, file: string): nat
    requires |ladders| == |history| + 1
    decreases |history|
  {
    if history == [] then 0 else
      var n := |history| - 1;
      if file in history[n].clean then 0
      else FirstsSince(history[..n], ladders[..n + 1], file) +
           (if ListedFirst(Firsts(ladders[n + 1], history[n].targets), file) then 1 else 0)
  }

  lemma {:induction false} BrokenIsBlocked(history: seq<Call>, file: string, rule: string)
    ensures rule in BrokenSince(history, file) <==> BlockedSince(history, file, rule) > 0
    decreases |history|
  {
    if history != [] { BrokenIsBlocked(history[..|history| - 1], file, rule); }
  }

  lemma BrokenGrows(history: seq<Call>, n: nat, file: string)
    requires |history| == n + 1 && file !in history[n].clean
    ensures var before, after := BrokenSince(history[..n], file), BrokenSince(history, file);
            |before| <= |after| && ((exists r :: Reaches(history, n, file, r, 1)) ==> |before| < |after|)
  {
    var before, after := BrokenSince(history[..n], file), BrokenSince(history, file);
    assert before <= after;
    SubsetSize(before, after);
    if r :| Reaches(history, n, file, r, 1) {
      assert history[..n + 1] == history;
      BrokenIsBlocked(history[..n], file, r);
      BrokenIsBlocked(history, file, r);
      SubsetSize(before + {r}, after);
    }
  }

  /** The file is recorded at most once per distinct rule broken since its last clean write. */
  lemma {:induction false} FirstsBounded(history: seq<Call>, ladders: seq<Ladder>, file: string)
    requires GoodRun(history, ladders)
    ensures FirstsSince(history, ladders, file) <= |BrokenSince(history, file)|
    decreases |history|
  {
    if history != [] {
      var n := |history| - 1;
      assert GoodRun(history[..n], ladders[..n + 1]) by {
        assert forall c | c in history[..n] :: c in history;
      }
      FirstsBounded(history[..n], ladders[..n + 1], file);
      FirstExactly(history, ladders, n, file);
      if file !in history[n].clean { BrokenGrows(history, n, file); }
    }
  }

  lemma {:induction false} SubsetSize<T>(a: set<T>, b: set<T>)
    requires a <= b
    ensures |a| <= |b|
    decreases |a|
  {
    if a != {} {
      var x :| x in a;
      SubsetSize(a - {x}, b - {x});
    }
  }

  /** A write with warnings only neither advances nor resets any streak. */
  lemma WarningsLeaveStreaks(ladder: Ladder, c: Call, t: Target, rule: string)
    requires WfCall(c) && t in c.targets && t.errors == []
    ensures Advanced(ladder, c, t.file, rule) == Streak(ladder, t.file, rule)
  {
    forall u | u in c.targets && u.file == t.file ensures u == t {
      var i :| 0 <= i < |c.targets| && c.targets[i] == t;
      var j :| 0 <= j < |c.targets| && c.targets[j] == u;
    }
  }

  // ---- which writes without errors reset a ladder ----

  /** The file is linted in the call: some mention is the first of its file and its lint ran. */
  predicate Counted(mentions: seq<string>, lint: Lint, file: string) {
    exists i :: 0 <= i < |mentions| && mentions[i] == file && LastCounts(mentions[..i + 1], lint)
  }

  lemma {:induction false} CountedIsClean(mentions: seq<string>, lint: Lint, file: string)
    requires Counted(mentions, lint, file) && lint(file) == Some([])
    ensures file in CleanOf(mentions, lint)
    decreases |mentions|
  {
    var n := |mentions| - 1;
    var i :| 0 <= i < |mentions| && mentions[i] == file && LastCounts(mentions[..i + 1], lint);
    if i < n {
      assert mentions[..n][i] == file && mentions[..n][..i + 1] == mentions[..i + 1];
      CountedIsClean(mentions[..n], lint, file);
    } else {
      assert mentions[..i + 1] == mentions;
    }
  }

  lemma {:induction false} TargetsCarryErrors(mentions: seq<string>, lint: Lint)
    ensures forall t | t in TargetsOf(mentions, lint) ::
              lint(t.file).Some? && t.errors == ErrorsOf(lint(t.file).value)
    decreases |mentions|
  {
    if mentions != [] { TargetsCarryErrors(mentions[..|mentions| - 1], lint); }
  }

  ghost predicate NoStreaks(ladder: Ladder, file: string) { forall r :: Streak(ladder, file, r) == 0 }

  /** The call leaves the file without streaks. */
  ghost predicate NoneLeft(ladder: Ladder, c: Call, file: string) { forall r :: Advanced(ladder, c, file, r) == 0 }

  lemma SameStreaks(ladder: Ladder, c: Call, file: string)
    requires file !in c.clean && forall r :: !Breaks(c, file, r)
    ensures NoneLeft(ladder, c, file) <==> NoStreaks(ladder, file)
  {
    if NoneLeft(ladder, c, file) {
      forall r ensures Streak(ladder, file, r) == 0 { assert Advanced(ladder, c, file, r) == 0 && !Breaks(c, file, r); }
    }
    if NoStreaks(ladder, file) {
      forall r ensures Advanced(ladder, c, file, r) == 0 { assert Streak(ladder, file, r) == 0 && !Breaks(c, file, r); }
    }
  }

  /** A write without errors resets the ladder exactly when it has no warnings either, or there was nothing
      to reset. */
  lemma ResetExactly(mentions: seq<string>, lint: Lint, ladder: Ladder, file: string)
    requires Counted(mentions, lint, file) && lint(file).Some? && ErrorsOf(lint(file).value) == []
    ensures NoneLeft(ladder, Call(TargetsOf(mentions, lint), CleanOf(mentions, lint)), file) <==>
            lint(file).value == [] || NoStreaks(ladder, file)
  {
    var c := Call(TargetsOf(mentions, lint), CleanOf(mentions, lint));
    EvaluateWellFormed(mentions, lint);
    TargetsCarryErrors(mentions, lint);
    if lint(file).value == [] {
      CountedIsClean(mentions, lint, file);
    } else {
      assert file !in c.clean;
      SameStreaks(ladder, c, file);
    }
  }
}
