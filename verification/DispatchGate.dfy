/** The dispatch gate's pipeline: the order of its gates, the bounded strategy log written on the allow
    tail, the first-dispatch admission that reads the log back, and the journal resolved at the end. */
module DispatchGate {

  datatype Option<+T> = None | Some(value: T)

  const STRATEGY_LOG_MAX := 200
  const MIN_ADMITTED_CANDIDATES := 3

  /** A history line: unreadable, or a row of some event about a claim (intent rows carry no event). */
  datatype Row = Junk | Row(event: string, claim: string)

  datatype Candidates = StoreDown | Count(n: nat)

  /** One dispatch as the gates see it; a gate answers None to pass or the exit code it stops with. */
  datatype Attempt = Attempt(
    inWorkspace: bool, claim: Option<string>, structural: Option<int>, lane: Option<int>, active: bool,
    mustStop: bool, failureBlocked: bool, beforeAdmission: seq<Option<int>>, candidates: Candidates,
    afterAdmission: seq<Option<int>>, logWritable: bool, intentRecorded: bool)

  /** The claim register's questions and the workspace's primary questions. */
  datatype Register = Register(question: map<string, string>, primary: set<string>)

  datatype State = State(strategy: seq<Row>, intents: seq<Row>, journal: Option<string>, confirmed: seq<string>,
    aborted: seq<string>)

  function FirstCode(gates: seq<Option<int>>): Option<int> {
    if gates == [] then None else if gates[0].Some? then gates[0] else FirstCode(gates[1..])
  }

  predicate Answers(reg: Register, row: Row, q: string) {
    row.Row? && row.claim != "" && row.claim in reg.question && reg.question[row.claim] == q
  }

  predicate InStrategy(reg: Register, rows: seq<Row>, q: string) {
    exists i :: 0 <= i < |rows| && Answers(reg, rows[i], q) && rows[i].event == "dispatch"
  }

  predicate InIntents(reg: Register, rows: seq<Row>, q: string) {
    exists i :: 0 <= i < |rows| && Answers(reg, rows[i], q)
  }

  predicate DispatchedBefore(reg: Register, st: State, q: string) {
    InStrategy(reg, st.strategy, q) || InIntents(reg, st.intents, q)
  }

  /** A primary question the claim answers, if any. */
  function PrimaryQuestion(reg: Register, claim: string): Option<string> {
    if claim in reg.question && reg.question[claim] != "" && reg.question[claim] in reg.primary
    then Some(reg.question[claim]) else None
  }

  /** `_hypothesis_admission`. Its rejection is of the format class, which is demoted: exit code 0. */
  function Admission(reg: Register, st: State, a: Attempt): Option<int>
    requires a.claim.Some?
  {
    var q := PrimaryQuestion(reg, a.claim.value);
    if q.None? || DispatchedBefore(reg, st, q.value) then None
    else if a.candidates.StoreDown? || a.candidates.n >= MIN_ADMITTED_CANDIDATES then None
    else Some(0)
  }

  /** `rows[-n:]` for n > 0. */
  function Last<T>(rows: seq<T>, n: nat): seq<T> {
    if |rows| <= n then rows else rows[|rows| - n..]
  }

  lemma LastIs<T>(a: seq<T>, b: seq<T>, n: nat)
    ensures b != [] ==> Last(a + b, |b|) == b
    ensures |b| <= n ==> Last(b, n) == b
  {}

  /** The row is about a claim that answers the question. */
  predicate About(reg: Register, row: Row, q: string) {
    row != Junk && row.claim != "" && row.claim in reg.question.Keys && q == reg.question[row.claim]
  }

  /** The admission rejects exactly a claim that answers a primary question no dispatch row of the log and no
      intent row is about, while the store is up and holds fewer than three candidates. */
  lemma RejectsExactly(reg: Register, st: State, a: Attempt)
    requires a.claim.Some?
    ensures Admission(reg, st, a).Some? <==>
            && a.claim.value in reg.question.Keys
            && var q := reg.question[a.claim.value];
            && q != "" && q in reg.primary
            && (forall row | row in st.strategy && About(reg, row, q) :: row.event != "dispatch")
            && (forall row | row in st.intents :: !About(reg, row, q))
            && (exists n | 0 <= n < 3 :: a.candidates == Count(n))
    ensures Admission(reg, st, a).Some? ==> Admission(reg, st, a) == Some(0)
  {
    if a.claim.value in reg.question.Keys {
      var q := reg.question[a.claim.value];
      assert InStrategy(reg, st.strategy, q) <==>
             !(forall row | row in st.strategy && About(reg, row, q) :: row.event != "dispatch");
      assert InIntents(reg, st.intents, q) <==> !(forall row | row in st.intents :: !About(reg, row, q));
    }
  }

  function Logged(st: State, a: Attempt, claim: string): State {
    st.(strategy := if a.logWritable then Last(st.strategy, STRATEGY_LOG_MAX) + [Row("dispatch", claim)]
                    else st.strategy,
        intents := if a.intentRecorded then st.intents + [Row("", claim)] else st.intents)
  }

  /** The code of the first gate that stops the attempt, None when it reaches the allow tail. */
  function Stopped(reg: Register, st: State, a: Attempt): Option<int> {
    if !a.inWorkspace then Some(if a.claim.Some? && a.structural.Some? then a.structural.value else 0)
    else if a.claim.Some? && a.structural.Some? then a.structural
    else if a.lane.Some? then a.lane
    else if !a.active || a.claim.None? then Some(0)
    else if a.mustStop then Some(2)
    else if a.failureBlocked then Some(0)
    else if FirstCode(a.beforeAdmission).Some? then FirstCode(a.beforeAdmission)
    else if Admission(reg, st, a).Some? then Admission(reg, st, a)
    else FirstCode(a.afterAdmission)
  }

  function Resolve(st: State, a: Attempt, code: int): State {
    if !a.inWorkspace || a.claim.None? || st.journal != a.claim then st
    else if code == 2 then st.(journal := None, aborted := st.aborted + [a.claim.value])
    else if code == 0 then st.(journal := None, confirmed := st.confirmed + [a.claim.value])
    else st
  }

  function Main(reg: Register, st: State, a: Attempt): (State, int) {
    var stop := Stopped(reg, st, a);
    var code := if stop.Some? then stop.value else 0;
    var logged := if stop.Some? || a.claim.None? then st else Logged(st, a, a.claim.value);
    (Resolve(logged, a, code), code)
  }

  class Gate {
    const reg: Register
    var strategy: seq<Row>
    var intents: seq<Row>
    var journal: Option<string>
    var confirmed: seq<string>
    var aborted: seq<string>
    var attempt: Option<string>

    constructor (reg: Register, journal: Option<string>)
      ensures this.reg == reg && Now() == State([], [], journal, [], []) && attempt.None?
    {
      this.reg, this.journal := reg, journal;
      strategy, intents, confirmed, aborted, attempt := [], [], [], [], None;
    }

    function Now(): State
      reads this
    { State(strategy, intents, journal, confirmed, aborted) }

    method LogStrategyDispatch(claim: string, writable: bool)
      modifies this`strategy
      ensures strategy == if writable then Last(old(strategy), STRATEGY_LOG_MAX) + [Row("dispatch", claim)]
              else old(strategy)
    {
      if writable {
        var kept := Last(strategy, STRATEGY_LOG_MAX);
        kept := kept + [Row("dispatch", claim)];
        strategy := kept;
      }
    }

    method PqDispatchedBefore(q: string) returns (found: bool)
      ensures found == DispatchedBefore(reg, Now(), q)
    {
      for i := 0 to |strategy|
        invariant !InStrategy(reg, strategy[..i], q)
      {
        if strategy[i].Row? && strategy[i].event == "dispatch" && Answers(reg, strategy[i], q) {
          return true;
        }
      }
      assert strategy[..|strategy|] == strategy;
      for i := 0 to |intents|
        invariant !InIntents(reg, intents[..i], q)
      {
        if Answers(reg, intents[i], q) {
          return true;
        }
      }
      assert intents[..|intents|] == intents;
      found := false;
    }

    method HypothesisAdmission(a: Attempt) returns (rc: Option<int>)
      requires a.claim.Some?
      ensures rc == Admission(reg, Now(), a)
    {
      var q := PrimaryQuestion(reg, a.claim.value);
      if q.None? {
        return None;
      }
      var before := PqDispatchedBefore(q.value);
      if before || a.candidates.StoreDown? || a.candidates.n >= MIN_ADMITTED_CANDIDATES {
        return None;
      }
      rc := Some(0);
    }

    method RunGates(gates: seq<Option<int>>) returns (rc: Option<int>)
      ensures rc == FirstCode(gates)
    {
      assert gates[0..] == gates;
      for i := 0 to |gates|
        invariant FirstCode(gates) == FirstCode(gates[i..])
      {
        if gates[i].Some? {
          return gates[i];
        }
        assert gates[i..][1..] == gates[i + 1..];
      }
      rc := None;
    }

    method MainInner(a: Attempt) returns (code: int)
      requires attempt.None?
      modifies this`strategy, this`intents, this`attempt
      ensures var stop := Stopped(reg, old(Now()), a);
              && code == (if stop.Some? then stop.value else 0)
              && Now() == (if stop.Some? || a.claim.None? then old(Now()) else Logged(old(Now()), a, a.claim.value))
      ensures attempt == if a.inWorkspace then a.claim else None
    {
      if !a.inWorkspace {
        if a.claim.Some? && a.structural.Some? {
          return a.structural.value;
        }
        return 0;
      }
      if a.claim.Some? {
        attempt := a.claim;
        if a.structural.Some? {
          return a.structural.value;
        }
      }
      if a.lane.Some? {
        return a.lane.value;
      }
      if !a.active || a.claim.None? {
        return 0;
      }
      if a.mustStop {
        return 2;
      }
      if a.failureBlocked {
        return 0;
      }
      var rc := RunGates(a.beforeAdmission);
      if rc.Some? {
        return rc.value;
      }
      rc := HypothesisAdmission(a);
      if rc.Some? {
        return rc.value;
      }
      rc := RunGates(a.afterAdmission);
      if rc.Some? {
        return rc.value;
      }
      LogStrategyDispatch(a.claim.value, a.logWritable);
      if a.intentRecorded {
        intents := intents + [Row("", a.claim.value)];
      }
      return 0;
    }

    method Run(a: Attempt) returns (code: int)
      requires attempt.None?
      modifies this
      ensures (Now(), code) == Main(reg, old(Now()), a)
    {
      code := MainInner(a);
      if attempt.Some? && journal == attempt {
        if code == 2 {
          journal, aborted := None, aborted + [attempt.value];
        } else if code == 0 {
          journal, confirmed := None, confirmed + [attempt.value];
        }
      }
    }
  }

  // ---- runs: attempts, with the journal reopened by the approval point before each ----

  function Begin(st: State, a: Attempt): State {
    if a.claim.Some? then st.(journal := a.claim) else st
  }

  function Play(reg: Register, st: State, attempts: seq<Attempt>): State {
    if attempts == [] then st else
      var a := attempts[|attempts| - 1];
      Main(reg, Begin(Play(reg, st, attempts[..|attempts| - 1]), a), a).0
  }

  predicate Allowed(reg: Register, st: State, a: Attempt) { Stopped(reg, st, a).None? }

  /** The rows of the attempts that reached the allow tail, in order. */
  function AllowedRows(reg: Register, st: State, attempts: seq<Attempt>): seq<Row> {
    if attempts == [] then [] else
      var init, a := attempts[..|attempts| - 1], attempts[|attempts| - 1];
      AllowedRows(reg, st, init) +
      (if Allowed(reg, Play(reg, st, init), a) && a.claim.Some? && a.logWritable
       then [Row("dispatch", a.claim.value)] else [])
  }

  lemma StoppedIgnoresJournal(reg: Register, st: State, a: Attempt)
    ensures Stopped(reg, Begin(st, a), a) == Stopped(reg, st, a)
  {}

  /** A log that keeps the last `n` rows before each new one. */
  function LogOf(first: seq<Row>, rows: seq<Row>, n: nat): seq<Row> {
    if rows == [] then first else Last(first + rows, n + 1)
  }

  lemma LogGrows(first: seq<Row>, rows: seq<Row>, row: Row, n: nat)
    ensures LogOf(first, rows + [row], n) == Last(LogOf(first, rows, n), n) + [row]
  {
    LastOfLast(first + rows, row, n);
    assert (first + rows) + [row] == first + (rows + [row]);
    assert first + [] == first;
  }

  /** What one attempt does to the log: a row when it is allowed, nothing when it is stopped. */
  lemma StrategyStep(reg: Register, st: State, a: Attempt)
    ensures Main(reg, Begin(st, a), a).0.strategy ==
            if Allowed(reg, st, a) && a.claim.Some? && a.logWritable
            then Last(st.strategy, STRATEGY_LOG_MAX) + [Row("dispatch", a.claim.value)]
            else st.strategy
  {
    StoppedIgnoresJournal(reg, st, a);
  }

  /** The strategy log after any run: untouched if nothing was allowed, else the last 201 of the
      old rows followed by one row per allowed dispatch. A stopped attempt leaves no row. */
  lemma {:induction false} LogIsTail(reg: Register, st: State, attempts: seq<Attempt>)
    ensures Play(reg, st, attempts).strategy == LogOf(st.strategy, AllowedRows(reg, st, attempts), STRATEGY_LOG_MAX)
    decreases |attempts|
  {
    if attempts != [] {
      var init, a := attempts[..|attempts| - 1], attempts[|attempts| - 1];
      LogIsTail(reg, st, init);
      StrategyStep(reg, Play(reg, st, init), a);
      var rows := AllowedRows(reg, st, init);
      if AllowedRows(reg, st, attempts) != rows {
        LogGrows(st.strategy, rows, Row("dispatch", a.claim.value), STRATEGY_LOG_MAX);
      }
    }
  }

  lemma LastOfLast(full: seq<Row>, row: Row, n: nat)
    ensures Last(Last(full, n + 1), n) + [row] == Last(full + [row], n + 1)
    ensures Last(full, n) + [row] == Last(full + [row], n + 1)
  {
    assert Last(Last(full, n + 1), n) == Last(full, n);
    if |full| > n { assert full[|full| - n..] + [row] == (full + [row])[|full| - n..]; }
  }

  /** The admission face after any run passes a claim exactly when it answers no primary question, or
      a dispatch row that the log still holds or ANY recorded intent answers its question, or the
      hypothesis store is down or holds three candidates. */
  lemma AdmissionExact(reg: Register, st: State, attempts: seq<Attempt>, a: Attempt)
    requires a.claim.Some?
    ensures var q := PrimaryQuestion(reg, a.claim.value);
            Admission(reg, Play(reg, st, attempts), a).None? <==>
              || q.None?
              || InStrategy(reg, LogOf(st.strategy, AllowedRows(reg, st, attempts), STRATEGY_LOG_MAX), q.value)
              || InIntents(reg, Play(reg, st, attempts).intents, q.value)
              || a.candidates.StoreDown? || a.candidates.n >= MIN_ADMITTED_CANDIDATES
  {
    LogIsTail(reg, st, attempts);
  }

  lemma {:induction false} HistoryGrows(reg: Register, st: State, first: seq<Attempt>, later: seq<Attempt>)
    ensures AllowedRows(reg, st, first) <= AllowedRows(reg, st, first + later)
    ensures Play(reg, st, first).intents <= Play(reg, st, first + later).intents
    ensures |AllowedRows(reg, st, first + later)| <= |AllowedRows(reg, st, first)| + |later|
    decreases |later|
  {
    if later == [] {
      assert first + later == first;
    } else {
      var init := later[..|later| - 1];
      assert (first + later)[..|first + later| - 1] == first + init;
      HistoryGrows(reg, st, first, init);
    }
  }

  /** Once a question has had an allowed dispatch, its admission face passes for at least the next 200
      allowed dispatches, whatever they and the stopped attempts between them are about. */
  lemma AdmittedForTwoHundred(reg: Register, st: State, before: seq<Attempt>, first: Attempt, later: seq<Attempt>,
          a: Attempt, q: string)
    requires a.claim.Some? && PrimaryQuestion(reg, a.claim.value) == Some(q)
    requires Allowed(reg, Play(reg, st, before), first) && first.claim.Some? && first.logWritable
             && Answers(reg, Row("dispatch", first.claim.value), q)
    requires |AllowedRows(reg, st, before + [first] + later)| <=
             |AllowedRows(reg, st, before + [first])| + STRATEGY_LOG_MAX
    ensures Admission(reg, Play(reg, st, before + [first] + later), a).None?
  {
    var mine := before + [first];
    assert mine[..|mine| - 1] == before;
    var rows, all := AllowedRows(reg, st, mine), AllowedRows(reg, st, mine + later);
    HistoryGrows(reg, st, mine, later);
    assert all[|rows| - 1] == rows[|rows| - 1] == Row("dispatch", first.claim.value);
    StillLogged(st.strategy, all, |rows| - 1, STRATEGY_LOG_MAX);
    AdmissionExact(reg, st, mine + later, a);
  }

  /** A row is in the log until `n` more have followed it. */
  lemma StillLogged(first: seq<Row>, rows: seq<Row>, i: nat, n: nat)
    requires i < |rows| <= i + 1 + n
    ensures exists k :: 0 <= k < |LogOf(first, rows, n)| && LogOf(first, rows, n)[k] == rows[i]
  {
    var full, log := first + rows, LogOf(first, rows, n);
    var k := |first| + i - (|full| - |log|);
    assert log[k] == full[|first| + i] == rows[i];
  }

  /** And forever once an intent row was recorded for it: that log is never cut. */
  lemma AdmittedForever(reg: Register, st: State, before: seq<Attempt>, later: seq<Attempt>, a: Attempt, q: string)
    requires a.claim.Some? && PrimaryQuestion(reg, a.claim.value) == Some(q)
    requires InIntents(reg, Play(reg, st, before).intents, q)
    ensures Admission(reg, Play(reg, st, before + later), a).None?
  {
    HistoryGrows(reg, st, before, later);
    var rows, all := Play(reg, st, before).intents, Play(reg, st, before + later).intents;
    var i :| 0 <= i < |rows| && Answers(reg, rows[i], q);
    assert all[i] == rows[i];
  }

  // ---- the journal over runs ----

  function CodeOf(reg: Register, st: State, a: Attempt): int { Main(reg, Begin(st, a), a).1 }

  /** The claims of the attempts in a workspace that ended with a code, in order. */
  function Coded(reg: Register, st: State, attempts: seq<Attempt>, code: int): seq<string> {
    if attempts == [] then [] else
      var init, a := attempts[..|attempts| - 1], attempts[|attempts| - 1];
      Coded(reg, st, init, code) +
      (if a.inWorkspace && a.claim.Some? && CodeOf(reg, Play(reg, st, init), a) == code then [a.claim.value] else [])
  }

  /** One attempt settles its own journal, on codes 0 and 2 and on no other. */
  lemma SettlesOne(reg: Register, st: State, a: Attempt)
    ensures var after, own := Main(reg, Begin(st, a), a).0, a.inWorkspace && a.claim.Some?;
            && after.aborted == st.aborted + (if own && CodeOf(reg, st, a) == 2 then [a.claim.value] else [])
            && after.confirmed == st.confirmed + (if own && CodeOf(reg, st, a) == 0 then [a.claim.value] else [])
            && (a.claim.Some? ==> (after.journal.None? <==> own && CodeOf(reg, st, a) in {0, 2}))
  {}

  /** Over any run the confirmed and the aborted journals are those of exactly the attempts that ended
      with 0 and with 2, in order and once each; a saturated drift verdict (code 3) leaves its own pending. */
  lemma {:induction false} JournalSettled(reg: Register, st: State, attempts: seq<Attempt>)
    ensures Play(reg, st, attempts).confirmed == st.confirmed + Coded(reg, st, attempts, 0)
    ensures Play(reg, st, attempts).aborted == st.aborted + Coded(reg, st, attempts, 2)
    ensures attempts != [] && attempts[|attempts| - 1].claim.Some? ==>
              var init, a := attempts[..|attempts| - 1], attempts[|attempts| - 1];
              Play(reg, st, attempts).journal.None? <==> a.inWorkspace && CodeOf(reg, Play(reg, st, init), a) in {0, 2}
    decreases |attempts|
  {
    if attempts != [] {
      var init, a := attempts[..|attempts| - 1], attempts[|attempts| - 1];
      JournalSettled(reg, st, init);
      SettlesOne(reg, Play(reg, st, init), a);
    }
  }

  /** A journal about another claim is not this attempt's to settle. */
  lemma OthersJournal(reg: Register, st: State, a: Attempt)
    requires st.journal != a.claim
    ensures var after := Main(reg, st, a).0;
            after.journal == st.journal && after.confirmed == st.confirmed && after.aborted == st.aborted
  {}

  // ---- what stops an attempt, and what it leaves ----

  predicate NoneStops(gates: seq<Option<int>>) { forall i | 0 <= i < |gates| :: gates[i].None? }

  /** Gate `i` is the first that answers. */
  predicate FirstAt(gates: seq<Option<int>>, i: nat) {
    i < |gates| && gates[i].Some? && forall j | 0 <= j < i :: gates[j].None?
  }

  /** The first gate that answers decides, and nobody decides when none does. */
  lemma {:induction false} FirstCodeIs(gates: seq<Option<int>>)
    ensures FirstCode(gates).None? <==> NoneStops(gates)
    ensures forall i: nat | FirstAt(gates, i) :: FirstCode(gates) == gates[i]
    decreases |gates|
  {
    if gates != [] && gates[0].None? {
      FirstCodeIs(gates[1..]);
      assert forall i | 1 <= i < |gates| :: gates[i] == gates[1..][i - 1];
      forall i: nat | FirstAt(gates, i) ensures FirstCode(gates) == gates[i] {
        assert FirstAt(gates[1..], i - 1);
      }
    }
  }

  /** The attempt gets past the corridors that do not ask for activation: tools and lanes. */
  predicate PastCorridors(a: Attempt) { a.inWorkspace && (a.claim.Some? ==> a.structural.None?) && a.lane.None? }

  /** And past activation, to the gates that know its claim. */
  predicate Heard(a: Attempt) { PastCorridors(a) && a.active && a.claim.Some? }

  /** No gate of the pipeline has anything against the attempt. */
  predicate EveryGatePasses(reg: Register, st: State, a: Attempt) {
    && Heard(a) && !a.mustStop && !a.failureBlocked
    && NoneStops(a.beforeAdmission) && Admission(reg, st, a).None? && NoneStops(a.afterAdmission)
  }

  /** The state the approval point has reopened the journal in. */
  function Tried(reg: Register, st: State, a: Attempt): State { Main(reg, Begin(st, a), a).0 }

  /** An irreversible dispatch never goes out: in an active workspace an attempt that must stop exits 2, its
      journal is aborted and it leaves no history, whatever failures, later gates and admission say. */
  lemma MustStopRefused(reg: Register, st: State, a: Attempt)
    requires Heard(a) && a.mustStop
    ensures CodeOf(reg, st, a) == 2
    ensures var after := Tried(reg, st, a);
            && after.strategy == st.strategy && after.intents == st.intents && after.confirmed == st.confirmed
            && after.aborted == st.aborted + [a.claim.value] && after.journal.None?
  {}

  /** The order of the stops before the gates of the claim. A tool or lane code counts also when the hooks
      sleep; outside a workspace only the tool code does, and nothing is touched; a sleeping workspace and a
      dispatch without a claim pass; a blocked failure exits 0 before any later gate is asked. */
  lemma EarlyStops(reg: Register, st: State, a: Attempt)
    ensures a.claim.Some? && a.structural.Some? ==> CodeOf(reg, st, a) == a.structural.value
    ensures a.inWorkspace && (a.claim.Some? ==> a.structural.None?) && a.lane.Some? ==>
              CodeOf(reg, st, a) == a.lane.value
    ensures !a.inWorkspace && (a.claim.Some? ==> a.structural.None?) ==> CodeOf(reg, st, a) == 0
    ensures !a.inWorkspace ==> Tried(reg, st, a) == Begin(st, a)
    ensures PastCorridors(a) && (!a.active || a.claim.None?) ==> CodeOf(reg, st, a) == 0
    ensures Heard(a) && !a.mustStop && a.failureBlocked ==> CodeOf(reg, st, a) == 0
  {}

  /** The order of the later ones: the first gate before the admission that answers, then the admission with
      its 0, then the first gate after it. */
  lemma LateStops(reg: Register, st: State, a: Attempt, i: nat)
    requires Heard(a) && !a.mustStop && !a.failureBlocked
    ensures FirstAt(a.beforeAdmission, i) ==> CodeOf(reg, st, a) == a.beforeAdmission[i].value
    ensures NoneStops(a.beforeAdmission) && Admission(reg, st, a).Some? ==> CodeOf(reg, st, a) == 0
    ensures NoneStops(a.beforeAdmission) && Admission(reg, st, a).None? && FirstAt(a.afterAdmission, i) ==>
              CodeOf(reg, st, a) == a.afterAdmission[i].value
  {
    FirstCodeIs(a.beforeAdmission);
    FirstCodeIs(a.afterAdmission);
    StoppedIgnoresJournal(reg, st, a);
  }

  /** An attempt leaves history exactly when every gate passes, and then it exits 0: one strategy row, cut to
      the last 200 before it, and one intent row, each as far as it could be written. */
  lemma HistoryExactly(reg: Register, st: State, a: Attempt)
    ensures var after, passes := Tried(reg, st, a), EveryGatePasses(reg, st, a);
            && after.strategy == (if passes && a.logWritable
                                  then Last(st.strategy, STRATEGY_LOG_MAX) + [Row("dispatch", a.claim.value)]
                                  else st.strategy)
            && after.intents == (if passes && a.intentRecorded then st.intents + [Row("", a.claim.value)]
                                 else st.intents)
            && (passes ==> CodeOf(reg, st, a) == 0)
  {
    FirstCodeIs(a.beforeAdmission);
    FirstCodeIs(a.afterAdmission);
    StoppedIgnoresJournal(reg, st, a);
  }

  lemma PlaySnoc(reg: Register, st: State, attempts: seq<Attempt>, a: Attempt)
    ensures Play(reg, st, attempts + [a]) == Tried(reg, Play(reg, st, attempts), a)
  {
    assert (attempts + [a])[..|attempts|] == attempts;
  }

  /** Over runs: whatever went before and comes after, the attempts that must stop are among the aborted and
      never among those that left history. */
  lemma {:induction false} IrreversibleNeverGoesOut(reg: Register, st: State, before: seq<Attempt>, a: Attempt,
          later: seq<Attempt>)
    requires Heard(a) && a.mustStop
    ensures var now := Play(reg, st, before + [a]);
            && now.strategy == Play(reg, st, before).strategy && now.intents == Play(reg, st, before).intents
            && Play(reg, st, before).aborted + [a.claim.value] <= Play(reg, st, before + [a] + later).aborted
    decreases |later|
  {
    PlaySnoc(reg, st, before, a);
    MustStopRefused(reg, Play(reg, st, before), a);
    if later == [] {
      assert before + [a] + later == before + [a];
    } else {
      var n := |later| - 1;
      IrreversibleNeverGoesOut(reg, st, before, a, later[..n]);
      assert before + [a] + later == (before + [a] + later[..n]) + [later[n]];
      PlaySnoc(reg, st, before + [a] + later[..n], later[n]);
      SettlesOne(reg, Play(reg, st, before + [a] + later[..n]), later[n]);
    }
  }

  /** The attempt passes every gate before the admission face, which rejects it. */
  predicate Rejected(reg: Register, st: State, a: Attempt) {
    && a.inWorkspace && a.claim.Some? && a.structural.None? && a.lane.None?
    && a.active && !a.mustStop && !a.failureBlocked && FirstCode(a.beforeAdmission).None?
    && Admission(reg, st, a).Some?
  }

  predicate AllRejected(reg: Register, st: State, attempts: seq<Attempt>) {
    forall i | 0 <= i < |attempts| :: Rejected(reg, Play(reg, st, attempts[..i]), attempts[i])
  }

  function Claims(attempts: seq<Attempt>): seq<string> {
    if attempts == [] then [] else
      var a := attempts[|attempts| - 1];
      Claims(attempts[..|attempts| - 1]) + (if a.claim.Some? then [a.claim.value] else [])
  }

  lemma RejectedStep(reg: Register, st: State, a: Attempt)
    requires Rejected(reg, st, a)
    ensures var after := Main(reg, Begin(st, a), a).0;
            after.strategy == st.strategy && after.intents == st.intents && CodeOf(reg, st, a) == 0
  {
    StoppedIgnoresJournal(reg, st, a);
  }

  lemma RejectedPrefix(reg: Register, st: State, attempts: seq<Attempt>, n: nat)
    requires AllRejected(reg, st, attempts) && n <= |attempts|
    ensures AllRejected(reg, st, attempts[..n])
  {
    forall i | 0 <= i < n ensures Rejected(reg, Play(reg, st, attempts[..n][..i]), attempts[..n][i]) {
      assert attempts[..n][..i] == attempts[..i];
    }
  }

  /** An admission rejection is demoted to code 0, and however often a dispatch is rejected it leaves no
      history: every one of them is confirmed, and the question's next dispatch is again a first one. */
  lemma {:induction false} DemotedRejection(reg: Register, st: State, attempts: seq<Attempt>)
    requires AllRejected(reg, st, attempts)
    ensures var after := Play(reg, st, attempts);
            && after.strategy == st.strategy && after.intents == st.intents && after.aborted == st.aborted
            && after.confirmed == st.confirmed + Claims(attempts)
            && forall next: Attempt | next.claim.Some? :: Admission(reg, after, next) == Admission(reg, st, next)
    decreases |attempts|
  {
    if attempts != [] {
      var n := |attempts| - 1;
      RejectedPrefix(reg, st, attempts, n);
      DemotedRejection(reg, st, attempts[..n]);
      assert Rejected(reg, Play(reg, st, attempts[..n]), attempts[n]);
      RejectedStep(reg, Play(reg, st, attempts[..n]), attempts[n]);
      SettlesOne(reg, Play(reg, st, attempts[..n]), attempts[n]);
    }
  }
}
