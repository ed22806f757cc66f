/** What the release protocol keeps over whole runs, with the environment rewriting the oracle and the
    ledger, replacing or reading the key, and writing records into the store. */
module StopRuns {
  import opened StopGate
  import opened Text

  datatype Step =
    | Second(ws: Where, readable: bool, writable: bool)
    | First(ws: Where, active: bool, judge: Judge, late: int, ts: string, storable: bool)
    | Operator(wsPath: string, decision: string, ts: string, storable: bool)
    | RewriteOracle(wsPath: string, file: OracleFile)
    | AppendRow(wsPath: string, row: Row)
    | RewriteLedger(wsPath: string, rows: seq<Row>)
    | ReplaceKey(key: Option<string>)
    | PlantKey(key: Option<string>)
    | LearnKey
    | WriteStore(fingerprint: string, stored: Stored)

  /** A key may be replaced by its owner, planted by somebody who then knows it, or learnt by being read. */
  function Apply(c: Crypto, st: State, step: Step): (State, Outcome) {
    match step
    case Second(ws, readable, writable) => SecondStop(c, st, ws, readable, writable)
    case First(ws, active, judge, late, ts, storable) => FirstStop(c, st, ws, active, judge, late, ts, storable)
    case Operator(ws, decision, ts, storable) => OperatorMint(c, st, ws, decision, ts, storable)
    case RewriteOracle(ws, file) => (st.(oracle := st.oracle[ws := file]), Exit(0))
    case AppendRow(ws, row) => (st.(ledger := st.ledger[ws := At(st.ledger, ws, []) + [row]]), Exit(0))
    case RewriteLedger(ws, rows) => (st.(ledger := st.ledger[ws := rows]), Exit(0))
    case ReplaceKey(key) => (st.(key := key), Exit(0))
    case PlantKey(key) => (st.(key := key), Exit(0))
    case LearnKey => (st, Exit(0))
    case WriteStore(fp, stored) => (st.(store := st.store[fp := stored]), Exit(0))
  }

  function Run(c: Crypto, st: State, steps: seq<Step>): State {
    if steps == [] then st else Apply(c, Run(c, st, steps[..|steps| - 1]), steps[|steps| - 1]).0
  }

  function Learnt(st: State, step: Step): set<string> {
    var key := if step.PlantKey? then step.key else if step.LearnKey? then st.key else None;
    if key.Some? then {key.value} else {}
  }

  /** The keys somebody else knows: those planted or read in the run. */
  function Known(c: Crypto, st: State, steps: seq<Step>): set<string> {
    if steps == [] then {} else
      var init := steps[..|steps| - 1];
      Known(c, st, init) + Learnt(Run(c, st, init), steps[|steps| - 1])
  }

  /** Nobody else knows the key in use. */
  predicate Secret(c: Crypto, st: State, steps: seq<Step>) {
    var key := Run(c, st, steps).key;
    key.Some? ==> key.value !in Known(c, st, steps)
  }

  /** A foreign record's MAC verifies under a known key, or it is one the gate produced (ideal HMAC). */
  ghost predicate Unforged(c: Crypto, known: set<string>, mints: seq<Mint>, stored: Stored) {
    stored.Record? ==> forall k, p :: stored.mac == c.mac(k, p) ==>
        k in known || exists m :: m in mints && k == m.key && p == MintPayload(c, m)
  }

  /** What the environment can do: no MAC under a key it does not know, no NUL in an argument vector or
      in a number's digits. The oracle, the ledger and the key it may write as it likes. */
  ghost predicate Possible(c: Crypto, known: set<string>, st: State, step: Step) {
    match step
    case First(_, _, _, _, ts, _) => NulFree(ts)
    case Operator(_, decision, ts, _) => NulFree(decision) && NulFree(ts)
    case WriteStore(_, stored) => Unforged(c, known, st.mints, stored)
    case _ => true
  }

  ghost predicate PossibleAt(c: Crypto, st: State, steps: seq<Step>, i: nat)
    requires i < |steps|
  {
    Possible(c, Known(c, st, steps[..i]), Run(c, st, steps[..i]), steps[i])
  }

  ghost predicate Admissible(c: Crypto, st: State, steps: seq<Step>) {
    forall i | 0 <= i < |steps| :: PossibleAt(c, st, steps, i)
  }

  lemma AdmissiblePrefix(c: Crypto, st: State, steps: seq<Step>, k: nat)
    requires Admissible(c, st, steps) && k <= |steps|
    ensures Admissible(c, st, steps[..k])
    ensures forall i | 0 <= i <= k :: steps[..k][..i] == steps[..i]
    ensures k < |steps| ==> PossibleAt(c, st, steps, k)
  {
    var init := steps[..k];
    assert forall i | 0 <= i <= k :: init[..i] == steps[..i];
    forall i | 0 <= i < k ensures PossibleAt(c, st, init, i) {
      assert PossibleAt(c, st, steps, i);
    }
  }

  lemma AdmissibleSnoc(c: Crypto, st: State, steps: seq<Step>, step: Step)
    requires Admissible(c, st, steps) && Possible(c, Known(c, st, steps), Run(c, st, steps), step)
    ensures Admissible(c, st, steps + [step])
    ensures Run(c, st, steps + [step]) == Apply(c, Run(c, st, steps), step).0
    ensures Known(c, st, steps + [step]) == Known(c, st, steps) + Learnt(Run(c, st, steps), step)
  {
    var all, n := steps + [step], |steps|;
    assert all[..n] == steps;
    forall i | 0 <= i < |all| ensures PossibleAt(c, st, all, i) {
      assert all[..i] == steps[..i];
      assert i < n ==> PossibleAt(c, st, steps, i);
    }
  }

  /** The step's own exit code as the hook's caller sees it: a second stop that ends the session. */
  predicate Ends(c: Crypto, st: State, step: Step) {
    step.Second? && MainCode(Apply(c, st, step).1) == 0
  }

  predicate Released(c: Crypto, st: State, step: Step) {
    step.Second? && Apply(c, st, step).1 == Exit(0)
  }

  function BlockAt(st: State, ws: string): Reading {
    match At(st.oracle, ws, Missing)
    case Oracle(top) => ReadBlock(top)
    case _ => Unarmed
  }

  /** What a run shows of a seal: a first stop whose judge returned 0, or an operator's PASS, while
      the oracle held a block of canonical form `form`. */
  predicate Seals(c: Crypto, st: State, step: Step, ws: string, form: Canon) {
    && BlockAt(st, ws).Armed? && JsonSafe(YMap(BlockAt(st, ws).block)) == form
    && match step
       case First(w, active, judge, _, _, _) => w == Found(ws) && active && judge == Code(0)
       case Operator(w, decision, _, _) => w == ws && Strip(decision) == "PASS"
       case _ => false
  }

  // ---- invariants ----

  function RecordOf(c: Crypto, m: Mint): Stored {
    Record(SCHEMA, c.fingerprint(m.ws), m.origin, m.decision, Sha(c, m.block), m.ts, c.mac(m.key, MintPayload(c, m)))
  }

  ghost predicate Inv(c: Crypto, known: set<string>, st: State) {
    && (forall fp :: Unforged(c, known, st.mints, At(st.store, fp, Absent)))
    && (forall m | m in st.mints :: NulFree(m.origin) && NulFree(m.decision) && NulFree(m.ts))
  }

  lemma StripNulFree(s: string)
    requires NulFree(s)
    ensures NulFree(Strip(s))
  {
    assert forall c | c in Trim(IsSpace, s) :: c in s by {
      TrimRightEnds(IsSpace, TrimLeft(IsSpace, s));
      var r := Trim(IsSpace, s);
      assert r == TrimLeft(IsSpace, s)[..|r|];
    }
  }

  /** A record of the gate's own, with the mint that made it at the end of the history. */
  lemma OwnRecord(c: Crypto, known: set<string>, mints: seq<Mint>, m: Mint)
    requires Ideal(c)
    ensures Unforged(c, known, mints + [m], RecordOf(c, m))
  {
    assert m in mints + [m];
    forall k, p | RecordOf(c, m).mac == c.mac(k, p) ensures k == m.key && p == MintPayload(c, m) {}
  }

  lemma UnforgedLater(c: Crypto, known: set<string>, mints: seq<Mint>, m: Mint, stored: Stored)
    requires Unforged(c, known, mints, stored)
    ensures Unforged(c, known, mints + [m], stored)
  {
    assert forall x | x in mints :: x in mints + [m];
  }

  lemma MintKeepsInv(c: Crypto, known: set<string>, st: State, ws: string, block: Block, decision: string,
          origin: string, ts: string, storable: bool)
    requires Ideal(c) && Inv(c, known, st) && NulFree(decision) && NulFree(origin) && NulFree(ts)
    ensures Inv(c, known, MintStep(c, st, ws, block, decision, origin, ts, storable).0)
  {
    StripNulFree(decision);
    var after := MintStep(c, st, ws, block, decision, origin, ts, storable).0;
    if after != st {
      var m := after.mints[|after.mints| - 1];
      OwnRecord(c, known, st.mints, m);
      forall fp ensures Unforged(c, known, after.mints, At(after.store, fp, Absent)) {
        UnforgedLater(c, known, st.mints, m, At(st.store, fp, Absent));
      }
    }
  }

  /** A first stop changes the state by a mint of the armed block, or not at all. */
  lemma FirstIsMint(c: Crypto, st: State, step: Step)
    requires step.First?
    ensures var after := Apply(c, st, step).0;
            after != st ==> (&& step.ws.Found? && BlockAt(st, step.ws.path).Armed?
                             && after == MintStep(c, st, step.ws.path, BlockAt(st, step.ws.path).block,
                                                  "PASS", "gate", step.ts, step.storable).0)
  {}

  lemma FirstKeepsInv(c: Crypto, known: set<string>, st: State, step: Step)
    requires Ideal(c) && Inv(c, known, st) && Possible(c, known, st, step) && step.First?
    ensures Inv(c, known, Apply(c, st, step).0)
  {
    FirstIsMint(c, st, step);
    if Apply(c, st, step).0 != st {
      MintKeepsInv(c, known, st, step.ws.path, BlockAt(st, step.ws.path).block, "PASS", "gate", step.ts, step.storable);
    }
  }

  lemma OperatorKeepsInv(c: Crypto, known: set<string>, st: State, step: Step)
    requires Ideal(c) && Inv(c, known, st) && Possible(c, known, st, step) && step.Operator?
    ensures Inv(c, known, Apply(c, st, step).0)
  {
    if BlockAt(st, step.wsPath).Armed? {
      StripNulFree(step.decision);
      MintKeepsInv(c, known, st, step.wsPath, BlockAt(st, step.wsPath).block, Strip(step.decision), "operator", step.ts,
          step.storable);
    }
  }

  /** The other steps touch neither the store nor the history of mints. */
  lemma OthersKeepStore(c: Crypto, st: State, step: Step)
    requires !step.First? && !step.Operator? && !step.WriteStore?
    ensures var after := Apply(c, st, step).0; after.store == st.store && after.mints == st.mints
  {}

  lemma KnowingMore(c: Crypto, known: set<string>, more: set<string>, st: State)
    requires Inv(c, known, st) && known <= more
    ensures Inv(c, more, st)
  {
    forall fp ensures Unforged(c, more, st.mints, At(st.store, fp, Absent)) {
      assert Unforged(c, known, st.mints, At(st.store, fp, Absent));
    }
  }

  lemma StoreWriteKeepsInv(c: Crypto, known: set<string>, st: State, step: Step)
    requires Inv(c, known, st) && Possible(c, known, st, step) && step.WriteStore?
    ensures Inv(c, known, Apply(c, st, step).0)
  {
    var after := Apply(c, st, step).0;
    forall f ensures Unforged(c, known, after.mints, At(after.store, f, Absent)) {
      assert Unforged(c, known, st.mints, At(st.store, f, Absent));
    }
  }

  lemma StepKeepsInv(c: Crypto, known: set<string>, st: State, step: Step)
    requires Ideal(c) && Inv(c, known, st) && Possible(c, known, st, step)
    ensures Inv(c, known + Learnt(st, step), Apply(c, st, step).0)
  {
    if step.First? {
      FirstKeepsInv(c, known, st, step);
    } else if step.Operator? {
      OperatorKeepsInv(c, known, st, step);
    } else if step.WriteStore? {
      StoreWriteKeepsInv(c, known, st, step);
    } else {
      OthersKeepStore(c, st, step);
    }
    KnowingMore(c, known, known + Learnt(st, step), Apply(c, st, step).0);
  }

  /** The step that made a mint of the history. */
  lemma MintingStep(c: Crypto, st: State, steps: seq<Step>, k: nat, m: Mint) returns (j: nat)
    requires k <= |steps| && Witnessed(c, st, steps[..k], m)
    ensures j < k && MintedBy(c, Run(c, st, steps[..j]), steps[j], m)
  {
    var init := steps[..k];
    j :| 0 <= j < |init| && MintedBy(c, Run(c, st, init[..j]), init[j], m);
    assert init[..j] == steps[..j];
  }

  /** Every mint in the history was made by a step of the run that sealed that block. */
  ghost predicate Witnessed(c: Crypto, st: State, steps: seq<Step>, m: Mint) {
    exists j :: 0 <= j < |steps| && MintedBy(c, Run(c, st, steps[..j]), steps[j], m)
  }

  ghost predicate MintedBy(c: Crypto, st: State, step: Step, m: Mint) {
    && BlockAt(st, m.ws) == Armed(m.block)
    && match step
       case First(w, active, judge, _, _, _) => w == Found(m.ws) && active && judge == Code(0)
       case Operator(w, decision, _, _) => w == m.ws && Strip(decision) == m.decision
       case _ => false
  }

  lemma NewMint(c: Crypto, st: State, step: Step, m: Mint)
    requires m in Apply(c, st, step).0.mints && m !in st.mints
    ensures MintedBy(c, st, step, m)
  {
    match step {
      case First(ws, active, judge, late, ts, storable) =>
      case Operator(ws, decision, ts, storable) => TrimIdempotent(IsSpace, decision);
      case _ =>
    }
  }

  lemma {:induction false} RunInv(c: Crypto, st: State, steps: seq<Step>)
    requires Ideal(c) && Admissible(c, st, steps) && st.mints == [] && st.store == map[]
    ensures Inv(c, Known(c, st, steps), Run(c, st, steps))
    ensures forall m | m in Run(c, st, steps).mints :: Witnessed(c, st, steps, m)
    decreases |steps|
  {
    if steps == [] {
      assert steps[..0] == [];
    } else {
      var n := |steps| - 1;
      var init := steps[..n];
      AdmissiblePrefix(c, st, steps, n);
      RunInv(c, st, init);
      var mid := Run(c, st, init);
      assert PossibleAt(c, st, steps, n);
      StepKeepsInv(c, Known(c, st, init), mid, steps[n]);
      forall m | m in Run(c, st, steps).mints ensures Witnessed(c, st, steps, m) {
        if m in mid.mints {
          var j := MintingStep(c, st, steps, n, m);
        } else {
          NewMint(c, mid, steps[n], m);
          assert MintedBy(c, Run(c, st, steps[..n]), steps[n], m);
        }
      }
    }
  }

  /** A seal that verifies under a key nobody else knows is one the gate minted: same workspace, PASS,
      same canonical block. */
  lemma SealIsMint(c: Crypto, known: set<string>, st: State, ws: string, block: Block) returns (m: Mint)
    requires Ideal(c) && Inv(c, known, st) && Verify(c, st, ws, block).Sealed? && st.key.value !in known
    ensures m in st.mints && m.ws == ws && m.decision == "PASS" && JsonSafe(YMap(m.block)) == JsonSafe(YMap(block))
    ensures st.key == Some(m.key)
  {
    var r := At(st.store, c.fingerprint(ws), Absent);
    assert Unforged(c, known, st.mints, r);
    m :| m in st.mints && st.key.value == m.key
        && Payload(SCHEMA, r.fingerprint, r.origin, r.decision, r.sha, r.ts) == MintPayload(c, m);
    PayloadFixesFields(c, m, r);
  }

  lemma PayloadFixesFields(c: Crypto, m: Mint, r: Stored)
    requires Ideal(c) && r.Record? && NulFree(m.origin) && NulFree(m.decision) && NulFree(m.ts)
    requires Payload(SCHEMA, r.fingerprint, r.origin, r.decision, r.sha, r.ts) == MintPayload(c, m)
    ensures r.fingerprint == c.fingerprint(m.ws) && r.decision == m.decision && r.sha == Sha(c, m.block)
  {
    var mine := [SCHEMA, c.fingerprint(m.ws), m.origin, m.decision, Sha(c, m.block), m.ts];
    var theirs := [SCHEMA, r.fingerprint, r.origin, r.decision, r.sha, r.ts];
    assert NulFree(SCHEMA);
    JoinInjective(mine, theirs);
    assert mine[1] == theirs[1] && mine[3] == theirs[3] && mine[4] == theirs[4];
  }

  /** Release provenance. In every run, a second stop that releases under a key nobody else knows is
      preceded by a first stop of the same workspace whose judge returned 0, or by an operator's PASS,
      that sealed a block equal to the released one up to the writing of dates. */
  lemma ReleaseProvenance(c: Crypto, st: State, steps: seq<Step>, k: nat)
    requires Ideal(c) && Admissible(c, st, steps) && st.mints == [] && st.store == map[]
    requires k < |steps| && Released(c, Run(c, st, steps[..k]), steps[k]) && Secret(c, st, steps[..k])
    ensures steps[k].ws.Found? && BlockAt(Run(c, st, steps[..k]), steps[k].ws.path).Armed?
    ensures var block := BlockAt(Run(c, st, steps[..k]), steps[k].ws.path).block;
            exists j :: 0 <= j < k && SealedHere(c, st, steps, j, steps[k].ws.path, block)
  {
    var init := steps[..k];
    AdmissiblePrefix(c, st, steps, k);
    RunInv(c, st, init);
    var m := ReleaseHasMint(c, Known(c, st, init), Run(c, st, init), steps[k]);
    var block := BlockAt(Run(c, st, init), steps[k].ws.path).block;
    CanonicalExact(YMap(m.block), YMap(block));
    var j := WitnessSealed(c, st, steps, k, m, block);
  }

  lemma MintSeals(c: Crypto, st: State, step: Step, m: Mint, form: Canon)
    requires MintedBy(c, st, step, m) && m.decision == "PASS" && JsonSafe(YMap(m.block)) == form
    ensures Seals(c, st, step, m.ws, form) && BlockAt(st, m.ws).block == m.block
  {}

  lemma WitnessSealed(c: Crypto, st: State, steps: seq<Step>, k: nat, m: Mint, block: Block) returns (j: nat)
    requires k <= |steps| && Witnessed(c, st, steps[..k], m)
    requires m.decision == "PASS" && JsonSafe(YMap(m.block)) == JsonSafe(YMap(block))
    requires SameButDates(YMap(m.block), YMap(block))
    ensures j < k && SealedHere(c, st, steps, j, m.ws, block)
  {
    j := MintingStep(c, st, steps, k, m);
    MintSeals(c, Run(c, st, steps[..j]), steps[j], m, JsonSafe(YMap(block)));
  }

  /** The anchor verdict is yes: the ledger holds the block's anchor, or has none and takes it. */
  predicate AnchorAllows(c: Crypto, st: State, ws: string, readable: bool, writable: bool)
    requires BlockAt(st, ws).Armed?
  {
    var rows, h := At(st.ledger, ws, []), Some(Sha(c, BlockAt(st, ws).block));
    readable && Poison !in rows && (h in Anchors(rows) || (Anchors(rows) == {} && writable))
  }

  /** What a release is: a positive anchor verdict, and a seal that verifies against the store and the
      key as they were. */
  lemma ReleasedIs(c: Crypto, st: State, ws: string, readable: bool, writable: bool)
    ensures Released(c, st, Second(Found(ws), readable, writable)) <==>
            && BlockAt(st, ws).Armed? && AnchorAllows(c, st, ws, readable, writable)
            && Verify(c, st, ws, BlockAt(st, ws).block).Sealed?
  {
    if BlockAt(st, ws).Armed? {
      var after := AnchorStep(c, st, ws, BlockAt(st, ws).block, readable, writable).0;
      assert after.store == st.store && after.key == st.key;
    }
  }

  lemma ReleaseFound(c: Crypto, st: State, step: Step)
    requires Released(c, st, step)
    ensures step.ws.Found? && step == Second(Found(step.ws.path), step.readable, step.writable)
  {}

  lemma ReleaseHasMint(c: Crypto, known: set<string>, st: State, step: Step) returns (m: Mint)
    requires Ideal(c) && Inv(c, known, st) && Released(c, st, step) && (st.key.Some? ==> st.key.value !in known)
    ensures step.ws.Found? && BlockAt(st, step.ws.path).Armed?
    ensures m in st.mints && m.ws == step.ws.path && m.decision == "PASS"
    ensures JsonSafe(YMap(m.block)) == JsonSafe(YMap(BlockAt(st, step.ws.path).block))
  {
    ReleaseFound(c, st, step);
    ReleasedIs(c, st, step.ws.path, step.readable, step.writable);
    m := SealIsMint(c, known, st, step.ws.path, BlockAt(st, step.ws.path).block);
  }

  predicate SealedHere(c: Crypto, st: State, steps: seq<Step>, j: nat, ws: string, block: Block)
    requires j < |steps|
  {
    var before := Run(c, st, steps[..j]);
    Seals(c, before, steps[j], ws, JsonSafe(YMap(block))) && SameButDates(YMap(BlockAt(before, ws).block), YMap(block))
  }

  /** The hook as its caller sees it ends the session in exactly three cases: a verified release, a
      payload whose workspace cannot be resolved without raising, and an `adjudication` value that is
      neither empty nor a mapping; `main` swallows the exceptions of the last two. */
  lemma SecondStopEndsExactly(c: Crypto, st: State, step: Step)
    requires step.Second?
    ensures Ends(c, st, step) <==> Released(c, st, step) || !Readable(st, step)
    ensures !Readable(st, step) ==> !Released(c, st, step)
    ensures !Ends(c, st, step) ==> Apply(c, st, step).1 == Exit(1)
  {}

  /** What a second stop writes: one anchor row, on the first sighting of an armed block that a ledger
      without anchors can take, whether the seal verifies or not; nothing else ever. */
  lemma SecondStopWrites(c: Crypto, st: State, ws: string, readable: bool, writable: bool)
    ensures var after, rows := Apply(c, st, Second(Found(ws), readable, writable)).0, At(st.ledger, ws, []);
            && after.(ledger := st.ledger) == st
            && (forall w | w != ws :: At(after.ledger, w, []) == At(st.ledger, w, []))
            && At(after.ledger, ws, []) ==
               if BlockAt(st, ws).Armed? && readable && writable && Poison !in rows && Anchors(rows) == {}
               then rows + [Anchor(Some(Sha(c, BlockAt(st, ws).block)))] else rows
  {}

  /** Tamper evidence. Whoever changes any field of a record whose seal verifies and keeps its MAC has a
      record that no longer verifies, in any state with the same key; and no record of another block or
      workspace verifies with it. */
  lemma TamperEvident(c: Crypto, st: State, other: State, ws: string, elsewhere: string, block: Block, change: Block)
    requires Ideal(c) && Verify(c, st, ws, block).Sealed? && other.key == st.key
    requires var r := At(st.store, c.fingerprint(ws), Absent); NulFree(r.origin) && NulFree(r.ts) && NulFree(r.sha)
    requires var r, x := At(st.store, c.fingerprint(ws), Absent), At(other.store, c.fingerprint(elsewhere), Absent);
             x.Record? && x.mac == r.mac && Verify(c, other, elsewhere, change).Sealed?
    ensures At(other.store, c.fingerprint(elsewhere), Absent) == At(st.store, c.fingerprint(ws), Absent)
    ensures elsewhere == ws && SameButDates(YMap(change), YMap(block))
  {
    var r, x := At(st.store, c.fingerprint(ws), Absent), At(other.store, c.fingerprint(elsewhere), Absent);
    var mine := [SCHEMA, r.fingerprint, r.origin, r.decision, r.sha, r.ts];
    var theirs := [SCHEMA, x.fingerprint, x.origin, x.decision, x.sha, x.ts];
    assert NulFree(SCHEMA) && NulFree("PASS");
    JoinInjective(mine, theirs);
    assert mine[1] == theirs[1] && mine[2] == theirs[2] && mine[3] == theirs[3] && mine[4] == theirs[4]
           && mine[5] == theirs[5];
    CanonicalExact(YMap(change), YMap(block));
  }

  /** The workspace resolves, or is found missing, and its oracle's `adjudication` can be read. */
  predicate Readable(st: State, step: Step)
    requires step.Second?
  {
    !step.ws.Raises? && (step.ws.Found? ==> !BlockAt(st, step.ws.path).Crash?)
  }

  /** So the provenance of the exit code fails on exactly the unreadable stops: on each of them the
      session ends, also when nothing was ever sealed. */
  lemma ExitCodeProvenanceFails(c: Crypto)
    ensures var st := State(map[], map[], map["w" := Oracle(map["adjudication" := YStr("done")])], None, []);
            && st.mints == [] && st.store == map[]
            && Ends(c, st, Second(Found("w"), true, true)) && Ends(c, st, Second(Raises, true, true))
            && !Ends(c, st, Second(Nowhere, true, true))
  {
    var top: Block := map["adjudication" := YStr("done")];
    assert ReadBlock(top) == Crash;
  }

  /** The oracle can be had at a first stop: it is there and reads as a value, of whatever kind. */
  predicate Judged(st: State, ws: string) {
    At(st.oracle, ws, Missing).NotAMapping? || At(st.oracle, ws, Missing).Oracle?
  }

  /** The first stop, as its caller sees it. In an active workspace the session ends exactly when the judge
      finds nothing open and the late checks nothing owed, or when the oracle is there and cannot be read
      for a reason that is not its text. */
  lemma FirstStopEndsExactly(c: Crypto, st: State, ws: string, judge: Judge, late: int, ts: string, storable: bool)
    ensures MainCode(Apply(c, st, First(Found(ws), true, judge, late, ts, storable)).1) == 0 <==>
            || At(st.oracle, ws, Missing).Unreachable? || At(st.oracle, ws, Missing).Undecodable?
            || (Judged(st, ws) && judge == Code(0) && late == 0)
  {}

  /** Every other code of a first stop, and what it leaves: a refusal of the judge is handed on as it is,
      a crash of the judge and an oracle that is missing or no YAML exit 3, and none of them seals. A stop
      outside an active workspace ends the session and changes nothing. */
  lemma FirstStopRefuses(c: Crypto, st: State, ws: string, judge: Judge, late: int, ts: string, storable: bool)
    ensures var (after, out) := Apply(c, st, First(Found(ws), true, judge, late, ts, storable));
            && (Judged(st, ws) && judge.Code? && judge.code != 0 ==> out == Exit(judge.code) && after == st)
            && (Judged(st, ws) && judge.JudgeCrash? ==> out == Exit(3) && after == st)
            && (Judged(st, ws) && judge == Code(0) ==> out == Exit(late))
            && (!Judged(st, ws) ==> after == st)
            && (At(st.oracle, ws, Missing).Missing? || At(st.oracle, ws, Missing).Unparsable? ==> out == Exit(3))
    ensures forall w: Where, active | !active || !w.Found? ::
              var (after, out) := Apply(c, st, First(w, active, judge, late, ts, storable));
              after == st && MainCode(out) == 0
  {}

  /** The operator's seal: the command succeeds exactly when there is an armed block, a decision that does
      not contradict the one the block records, and a key and a store to seal with; otherwise it changes
      nothing, and exits 2 unless the oracle makes it raise. */
  lemma OperatorSealsExactly(c: Crypto, st: State, ws: string, decision: string, ts: string, storable: bool)
    ensures var (after, out) := Apply(c, st, Operator(ws, decision, ts, storable));
            && (out == Exit(0) <==>
                && BlockAt(st, ws).Armed? && Strip(decision) != "" && storable && KeyUsable(st.key)
                && Recorded(c, BlockAt(st, ws).block) in {"", Strip(decision)})
            && (out == Exit(0) ==> |after.mints| == |st.mints| + 1
                                   && after.mints[|st.mints|].decision == Strip(decision)
                                   && after.mints[|st.mints|].block == BlockAt(st, ws).block)
            && (out != Exit(0) ==> after == st && (out == Exit(2) || (out == Escaped && BlockAt(st, ws).Crash?)))
  {
    TrimIdempotent(IsSpace, decision);
  }

  /** The decision the block itself records, blank when it records none. */
  function Recorded(c: Crypto, block: Block): string {
    if "last_decision" in block && Truthy(block["last_decision"]) then Strip(c.str(block["last_decision"])) else ""
  }

  /** Provenance of the exit code itself: of every second stop that can be read, under a secret key. */
  lemma ExitCodeProvenance(c: Crypto, st: State, steps: seq<Step>, k: nat)
    requires Ideal(c) && Admissible(c, st, steps) && st.mints == [] && st.store == map[]
    requires k < |steps| && steps[k].Second? && Ends(c, Run(c, st, steps[..k]), steps[k])
    requires Readable(Run(c, st, steps[..k]), steps[k]) && Secret(c, st, steps[..k])
    ensures steps[k].ws.Found? && BlockAt(Run(c, st, steps[..k]), steps[k].ws.path).Armed?
    ensures var block := BlockAt(Run(c, st, steps[..k]), steps[k].ws.path).block;
            exists j :: 0 <= j < k && SealedHere(c, st, steps, j, steps[k].ws.path, block)
  {
    SecondStopEndsExactly(c, Run(c, st, steps[..k]), steps[k]);
    ReleaseProvenance(c, st, steps, k);
  }

  // ---- the latest mint, when nobody else writes the store ----

  function LatestMint(c: Crypto, mints: seq<Mint>, fp: string): Option<Mint> {
    if mints == [] then None
    else if c.fingerprint(mints[|mints| - 1].ws) == fp then Some(mints[|mints| - 1])
    else LatestMint(c, mints[..|mints| - 1], fp)
  }

  ghost predicate StoreIsLatest(c: Crypto, st: State) {
    forall fp :: At(st.store, fp, Absent) ==
                 match LatestMint(c, st.mints, fp) case None => Absent case Some(m) => RecordOf(c, m)
  }

  lemma MintStepLatest(c: Crypto, st: State, ws: string, block: Block, decision: string, origin: string, ts: string,
          storable: bool)
    requires StoreIsLatest(c, st)
    ensures StoreIsLatest(c, MintStep(c, st, ws, block, decision, origin, ts, storable).0)
  {
    var after := MintStep(c, st, ws, block, decision, origin, ts, storable).0;
    if after != st {
      assert after.mints[..|after.mints| - 1] == st.mints;
    }
  }

  lemma StepStoreIsLatest(c: Crypto, st: State, step: Step)
    requires StoreIsLatest(c, st) && !step.WriteStore?
    ensures StoreIsLatest(c, Apply(c, st, step).0)
  {
    if step.First? {
      assert StoreIsLatest(c, Apply(c, st, step).0) by {
        FirstIsMint(c, st, step);
        if Apply(c, st, step).0 != st {
          MintStepLatest(c, st, step.ws.path, BlockAt(st, step.ws.path).block, "PASS", "gate", step.ts, step.storable);
        }
      }
    } else if step.Operator? {
      assert StoreIsLatest(c, Apply(c, st, step).0) by {
        if BlockAt(st, step.wsPath).Armed? {
          MintStepLatest(c, st, step.wsPath, BlockAt(st, step.wsPath).block, Strip(step.decision), "operator", step.ts,
              step.storable);
        }
      }
    } else {
      OthersKeepStore(c, st, step);
    }
  }

  lemma {:induction false} RunStoreIsLatest(c: Crypto, st: State, steps: seq<Step>)
    requires st.mints == [] && st.store == map[] && forall s | s in steps :: !s.WriteStore?
    ensures StoreIsLatest(c, Run(c, st, steps))
    decreases |steps|
  {
    if steps != [] {
      var init, step := steps[..|steps| - 1], steps[|steps| - 1];
      assert (forall s | s in init :: s in steps) && step in steps;
      RunStoreIsLatest(c, st, init);
      StepStoreIsLatest(c, Run(c, st, init), step);
    }
  }

  /** The latest mint of the workspace is a PASS under the key in use on the block as it is now. */
  predicate SealedLast(c: Crypto, st: State, ws: string)
    requires BlockAt(st, ws).Armed?
  {
    var latest := LatestMint(c, st.mints, c.fingerprint(ws));
    && latest.Some? && latest.value.decision == "PASS"
    && KeyUsable(st.key) && st.key == Some(latest.value.key)
    && SameButDates(YMap(latest.value.block), YMap(BlockAt(st, ws).block))
  }

  lemma {:induction false} LatestIsOfWorkspace(c: Crypto, mints: seq<Mint>, fp: string)
    ensures var latest := LatestMint(c, mints, fp); latest.Some? ==> c.fingerprint(latest.value.ws) == fp
    decreases |mints|
  {
    if mints != [] { LatestIsOfWorkspace(c, mints[..|mints| - 1], fp); }
  }

  /** A record of the gate's own verifies exactly when it is a PASS under the key in use, on this block. */
  lemma OwnRecordVerifies(c: Crypto, st: State, ws: string, block: Block, m: Mint)
    requires Ideal(c) && At(st.store, c.fingerprint(ws), Absent) == RecordOf(c, m)
    requires c.fingerprint(m.ws) == c.fingerprint(ws)
    ensures Verify(c, st, ws, block).Sealed? <==>
            && KeyUsable(st.key) && st.key == Some(m.key) && m.decision == "PASS"
            && SameButDates(YMap(m.block), YMap(block))
  {
    CanonicalExact(YMap(m.block), YMap(block));
  }

  /** While only the gate writes its store, a second stop releases exactly when the anchor verdict is yes
      and the LATEST mint of the workspace is a PASS under the key in use on this very block: a later
      deferral or reseal withdraws it, and nothing else is needed. */
  lemma ReleaseExactly(c: Crypto, st: State, steps: seq<Step>, ws: string, readable: bool, writable: bool)
    requires Ideal(c) && st.mints == [] && st.store == map[] && forall s | s in steps :: !s.WriteStore?
    ensures var at := Run(c, st, steps);
            Released(c, at, Second(Found(ws), readable, writable)) <==>
            BlockAt(at, ws).Armed? && AnchorAllows(c, at, ws, readable, writable) && SealedLast(c, at, ws)
  {
    var at, fp := Run(c, st, steps), c.fingerprint(ws);
    RunStoreIsLatest(c, st, steps);
    ReleasedIs(c, at, ws, readable, writable);
    LatestIsOfWorkspace(c, at.mints, fp);
    assert At(at.store, fp, Absent) ==
           match LatestMint(c, at.mints, fp) case None => Absent case Some(m) => RecordOf(c, m);
    if BlockAt(at, ws).Armed? && LatestMint(c, at.mints, fp).Some? {
      OwnRecordVerifies(c, at, ws, BlockAt(at, ws).block, LatestMint(c, at.mints, fp).value);
    }
  }

  /** The protocol's own way out: from any state in which a usable key is in place and the anchor verdict
      is yes, a first stop whose judge returns 0 makes the next second stop release. */
  lemma JudgedStopReleases(c: Crypto, st: State, ws: string, late: int, ts: string, readable: bool, writable: bool)
    requires BlockAt(st, ws).Armed? && KeyUsable(st.key) && AnchorAllows(c, st, ws, readable, writable)
    ensures Released(c, Apply(c, st, First(Found(ws), true, Code(0), late, ts, true)).0,
                     Second(Found(ws), readable, writable))
  {
    JudgedStopMints(c, st, ws, late, ts);
    MintVerifies(c, st, ws, BlockAt(st, ws).block, ts);
    ReleasedIs(c, MintStep(c, st, ws, BlockAt(st, ws).block, "PASS", "gate", ts, true).0, ws, readable, writable);
  }

  lemma JudgedStopMints(c: Crypto, st: State, ws: string, late: int, ts: string)
    requires BlockAt(st, ws).Armed?
    ensures Apply(c, st, First(Found(ws), true, Code(0), late, ts, true)).0 ==
            MintStep(c, st, ws, BlockAt(st, ws).block, "PASS", "gate", ts, true).0
  {}

  lemma MintVerifies(c: Crypto, st: State, ws: string, block: Block, ts: string)
    requires KeyUsable(st.key)
    ensures var after := MintStep(c, st, ws, block, "PASS", "gate", ts, true).0;
            && Verify(c, after, ws, block).Sealed?
            && after.ledger == st.ledger && after.oracle == st.oracle
  {
    assert Strip("PASS") == "PASS" by { TrimNothing(IsSpace, "PASS"); }
  }

  // ---- the key decides ----

  /** With this record in the store the next second stop releases. */
  predicate ReleasesWith(c: Crypto, st: State, ws: string, stored: Stored) {
    Released(c, Apply(c, st, WriteStore(c.fingerprint(ws), stored)).0, Second(Found(ws), true, true))
  }

  /** Somebody else can write such a record after the run. */
  ghost predicate Forgeable(c: Crypto, st: State, steps: seq<Step>, ws: string) {
    exists stored :: Unforged(c, Known(c, st, steps), Run(c, st, steps).mints, stored)
                     && ReleasesWith(c, Run(c, st, steps), ws, stored)
  }

  /** The record somebody who knows the key writes for a block. */
  function Planted(c: Crypto, ws: string, block: Block, key: string): Stored {
    RecordOf(c, Mint(ws, "gate", "PASS", block, key, "0"))
  }

  lemma PlantedReleases(c: Crypto, known: set<string>, st: State, ws: string)
    requires Ideal(c) && BlockAt(st, ws).Armed? && AnchorAllows(c, st, ws, true, true)
    requires KeyUsable(st.key) && st.key.value in known
    ensures var stored := Planted(c, ws, BlockAt(st, ws).block, st.key.value);
            Unforged(c, known, st.mints, stored) && ReleasesWith(c, st, ws, stored)
  {
    var block, key := BlockAt(st, ws).block, st.key.value;
    var stored := Planted(c, ws, block, key);
    forall k, p | stored.mac == c.mac(k, p) ensures k in known { assert k == key; }
    var after := Apply(c, st, WriteStore(c.fingerprint(ws), stored)).0;
    ReleasedIs(c, after, ws, true, true);
  }

  lemma SealedEarlier(c: Crypto, st: State, steps: seq<Step>, more: seq<Step>, j: nat, ws: string, block: Block)
    requires j <= |steps| && more != [] && more[0].WriteStore?
    requires SealedHere(c, st, steps + more, j, ws, block)
    ensures j < |steps| && SealedHere(c, st, steps, j, ws, block)
  {
    var all := steps + more;
    assert all[|steps|] == more[0];
    assert j < |steps| ==> all[..j] == steps[..j] && all[j] == steps[j];
  }

  lemma NotForgedBySecret(c: Crypto, st: State, steps: seq<Step>, ws: string, stored: Stored)
    requires Ideal(c) && Admissible(c, st, steps) && st.mints == [] && st.store == map[]
    requires BlockAt(Run(c, st, steps), ws).Armed? && Secret(c, st, steps)
    requires Unforged(c, Known(c, st, steps), Run(c, st, steps).mints, stored)
    requires ReleasesWith(c, Run(c, st, steps), ws, stored)
    ensures exists j :: 0 <= j < |steps| && SealedHere(c, st, steps, j, ws, BlockAt(Run(c, st, steps), ws).block)
  {
    var write, stop := WriteStore(c.fingerprint(ws), stored), Second(Found(ws), true, true);
    var n, block := |steps|, BlockAt(Run(c, st, steps), ws).block;
    AdmissibleSnoc(c, st, steps, write);
    AdmissibleSnoc(c, st, steps + [write], stop);
    var all := steps + [write] + [stop];
    assert all[..n + 1] == steps + [write] && all == steps + [write, stop];
    ReleaseProvenance(c, st, all, n + 1);
    var j :| 0 <= j < n + 1 && SealedHere(c, st, all, j, ws, block);
    SealedEarlier(c, st, steps, [write, stop], j, ws, block);
  }

  /** The secrecy of the key is the exact condition: in every run that never sealed the armed block of a
      workspace whose anchor verdict is yes, somebody can write a record that releases it if and only if
      the key in use is one they planted or read. */
  lemma ForgeableExactly(c: Crypto, st: State, steps: seq<Step>, ws: string)
    requires Ideal(c) && Admissible(c, st, steps) && st.mints == [] && st.store == map[]
    requires var at := Run(c, st, steps);
             BlockAt(at, ws).Armed? && AnchorAllows(c, at, ws, true, true) && KeyUsable(at.key)
    requires forall j | 0 <= j < |steps| :: !SealedHere(c, st, steps, j, ws, BlockAt(Run(c, st, steps), ws).block)
    ensures Forgeable(c, st, steps, ws) <==> Run(c, st, steps).key.value in Known(c, st, steps)
  {
    if Run(c, st, steps).key.value in Known(c, st, steps) {
      PlantedReleases(c, Known(c, st, steps), Run(c, st, steps), ws);
    } else if Forgeable(c, st, steps, ws) {
      var stored :| Unforged(c, Known(c, st, steps), Run(c, st, steps).mints, stored)
                    && ReleasesWith(c, Run(c, st, steps), ws, stored);
      NotForgedBySecret(c, st, steps, ws, stored);
    }
  }

  /** The failing side from the start: whoever plants a key and a record under it is released, with any
      armed block, although nothing was ever sealed. */
  lemma OwnKeyReleases(c: Crypto, st: State, ws: string, key: string)
    requires Ideal(c) && st.mints == [] && st.store == map[] && |key| >= KEY_MIN
    requires BlockAt(st, ws).Armed? && AnchorAllows(c, st, ws, true, true)
    ensures var steps := [PlantKey(Some(key)),
                          WriteStore(c.fingerprint(ws), Planted(c, ws, BlockAt(st, ws).block, key))];
            && Admissible(c, st, steps) && Run(c, st, steps).mints == []
            && Released(c, Run(c, st, steps), Second(Found(ws), true, true))
  {
    var plant, write := PlantKey(Some(key)), WriteStore(c.fingerprint(ws), Planted(c, ws, BlockAt(st, ws).block, key));
    PlantedKey(c, st, key);
    PlantedReleases(c, {key}, st.(key := Some(key)), ws);
    assert [plant] + [write] == [plant, write];
    AdmissibleSnoc(c, st, [plant], write);
  }

  lemma ReadKey(c: Crypto, st: State)
    requires st.key.Some?
    ensures var steps := [LearnKey];
            Admissible(c, st, steps) && Run(c, st, steps) == st && Known(c, st, steps) == {st.key.value}
  {
    assert [] + [LearnKey] == [LearnKey];
    AdmissibleSnoc(c, st, [], LearnKey);
  }

  /** Reading the key file is enough as well. */
  lemma ReadKeyReleases(c: Crypto, st: State, ws: string)
    requires Ideal(c) && st.mints == [] && st.store == map[] && KeyUsable(st.key)
    requires BlockAt(st, ws).Armed? && AnchorAllows(c, st, ws, true, true)
    ensures var steps := [LearnKey, WriteStore(c.fingerprint(ws), Planted(c, ws, BlockAt(st, ws).block, st.key.value))];
            && Admissible(c, st, steps) && Run(c, st, steps).mints == []
            && Released(c, Run(c, st, steps), Second(Found(ws), true, true))
  {
    var write := WriteStore(c.fingerprint(ws), Planted(c, ws, BlockAt(st, ws).block, st.key.value));
    ReadKey(c, st);
    PlantedReleases(c, {st.key.value}, st, ws);
    assert [LearnKey] + [write] == [LearnKey, write];
    AdmissibleSnoc(c, st, [LearnKey], write);
  }

  lemma PlantedKey(c: Crypto, st: State, key: string)
    ensures var steps := [PlantKey(Some(key))];
            Admissible(c, st, steps) && Run(c, st, steps) == st.(key := Some(key)) && Known(c, st, steps) == {key}
  {
    assert [] + [PlantKey(Some(key))] == [PlantKey(Some(key))];
    AdmissibleSnoc(c, st, [], PlantKey(Some(key)));
  }

  // ---- anchor agreement ----

  predicate OneAnchor(rows: seq<Row>) {
    forall a, b | a in Anchors(rows) && b in Anchors(rows) :: a == b
  }

  /** The step leaves the anchors of this workspace's ledger to the gate: the rows that are there stay,
      and no anchor row is added by hand. Every step of the gate does. */
  predicate LeavesAnchors(step: Step, ws: string) {
    match step
    case AppendRow(path, row) => path == ws ==> !row.Anchor?
    case RewriteLedger(path, _) => path != ws
    case _ => true
  }

  lemma StepLedger(c: Crypto, st: State, step: Step, ws: string)
    requires LeavesAnchors(step, ws)
    ensures var before, after := At(st.ledger, ws, []), At(Apply(c, st, step).0.ledger, ws, []);
            && before <= after && Anchors(before) <= Anchors(after)
            && (Anchors(before) != {} ==> Anchors(after) == Anchors(before))
            && (OneAnchor(before) ==> OneAnchor(after))
  {
    var before, after := At(st.ledger, ws, []), At(Apply(c, st, step).0.ledger, ws, []);
    if before != after {
      assert |after| == |before| + 1 && after == before + [after[|before|]];
      assert Anchors(after) == Anchors(before) + Anchors([after[|before|]]);
    }
  }

  /** In every run that leaves its anchors to the gate a workspace's ledger only grows and, once a sha
      is anchored, its set of anchored shas never changes again; so one that starts with at most one
      anchor never gets a second. */
  lemma {:induction false} AnchorAgreement(c: Crypto, st: State, steps: seq<Step>, ws: string)
    requires forall s | s in steps :: LeavesAnchors(s, ws)
    ensures var before, after := At(st.ledger, ws, []), At(Run(c, st, steps).ledger, ws, []);
            && before <= after
            && (Anchors(before) != {} ==> Anchors(after) == Anchors(before))
            && (OneAnchor(before) ==> OneAnchor(after))
    decreases |steps|
  {
    if steps != [] {
      var n := |steps| - 1;
      AnchorAgreement(c, st, steps[..n], ws);
      StepLedger(c, Run(c, st, steps[..n]), steps[n], ws);
    }
  }

  /** Every release carries the anchored sha, and it is in the ledger afterwards. */
  lemma ReleaseCarriesAnchor(c: Crypto, st: State, step: Step)
    requires Released(c, st, step)
    ensures step.ws.Found? && BlockAt(st, step.ws.path).Armed?
    ensures var h := Some(Sha(c, BlockAt(st, step.ws.path).block));
            && h in Anchors(At(Apply(c, st, step).0.ledger, step.ws.path, []))
            && (Anchors(At(st.ledger, step.ws.path, [])) != {} ==> h in Anchors(At(st.ledger, step.ws.path, [])))
  {
    var ws := step.ws.path;
    var rows, h := At(st.ledger, ws, []), Some(Sha(c, BlockAt(st, ws).block));
    if h !in Anchors(rows) {
      assert Anchor(h) in rows + [Anchor(h)];
    }
  }

  /** Once a workspace's ledger anchors one sha, no run ever releases a block with another. */
  lemma AnchoredForGood(c: Crypto, st: State, ws: string, steps: seq<Step>, k: nat)
    requires Anchors(At(st.ledger, ws, [])) != {} && forall s | s in steps :: LeavesAnchors(s, ws)
    requires k < |steps| && steps[k].Second? && steps[k].ws == Found(ws)
             && Released(c, Run(c, st, steps[..k]), steps[k])
    ensures BlockAt(Run(c, st, steps[..k]), ws).Armed?
    ensures Some(Sha(c, BlockAt(Run(c, st, steps[..k]), ws).block)) in Anchors(At(st.ledger, ws, []))
  {
    assert forall s | s in steps[..k] :: s in steps;
    AnchorAgreement(c, st, steps[..k], ws);
    ReleaseCarriesAnchor(c, Run(c, st, steps[..k]), steps[k]);
  }

  /** A second stop on an armed block anchors it before the seal is looked at: sealed or not, from
      then on no other block of that workspace is ever released. */
  lemma FirstArmedStopDecides(c: Crypto, st: State, ws: string, steps: seq<Step>, k: nat)
    requires Ideal(c) && BlockAt(st, ws).Armed?
    requires Anchors(At(st.ledger, ws, [])) == {} && Poison !in At(st.ledger, ws, [])
    requires forall s | s in steps :: LeavesAnchors(s, ws)
    requires k < |steps| && steps[k].Second? && steps[k].ws == Found(ws)
    requires Released(c, Run(c, Apply(c, st, Second(Found(ws), true, true)).0, steps[..k]), steps[k])
    ensures var later := Run(c, Apply(c, st, Second(Found(ws), true, true)).0, steps[..k]);
            BlockAt(later, ws).Armed? && SameButDates(YMap(BlockAt(later, ws).block), YMap(BlockAt(st, ws).block))
  {
    var after := Apply(c, st, Second(Found(ws), true, true)).0;
    ArmedStopAnchors(c, st, ws);
    AnchoredForGood(c, after, ws, steps, k);
    var later := Run(c, after, steps[..k]);
    CanonicalExact(YMap(BlockAt(later, ws).block), YMap(BlockAt(st, ws).block));
  }

  lemma ArmedStopAnchors(c: Crypto, st: State, ws: string)
    requires BlockAt(st, ws).Armed? && Anchors(At(st.ledger, ws, [])) == {} && Poison !in At(st.ledger, ws, [])
    ensures Anchors(At(Apply(c, st, Second(Found(ws), true, true)).0.ledger, ws, [])) ==
            {Some(Sha(c, BlockAt(st, ws).block))}
  {
    var rows, h := At(st.ledger, ws, []), Some(Sha(c, BlockAt(st, ws).block));
    assert Anchor(h) in rows + [Anchor(h)];
  }
}
