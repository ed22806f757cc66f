/** The second-stop release protocol of the completion gate: the oracle's adjudication block, the
    append-only ledger of anchors, and the sealed sanction the gate keeps outside the workspace. */
module StopGate {
  import opened Text

  datatype Option<+T> = None | Some(value: T)

  // ---- the adjudication block and its canonical form ----

  /** What the YAML reader returns. A date or a datetime is held by its ISO text, an object of another
      kind (a set, bytes) by its text and whether it is empty. */
  datatype Yaml = YNull | YBool(b: bool) | YInt(n: int) | YFloat(text: string) | YStr(s: string)
                | YDate(iso: string) | YDatetime(iso: string) | YOther(text: string, empty: bool)
                | YList(items: seq<Yaml>) | YMap(entries: map<string, Yaml>)

  /** What the JSON writer is given; maps are unordered, as sorted keys make them. */
  datatype Canon = CNull | CBool(b: bool) | CInt(n: int) | CFloat(text: string) | CStr(s: string)
                 | CList(items: seq<Canon>) | CMap(entries: map<string, Canon>)

  function JsonSafe(y: Yaml): Canon {
    match y
    case YNull => CNull
    case YBool(b) => CBool(b)
    case YInt(n) => CInt(n)
    case YFloat(text) => CFloat(text)
    case YStr(s) => CStr(s)
    case YDate(iso) => CStr(iso)
    case YDatetime(iso) => CStr(iso)
    case YOther(text, _) => CStr(text)
    case YList(items) => CList(seq(|items|, i requires 0 <= i < |items| => JsonSafe(items[i])))
    case YMap(entries) => CMap(map k | k in entries :: JsonSafe(entries[k]))
  }

  function TextOf(y: Yaml): Option<string> {
    match y
    case YStr(s) => Some(s)
    case YDate(iso) => Some(iso)
    case YDatetime(iso) => Some(iso)
    case YOther(text, _) => Some(text)
    case _ => None
  }

  /** Equal up to writing a date, a datetime or an unknown object as its text, at any depth. */
  predicate SameButDates(a: Yaml, b: Yaml) {
    if TextOf(a).Some? || TextOf(b).Some? then TextOf(a) == TextOf(b)
    else match (a, b)
      case (YList(xs), YList(ys)) => |xs| == |ys| && forall i | 0 <= i < |xs| :: SameButDates(xs[i], ys[i])
      case (YMap(m), YMap(n)) => m.Keys == n.Keys && forall k | k in m :: SameButDates(m[k], n[k])
      case _ => a == b
  }

  /** Two blocks have one canonical form exactly when they differ at most in how dates are written. */
  lemma {:induction false} CanonicalExact(a: Yaml, b: Yaml)
    ensures JsonSafe(a) == JsonSafe(b) <==> SameButDates(a, b)
    decreases a
  {
    match (a, b) {
      case (YList(xs), YList(ys)) =>
        var cx, cy := JsonSafe(a).items, JsonSafe(b).items;
        if |xs| == |ys| {
          forall i | 0 <= i < |xs| ensures cx[i] == cy[i] <==> SameButDates(xs[i], ys[i]) {
            CanonicalExact(xs[i], ys[i]);
          }
          assert cx == cy <==> forall i | 0 <= i < |xs| :: cx[i] == cy[i];
        } else {
          assert |cx| != |cy|;
        }
      case (YMap(m), YMap(n)) =>
        var cm, cn := JsonSafe(a).entries, JsonSafe(b).entries;
        assert cm.Keys == m.Keys && cn.Keys == n.Keys;
        if m.Keys == n.Keys {
          forall k | k in m ensures cm[k] == cn[k] <==> SameButDates(m[k], n[k]) {
            CanonicalExact(m[k], n[k]);
          }
          assert cm == cn <==> forall k | k in m :: cm[k] == cn[k];
        }
      case _ =>
    }
  }

  predicate Truthy(y: Yaml) {
    match y
    case YNull => false
    case YBool(b) => b
    case YInt(n) => n != 0
    case YFloat(text) => text != "0.0" && text != "-0.0"
    case YStr(s) => s != ""
    case YDate(_) => true
    case YDatetime(_) => true
    case YOther(_, empty) => !empty
    case YList(items) => items != []
    case YMap(entries) => entries != map[]
  }

  type Block = map<string, Yaml>

  /** What reading the adjudication block gives: an armed second-stop block, none, or the exception
      of asking a value that is neither empty nor a mapping for a key. */
  datatype Reading = Armed(block: Block) | Unarmed | Crash

  function ReadBlock(top: Block): Reading {
    if "adjudication" !in top || !Truthy(top["adjudication"]) then Unarmed
    else match top["adjudication"]
      case YMap(adjudication) =>
        if "stop_hook_active" !in adjudication then Unarmed
        else (match adjudication["stop_hook_active"]
              case YMap(block) =>
                if "second_stop" in block && Truthy(block["second_stop"]) then Armed(block) else Unarmed
              case _ => Unarmed)
      case _ => Crash
  }

  /** What counts as empty. */
  lemma FalsyExactly(y: Yaml)
    ensures !Truthy(y) <==> y in {YNull, YBool(false), YInt(0), YFloat("0.0"), YFloat("-0.0"), YStr(""),
                                  YList([]), YMap(map[])} || (y.YOther? && y.empty)
  {}

  /** An armed block is exactly one that stands under `adjudication` and `stop_hook_active` and carries a
      `second_stop` that is not empty. */
  lemma ArmedExactly(top: Block, block: Block)
    ensures ReadBlock(top) == Armed(block) <==>
            exists adjudication: Block ::
              && "adjudication" in top && top["adjudication"] == YMap(adjudication)
              && "stop_hook_active" in adjudication && adjudication["stop_hook_active"] == YMap(block)
              && "second_stop" in block && Truthy(block["second_stop"])
  {
    if adjudication: Block :|
      && "adjudication" in top && top["adjudication"] == YMap(adjudication)
      && "stop_hook_active" in adjudication && adjudication["stop_hook_active"] == YMap(block)
      && "second_stop" in block && Truthy(block["second_stop"]) {
      assert adjudication != map[];
    }
  }

  /** And asking it raises exactly when the value under `adjudication` is neither empty nor a mapping. */
  lemma CrashExactly(top: Block)
    ensures ReadBlock(top).Crash? <==>
            "adjudication" in top.Keys && Truthy(top["adjudication"]) && !top["adjudication"].YMap?
  {}

  // ---- idealised cryptography ----

  /** sha256 of a canonical form, the fingerprint of a workspace path, HMAC under a key, and `str`. */
  datatype Crypto = Crypto(sha: Canon -> string, fingerprint: string -> string, mac: (string, string) -> string,
    str: Yaml -> string)

  predicate NulFree(s: string) { '\0' !in s }

  ghost predicate Ideal(c: Crypto) {
    && (forall a, b :: c.sha(a) == c.sha(b) ==> a == b)
    && (forall a, b :: c.fingerprint(a) == c.fingerprint(b) ==> a == b)
    && (forall k, l, p, q :: c.mac(k, p) == c.mac(l, q) ==> k == l && p == q)
    && (forall a :: NulFree(c.sha(a))) && (forall a :: NulFree(c.fingerprint(a)))
  }

  function Sha(c: Crypto, block: Block): string { c.sha(JsonSafe(YMap(block))) }

  function Join(fields: seq<string>): string {
    if fields == [] then "" else if |fields| == 1 then fields[0]
    else fields[0] + ("\0" + Join(fields[1..]))
  }

  function FirstNul(s: string): nat {
    if s == "" || s[0] == '\0' then 0 else 1 + FirstNul(s[1..])
  }

  lemma {:induction false} FirstNulOf(a: string, s: string)
    requires NulFree(a)
    ensures FirstNul(a + ("\0" + s)) == |a| && FirstNul(a) == |a|
    decreases |a|
  {
    if a == "" {
      assert a + ("\0" + s) == "\0" + s;
    } else {
      assert (a + ("\0" + s))[1..] == a[1..] + ("\0" + s) && a[0] in a;
      assert forall x | x in a[1..] :: x in a;
      FirstNulOf(a[1..], s);
    }
  }

  function Nuls(s: string): nat {
    if s == "" then 0 else (if s[0] == '\0' then 1 else 0) + Nuls(s[1..])
  }

  lemma {:induction false} NulsConcat(a: string, b: string)
    ensures Nuls(a + b) == Nuls(a) + Nuls(b)
    ensures NulFree(a) <==> Nuls(a) == 0
    decreases |a|
  {
    if a == "" {
      assert a + b == b;
    } else {
      assert (a + b)[1..] == a[1..] + b && a == [a[0]] + a[1..];
      NulsConcat(a[1..], b);
    }
  }

  lemma {:induction false} JoinNuls(fields: seq<string>)
    requires fields != []
    ensures Nuls(Join(fields)) >= |fields| - 1
    ensures (forall f | f in fields :: NulFree(f)) <==> Nuls(Join(fields)) == |fields| - 1
    decreases |fields|
  {
    NulsConcat(fields[0], "");
    if |fields| > 1 {
      JoinNuls(fields[1..]);
      NulsConcat(fields[0], "\0" + Join(fields[1..]));
      NulsConcat("\0", Join(fields[1..]));
      assert ("\0")[1..] == "";
      assert fields == [fields[0]] + fields[1..];
      assert (forall f | f in fields :: NulFree(f)) <==>
             NulFree(fields[0]) && forall f | f in fields[1..] :: NulFree(f);
    }
  }

  lemma {:induction false} JoinCancels(a: seq<string>, b: seq<string>)
    requires |a| == |b| && (forall f | f in a :: NulFree(f)) && (forall f | f in b :: NulFree(f)) && Join(a) == Join(b)
    ensures a == b
    decreases |a|
  {
    if |a| == 1 {
      assert a == [a[0]] && b == [b[0]];
    } else if |a| > 1 {
      assert a[0] in a && b[0] in b;
      assert forall f | f in a[1..] :: f in a;
      assert forall f | f in b[1..] :: f in b;
      FirstNulOf(a[0], Join(a[1..]));
      FirstNulOf(b[0], Join(b[1..]));
      assert a[0] == Join(a)[..|a[0]|] && b[0] == Join(b)[..|b[0]|];
      assert Join(a[1..]) == Join(a)[|a[0]| + 1..] && Join(b[1..]) == Join(b)[|b[0]| + 1..];
      JoinCancels(a[1..], b[1..]);
      assert a == [a[0]] + a[1..] && b == [b[0]] + b[1..];
    }
  }

  /** The NUL-joined payload fixes its fields as soon as ONE side's fields are free of NUL: the other
      side may come from a record somebody else wrote. */
  lemma JoinInjective(a: seq<string>, b: seq<string>)
    requires |a| == |b| > 0 && (forall f | f in a :: NulFree(f)) && Join(a) == Join(b)
    ensures a == b
  {
    JoinNuls(a);
    JoinNuls(b);
    JoinCancels(a, b);
  }

  // ---- records, ledger rows, state ----

  const SCHEMA := "stop-sanction/1"
  const KEY_MIN := 32

  /** The file of one workspace in the sanction store. */
  datatype Stored = Absent | Corrupt | Record(schema: string, fingerprint: string, origin: string,
                                              decision: string, sha: string, ts: string, mac: string)

  /** A ledger line: skipped by the reader, of another event, one whose reading raises, or an anchor. */
  datatype Row = Unreadable | Other | Poison | Anchor(sha: Option<string>)

  /** Reading the oracle: not there, no YAML, an I/O error, an error of another kind (bytes that are no
      UTF-8), or a value. */
  datatype OracleFile = Missing | Unparsable | Unreachable | Undecodable | NotAMapping | Oracle(top: Block)

  /** One successful sealing, as history remembers it. */
  datatype Mint = Mint(ws: string, origin: string, decision: string, block: Block, key: string, ts: string)

  datatype State = State(ledger: map<string, seq<Row>>, store: map<string, Stored>, oracle: map<string, OracleFile>,
                         key: Option<string>, mints: seq<Mint>)

  function At<K, V>(m: map<K, V>, k: K, default: V): V { if k in m then m[k] else default }

  function Payload(schema: string, fingerprint: string, origin: string, decision: string, sha: string,
          ts: string): string
  {
    Join([schema, fingerprint, origin, decision, sha, ts])
  }

  function MintPayload(c: Crypto, m: Mint): string {
    Payload(SCHEMA, c.fingerprint(m.ws), m.origin, m.decision, Sha(c, m.block), m.ts)
  }

  function KeyUsable(key: Option<string>): bool { key.Some? && |key.value| >= KEY_MIN }

  // ---- the operations as functions of the state ----

  function Anchors(rows: seq<Row>): set<Option<string>> {
    set r | r in rows && r.Anchor? :: r.sha
  }

  /** `_secondstop_anchor` with its caller's exception handler: the new state and the verdict. */
  function AnchorStep(c: Crypto, st: State, ws: string, block: Block, readable: bool, writable: bool): (State, bool) {
    var rows, h := At(st.ledger, ws, []), Some(Sha(c, block));
    if !readable || Poison in rows then (st, false)
    else if h in Anchors(rows) then (st, true)
    else if Anchors(rows) != {} || !writable then (st, false)
    else (st.(ledger := st.ledger[ws := rows + [Anchor(h)]]), true)
  }

  function MintStep(c: Crypto, st: State, ws: string, block: Block, decision: string, origin: string, ts: string,
          storable: bool): (State, bool)
  {
    var d := Strip(decision);
    if d == "" || !KeyUsable(st.key) || !storable then (st, false)
    else
      var m := Mint(ws, origin, d, block, st.key.value, ts);
      var record := Record(SCHEMA, c.fingerprint(ws), origin, d, Sha(c, block), ts, c.mac(m.key, MintPayload(c, m)));
      (st.(store := st.store[c.fingerprint(ws) := record], mints := st.mints + [m]), true)
  }

  datatype Verdict = Sealed | NotSealed | Unusable | UnknownSchema | OtherWorkspace | KeyTrouble | Forged
    | BlockAltered | NotPass

  function Verify(c: Crypto, st: State, ws: string, block: Block): Verdict {
    match At(st.store, c.fingerprint(ws), Absent)
    case Absent => NotSealed
    case Corrupt => Unusable
    case Record(schema, fp, origin, decision, sha, ts, mac) =>
      if schema != SCHEMA then UnknownSchema
      else if fp != c.fingerprint(ws) then OtherWorkspace
      else if !KeyUsable(st.key) then KeyTrouble
      else if mac != c.mac(st.key.value, Payload(SCHEMA, fp, origin, decision, sha, ts)) then Forged
      else if sha != Sha(c, block) then BlockAltered
      else if decision != "PASS" then NotPass
      else Sealed
  }

  /** Under a key of 32 characters or more everything but a blank decision is sealed, and under none or a
      shorter one nothing is, nor does any seal verify. */
  lemma KeyLength(c: Crypto, st: State, ws: string, block: Block, decision: string, origin: string, ts: string)
    ensures MintStep(c, st, ws, block, decision, origin, ts, true).1 <==>
            Strip(decision) != "" && exists k | st.key == Some(k) :: |k| >= 32
    ensures (forall k | st.key == Some(k) :: |k| < 32) ==> Verify(c, st, ws, block) != Sealed
  {
    if st.key.Some? { assert st.key == Some(st.key.value); }
  }

  /** `Escaped` is an exception leaving `process_event`; `main` turns it into exit code 0. */
  datatype Outcome = Exit(code: int) | Escaped

  function MainCode(o: Outcome): int { if o.Exit? then o.code else 0 }

  /** What resolving a payload's workspace gives: a path, none, or an exception (a `cwd` that is no
      path, a directory that may not be searched), which no handler stands around. */
  datatype Where = Found(path: string) | Nowhere | Raises

  function SecondStop(c: Crypto, st: State, ws: Where, readable: bool, writable: bool): (State, Outcome) {
    if ws.Raises? then (st, Escaped)
    else if ws.Nowhere? then (st, Exit(1)) else
    match At(st.oracle, ws.path, Missing)
    case Oracle(top) =>
      (match ReadBlock(top)
       case Crash => (st, Escaped)
       case Unarmed => (st, Exit(1))
       case Armed(block) =>
         var (after, allow) := AnchorStep(c, st, ws.path, block, readable, writable);
         (after, Exit(if allow && Verify(c, after, ws.path, block).Sealed? then 0 else 1)))
    case _ => (st, Exit(1))
  }

  datatype Judge = JudgeCrash | Code(code: int)

  /** `late` is the code of the checks after a PASS verdict (owed notes, discriminators, or 0). */
  function FirstStop(c: Crypto, st: State, ws: Where, active: bool, judge: Judge, late: int, ts: string,
          storable: bool): (State, Outcome)
  {
    if ws.Raises? then (st, Escaped)
    else if ws.Nowhere? || !active then (st, Exit(0)) else
    match At(st.oracle, ws.path, Missing)
    case Missing => (st, Exit(3))
    case Unparsable => (st, Exit(3))
    case Unreachable => (st, Exit(0))
    case Undecodable => (st, Escaped)
    case file =>
      match judge
      case JudgeCrash => (st, Exit(3))
      case Code(code) =>
        if code != 0 then (st, Exit(code))
        else if file.Oracle? && ReadBlock(file.top).Armed?
        then (MintStep(c, st, ws.path, ReadBlock(file.top).block, "PASS", "gate", ts, storable).0, Exit(late))
        else (st, Exit(late))
  }

  function OperatorMint(c: Crypto, st: State, ws: string, arg: string, ts: string, storable: bool): (State, Outcome) {
    var decision := Strip(arg);
    match At(st.oracle, ws, Missing)
    case Oracle(top) =>
      (match ReadBlock(top)
       case Crash => (st, Escaped)
       case Unarmed => (st, Exit(2))
       case Armed(block) =>
         var text :=
           if "last_decision" in block && Truthy(block["last_decision"]) then Strip(c.str(block["last_decision"]))
           else "";
         if text != "" && text != decision then (st, Exit(2))
         else
           var (after, ok) := MintStep(c, st, ws, block, decision, "operator", ts, storable);
           (after, Exit(if ok then 0 else 2)))
    case _ => (st, Exit(2))
  }

  // ---- the same operations in place ----

  class Gate {
    const crypto: Crypto
    var ledger: map<string, seq<Row>>
    var store: map<string, Stored>
    var oracle: map<string, OracleFile>
    var key: Option<string>
    ghost var mints: seq<Mint>

    constructor (crypto: Crypto, oracle: map<string, OracleFile>, key: Option<string>)
      ensures this.crypto == crypto && Now() == State(map[], map[], oracle, key, [])
    {
      this.crypto, this.oracle, this.key := crypto, oracle, key;
      ledger, store, mints := map[], map[], [];
    }

    ghost function Now(): State
      reads this
    { State(ledger, store, oracle, key, mints) }

    method SecondstopAnchor(ws: string, block: Block, readable: bool, writable: bool) returns (allow: bool)
      modifies this`ledger
      ensures (Now(), allow) == AnchorStep(crypto, old(Now()), ws, block, readable, writable)
    {
      var h := Some(Sha(crypto, block));
      var rows := At(ledger, ws, []);
      var anchored: set<Option<string>> := {};
      if !readable {
        return false;
      }
      for i := 0 to |rows|
        invariant anchored == Anchors(rows[..i]) && Poison !in rows[..i]
      {
        assert rows[..i + 1] == rows[..i] + [rows[i]];
        match rows[i] {
          case Poison => return false;
          case Anchor(sha) => anchored := anchored + {sha};
          case _ =>
        }
      }
      assert rows[..|rows|] == rows;
      if h in anchored {
        return true;
      }
      if anchored != {} {
        return false;
      }
      if !writable {
        return false;
      }
      ledger := ledger[ws := rows + [Anchor(h)]];
      allow := true;
    }

    method SanctionMint(ws: string, block: Block, decision: string, origin: string, ts: string, storable: bool)
      returns (ok: bool)
      modifies this`store, this`mints
      ensures (Now(), ok) == MintStep(crypto, old(Now()), ws, block, decision, origin, ts, storable)
    {
      var d := Strip(decision);
      if d == "" || !KeyUsable(key) || !storable {
        return false;
      }
      var m := Mint(ws, origin, d, block, key.value, ts);
      var fp := crypto.fingerprint(ws);
      store := store[fp := Record(SCHEMA, fp, origin, d, Sha(crypto, block), ts,
          crypto.mac(m.key, MintPayload(crypto, m)))];
      mints := mints + [m];
      ok := true;
    }

    method ProcessSecondStop(ws: Where, readable: bool, writable: bool) returns (o: Outcome)
      modifies this`ledger
      ensures var (after, out) := SecondStop(crypto, old(Now()), ws, readable, writable); Now() == after && o == out
    {
      if ws.Raises? {
        return Escaped;
      }
      if ws.Nowhere? {
        return Exit(1);
      }
      var file := At(oracle, ws.path, Missing);
      if !file.Oracle? || ReadBlock(file.top).Unarmed? {
        return Exit(1);
      }
      if ReadBlock(file.top).Crash? {
        return Escaped;
      }
      var block := ReadBlock(file.top).block;
      var allow := SecondstopAnchor(ws.path, block, readable, writable);
      var sealed := Verify(crypto, State(ledger, store, oracle, key, []), ws.path, block);
      return Exit(if allow && sealed.Sealed? then 0 else 1);
    }

    method ProcessFirstStop(ws: Where, active: bool, judge: Judge, late: int, ts: string, storable: bool)
      returns (o: Outcome)
      modifies this`store, this`mints
      ensures var (after, out) := FirstStop(crypto, old(Now()), ws, active, judge, late, ts, storable);
              Now() == after && o == out
    {
      if ws.Raises? {
        return Escaped;
      }
      if ws.Nowhere? || !active {
        return Exit(0);
      }
      var file := At(oracle, ws.path, Missing);
      if file.Missing? || file.Unparsable? {
        return Exit(3);
      }
      if file.Unreachable? {
        return Exit(0);
      }
      if file.Undecodable? {
        return Escaped;
      }
      if judge.JudgeCrash? {
        return Exit(3);
      }
      if judge.code == 0 {
        if file.Oracle? && ReadBlock(file.top).Armed? {
          var _ := SanctionMint(ws.path, ReadBlock(file.top).block, "PASS", "gate", ts, storable);
        }
        return Exit(late);
      }
      return Exit(judge.code);
    }

    method CliMint(ws: string, arg: string, ts: string, storable: bool) returns (o: Outcome)
      modifies this`store, this`mints
      ensures var (after, out) := OperatorMint(crypto, old(Now()), ws, arg, ts, storable); Now() == after && o == out
    {
      var decision := Strip(arg);
      var file := At(oracle, ws, Missing);
      if !file.Oracle? || ReadBlock(file.top).Unarmed? {
        return Exit(2);
      }
      if ReadBlock(file.top).Crash? {
        return Escaped;
      }
      var block := ReadBlock(file.top).block;
      var text := "";
      if "last_decision" in block && Truthy(block["last_decision"]) {
        text := Strip(crypto.str(block["last_decision"]));
      }
      if text != "" && text != decision {
        return Exit(2);
      }
      var ok := SanctionMint(ws, block, decision, "operator", ts, storable);
      return Exit(if ok then 0 else 2);
    }
  }
}
