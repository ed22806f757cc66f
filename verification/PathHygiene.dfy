/** The one authority over `sys.path`: permanent membership with a ledger, and scoped membership. */
module PathHygiene {

  type Norm = string -> string

  datatype Env = Env(path: seq<string>, ensured: set<string>)

  function Names(norm: Norm, path: seq<string>): seq<string> {
    seq(|path|, i requires 0 <= i < |path| => norm(path[i]))
  }

  /** `path` without its first entry that resolves to `n`. */
  function RemoveFirst(norm: Norm, path: seq<string>, n: string): seq<string> {
    if path == [] then []
    else if norm(path[0]) == n then path[1..]
    else [path[0]] + RemoveFirst(norm, path[1..], n)
  }

  function Ensure(norm: Norm, e: Env, target: string, front: bool): Env {
    var n := norm(target);
    if front then
      if e.path != [] && norm(e.path[0]) == n then Env(e.path, e.ensured + {n})
      else Env([target] + RemoveFirst(norm, e.path, n), e.ensured + {n})
    else if n in e.ensured then e
    else Env(if n in Names(norm, e.path) then e.path else [target] + e.path, e.ensured + {n})
  }

  /** An entry that is in front already keeps its place and its spelling. */
  lemma FrontStays(norm: Norm, e: Env, target: string)
    requires e.path != [] && norm(e.path[0]) == norm(target)
    ensures Ensure(norm, e, target, true) == e.(ensured := e.ensured + {norm(target)})
  {}

  /** What a scoped block remembers between entry and exit: nothing, or the entry it inserted. */
  datatype Frame = Idle | Owns(name: string)

  function Enter(norm: Norm, e: Env, target: string): (Env, Frame) {
    if norm(target) in Names(norm, e.path) then (e, Idle)
    else (e.(path := [target] + e.path), Owns(norm(target)))
  }

  function Leave(norm: Norm, e: Env, f: Frame): Env {
    if f.Idle? then e else e.(path := RemoveFirst(norm, e.path, f.name))
  }

  // ---- programs of nested blocks ----

  datatype Prog =
    | Done
    | Ensuring(target: string, front: bool, next: Prog)
    | Block(target: string, body: Prog, next: Prog)

  function Exec(norm: Norm, p: Prog, e: Env): Env
    decreases p, 0
  {
    match p
    case Done => e
    case Ensuring(target, front, next) => Exec(norm, next, Ensure(norm, e, target, front))
    case Block(target, body, next) => Exec(norm, next, ExecBlock(norm, target, body, e))
  }

  function ExecBlock(norm: Norm, target: string, body: Prog, e: Env): Env
    decreases body, 1
  {
    var (inside, f) := Enter(norm, e, target);
    Leave(norm, Exec(norm, body, inside), f)
  }

  // ---- the module's state and operations ----

  class SysPath {
    const norm: Norm
    var path: seq<string>
    var ensured: set<string>

    constructor (norm: Norm, initial: seq<string>)
      ensures this.norm == norm && path == initial && ensured == {}
    {
      this.norm := norm;
      path := initial;
      ensured := {};
    }

    function State(): Env
      reads this
    { Env(path, ensured) }

    method DeleteFirst(n: string)
      modifies this`path
      ensures path == RemoveFirst(norm, old(path), n)
    {
      var i := 0;
      while i < |path| && norm(path[i]) != n
        invariant 0 <= i <= |path|
        invariant RemoveFirst(norm, path, n) == path[..i] + RemoveFirst(norm, path[i..], n)
      {
        assert path[i..][1..] == path[i + 1..];
        i := i + 1;
      }
      if i < |path| {
        assert path[i..][1..] == path[i + 1..];
        path := path[..i] + path[i + 1..];
      }
    }

    method EnterBlock(target: string) returns (f: Frame)
      modifies this`path
      ensures (State(), f) == Enter(norm, old(State()), target)
    {
      if norm(target) in Names(norm, path) {
        return Idle;
      }
      path := [target] + path;
      f := Owns(norm(target));
    }

    method LeaveBlock(f: Frame)
      modifies this`path
      ensures State() == Leave(norm, old(State()), f)
    {
      if f.Owns? {
        if path != [] && norm(path[0]) == f.name {
          path := path[1..];
        } else {
          DeleteFirst(f.name);
        }
      }
    }

    method EnsureOnPath(target: string, front: bool)
      modifies this
      ensures State() == Ensure(norm, old(State()), target, front)
    {
      var n := norm(target);
      if front {
        if path != [] && norm(path[0]) == n {
          ensured := ensured + {n};
          return;
        }
        DeleteFirst(n);
        path := [target] + path;
        ensured := ensured + {n};
        return;
      }
      if n in ensured {
        return;
      }
      if n !in Names(norm, path) {
        path := [target] + path;
      }
      ensured := ensured + {n};
    }

    method Run(p: Prog)
      modifies this
      ensures State() == Exec(norm, p, old(State()))
      decreases p
    {
      match p {
        case Done =>
        case Ensuring(target, front, next) =>
          EnsureOnPath(target, front);
          Run(next);
        case Block(target, body, next) =>
          var f := EnterBlock(target);
          Run(body);
          LeaveBlock(f);
          Run(next);
      }
    }
  }

  // ---- programs without effect ----

  predicate Ensures(norm: Norm, p: Prog, n: string) {
    match p
    case Done => false
    case Ensuring(target, _, next) => norm(target) == n || Ensures(norm, next, n)
    case Block(_, body, next) => Ensures(norm, body, n) || Ensures(norm, next, n)
  }

  predicate EnsureFree(p: Prog) {
    match p
    case Done => true
    case Ensuring(_, _, _) => false
    case Block(_, body, next) => EnsureFree(body) && EnsureFree(next)
  }

  /** Blocks alone restore the path entry for entry. */
  lemma {:induction false} BlocksRestore(norm: Norm, p: Prog, e: Env)
    requires EnsureFree(p)
    ensures Exec(norm, p, e) == e
    decreases p
  {
    if p.Block? {
      var (inside, f) := Enter(norm, e, p.target);
      BlocksRestore(norm, p.body, inside);
      if f.Owns? {
        assert inside.path[1..] == e.path;
      }
      BlocksRestore(norm, p.next, e);
    }
  }

  // ---- the view up to spelling: names, their copies, and the path without one name ----

  function Copies(names: seq<string>, n: string): nat {
    if names == [] then 0 else (if names[0] == n then 1 else 0) + Copies(names[1..], n)
  }

  function Without(names: seq<string>, n: string): seq<string> {
    if names == [] then [] else if names[0] == n then Without(names[1..], n) else [names[0]] + Without(names[1..], n)
  }

  function Drop(names: seq<string>, n: string): seq<string> {
    if names == [] then [] else if names[0] == n then names[1..] else [names[0]] + Drop(names[1..], n)
  }

  lemma NamesCons(norm: Norm, x: string, path: seq<string>)
    ensures Names(norm, [x] + path) == [norm(x)] + Names(norm, path)
  {}

  lemma {:induction false} NamesDrop(norm: Norm, path: seq<string>, n: string)
    ensures Names(norm, RemoveFirst(norm, path, n)) == Drop(Names(norm, path), n)
    decreases |path|
  {
    if path != [] {
      assert Names(norm, path)[1..] == Names(norm, path[1..]);
      NamesDrop(norm, path[1..], n);
      NamesCons(norm, path[0], RemoveFirst(norm, path[1..], n));
    }
  }

  lemma {:induction false} CopiesDrop(names: seq<string>, m: string, n: string)
    ensures Copies(Drop(names, m), n) ==
            if m == n && Copies(names, n) > 0 then Copies(names, n) - 1 else Copies(names, n)
    ensures n in names <==> Copies(names, n) > 0
    decreases |names|
  {
    if names != [] {
      CopiesDrop(names[1..], m, n);
      if names[0] != m {
        assert ([names[0]] + Drop(names[1..], m))[1..] == Drop(names[1..], m);
      }
    }
  }

  lemma {:induction false} WithoutDrop(names: seq<string>, m: string, n: string)
    ensures Without(Drop(names, m), n) == if m == n then Without(names, n) else Drop(Without(names, n), m)
    ensures m != n ==> (m in names <==> m in Without(names, n))
    ensures n !in Without(names, n)
    ensures n !in names ==> Without(names, n) == names
    decreases |names|
  {
    if names != [] {
      WithoutDrop(names[1..], m, n);
      if names[0] != m {
        assert ([names[0]] + Drop(names[1..], m))[1..] == Drop(names[1..], m);
      }
      if names[0] != n {
        assert ([names[0]] + Without(names[1..], n))[1..] == Without(names[1..], n);
      }
    }
  }

  lemma ConsView(norm: Norm, x: string, path: seq<string>, n: string)
    ensures Copies(Names(norm, [x] + path), n) == Copies(Names(norm, path), n) + (if norm(x) == n then 1 else 0)
    ensures Without(Names(norm, [x] + path), n) ==
            (if norm(x) == n then [] else [norm(x)]) + Without(Names(norm, path), n)
  {
    NamesCons(norm, x, path);
    assert ([norm(x)] + Names(norm, path))[1..] == Names(norm, path);
  }

  lemma RemoveView(norm: Norm, path: seq<string>, m: string, n: string)
    ensures var names, after := Names(norm, path), Names(norm, RemoveFirst(norm, path, m));
            && Copies(after, n) == (if m == n && Copies(names, n) > 0 then Copies(names, n) - 1 else Copies(names, n))
            && Without(after, n) == (if m == n then Without(names, n) else Drop(Without(names, n), m))
            && (n in names <==> Copies(names, n) > 0)
            && (m != n ==> (m in names <==> m in Without(names, n)))
  {
    NamesDrop(norm, path, m);
    CopiesDrop(Names(norm, path), m, n);
    WithoutDrop(Names(norm, path), m, n);
  }

  // ---- erasing a scoped block ----

  /** Two states that differ only in where, and whether, `n` is on the path. */
  predicate AgreeExcept(norm: Norm, a: Env, b: Env, n: string) {
    Without(Names(norm, a.path), n) == Without(Names(norm, b.path), n) && a.ensured == b.ensured
  }

  function CopiesIn(norm: Norm, e: Env, n: string): nat { Copies(Names(norm, e.path), n) }

  lemma EnsureView(norm: Norm, e: Env, target: string, front: bool, n: string)
    requires norm(target) != n
    ensures var after, m := Ensure(norm, e, target, front), norm(target);
            var rest := Without(Names(norm, e.path), n);
            && CopiesIn(norm, after, n) == CopiesIn(norm, e, n)
            && Without(Names(norm, after.path), n) ==
               (if front then [m] + Drop(rest, m) else if m in e.ensured || m in rest then rest else [m] + rest)
  {
    var m := norm(target);
    RemoveView(norm, e.path, m, n);
    ConsView(norm, target, e.path, n);
    ConsView(norm, target, RemoveFirst(norm, e.path, m), n);
    if front && e.path != [] && norm(e.path[0]) == m {
      assert e.path == [e.path[0]] + e.path[1..];
      ConsView(norm, e.path[0], e.path[1..], n);
    }
  }

  lemma {:induction false} Simulation(norm: Norm, p: Prog, a: Env, b: Env, n: string)
    requires !Ensures(norm, p, n) && AgreeExcept(norm, a, b, n)
    ensures AgreeExcept(norm, Exec(norm, p, a), Exec(norm, p, b), n)
    ensures CopiesIn(norm, Exec(norm, p, a), n) == CopiesIn(norm, a, n)
    decreases p, 0
  {
    match p {
      case Done =>
      case Ensuring(target, front, next) =>
        EnsureView(norm, a, target, front, n);
        EnsureView(norm, b, target, front, n);
        Simulation(norm, next, Ensure(norm, a, target, front), Ensure(norm, b, target, front), n);
      case Block(target, body, next) =>
        SimulateBlock(norm, target, body, a, b, n);
        Simulation(norm, next, ExecBlock(norm, target, body, a), ExecBlock(norm, target, body, b), n);
    }
  }

  lemma {:induction false} SimulateBlock(norm: Norm, target: string, body: Prog, a: Env, b: Env, n: string)
    requires !Ensures(norm, body, n) && AgreeExcept(norm, a, b, n)
    ensures var ao, bo := ExecBlock(norm, target, body, a), ExecBlock(norm, target, body, b);
            AgreeExcept(norm, ao, bo, n) && CopiesIn(norm, ao, n) == CopiesIn(norm, a, n)
    decreases body, 1
  {
    var (ai, af) := Enter(norm, a, target);
    var (bi, bf) := Enter(norm, b, target);
    EnterView(norm, a, b, target, n);
    Simulation(norm, body, ai, bi, n);
    LeaveView(norm, Exec(norm, body, ai), af, n);
    LeaveView(norm, Exec(norm, body, bi), bf, n);
  }

  /** Leaving it again. */
  lemma LeaveView(norm: Norm, e: Env, f: Frame, n: string)
    ensures var after, rest := Leave(norm, e, f), Without(Names(norm, e.path), n);
            && after.ensured == e.ensured
            && Without(Names(norm, after.path), n) == (if f.Owns? && f.name != n then Drop(rest, f.name) else rest)
            && CopiesIn(norm, after, n) ==
               CopiesIn(norm, e, n) - (if f.Owns? && f.name == n && CopiesIn(norm, e, n) > 0 then 1 else 0)
  {
    if f.Owns? { RemoveView(norm, e.path, f.name, n); }
  }

  /** Entering a block: the two states still agree, and they own the removal alike unless it is of `n`. */
  lemma EnterView(norm: Norm, a: Env, b: Env, target: string, n: string)
    requires AgreeExcept(norm, a, b, n)
    ensures var (ai, af), (bi, bf) := Enter(norm, a, target), Enter(norm, b, target);
            && AgreeExcept(norm, ai, bi, n)
            && (norm(target) != n ==> af == bf)
            && CopiesIn(norm, ai, n) == CopiesIn(norm, a, n) + (if af.Owns? && norm(target) == n then 1 else 0)
  {
    RemoveView(norm, a.path, norm(target), n);
    RemoveView(norm, b.path, norm(target), n);
    ConsView(norm, target, a.path, n);
    ConsView(norm, target, b.path, n);
  }

  /** A scoped block around code that never ensures its target leaves no trace. */
  lemma BlockErasure(norm: Norm, target: string, body: Prog, e: Env)
    requires norm(target) !in Names(norm, e.path) && !Ensures(norm, body, norm(target))
    ensures var with, alone := Exec(norm, Block(target, body, Done), e), Exec(norm, body, e);
            Names(norm, with.path) == Names(norm, alone.path) && with.ensured == alone.ensured
  {
    var n := norm(target);
    var (inside, f) := Enter(norm, e, target);
    NoCopies(Names(norm, e.path), n);
    EnterView(norm, e, e, target, n);
    ConsView(norm, target, e.path, n);
    Simulation(norm, body, inside, e, n);
    Simulation(norm, body, e, e, n);
    var a, b := Exec(norm, body, inside), Exec(norm, body, e);
    LeaveView(norm, a, f, n);
    NoCopies(Names(norm, Leave(norm, a, f).path), n);
    NoCopies(Names(norm, b.path), n);
  }

  lemma NoCopies(names: seq<string>, n: string)
    ensures n !in names <==> Copies(names, n) == 0
    ensures n !in names ==> Without(names, n) == names
  {
    CopiesDrop(names, n, n);
    WithoutDrop(names, n, n);
  }

  // ---- a block whose body ensures the block's own target ----

  lemma {:induction false} CopiesKept(norm: Norm, p: Prog, e: Env, n: string)
    requires CopiesIn(norm, e, n) > 0
    ensures CopiesIn(norm, Exec(norm, p, e), n) == CopiesIn(norm, e, n)
    decreases p
  {
    match p {
      case Done =>
      case Ensuring(target, front, next) =>
        var m := norm(target);
        RemoveView(norm, e.path, m, n);
        ConsView(norm, target, e.path, n);
        ConsView(norm, target, RemoveFirst(norm, e.path, m), n);
        CopiesKept(norm, next, Ensure(norm, e, target, front), n);
      case Block(target, body, next) =>
        var (inside, f) := Enter(norm, e, target);
        RemoveView(norm, e.path, norm(target), n);
        ConsView(norm, target, e.path, n);
        CopiesKept(norm, body, inside, n);
        RemoveView(norm, Exec(norm, body, inside).path, norm(target), n);
        CopiesKept(norm, next, Leave(norm, Exec(norm, body, inside), f), n);
    }
  }

  lemma {:induction false} LedgerGrows(norm: Norm, p: Prog, e: Env, n: string)
    ensures n in Exec(norm, p, e).ensured <==> n in e.ensured || Ensures(norm, p, n)
    decreases p
  {
    match p {
      case Done =>
      case Ensuring(target, front, next) => LedgerGrows(norm, next, Ensure(norm, e, target, front), n);
      case Block(target, body, next) =>
        var (inside, f) := Enter(norm, e, target);
        LedgerGrows(norm, body, inside, n);
        LedgerGrows(norm, next, Leave(norm, Exec(norm, body, inside), f), n);
    }
  }

  /** A block takes its target off the path again whatever its body does, so the ledger still tells
      the truth about the target exactly when the body never ensures it; otherwise every later
      `front=False` call is a ledger hit that leaves the target off the path. */
  lemma SelfEnsuringBlock(norm: Norm, target: string, body: Prog, e: Env, later: string)
    requires norm(target) !in Names(norm, e.path) && norm(target) !in e.ensured && norm(later) == norm(target)
    ensures var after := Exec(norm, Block(target, body, Done), e);
            && norm(target) !in Names(norm, after.path)
            && (norm(target) in after.ensured <==> Ensures(norm, body, norm(target)))
            && (norm(target) in Names(norm, Ensure(norm, after, later, false).path) <==>
                !Ensures(norm, body, norm(target)))
  {
    var n := norm(target);
    var (inside, f) := Enter(norm, e, target);
    ConsView(norm, target, e.path, n);
    RemoveView(norm, e.path, n, n);
    CopiesKept(norm, body, inside, n);
    RemoveView(norm, Exec(norm, body, inside).path, n, n);
    var after := Exec(norm, Block(target, body, Done), e);
    RemoveView(norm, after.path, n, n);
    LedgerGrows(norm, Block(target, body, Done), e, n);
    NamesCons(norm, later, after.path);
  }

  // ---- invariants of every run, block boundaries included ----

  datatype Op = EnterOp(target: string) | LeaveOp | EnsureOp(target: string, front: bool)

  datatype World = World(env: Env, frames: seq<Frame>)

  function Step(norm: Norm, w: World, op: Op): World {
    match op
    case EnterOp(target) =>
      var (e, f) := Enter(norm, w.env, target);
      World(e, w.frames + [f])
    case LeaveOp =>
      if w.frames == [] then w
      else World(Leave(norm, w.env, w.frames[|w.frames| - 1]), w.frames[..|w.frames| - 1])
    case EnsureOp(target, front) => w.(env := Ensure(norm, w.env, target, front))
  }

  function Steps(norm: Norm, w: World, ops: seq<Op>): World {
    if ops == [] then w else Step(norm, Steps(norm, w, ops[..|ops| - 1]), ops[|ops| - 1])
  }

  function Flatten(p: Prog): seq<Op> {
    match p
    case Done => []
    case Ensuring(target, front, next) => [EnsureOp(target, front)] + Flatten(next)
    case Block(target, body, next) => [EnterOp(target)] + (Flatten(body) + ([LeaveOp] + Flatten(next)))
  }

  lemma {:induction false} StepsConcat(norm: Norm, w: World, a: seq<Op>, b: seq<Op>)
    ensures Steps(norm, w, a + b) == Steps(norm, Steps(norm, w, a), b)
    decreases |b|
  {
    if b == [] {
      assert a + b == a;
    } else {
      assert (a + b)[..|a + b| - 1] == a + b[..|b| - 1];
      StepsConcat(norm, w, a, b[..|b| - 1]);
    }
  }

  lemma StepsOne(norm: Norm, w: World, op: Op)
    ensures Steps(norm, w, [op]) == Step(norm, w, op)
  {
    assert [op][..0] == [];
    assert Steps(norm, w, [op][..0]) == w;
  }

  /** The operations of a program, one at a time, reach the program's own result. */
  lemma {:induction false} FlattenRuns(norm: Norm, p: Prog, w: World)
    ensures Steps(norm, w, Flatten(p)) == w.(env := Exec(norm, p, w.env))
    decreases p
  {
    match p {
      case Done =>
      case Ensuring(target, front, next) =>
        var op := EnsureOp(target, front);
        StepsConcat(norm, w, [op], Flatten(next));
        StepsOne(norm, w, op);
        FlattenRuns(norm, next, Step(norm, w, op));
      case Block(target, body, next) =>
        var inside := Step(norm, w, EnterOp(target));
        StepsConcat(norm, w, [EnterOp(target)], Flatten(body) + ([LeaveOp] + Flatten(next)));
        StepsOne(norm, w, EnterOp(target));
        StepsConcat(norm, inside, Flatten(body), [LeaveOp] + Flatten(next));
        FlattenRuns(norm, body, inside);
        var done := inside.(env := Exec(norm, body, inside.env));
        StepsConcat(norm, done, [LeaveOp], Flatten(next));
        StepsOne(norm, done, LeaveOp);
        FlattenRuns(norm, next, Step(norm, done, LeaveOp));
    }
  }

  lemma StepCopies(norm: Norm, w: World, op: Op, n: string)
    ensures CopiesIn(norm, Step(norm, w, op).env, n) <= CopiesIn(norm, w.env, n)
            || CopiesIn(norm, Step(norm, w, op).env, n) == 1
  {
    match op {
      case EnterOp(target) =>
        RemoveView(norm, w.env.path, norm(target), n);
        ConsView(norm, target, w.env.path, n);
      case LeaveOp =>
        if w.frames != [] && w.frames[|w.frames| - 1].Owns? {
          RemoveView(norm, w.env.path, w.frames[|w.frames| - 1].name, n);
        }
      case EnsureOp(target, front) =>
        var m := norm(target);
        RemoveView(norm, w.env.path, m, n);
        ConsView(norm, target, w.env.path, n);
        ConsView(norm, target, RemoveFirst(norm, w.env.path, m), n);
    }
  }

  /** No run stacks copies: at most one, or as many as there were. */
  lemma {:induction false} CopiesBounded(norm: Norm, w: World, ops: seq<Op>, n: string)
    ensures var start := CopiesIn(norm, w.env, n);
            CopiesIn(norm, Steps(norm, w, ops).env, n) <= if start < 1 then 1 else start
    decreases |ops|
  {
    if ops != [] {
      var init := ops[..|ops| - 1];
      CopiesBounded(norm, w, init, n);
      StepCopies(norm, Steps(norm, w, init), ops[|ops| - 1], n);
    }
  }

  predicate NoFront(ops: seq<Op>) {
    forall op | op in ops :: op.EnsureOp? ==> !op.front
  }

  predicate IsSuffix(s: seq<string>, path: seq<string>) {
    |s| <= |path| && path[|path| - |s|..] == s
  }

  lemma {:induction false} RemoveBeforeSuffix(norm: Norm, path: seq<string>, n: string, s: seq<string>)
    requires IsSuffix(s, path) && n !in Names(norm, s)
    ensures IsSuffix(s, RemoveFirst(norm, path, n))
    decreases |path|
  {
    if path != [] && |path| > |s| {
      assert path[1..][|path| - 1 - |s|..] == s;
      if norm(path[0]) != n {
        RemoveBeforeSuffix(norm, path[1..], n, s);
        var r := RemoveFirst(norm, path[1..], n);
        assert ([path[0]] + r)[|r| + 1 - |s|..] == r[|r| - |s|..];
      }
    } else if path != [] {
      assert path == s && norm(path[0]) == Names(norm, s)[0];
      assert s == [s[0]] + s[1..];
      RemoveAbsent(norm, s, n);
    }
  }

  lemma {:induction false} RemoveAbsent(norm: Norm, path: seq<string>, n: string)
    requires n !in Names(norm, path)
    ensures RemoveFirst(norm, path, n) == path
    decreases |path|
  {
    if path != [] {
      assert Names(norm, path)[0] == norm(path[0]);
      assert forall i | 0 <= i < |path| - 1 :: Names(norm, path[1..])[i] == Names(norm, path)[i + 1];
      RemoveAbsent(norm, path[1..], n);
    }
  }

  predicate FramesMiss(norm: Norm, frames: seq<Frame>, s: seq<string>) {
    forall f | f in frames :: f.Owns? ==> f.name !in Names(norm, s)
  }

  lemma SuffixNames(norm: Norm, path: seq<string>, s: seq<string>)
    requires IsSuffix(s, path)
    ensures forall n | n in Names(norm, s) :: n in Names(norm, path)
  {
    forall n | n in Names(norm, s) ensures n in Names(norm, path) {
      var i :| 0 <= i < |s| && Names(norm, s)[i] == n;
      assert path[|path| - |s| + i] == s[i];
      assert Names(norm, path)[|path| - |s| + i] == n;
    }
  }

  /** Without `front=True` the initial path is never reordered or shortened: it stays a suffix. */
  lemma {:induction false} InitialPathStaysSuffix(norm: Norm, w: World, ops: seq<Op>)
    requires w.frames == [] && NoFront(ops)
    ensures var end := Steps(norm, w, ops);
            IsSuffix(w.env.path, end.env.path) && FramesMiss(norm, end.frames, w.env.path)
    decreases |ops|
  {
    if ops == [] {
      assert w.env.path[0..] == w.env.path;
    } else {
      var init, op, s := ops[..|ops| - 1], ops[|ops| - 1], w.env.path;
      assert forall o | o in init :: o in ops;
      assert op in ops;
      InitialPathStaysSuffix(norm, w, init);
      StepKeepsSuffix(norm, Steps(norm, w, init), op, s);
    }
  }

  lemma StepKeepsSuffix(norm: Norm, w: World, op: Op, s: seq<string>)
    requires IsSuffix(s, w.env.path) && FramesMiss(norm, w.frames, s) && (op.EnsureOp? ==> !op.front)
    ensures IsSuffix(s, Step(norm, w, op).env.path) && FramesMiss(norm, Step(norm, w, op).frames, s)
  {
    var path := w.env.path;
    SuffixNames(norm, path, s);
    match op {
      case EnterOp(target) =>
        assert ([target] + path)[|path| + 1 - |s|..] == path[|path| - |s|..];
      case LeaveOp =>
        if w.frames != [] {
          var f := w.frames[|w.frames| - 1];
          assert f in w.frames;
          if f.Owns? { RemoveBeforeSuffix(norm, path, f.name, s); }
        }
      case EnsureOp(target, front) =>
        assert ([target] + path)[|path| + 1 - |s|..] == path[|path| - |s|..];
    }
  }

  /** No operation of the run ensures the target of a block that is open at that moment. */
  predicate Disciplined(norm: Norm, w: World, ops: seq<Op>) {
    ops == [] ||
    (var init, op := ops[..|ops| - 1], ops[|ops| - 1];
     Disciplined(norm, w, init) && (op.EnsureOp? ==> Owns(norm(op.target)) !in Steps(norm, w, init).frames))
  }

  predicate LedgerTrue(norm: Norm, w: World) {
    && (forall n | n in w.env.ensured :: n in Names(norm, w.env.path))
    && (forall f | f in w.frames :: f.Owns? ==> f.name !in w.env.ensured)
  }

  lemma OnPathIffCopies(norm: Norm, e: Env, n: string)
    ensures n in Names(norm, e.path) <==> CopiesIn(norm, e, n) > 0
  {
    CopiesDrop(Names(norm, e.path), n, n);
  }

  lemma EnsureKeepsEntry(norm: Norm, e: Env, target: string, front: bool, n: string)
    requires n in e.ensured ==> CopiesIn(norm, e, n) > 0
    ensures n in Ensure(norm, e, target, front).ensured ==> CopiesIn(norm, Ensure(norm, e, target, front), n) > 0
  {
    var m := norm(target);
    if n == m {
      OnPathIffCopies(norm, e, n);
      ConsView(norm, target, e.path, n);
      ConsView(norm, target, RemoveFirst(norm, e.path, m), n);
      if e.path != [] { NamesCons(norm, e.path[0], e.path[1..]); assert e.path == [e.path[0]] + e.path[1..]; }
    } else {
      EnsureView(norm, e, target, front, n);
    }
  }

  lemma StepKeepsEntry(norm: Norm, w: World, op: Op, n: string)
    requires LedgerTrue(norm, w) && n in Step(norm, w, op).env.ensured
    ensures n in Names(norm, Step(norm, w, op).env.path)
  {
    OnPathIffCopies(norm, w.env, n);
    OnPathIffCopies(norm, Step(norm, w, op).env, n);
    match op {
      case EnterOp(target) => ConsView(norm, target, w.env.path, n);
      case EnsureOp(target, front) => EnsureKeepsEntry(norm, w.env, target, front, n);
      case LeaveOp =>
        if w.frames != [] {
          var f := w.frames[|w.frames| - 1];
          assert f in w.frames;
          if f.Owns? { RemoveView(norm, w.env.path, f.name, n); }
        }
    }
  }

  lemma StepKeepsLedger(norm: Norm, w: World, op: Op)
    requires LedgerTrue(norm, w) && (op.EnsureOp? ==> Owns(norm(op.target)) !in w.frames)
    ensures LedgerTrue(norm, Step(norm, w, op))
  {
    var after := Step(norm, w, op);
    forall n | n in after.env.ensured ensures n in Names(norm, after.env.path) {
      StepKeepsEntry(norm, w, op, n);
    }
    forall f | f in after.frames && f.Owns? ensures f.name !in after.env.ensured {
      assert f in w.frames || (op.EnterOp? && f.name == norm(op.target) && f.name !in Names(norm, w.env.path));
    }
  }

  /** In a disciplined run every ledger entry is on the path. */
  lemma {:induction false} LedgerStaysTrue(norm: Norm, w: World, ops: seq<Op>)
    requires LedgerTrue(norm, w) && Disciplined(norm, w, ops)
    ensures LedgerTrue(norm, Steps(norm, w, ops))
    decreases |ops|
  {
    if ops != [] {
      LedgerStaysTrue(norm, w, ops[..|ops| - 1]);
      StepKeepsLedger(norm, Steps(norm, w, ops[..|ops| - 1]), ops[|ops| - 1]);
    }
  }
}
