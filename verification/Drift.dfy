/** The bounded drift counter: the run of equal signatures at the tail of the convergence ledger,
    read through a window of the last lines. */
module Drift {

  /** A ledger line: unreadable (or missing a signature field), or carrying a signature. */
  datatype Row<T> = Malformed | Valid(sig: T)

  const ROTATION_WINDOW := 3
  const DRIFT_ESCALATE_ROWS := 6
  const WORKER_PROGRESS_MINUTES := 20.0

  /** `lines[-window:]`: the last lines, and all of them when the window is zero. */
  function Tail<T>(rows: seq<Row<T>>, window: nat): seq<Row<T>> {
    if window == 0 || |rows| <= window then rows else rows[|rows| - window..]
  }

  function Signatures<T>(rows: seq<Row<T>>): seq<T> {
    if rows == [] then [] else
      var last := rows[|rows| - 1];
      Signatures(rows[..|rows| - 1]) + (if last.Valid? then [last.sig] else [])
  }

  /** How many elements at the end of `s` equal `ref` without a break. */
  function RunOf<T(==)>(s: seq<T>, ref: T): nat {
    if s != [] && s[|s| - 1] == ref then 1 + RunOf(s[..|s| - 1], ref) else 0
  }

  function TrailingRun<T(==)>(s: seq<T>): nat {
    if s == [] then 0 else RunOf(s, s[|s| - 1])
  }

  method TailSignatures<T>(rows: seq<Row<T>>, window: nat) returns (sigs: seq<T>)
    ensures sigs == Signatures(Tail(rows, window))
  {
    var tail := Tail(rows, window);
    sigs := [];
    for i := 0 to |tail|
      invariant sigs == Signatures(tail[..i])
    {
      assert tail[..i + 1][..i] == tail[..i];
      if tail[i].Valid? {
        sigs := sigs + [tail[i].sig];
      }
    }
    assert tail[..|tail|] == tail;
  }

  method SignatureRotation<T(==)>(rows: seq<Row<T>>, window: nat) returns (count: nat)
    ensures count == TrailingRun(Signatures(Tail(rows, window)))
  {
    var sigs := TailSignatures(rows, window);
    if sigs == [] {
      return 0;
    }
    var ref := sigs[|sigs| - 1];
    count := 0;
    var i := |sigs|;
    assert sigs[..i] == sigs;
    while i > 0
      invariant 0 <= i <= |sigs|
      invariant TrailingRun(sigs) == count + RunOf(sigs[..i], ref)
    {
      assert sigs[..i][..i - 1] == sigs[..i - 1];
      if sigs[i - 1] != ref {
        return;
      }
      count := count + 1;
      i := i - 1;
    }
  }

  /** A worker's status file: its last status word and the minute it was written. */
  datatype Worker = Worker(status: string, mtime: real)

  /** Some worker in progress wrote its status file less than the fresh minutes ago. */
  predicate WorkersProgressing(workers: seq<Worker>, now: real) {
    exists w | w in workers :: w.status == "in-progress" && w.mtime > now - WORKER_PROGRESS_MINUTES
  }

  method DriftDetected<T(==)>(rows: seq<Row<T>>, workers: seq<Worker>, now: real) returns (drift: bool)
    ensures drift <==>
            && TrailingRun(Signatures(Tail(rows, DRIFT_ESCALATE_ROWS))) >= ROTATION_WINDOW
            && !WorkersProgressing(workers, now)
  {
    var window := if ROTATION_WINDOW < DRIFT_ESCALATE_ROWS then DRIFT_ESCALATE_ROWS else ROTATION_WINDOW;
    var n := SignatureRotation(rows, window);
    drift := n >= ROTATION_WINDOW && !WorkersProgressing(workers, now);
  }

  // ---- what the window holds ----

  /** The window holds the last lines, as many as asked for; all of them when there are no more, or when
      none is asked for. */
  lemma TailIsLast<T>(a: seq<Row<T>>, b: seq<Row<T>>, window: nat)
    ensures b != [] ==> Tail(a + b, |b|) == b
    ensures |b| <= window || window == 0 ==> Tail(b, window) == b
  {}

  lemma {:induction false} EqualRows<T>(rows: seq<Row<T>>, sig: T)
    requires forall r | r in rows :: r == Valid(sig)
    ensures |Signatures(rows)| == |rows| == RunOf(Signatures(rows), sig)
    ensures rows != [] ==> Signatures(rows)[|rows| - 1] == sig
    decreases |rows|
  {
    if rows != [] {
      var init := rows[..|rows| - 1];
      assert rows[|rows| - 1] in rows && forall r | r in init :: r in rows;
      EqualRows(init, sig);
      assert (Signatures(init) + [sig])[..|init|] == Signatures(init);
    }
  }

  /** Three equal rows at the end make a drift, two do not; more than six make no difference. */
  lemma ThreeEqualRows<T>(rows: seq<Row<T>>, sig: T)
    requires forall r | r in rows :: r == Valid(sig)
    ensures TrailingRun(Signatures(Tail(rows, DRIFT_ESCALATE_ROWS))) == if |rows| < 6 then |rows| else 6
    ensures TrailingRun(Signatures(Tail(rows, DRIFT_ESCALATE_ROWS))) >= ROTATION_WINDOW <==> |rows| >= 3
  {
    assert forall r | r in Tail(rows, DRIFT_ESCALATE_ROWS) :: r in rows;
    EqualRows(Tail(rows, DRIFT_ESCALATE_ROWS), sig);
  }

  /** A worker counts as progressing for twenty minutes after it wrote that it is in progress. */
  lemma ProgressWindow(w: Worker, now: real)
    ensures WorkersProgressing([w], now) <==> w.status == "in-progress" && now - w.mtime < 20.0
  {
    assert [w][0] == w;
  }

  // ---- what the window costs ----

  lemma {:induction false} SignaturesOfConcat<T>(a: seq<Row<T>>, b: seq<Row<T>>)
    ensures Signatures(a + b) == Signatures(a) + Signatures(b)
    decreases |b|
  {
    if b == [] {
      assert a + b == a;
    } else {
      assert (a + b)[..|a + b| - 1] == a + b[..|b| - 1];
      SignaturesOfConcat(a, b[..|b| - 1]);
    }
  }

  lemma {:induction false} RunOfSuffix<T>(a: seq<T>, b: seq<T>, ref: T)
    ensures RunOf(b, ref) == if RunOf(a + b, ref) < |b| then RunOf(a + b, ref) else |b|
    decreases |b|
  {
    if b == [] {
      assert a + b == a;
    } else {
      assert (a + b)[..|a + b| - 1] == a + b[..|b| - 1];
      RunOfSuffix(a, b[..|b| - 1], ref);
    }
  }

  /** The run is the longest suffix of one repeated signature. */
  lemma {:induction false} RunIsLongest<T>(s: seq<T>, ref: T)
    ensures RunOf(s, ref) <= |s| && forall i | |s| - RunOf(s, ref) <= i < |s| :: s[i] == ref
    ensures RunOf(s, ref) < |s| ==> s[|s| - RunOf(s, ref) - 1] != ref
    decreases |s|
  {
    if s != [] && s[|s| - 1] == ref {
      RunIsLongest(s[..|s| - 1], ref);
    }
  }

  lemma TrailingRunOfSuffix<T>(a: seq<T>, b: seq<T>)
    ensures TrailingRun(b) == if TrailingRun(a + b) < |b| then TrailingRun(a + b) else |b|
  {
    if b != [] {
      var ref := b[|b| - 1];
      assert (a + b)[|a + b| - 1] == ref;
      RunOfSuffix(a, b, ref);
    }
  }

  lemma TailSplits<T>(rows: seq<Row<T>>, window: nat) returns (head: seq<Row<T>>)
    ensures rows == head + Tail(rows, window)
  {
    head := rows[..|rows| - |Tail(rows, window)|];
  }

  /** The windowed count is the unbounded run cut off at the number of readable rows in the window. */
  lemma WindowedRun<T>(rows: seq<Row<T>>, window: nat)
    ensures TrailingRun(Signatures(Tail(rows, window))) ==
            var run, readable := TrailingRun(Signatures(rows)), |Signatures(Tail(rows, window))|;
            if run < readable then run else readable
  {
    var head := TailSplits(rows, window);
    SignaturesOfConcat(head, Tail(rows, window));
    TrailingRunOfSuffix(Signatures(head), Signatures(Tail(rows, window)));
  }

  lemma {:induction false} AllReadable<T>(rows: seq<Row<T>>)
    requires Malformed !in rows
    ensures |Signatures(rows)| == |rows|
    decreases |rows|
  {
    if rows != [] {
      var init := rows[..|rows| - 1];
      assert forall r | r in init :: r in rows;
      assert rows[|rows| - 1] in rows;
      AllReadable(init);
    }
  }

  /** The bounded verdict equals the unbounded one exactly when the window holds enough readable
      rows for the threshold, or the unbounded run is below it anyway. */
  lemma BoundedVerdictExact<T>(rows: seq<Row<T>>, window: nat, threshold: nat)
    ensures (TrailingRun(Signatures(Tail(rows, window))) >= threshold <==> TrailingRun(Signatures(rows)) >= threshold)
            <==> (TrailingRun(Signatures(rows)) < threshold || |Signatures(Tail(rows, window))| >= threshold)
    ensures threshold <= window && Malformed !in Tail(rows, window) ==>
            (TrailingRun(Signatures(Tail(rows, window))) >= threshold <==> TrailingRun(Signatures(rows)) >= threshold)
    ensures TrailingRun(Signatures(Tail(rows, window))) <= TrailingRun(Signatures(rows))
  {
    WindowedRun(rows, window);
    if Malformed !in Tail(rows, window) {
      AllReadable(Tail(rows, window));
      var s := Signatures(rows);
      if s != [] { RunIsLongest(s, s[|s| - 1]); }
    }
  }
}
