/** The bounded-repetition breaker of demoted warnings: rows land up to a bound per family, then the
    family is owned by exactly one action. */
module Breaker {

  datatype Option<+T> = None | Some(value: T)

  const BOUND := 24

  datatype Family = Family(count: nat, tripped: bool, action: Option<string>, suppressed: nat)

  const FRESH := Family(0, false, None, 0)

  datatype Trip = Trip(family: string, action: string)

  /** The state file, the sidecar rows (by family) and the trip rows. */
  datatype State = State(families: map<string, Family>, rows: seq<string>, trips: seq<Trip>)

  function FamilyOf(families: map<string, Family>, f: string): Family {
    if f in families then families[f] else FRESH
  }

  /** `record_family`: the family after one demotion, before a possible save. */
  function Accrue(fam: Family, action: string): Family {
    if fam.tripped then fam.(suppressed := fam.suppressed + 1)
    else
      var counted := fam.(count := fam.count + 1);
      if counted.count >= BOUND then counted.(tripped := true, action := Some(action)) else counted
  }

  function DemoteStep(st: State, f: string, action: string, saved: bool, appended: bool): State {
    var before := FamilyOf(st.families, f);
    var after := Accrue(before, action);
    State(if saved then st.families[f := after] else st.families,
          if before.tripped || !appended then st.rows else st.rows + [f],
          if after.tripped && !before.tripped then st.trips + [Trip(f, action)] else st.trips)
  }

  class WarnBreaker {
    var families: map<string, Family>
    var rows: seq<string>
    var trips: seq<Trip>

    constructor ()
      ensures Now() == State(map[], [], [])
    {
      families, rows, trips := map[], [], [];
    }

    function Now(): State
      reads this
    { State(families, rows, trips) }

    /** `saved` is false when the state file could not be written. */
    method RecordFamily(f: string, action: string, saved: bool) returns (suppressRow: bool)
      modifies this`families, this`trips
      ensures suppressRow == FamilyOf(old(families), f).tripped
      ensures Now() == DemoteStep(old(Now()), f, action, saved, false)
    {
      var fam := FamilyOf(families, f);
      if fam.tripped {
        if saved {
          families := families[f := fam.(suppressed := fam.suppressed + 1)];
        }
        return true;
      }
      fam := fam.(count := fam.count + 1);
      if fam.count >= BOUND {
        fam := fam.(tripped := true, action := Some(action));
        trips := trips + [Trip(f, action)];
      }
      if saved {
        families := families[f := fam];
      }
      return false;
    }

    /** `appended` is false when the row could not be written; that is not reported either. */
    method WarnSidecar(f: string, action: string, saved: bool, appended: bool) returns (landed: bool)
      modifies this
      ensures Now() == DemoteStep(old(Now()), f, action, saved, appended)
      ensures landed <==> !FamilyOf(old(families), f).tripped
    {
      var suppress := RecordFamily(f, action, saved);
      if suppress {
        return false;
      }
      if appended {
        rows := rows + [f];
      }
      landed := true;
    }
  }

  // ---- runs ----

  datatype Step = Demote(family: string, action: string, saved: bool, appended: bool) | LoseState

  function Apply(st: State, s: Step): State {
    match s
    case Demote(f, action, saved, appended) => DemoteStep(st, f, action, saved, appended)
    case LoseState => st.(families := map[])
  }

  const START := State(map[], [], [])

  function Run(steps: seq<Step>): State {
    if steps == [] then START else Apply(Run(steps[..|steps| - 1]), steps[|steps| - 1])
  }

  predicate IsDemotion(s: Step, f: string) { s.Demote? && s.family == f }

  function Count(steps: seq<Step>, p: Step -> bool): nat {
    if steps == [] then 0 else Count(steps[..|steps| - 1], p) + (if p(steps[|steps| - 1]) then 1 else 0)
  }

  function Demotions(steps: seq<Step>, f: string): nat { Count(steps, s => IsDemotion(s, f)) }
  function Losses(steps: seq<Step>): nat { Count(steps, (s: Step) => s.LoseState?) }
  function Unsaved(steps: seq<Step>, f: string): nat { Count(steps, s => IsDemotion(s, f) && !s.saved) }

  function RowsOf(rows: seq<string>, f: string): nat {
    if rows == [] then 0 else RowsOf(rows[..|rows| - 1], f) + (if rows[|rows| - 1] == f then 1 else 0)
  }

  function TripsOf(trips: seq<Trip>, f: string): seq<string> {
    if trips == [] then [] else
      TripsOf(trips[..|trips| - 1], f) + (if trips[|trips| - 1].family == f then [trips[|trips| - 1].action] else [])
  }

  function Min(a: nat, b: nat): nat { if a < b then a else b }

  /** The action asked for at the n-th demotion of the family (1-based). */
  function ActionAt(steps: seq<Step>, f: string, n: nat): string {
    if steps == [] then "" else
      var init, last := steps[..|steps| - 1], steps[|steps| - 1];
      if IsDemotion(last, f) && Demotions(init, f) + 1 == n then last.action else ActionAt(init, f, n)
  }

  lemma TripsSnoc(trips: seq<Trip>, t: Trip, f: string)
    ensures TripsOf(trips + [t], f) == TripsOf(trips, f) + (if t.family == f then [t.action] else [])
  {
    assert (trips + [t])[..|trips|] == trips;
  }

  /** The step lands a row of `f`. */
  predicate Lands(st: State, s: Step, f: string) {
    IsDemotion(s, f) && s.appended && !FamilyOf(st.families, f).tripped
  }

  /** The step trips `f`. */
  predicate Trips(st: State, s: Step, f: string) {
    var fam := FamilyOf(st.families, f);
    IsDemotion(s, f) && !fam.tripped && Accrue(fam, s.action).tripped
  }

  lemma StepRows(st: State, s: Step, f: string)
    ensures RowsOf(Apply(st, s).rows, f) == RowsOf(st.rows, f) + (if Lands(st, s, f) then 1 else 0)
  {
    if s.Demote? {
      assert (st.rows + [s.family])[..|st.rows|] == st.rows;
    }
  }

  lemma StepTrips(st: State, s: Step, f: string)
    ensures TripsOf(Apply(st, s).trips, f) == TripsOf(st.trips, f) + (if Trips(st, s, f) then [s.action] else [])
  {
    if s.Demote? {
      TripsSnoc(st.trips, Trip(s.family, s.action), f);
    }
  }

  lemma StepFamily(st: State, s: Step, f: string)
    requires s.Demote?
    ensures var fam := FamilyOf(st.families, f);
            FamilyOf(Apply(st, s).families, f) == if s.family == f && s.saved then Accrue(fam, s.action) else fam
  {}

  lemma StepView(st: State, s: Step, f: string)
    ensures RowsOf(Apply(st, s).rows, f) == RowsOf(st.rows, f) + (if Lands(st, s, f) then 1 else 0)
    ensures TripsOf(Apply(st, s).trips, f) == TripsOf(st.trips, f) + (if Trips(st, s, f) then [s.action] else [])
    ensures s.Demote? ==> (
              var fam := FamilyOf(st.families, f);
              FamilyOf(Apply(st, s).families, f) == if s.family == f && s.saved then Accrue(fam, s.action) else fam)
  {
    StepRows(st, s, f);
    StepTrips(st, s, f);
    if s.Demote? {
      StepFamily(st, s, f);
    }
  }

  /** The rows that could be written among the first 24 demotions of a family. */
  function Written(steps: seq<Step>, f: string): nat {
    if steps == [] then 0 else
      var init, last := steps[..|steps| - 1], steps[|steps| - 1];
      Written(init, f) + (if IsDemotion(last, f) && last.appended && Demotions(init, f) < BOUND then 1 else 0)
  }

  lemma {:induction false} WrittenBound(steps: seq<Step>, f: string)
    ensures Written(steps, f) <= Min(Demotions(steps, f), BOUND)
    ensures (forall s | s in steps && s.Demote? :: s.appended) ==> Written(steps, f) == Min(Demotions(steps, f), BOUND)
    decreases |steps|
  {
    if steps != [] {
      var init, last := steps[..|steps| - 1], steps[|steps| - 1];
      assert last in steps && forall s | s in init :: s in steps;
      WrittenBound(init, f);
    }
  }

  predicate Undisturbed(steps: seq<Step>) { forall s | s in steps :: s.Demote? && s.saved }

  lemma {:induction false} FamilyForm(steps: seq<Step>, f: string)
    requires Undisturbed(steps)
    ensures var fam, n := FamilyOf(Run(steps).families, f), Demotions(steps, f);
            && fam.count == Min(n, BOUND) && fam.suppressed == n - Min(n, BOUND) && (fam.tripped <==> n >= BOUND)
            && fam.action == (if n >= BOUND then Some(ActionAt(steps, f, BOUND)) else None)
    decreases |steps|
  {
    if steps != [] {
      assert Undisturbed(steps[..|steps| - 1]) && steps[|steps| - 1].Demote? && steps[|steps| - 1].saved;
      FamilyForm(steps[..|steps| - 1], f);
      StepFamily(Run(steps[..|steps| - 1]), steps[|steps| - 1], f);
    }
  }

  lemma {:induction false} RowsForm(steps: seq<Step>, f: string)
    requires Undisturbed(steps)
    ensures RowsOf(Run(steps).rows, f) == Written(steps, f)
    decreases |steps|
  {
    if steps != [] {
      var init := steps[..|steps| - 1];
      assert Undisturbed(steps[..|steps| - 1]) && steps[|steps| - 1].Demote? && steps[|steps| - 1].saved;
      RowsForm(init, f);
      FamilyForm(init, f);
      StepRows(Run(init), steps[|steps| - 1], f);
    }
  }

  lemma {:induction false} TripsForm(steps: seq<Step>, f: string)
    requires Undisturbed(steps)
    ensures TripsOf(Run(steps).trips, f) == if Demotions(steps, f) >= BOUND then [ActionAt(steps, f, BOUND)] else []
    decreases |steps|
  {
    if steps != [] {
      var init := steps[..|steps| - 1];
      assert Undisturbed(steps[..|steps| - 1]) && steps[|steps| - 1].Demote? && steps[|steps| - 1].saved;
      TripsForm(init, f);
      FamilyForm(init, f);
      StepTrips(Run(init), steps[|steps| - 1], f);
    }
  }

  /** Closed form. In any interleaving of families without state loss or failed saves, n demotions of
      one leave count min(n, 24), suppressed the rest, a row for each of the first 24 that could be
      written, and one trip, with the action asked for at the 24th, exactly when n reaches 24. */
  lemma {:induction false} ClosedForm(steps: seq<Step>, f: string)
    requires Undisturbed(steps)
    ensures var st, n := Run(steps), Demotions(steps, f);
            var fam := FamilyOf(st.families, f);
            && fam.count == Min(n, BOUND) && fam.suppressed == n - Min(n, BOUND)
            && (fam.tripped <==> n >= BOUND)
            && RowsOf(st.rows, f) == Written(steps, f)
            && TripsOf(st.trips, f) == (if n >= BOUND then [ActionAt(steps, f, BOUND)] else [])
            && fam.action == (if n >= BOUND then Some(ActionAt(steps, f, BOUND)) else None)
  {
    FamilyForm(steps, f);
    RowsForm(steps, f);
    TripsForm(steps, f);
  }

  /** With k losses of the state file and u failed saves: at most 24(k+1) + u rows, k+1+u trips. */
  lemma {:induction false} LossBound(steps: seq<Step>, f: string)
    ensures var st, slack := Run(steps), Unsaved(steps, f);
            && RowsOf(st.rows, f) <= BOUND * (Losses(steps) + 1) + slack
            && |TripsOf(st.trips, f)| <= Losses(steps) + 1 + slack
  {
    LossPotential(steps, f);
  }

  lemma {:induction false} LossPotential(steps: seq<Step>, f: string)
    ensures var st, slack := Run(steps), Unsaved(steps, f);
            var fam := FamilyOf(st.families, f);
            && fam.count <= BOUND && (fam.tripped <==> fam.count >= BOUND)
            && RowsOf(st.rows, f) <= BOUND * Losses(steps) + slack + fam.count
            && |TripsOf(st.trips, f)| <= Losses(steps) + slack + (if fam.tripped then 1 else 0)
    decreases |steps|
  {
    if steps != [] {
      var init, last := steps[..|steps| - 1], steps[|steps| - 1];
      LossPotential(init, f);
      StepView(Run(init), last, f);
    }
  }
}
