/**
 * The backbone driver of backbones/src/main.rs.  After one solver call on
 * the input formula, each variable that has so far been seen with a single
 * value is probed: the clause forcing the opposite value is pushed, the
 * solver is asked again, and the clause is popped.  A probe the solver
 * refutes makes the variable a backbone; a satisfiable probe shows both
 * values.  The solver is the function from request text to reply text
 * that `CnfSat.Evaluate` takes.
 */
module Backbones {
  import opened Wrappers
  import opened Text
  import opened Clauses
  import opened DimacsFormat
  import opened Cnf

  // ------------------------------------------------------- classification

  /** What the driver knows of a variable; `Unseen` is the source's `None`. */
  datatype VariableValue = Unseen | True | False | Either | Backbone(value: bool)

  function FromBool(b: bool): VariableValue {
    if b then True else False
  }

  /** The values a variable has been seen with in models. */
  function Seen(v: VariableValue): set<bool> {
    match v
    case Unseen => {}
    case True => {true}
    case False => {false}
    case Either => {true, false}
    case Backbone(b) => {b}
  }

  /** The reasons the driver stops with a panic. */
  datatype Fault = VarMissing | UnseenAfterFirstRun | BackboneContradicted

  /**
   * The merge rule for a fresh observation `observed`: an unseen variable
   * takes the observed value (only on the first run), Either stays, a
   * backbone stays and must agree, and a single value stays or becomes
   * Either.
   */
  function Merge(current: VariableValue, observed: bool, firstRun: bool): (r: Result<VariableValue, Fault>)
    ensures r.Err? <==> (current == Unseen && !firstRun) || (current.Backbone? && current.value != observed)
    ensures r.Ok? ==> r.value != Unseen
    ensures r.Ok? && current.Backbone? ==> r.value == current
    ensures r.Ok? && !current.Backbone? ==> !r.value.Backbone? && Seen(r.value) == Seen(current) + {observed}
  {
    match current
    case Unseen => if firstRun then Ok(FromBool(observed)) else Err(UnseenAfterFirstRun)
    case Either => Ok(Either)
    case Backbone(value) => if value == observed then Ok(current) else Err(BackboneContradicted)
    case _ => if FromBool(observed) == current then Ok(current) else Ok(Either)
  }

  /** A variable the scan can pick: seen with exactly one value. */
  predicate IsCandidate(v: VariableValue) {
    v == True || v == False
  }

  /** A variable the driver has finished with. */
  predicate Settled(v: VariableValue) {
    v == Either || v.Backbone?
  }

  /**
   * `find_backbone_candidate`: the least index `i >= start` whose value is
   * True or False, with that value; None when there is none.
   */
  function FindBackboneCandidate(start: nat, values: seq<VariableValue>): (r: Option<(nat, bool)>)
    ensures r.None? <==> forall j :: start <= j < |values| ==> !IsCandidate(values[j])
    ensures r.Some? ==> start <= r.value.0 < |values| && values[r.value.0] == FromBool(r.value.1)
    ensures r.Some? ==> forall j :: start <= j < r.value.0 ==> !IsCandidate(values[j])
    decreases |values| - start
  {
    if start >= |values| then None
    else if values[start] == True then Some((start, true))
    else if values[start] == False then Some((start, false))
    else FindBackboneCandidate(start + 1, values)
  }

  // ------------------------------------------------------------- meaning

  /** Some model of `cs` gives `x` the value `b`. */
  ghost predicate Witnessed(cs: seq<Clause>, x: nat, b: bool) {
    exists a :: SatisfiesAll(a, cs) && x in a && a[x] == b
  }

  /** Every model of `cs` gives `x` the value `b`: `x` is a backbone with value `b`. */
  ghost predicate Forced(cs: seq<Clause>, x: nat, b: bool) {
    forall a :: SatisfiesAll(a, cs) ==> x in a && a[x] == b
  }

  /** What a classification claims about variable `x` of the clauses `cs`. */
  ghost predicate Justified(cs: seq<Clause>, x: nat, v: VariableValue) {
    match v
    case Unseen => true
    case True => Witnessed(cs, x, true)
    case False => Witnessed(cs, x, false)
    case Either => Witnessed(cs, x, true) && Witnessed(cs, x, false)
    case Backbone(b) => Forced(cs, x, b)
  }

  /** The probe clause: the single literal giving `x` the value `value`. */
  function UnitClause(x: nat, value: bool): Clause {
    Set(EmptyClause, x, value)
  }

  /** A model of the probe clause gives `x` the probed value. */
  lemma UnitClauseMeaning(a: Assignment, x: nat, value: bool)
    ensures SatisfiesClause(a, UnitClause(x, value)) <==> x in a && a[x] == value
  {
    if x in a && a[x] == value {
      assert x in UnitClause(x, value).values;
    }
  }

  /**
   * The probe of `x` against `b` is unsatisfiable exactly when every model
   * of `cs` gives `x` the value `b`.
   */
  lemma ProbeUnsatIffForced(cs: seq<Clause>, x: nat, b: bool)
    ensures !Satisfiable(cs + [UnitClause(x, !b)]) <==> Forced(cs, x, b)
  {
    var unit := UnitClause(x, !b);
    if !Satisfiable(cs + [unit]) {
      forall a | SatisfiesAll(a, cs) ensures x in a && a[x] == b {
        if !(x in a && a[x] == b) {
          var flipped := a[x := !b];
          forall i | 0 <= i < |cs + [unit]| ensures SatisfiesClause(flipped, (cs + [unit])[i]) {
            if i < |cs| {
              var c := cs[i];
              assert SatisfiesClause(a, c);
              var id :| id in c.values && id in a && a[id] == c.values[id];
              assert id in flipped && flipped[id] == c.values[id];
            } else {
              UnitClauseMeaning(flipped, x, !b);
            }
          }
          assert SatisfiesAll(flipped, cs + [unit]);
          assert false;
        }
      }
    }
    if Forced(cs, x, b) && Satisfiable(cs + [unit]) {
      var a :| SatisfiesAll(a, cs + [unit]);
      SatisfiesPrefix(a, cs, [unit]);
      assert SatisfiesClause(a, (cs + [unit])[|cs|]);
      UnitClauseMeaning(a, x, !b);
    }
  }

  /** Merging a value taken from a model of `cs` keeps the classification justified. */
  lemma MergeJustified(cs: seq<Clause>, x: nat, v: VariableValue, a: Assignment, firstRun: bool)
    requires SatisfiesAll(a, cs) && x in a
    requires Justified(cs, x, v)
    requires Merge(v, a[x], firstRun).Ok?
    ensures Justified(cs, x, Merge(v, a[x], firstRun).value)
  {
    assert Witnessed(cs, x, a[x]);
  }

  /**
   * For a satisfiable formula, a settled and justified classification is
   * exact: the variable is reported as the backbone `b` iff every model
   * gives it `b`.
   */
  lemma SettledIsExact(cs: seq<Clause>, x: nat, v: VariableValue, b: bool)
    requires Satisfiable(cs) && Settled(v) && Justified(cs, x, v)
    ensures v == Backbone(b) <==> Forced(cs, x, b)
  {
    var a :| SatisfiesAll(a, cs);
    if v == Either {
      var t :| SatisfiesAll(t, cs) && x in t && t[x] == true;
      var f :| SatisfiesAll(f, cs) && x in f && f[x] == false;
      assert !(x in f && f[x] == true);
      assert !(x in t && t[x] == false);
    }
  }

  // ------------------------------------------------------------ one round

  /** Looking up variable `x` in a solver's model and merging the value. */
  function Observe(v: VariableValue, model: SatModel, x: nat, firstRun: bool): Result<VariableValue, Fault> {
    match model.GetResultById(x)
    case None => Err(VarMissing)
    case Some(b) => Merge(v, b, firstRun)
  }

  /**
   * The merge loop of `main`: every variable's value in the model is merged
   * into its entry, in index order; the first missing variable or failed
   * merge panics.
   */
  method MergeModel(assignments: seq<VariableValue>, vars: seq<nat>, model: SatModel, firstRun: bool)
    returns (r: Result<seq<VariableValue>, Fault>)
    requires |vars| == |assignments|
    ensures r.Ok? <==> forall i :: 0 <= i < |vars| ==> Observe(assignments[i], model, vars[i], firstRun).Ok?
    ensures r.Ok? ==> |r.value| == |vars|
    ensures r.Ok? ==> forall i :: 0 <= i < |vars| ==> r.value[i] == Observe(assignments[i], model, vars[i], firstRun).value
    ensures r.Err? ==> exists i :: 0 <= i < |vars| && Observe(assignments[i], model, vars[i], firstRun) == Err(r.error)
                                   && forall j :: 0 <= j < i ==> Observe(assignments[j], model, vars[j], firstRun).Ok?
  {
    var current := assignments;
    for i := 0 to |vars|
      invariant |current| == |vars|
      invariant forall j :: 0 <= j < i ==> Observe(assignments[j], model, vars[j], firstRun).Ok?
      invariant forall j :: 0 <= j < i ==> current[j] == Observe(assignments[j], model, vars[j], firstRun).value
      invariant forall j :: i <= j < |vars| ==> current[j] == assignments[j]
    {
      var found := model.GetResultById(vars[i]);
      if found.None? {
        return Err(VarMissing);
      }
      var merged := Merge(current[i], found.value, firstRun);
      if merged.Err? {
        return Err(merged.error);
      }
      current := current[i := merged.value];
    }
    return Ok(current);
  }

  /**
   * A satisfiable round, given a model of the clauses sent: the base
   * clauses are satisfiable, every merged entry stays justified and
   * settled entries stay settled, and a probed candidate becomes Either
   * because the model gives it the opposite value.
   */
  lemma SatRound(base: seq<Clause>, clauses: seq<Clause>, vars: seq<nat>, firstRun: bool, probe: nat, probeValue: bool,
                 before: seq<VariableValue>, model: SatModel, after: seq<VariableValue>)
    requires |before| == |vars| && |after| == |vars|
    requires forall i :: 0 <= i < |vars| ==> Observe(before[i], model, vars[i], firstRun).Ok?
    requires forall i :: 0 <= i < |vars| ==> after[i] == Observe(before[i], model, vars[i], firstRun).value
    requires SatisfiesAll(model.resultsById, clauses)
    requires !firstRun ==> probe < |vars| && before[probe] == FromBool(probeValue)
    requires clauses == if firstRun then base else base + [UnitClause(vars[probe], !probeValue)]
    requires forall j :: 0 <= j < |vars| ==> Justified(base, vars[j], before[j])
    ensures Satisfiable(base)
    ensures forall j :: 0 <= j < |vars| ==> Justified(base, vars[j], after[j])
    ensures forall j :: 0 <= j < |vars| && Settled(before[j]) ==> Settled(after[j])
    ensures !firstRun ==> after[probe] == Either
  {
    var a := model.resultsById;
    if !firstRun {
      SatisfiesPrefix(a, base, [UnitClause(vars[probe], !probeValue)]);
      assert SatisfiesClause(a, clauses[|base|]);
      UnitClauseMeaning(a, vars[probe], !probeValue);
    }
    forall j | 0 <= j < |vars| ensures Justified(base, vars[j], after[j]) {
      MergeJustified(base, vars[j], before[j], a, firstRun);
    }
    forall j | 0 <= j < |vars| && Settled(before[j]) ensures Settled(after[j]) {
      if before[j] == Either {
        assert Seen(after[j]) == {true, false};
      }
    }
  }

  // ---------------------------------------------------------------- driver

  /** The driver's position: before the first solver call, or probing one candidate. */
  datatype State = FirstRun | Searching(candidateIndex: nat, candidateValue: bool)

  /** How the driver ends: with its classification, with the input refuted, or with a panic. */
  datatype RunOutcome = Finished(assignments: seq<VariableValue>) | UnsatisfiableInput | Panic(fault: Fault)

  /** How one solver round ends: the updated classification, or the end of the run. */
  datatype RoundResult = Continue(assignments: seq<VariableValue>) | Stop(outcome: RunOutcome)

  predicate StrictlyIncreasing(s: seq<nat>) {
    forall i, j :: 0 <= i < j < |s| ==> s[i] < s[j]
  }

  /** Strictly increasing numbers below `bound` are at most `bound` many. */
  lemma {:induction false} StrictlyIncreasingBound(s: seq<nat>, bound: nat)
    requires StrictlyIncreasing(s)
    requires forall k :: 0 <= k < |s| ==> s[k] < bound
    ensures |s| <= bound
  {
    if |s| > 0 {
      var last := s[|s| - 1];
      StrictlyIncreasingBound(s[..|s| - 1], last);
    }
  }

  /** The probe log after a round: the index just probed is appended to it. */
  function LogProbe(probes: seq<nat>, state: State): seq<nat> {
    if state.Searching? then probes + [state.candidateIndex] else probes
  }

  /**
   * Helper for the loop of `SearchBackbones`: logging the probed index keeps the
   * log increasing and below where the next scan starts, hence at most `bound` long.
   */
  lemma ProbeAppend(probes: seq<nat>, state: State, bound: nat)
    requires StrictlyIncreasing(probes)
    requires state.FirstRun? ==> probes == []
    requires state.Searching? ==>
               state.candidateIndex < bound && forall k :: 0 <= k < |probes| ==> probes[k] < state.candidateIndex
    ensures StrictlyIncreasing(LogProbe(probes, state))
    ensures forall k :: 0 <= k < |LogProbe(probes, state)| ==> LogProbe(probes, state)[k] < ScanStart(state)
    ensures |LogProbe(probes, state)| <= bound
  {
    StrictlyIncreasingBound(LogProbe(probes, state), bound);
  }

  predicate NoneUnseen(assignments: seq<VariableValue>) {
    forall j :: 0 <= j < |assignments| ==> assignments[j] != Unseen
  }

  predicate SettledBelow(assignments: seq<VariableValue>, bound: nat) {
    forall j :: 0 <= j < bound && j < |assignments| ==> Settled(assignments[j])
  }

  ghost predicate AllJustified(cs: seq<Clause>, vars: seq<nat>, assignments: seq<VariableValue>)
    requires |assignments| == |vars|
  {
    forall j :: 0 <= j < |vars| ==> Justified(cs, vars[j], assignments[j])
  }

  /** What a state expects of the classification when a round starts. */
  predicate RoundReady(vars: seq<nat>, state: State, assignments: seq<VariableValue>) {
    |assignments| == |vars|
    && (state.FirstRun? ==> forall j :: 0 <= j < |vars| ==> assignments[j] == Unseen)
    && (state.Searching? ==>
          state.candidateIndex < |vars|
          && assignments[state.candidateIndex] == FromBool(state.candidateValue)
          && NoneUnseen(assignments))
  }

  /** The probe clause a state pushes before asking the solver: none on the first run. */
  function ProbeClauses(vars: seq<nat>, state: State): seq<Clause>
    requires state.Searching? ==> state.candidateIndex < |vars|
  {
    if state.FirstRun? then [] else [UnitClause(vars[state.candidateIndex], !state.candidateValue)]
  }

  /**
   * The first half of the loop body of `main`: push the probe clause when
   * searching and ask the solver.  A correct solver's answer decides the
   * satisfiability of the clauses sent and comes with a full model.
   */
  method AskSolver(sat: CnfSat, vars: seq<nat>, solver: string -> string, state: State)
    returns (result: EvaluationResult, ghost orders: seq<seq<nat>>)
    requires sat.Valid()
    requires ReadableSolver(solver)
    requires state.Searching? ==> state.candidateIndex < |vars|
    requires forall i :: 0 <= i < |vars| ==> vars[i] < |sat.order|
    modifies sat`clauses
    ensures sat.Valid() && sat.variables == old(sat.variables) && sat.order == old(sat.order)
    ensures sat.clauses == old(sat.clauses) + ProbeClauses(vars, state)
    ensures Answered(solver, sat.order, sat.clauses, orders, result)
    ensures SoundSolver(solver) && Answerable(|sat.order|, old(sat.clauses)) ==> (result.Sat? <==> Satisfiable(sat.clauses))
    ensures SoundSolver(solver) && Answerable(|sat.order|, old(sat.clauses)) && result.Sat? ==>
              SatisfiesAll(result.model.resultsById, sat.clauses)
              && forall id :: 0 <= id < |sat.order| ==> id in result.model.resultsById
  {
    ghost var base := sat.clauses;
    if state.Searching? {
      sat.AddClause(UnitClause(vars[state.candidateIndex], !state.candidateValue));
    }
    result, orders := sat.Evaluate(solver);
    if SoundSolver(solver) && Answerable(|sat.order|, base) {
      IdsBelowConcat(base, ProbeClauses(vars, state), |sat.order|);
      SoundEvaluation(solver, sat.order, sat.clauses, orders, result);
    }
  }

  /**
   * What the loop body does with the solver's answer, whatever the solver.
   * An unsatisfiable first run ends the run; an unsatisfiable probe records
   * the probed literal as a backbone and changes no other entry. A model is
   * merged entry by entry, and the round goes on exactly when every merge
   * succeeds; otherwise it panics with the first failing entry's fault.
   */
  predicate Classified(vars: seq<nat>, state: State, assignments: seq<VariableValue>,
                       result: EvaluationResult, r: RoundResult)
    requires |assignments| == |vars|
    requires state.Searching? ==> state.candidateIndex < |vars|
  {
    match result
    case Unsat(_) =>
      r == if state.FirstRun? then Stop(UnsatisfiableInput)
           else Continue(assignments[state.candidateIndex := Backbone(state.candidateValue)])
    case Sat(_, model) =>
      (r.Continue? <==> forall i :: 0 <= i < |vars| ==> Observe(assignments[i], model, vars[i], state.FirstRun?).Ok?)
      && (r.Continue? ==>
            |r.assignments| == |vars|
            && forall i :: 0 <= i < |vars| ==> r.assignments[i] == Observe(assignments[i], model, vars[i], state.FirstRun?).value)
      && (r.Stop? ==>
            r.outcome.Panic?
            && exists i :: 0 <= i < |vars| && Observe(assignments[i], model, vars[i], state.FirstRun?) == Err(r.outcome.fault)
                           && forall j :: 0 <= j < i ==> Observe(assignments[j], model, vars[j], state.FirstRun?).Ok?)
  }

  /**
   * The second half of the loop body of `main` before the pop: merge a
   * model into the classification, or record the refuted probe as a
   * backbone.  A refuted first run ends the run; a failed merge panics.
   * `sound` says the answer is correct for the clauses `base` plus the
   * probe clause.
   */
  method Classify(ghost base: seq<Clause>, vars: seq<nat>, ghost variableCount: nat, state: State,
                  assignments: seq<VariableValue>, result: EvaluationResult, ghost sound: bool)
    returns (r: RoundResult)
    requires RoundReady(vars, state, assignments)
    requires forall i :: 0 <= i < |vars| ==> vars[i] < variableCount
    requires sound ==> AllJustified(base, vars, assignments)
    requires sound ==> (result.Sat? <==> Satisfiable(base + ProbeClauses(vars, state)))
    requires sound && result.Sat? ==>
               SatisfiesAll(result.model.resultsById, base + ProbeClauses(vars, state))
               && forall id :: 0 <= id < variableCount ==> id in result.model.resultsById
    ensures Classified(vars, state, assignments, result, r)
    ensures r.Stop? ==> r.outcome.Panic? || (r.outcome == UnsatisfiableInput && state.FirstRun?)
    ensures r.Continue? ==> |r.assignments| == |vars| && NoneUnseen(r.assignments)
    ensures r.Continue? && state.Searching? ==>
              forall j :: 0 <= j < |vars| && Settled(assignments[j]) ==> Settled(r.assignments[j])
    ensures sound ==> r.Continue? || r.outcome == UnsatisfiableInput
    ensures sound && r.Stop? ==> !Satisfiable(base)
    ensures sound && r.Continue? ==> Satisfiable(base) && AllJustified(base, vars, r.assignments)
    ensures sound && r.Continue? && state.Searching? ==> Settled(r.assignments[state.candidateIndex])
  {
    var firstRun := state.FirstRun?;
    assert firstRun ==> base + ProbeClauses(vars, state) == base;
    match result
    case Sat(_, model) =>
      var merged := MergeModel(assignments, vars, model, firstRun);
      if sound {
        SoundModelMerges(base, base + ProbeClauses(vars, state), variableCount, vars, firstRun, assignments, model);
      }
      if merged.Err? {
        return Stop(Panic(merged.error));
      }
      if sound {
        SatRound(base, base + ProbeClauses(vars, state), vars, firstRun,
                 if firstRun then 0 else state.candidateIndex, !firstRun && state.candidateValue,
                 assignments, model, merged.value);
      }
      SettledStaysSettled(assignments, vars, model, firstRun, merged.value);
      r := Continue(merged.value);
    case Unsat(_) =>
      if firstRun {
        return Stop(UnsatisfiableInput);
      }
      if sound {
        ProbeUnsatIffForced(base, vars[state.candidateIndex], state.candidateValue);
      }
      r := Continue(assignments[state.candidateIndex := Backbone(state.candidateValue)]);
  }

  /**
   * One pass of the loop body of `main` up to the choice of the next state:
   * ask the solver, classify its answer, pop the probe clause.
   */
  method Round(sat: CnfSat, vars: seq<nat>, solver: string -> string, state: State, assignments: seq<VariableValue>)
    returns (r: RoundResult, ghost answer: EvaluationResult, ghost orders: seq<seq<nat>>)
    requires sat.Valid()
    requires forall i :: 0 <= i < |vars| ==> vars[i] < |sat.order|
    requires ReadableSolver(solver)
    requires RoundReady(vars, state, assignments)
    requires SoundSolver(solver) && Answerable(|sat.order|, sat.clauses) ==> AllJustified(sat.clauses, vars, assignments)
    modifies sat`clauses
    ensures sat.Valid() && sat.variables == old(sat.variables) && sat.order == old(sat.order)
    ensures !(r.Stop? && r.outcome.Panic?) ==> sat.clauses == old(sat.clauses)
    ensures Answered(solver, sat.order, old(sat.clauses) + ProbeClauses(vars, state), orders, answer)
    ensures Classified(vars, state, assignments, answer, r)
    ensures r.Stop? ==> r.outcome.Panic? || (r.outcome == UnsatisfiableInput && state.FirstRun?)
    ensures r.Continue? ==> |r.assignments| == |vars| && NoneUnseen(r.assignments)
    ensures r.Continue? && state.Searching? ==>
              forall j :: 0 <= j < |vars| && Settled(assignments[j]) ==> Settled(r.assignments[j])
    ensures SoundSolver(solver) && Answerable(|sat.order|, old(sat.clauses)) ==> r.Continue? || r.outcome == UnsatisfiableInput
    ensures SoundSolver(solver) && Answerable(|sat.order|, old(sat.clauses)) && r.Stop? ==> !Satisfiable(old(sat.clauses))
    ensures SoundSolver(solver) && Answerable(|sat.order|, old(sat.clauses)) && r.Continue? ==>
              Satisfiable(old(sat.clauses)) && AllJustified(old(sat.clauses), vars, r.assignments)
    ensures SoundSolver(solver) && Answerable(|sat.order|, old(sat.clauses)) && r.Continue? && state.Searching? ==> Settled(r.assignments[state.candidateIndex])
  {
    ghost var base := sat.clauses;
    var result;
    result, orders := AskSolver(sat, vars, solver, state);
    answer := result;
    r := Classify(base, vars, |sat.order|, state, assignments, result,
                  SoundSolver(solver) && Answerable(|sat.order|, base));
    if state.Searching? && r.Continue? {
      sat.PopClause();
      assert sat.clauses == (base + ProbeClauses(vars, state))[..|base|];
    }
  }

  /** Under a correct solver no merge fails: every variable has a value and no backbone is contradicted. */
  lemma SoundModelMerges(base: seq<Clause>, clauses: seq<Clause>, variableCount: nat, vars: seq<nat>, firstRun: bool,
                         assignments: seq<VariableValue>, model: SatModel)
    requires |assignments| == |vars|
    requires forall i :: 0 <= i < |vars| ==> vars[i] < variableCount
    requires forall id :: 0 <= id < variableCount ==> id in model.resultsById
    requires SatisfiesAll(model.resultsById, clauses)
    requires exists extra :: clauses == base + extra
    requires !firstRun ==> NoneUnseen(assignments)
    requires AllJustified(base, vars, assignments)
    ensures forall i :: 0 <= i < |vars| ==> Observe(assignments[i], model, vars[i], firstRun).Ok?
  {
    var extra :| clauses == base + extra;
    SatisfiesPrefix(model.resultsById, base, extra);
    forall i | 0 <= i < |vars| ensures Observe(assignments[i], model, vars[i], firstRun).Ok? {
      assert vars[i] in model.resultsById;
      assert Justified(base, vars[i], assignments[i]);
    }
  }

  /** Merging never unsettles an entry and never leaves one unseen. */
  lemma SettledStaysSettled(before: seq<VariableValue>, vars: seq<nat>, model: SatModel, firstRun: bool, after: seq<VariableValue>)
    requires |before| == |vars| && |after| == |vars|
    requires forall i :: 0 <= i < |vars| ==> Observe(before[i], model, vars[i], firstRun).Ok?
    requires forall i :: 0 <= i < |vars| ==> after[i] == Observe(before[i], model, vars[i], firstRun).value
    ensures NoneUnseen(after)
    ensures forall j :: 0 <= j < |vars| && Settled(before[j]) ==> Settled(after[j])
  {
    forall j | 0 <= j < |vars| && Settled(before[j]) ensures Settled(after[j]) {
      if before[j] == Either {
        assert Seen(after[j]) == {true, false};
      }
    }
  }

  /**
   * The loop of `main` from the first solver call to the end of the search.
   * `calls` counts solver calls and `probes` lists the probed indices.
   */
  method SearchBackbones(sat: CnfSat, vars: seq<nat>, solver: string -> string)
    returns (outcome: RunOutcome, ghost calls: nat, ghost probes: seq<nat>)
    requires sat.Valid()
    requires forall i :: 0 <= i < |vars| ==> vars[i] < |sat.order|
    requires ReadableSolver(solver)
    modifies sat`clauses
    ensures sat.Valid() && sat.variables == old(sat.variables) && sat.order == old(sat.order)
    ensures !outcome.Panic? ==> sat.clauses == old(sat.clauses)
    ensures StrictlyIncreasing(probes) && forall k :: 0 <= k < |probes| ==> probes[k] < |vars|
    ensures calls == |probes| + 1 && calls <= |vars| + 1
    ensures outcome.Finished? ==> |outcome.assignments| == |vars|
    ensures SoundSolver(solver) && Answerable(|sat.order|, old(sat.clauses)) ==> !outcome.Panic?
    ensures SoundSolver(solver) && Answerable(|sat.order|, old(sat.clauses)) ==> (outcome.UnsatisfiableInput? <==> !Satisfiable(old(sat.clauses)))
    ensures SoundSolver(solver) && Answerable(|sat.order|, old(sat.clauses)) && outcome.Finished? ==>
              forall i :: 0 <= i < |vars| ==> Settled(outcome.assignments[i])
    ensures SoundSolver(solver) && Answerable(|sat.order|, old(sat.clauses)) && outcome.Finished? ==>
              forall i, b :: 0 <= i < |vars| ==>
                (outcome.assignments[i] == Backbone(b) <==> Forced(old(sat.clauses), vars[i], b))
  {
    var assignments := seq(|vars|, _ => Unseen);
    var state := FirstRun;
    ghost var base := sat.clauses;
    ghost var sound := SoundSolver(solver) && Answerable(|sat.order|, sat.clauses);
    calls := 0;
    probes := [];
    while true
      invariant sat.Valid() && sat.variables == old(sat.variables) && sat.order == old(sat.order)
      invariant sat.clauses == base
      invariant RoundReady(vars, state, assignments)
      invariant StrictlyIncreasing(probes)
      invariant state.FirstRun? ==> calls == 0 && probes == []
      invariant state.Searching? ==>
                  calls == |probes| + 1 && forall k :: 0 <= k < |probes| ==> probes[k] < state.candidateIndex
      invariant sound ==> AllJustified(base, vars, assignments)
      invariant sound && state.Searching? ==>
                  Satisfiable(base) && SettledBelow(assignments, state.candidateIndex)
      decreases if state.FirstRun? then |vars| + 1 else |vars| - state.candidateIndex
    {
      var round;
      ghost var answer, orders;
      round, answer, orders := Round(sat, vars, solver, state, assignments);
      calls := calls + 1;
      ProbeAppend(probes, state, |vars|);
      probes := LogProbe(probes, state);
      if round.Stop? {
        outcome := round.outcome;
        return;
      }
      if sound {
        SettledAfterRound(vars, state, assignments, round.assignments);
      }
      var next := Advance(base, vars, state, round.assignments, sound);
      assignments := round.assignments;
      if next.None? {
        outcome := Finished(assignments);
        return;
      }
      state := next.value;
    }
  }

  /** Helper for the loop invariant of `SearchBackbones`: a round that settles its probed variable and keeps every settled one extends the settled prefix. */
  lemma SettledAfterRound(vars: seq<nat>, state: State, before: seq<VariableValue>, after: seq<VariableValue>)
    requires RoundReady(vars, state, before) && |after| == |vars|
    requires state.Searching? ==>
               SettledBelow(before, state.candidateIndex) && Settled(after[state.candidateIndex])
               && forall j :: 0 <= j < |vars| && Settled(before[j]) ==> Settled(after[j])
    ensures SettledBelow(after, ScanStart(state))
  {
  }

  /** Where the scan for the next candidate starts: after the probed variable. */
  function ScanStart(state: State): nat {
    if state.FirstRun? then 0 else state.candidateIndex + 1
  }

  /**
   * The end of the loop body of `main`: the next state probes the first
   * candidate after the variable just probed (from the start after the first
   * run); with none left the run is over, and under a correct solver the
   * classification is then the exact backbone.
   */
  method Advance(ghost cs: seq<Clause>, vars: seq<nat>, state: State, assignments: seq<VariableValue>, ghost sound: bool)
    returns (next: Option<State>)
    requires |assignments| == |vars| && NoneUnseen(assignments)
    requires sound ==> Satisfiable(cs) && AllJustified(cs, vars, assignments) && SettledBelow(assignments, ScanStart(state))
    ensures next.Some? <==> exists j :: ScanStart(state) <= j < |vars| && IsCandidate(assignments[j])
    ensures next.Some? ==> next.value.Searching? && RoundReady(vars, next.value, assignments)
    ensures next.Some? ==> ScanStart(state) <= next.value.candidateIndex
    ensures sound && next.Some? ==> SettledBelow(assignments, next.value.candidateIndex)
    ensures sound && next.None? ==> forall i :: 0 <= i < |vars| ==> Settled(assignments[i])
    ensures sound && next.None? ==>
              forall i, b :: 0 <= i < |vars| ==> (assignments[i] == Backbone(b) <==> Forced(cs, vars[i], b))
  {
    var found := FindBackboneCandidate(ScanStart(state), assignments);
    if found.None? {
      if sound {
        FinishedIsExact(cs, vars, assignments, ScanStart(state));
      }
      return None;
    }
    next := Some(Searching(found.value.0, found.value.1));
    if sound {
      assert SettledBelow(assignments, found.value.0);
    }
  }

  /**
   * When the scan finds no candidate from `start` on and everything below
   * `start` is settled, the classification is the exact backbone.
   */
  lemma FinishedIsExact(cs: seq<Clause>, vars: seq<nat>, assignments: seq<VariableValue>, start: nat)
    requires |assignments| == |vars|
    requires Satisfiable(cs) && AllJustified(cs, vars, assignments)
    requires NoneUnseen(assignments) && SettledBelow(assignments, start)
    requires forall j :: start <= j < |assignments| ==> !IsCandidate(assignments[j])
    ensures forall i :: 0 <= i < |vars| ==> Settled(assignments[i])
    ensures forall i, b :: 0 <= i < |vars| ==> (assignments[i] == Backbone(b) <==> Forced(cs, vars[i], b))
  {
    forall i, b | 0 <= i < |vars| ensures assignments[i] == Backbone(b) <==> Forced(cs, vars[i], b) {
      SettledIsExact(cs, vars[i], assignments[i], b);
    }
  }

  // ---------------------------------------------------------- DIMACS input

  /** A literal of the parsed input: a 1-based variable number with its sign. */
  datatype Literal = Positive(variable: nat) | Negative(variable: nat)

  /** The parsed input: the declared variable count and each clause as a literal list. */
  datatype Dimacs = Dimacs(variableCount: nat, clauses: seq<seq<Literal>>)

  /** Every literal names a declared variable; `dimacs_to_sat` panics on any other. */
  predicate LiteralsInRange(d: Dimacs) {
    forall i, j :: 0 <= i < |d.clauses| && 0 <= j < |d.clauses[i]| ==>
      1 <= d.clauses[i][j].variable <= d.variableCount
  }

  predicate NonZero(lits: seq<Literal>) {
    forall j :: 0 <= j < |lits| ==> lits[j].variable >= 1
  }

  /** The 0-based id of the variable a literal names. */
  function LiteralId(l: Literal): nat
    requires l.variable >= 1
  {
    l.variable - 1
  }

  /** No later literal of the list names the variable of literal `j`. */
  predicate LastMention(lits: seq<Literal>, j: nat)
    requires j < |lits|
  {
    forall k :: j < k < |lits| ==> lits[k].variable != lits[j].variable
  }

  /** The clause `dimacs_to_sat` builds from one input clause: each literal sets its variable in turn. */
  function ClauseOf(lits: seq<Literal>): Clause
    requires NonZero(lits)
  {
    if |lits| == 0 then EmptyClause
    else
      var last := lits[|lits| - 1];
      Set(ClauseOf(lits[..|lits| - 1]), LiteralId(last), last.Positive?)
  }

  lemma ClauseOfStep(lits: seq<Literal>, j: nat)
    requires NonZero(lits) && j < |lits|
    ensures NonZero(lits[..j]) && NonZero(lits[..j + 1])
    ensures ClauseOf(lits[..j + 1]) == Set(ClauseOf(lits[..j]), LiteralId(lits[j]), lits[j].Positive?)
  {
    assert lits[..j + 1][..j] == lits[..j];
  }

  /** Every variable a literal names is in the built clause. */
  lemma {:induction false} ClauseOfMentions(lits: seq<Literal>, j: nat)
    requires NonZero(lits) && j < |lits|
    ensures LiteralId(lits[j]) in ClauseOf(lits).values
  {
    var n := |lits| - 1;
    if j < n {
      ClauseOfMentions(lits[..n], j);
      assert lits[..n][j] == lits[j];
    }
  }

  /** The built clause names no variable that no literal names. */
  lemma {:induction false} ClauseOfOnlyMentions(lits: seq<Literal>, id: nat)
    requires NonZero(lits) && id in ClauseOf(lits).values
    ensures exists j :: 0 <= j < |lits| && LiteralId(lits[j]) == id
  {
    var n := |lits| - 1;
    if LiteralId(lits[n]) != id {
      ClauseOfOnlyMentions(lits[..n], id);
      var j :| 0 <= j < n && LiteralId(lits[..n][j]) == id;
      assert lits[..n][j] == lits[j];
    }
  }

  /** The last literal on a variable decides the polarity the clause keeps. */
  lemma {:induction false} ClauseOfLastWins(lits: seq<Literal>, j: nat)
    requires NonZero(lits) && j < |lits| && LastMention(lits, j)
    ensures LiteralId(lits[j]) in ClauseOf(lits).values
    ensures ClauseOf(lits).values[LiteralId(lits[j])] == lits[j].Positive?
  {
    var n := |lits| - 1;
    if j < n {
      var init := lits[..n];
      assert init[j] == lits[j];
      assert LastMention(init, j) by {
        forall k | j < k < |init| ensures init[k].variable != init[j].variable {
          assert init[k] == lits[k];
        }
      }
      ClauseOfLastWins(init, j);
      assert lits[n].variable != lits[j].variable;
    }
  }

  /** The clauses of `dimacs_to_sat`, one per input clause, in input order. */
  function DimacsClauses(d: Dimacs): (cs: seq<Clause>)
    requires LiteralsInRange(d)
    ensures |cs| == |d.clauses|
  {
    seq(|d.clauses|, i requires 0 <= i < |d.clauses| => ClauseOfInput(d, i))
  }

  /** The input clauses mention only variables the header declares. */
  lemma DimacsClausesBelow(d: Dimacs)
    requires LiteralsInRange(d)
    ensures IdsBelow(DimacsClauses(d), d.variableCount)
  {
    var cs := DimacsClauses(d);
    forall k, id | 0 <= k < |cs| && id in cs[k].values ensures id < d.variableCount {
      ClauseOfOnlyMentions(d.clauses[k], id);
    }
  }

  function ClauseOfInput(d: Dimacs, i: nat): Clause
    requires LiteralsInRange(d) && i < |d.clauses|
  {
    assert forall j :: 0 <= j < |d.clauses[i]| ==> d.clauses[i][j].variable >= 1;
    ClauseOf(d.clauses[i])
  }

  /** The input clause mentions no variable with both signs. */
  predicate Consistent(lits: seq<Literal>) {
    forall j, k :: 0 <= j < |lits| && 0 <= k < |lits| && lits[j].variable == lits[k].variable ==> lits[j] == lits[k]
  }

  /** The literal holds under `a`, read as in DIMACS. */
  predicate LiteralHolds(a: Assignment, l: Literal)
    requires l.variable >= 1
  {
    LiteralId(l) in a && a[LiteralId(l)] == l.Positive?
  }

  /** Without a variable of both signs, every literal's own polarity is the one the clause keeps. */
  lemma ClauseOfConsistent(lits: seq<Literal>, j: nat)
    requires NonZero(lits) && Consistent(lits) && j < |lits|
    ensures LiteralId(lits[j]) in ClauseOf(lits).values
    ensures ClauseOf(lits).values[LiteralId(lits[j])] == lits[j].Positive?
  {
    var k := LastOf(lits, j);
    assert lits[k] == lits[j];
    ClauseOfLastWins(lits, k);
  }

  /** The position of the last literal on the variable of literal `j`. */
  function LastOf(lits: seq<Literal>, j: nat): (k: nat)
    requires j < |lits|
    ensures j <= k < |lits| && lits[k].variable == lits[j].variable && LastMention(lits, k)
    decreases |lits| - j
  {
    if exists m :: j < m < |lits| && lits[m].variable == lits[j].variable then
      var m :| j < m < |lits| && lits[m].variable == lits[j].variable;
      LastOf(lits, m)
    else j
  }

  /**
   * For an input clause without a variable of both signs, the built clause
   * holds exactly when some literal of the input clause holds.
   */
  lemma ClauseOfMeaning(a: Assignment, lits: seq<Literal>)
    requires NonZero(lits) && Consistent(lits)
    ensures SatisfiesClause(a, ClauseOf(lits)) <==> exists j :: 0 <= j < |lits| && LiteralHolds(a, lits[j])
  {
    var c := ClauseOf(lits);
    if SatisfiesClause(a, c) {
      var id :| id in c.values && id in a && a[id] == c.values[id];
      ClauseOfOnlyMentions(lits, id);
      var j :| 0 <= j < |lits| && LiteralId(lits[j]) == id;
      ClauseOfConsistent(lits, j);
      assert LiteralHolds(a, lits[j]);
    }
    if exists j :: 0 <= j < |lits| && LiteralHolds(a, lits[j]) {
      var j :| 0 <= j < |lits| && LiteralHolds(a, lits[j]);
      ClauseOfConsistent(lits, j);
      assert LiteralId(lits[j]) in c.values;
    }
  }

  /**
   * A clause with a variable of both signs is not read as a tautology: the
   * later literal overwrites the earlier one, so `1 -1 0` becomes the unit
   * clause `-1`, which an assignment making variable 1 true violates.
   */
  lemma TautologyBecomesUnit()
    ensures ClauseOf([Positive(1), Negative(1)]) == Clause(map[0 := false])
    ensures LiteralHolds(map[0 := true], Positive(1))
    ensures !SatisfiesClause(map[0 := true], ClauseOf([Positive(1), Negative(1)]))
  {
    var lits := [Positive(1), Negative(1)];
    assert lits[..1] == [Positive(1)] && lits[..1][..0] == [];
    assert ClauseOf(lits).values == map[0 := true][0 := false] == map[0 := false];
  }

  /** The names `dimacs_to_sat` gives its variables: "0", "1", … */
  function VariableNames(n: nat): (r: seq<string>)
    ensures |r| == n && forall i :: 0 <= i < n ==> r[i] == NatToString(i)
  {
    seq(n, i requires 0 <= i => NatToString(i))
  }

  /** Each position holds its own index: the ids of variables created in order. */
  predicate IdsInOrder(vars: seq<nat>) {
    forall i :: 0 <= i < |vars| ==> vars[i] == i
  }

  /** The next name differs from every earlier one. */
  lemma NextNameIsNew(v: nat)
    ensures forall k :: 0 <= k < v ==> VariableNames(v)[k] != NatToString(v)
  {
    forall k | 0 <= k < v ensures VariableNames(v)[k] != NatToString(v) {
      if NatToString(k) == NatToString(v) {
        NatToStringInjective(k, v);
      }
    }
  }

  /**
   * `dimacs_to_sat`: a fresh clause set with the variables "0", "1", …
   * named after their ids, the ids in order, and one clause per input clause.
   */
  method DimacsToSat(d: Dimacs) returns (sat: CnfSat, vars: seq<nat>)
    requires LiteralsInRange(d)
    ensures fresh(sat) && sat.Valid()
    ensures sat.order == VariableNames(d.variableCount)
    ensures |vars| == d.variableCount && IdsInOrder(vars)
    ensures sat.clauses == DimacsClauses(d)
  {
    sat := new CnfSat();
    vars := CreateNumberedVariables(sat, d.variableCount);
    var i := 0;
    while i < |d.clauses|
      invariant i <= |d.clauses|
      invariant sat.clauses == DimacsClauses(d)[..i]
      modifies sat`clauses
    {
      var lits := d.clauses[i];
      assert forall j :: 0 <= j < |lits| ==> 1 <= lits[j].variable <= d.variableCount;
      var clause := BuildClause(lits, vars);
      PrefixStep(DimacsClauses(d), sat.clauses, i, clause);
      sat.AddClause(clause);
      i := i + 1;
    }
    assert |DimacsClauses(d)| == |d.clauses|;
  }

  /**
   * The inner loop of `dimacs_to_sat`: starting from the empty clause, each
   * literal sets the id its variable number maps to through `vars`.
   */
  method BuildClause(lits: seq<Literal>, vars: seq<nat>) returns (clause: Clause)
    requires forall j :: 0 <= j < |lits| ==> 1 <= lits[j].variable <= |vars|
    requires forall i :: 0 <= i < |vars| ==> vars[i] == i
    ensures clause == ClauseOf(lits)
  {
    clause := EmptyClause;
    var j := 0;
    while j < |lits|
      invariant j <= |lits|
      invariant clause == ClauseOf(lits[..j])
    {
      ClauseOfStep(lits, j);
      match lits[j] {
        case Positive(variable) =>
          clause := Set(clause, vars[variable - 1], true);
        case Negative(variable) =>
          clause := Set(clause, vars[variable - 1], false);
      }
      j := j + 1;
    }
    assert lits[..|lits|] == lits;
  }

  /**
   * The first half of `dimacs_to_sat`: on an empty clause set, create the
   * variables "0" … "n-1" and collect their ids, which are 0 … n-1.
   */
  method CreateNumberedVariables(sat: CnfSat, n: nat) returns (vars: seq<nat>)
    requires sat.Valid() && sat.variables == map[] && sat.clauses == []
    modifies sat
    ensures sat.Valid() && sat.clauses == []
    ensures sat.order == VariableNames(n)
    ensures |vars| == n && IdsInOrder(vars)
  {
    assert sat.order == [];
    vars := [];
    var v := 0;
    while v < n
      invariant v <= n
      invariant sat.Valid() && sat.clauses == []
      invariant sat.order == VariableNames(v)
      invariant |vars| == v && IdsInOrder(vars)
    {
      var name := NatToString(v);
      NextNameIsNew(v);
      assert name !in sat.order;
      assert forall other :: other in sat.variables ==> other in sat.order;
      sat.CreateVariable(name);
      assert sat.order == VariableNames(v + 1);
      var id := sat.GetVariable(name);
      NatToStringInjective(id, v);
      vars := vars + [id];
      v := v + 1;
    }
  }

  // ---------------------------------------------------------------- report

  /** The Backbone entries of a classification as (index, value) pairs, in index order. */
  function BackboneEntries(assignments: seq<VariableValue>): seq<(nat, bool)> {
    if |assignments| == 0 then []
    else
      var n := |assignments| - 1;
      BackboneEntries(assignments[..n]) + (if assignments[n].Backbone? then [(n, assignments[n].value)] else [])
  }

  /**
   * The report lists exactly the Backbone entries, each with its value, in
   * strictly increasing index order.
   */
  lemma {:induction false} BackboneEntriesSpec(assignments: seq<VariableValue>)
    ensures forall k :: 0 <= k < |BackboneEntries(assignments)| ==>
              BackboneEntries(assignments)[k].0 < |assignments|
              && assignments[BackboneEntries(assignments)[k].0] == Backbone(BackboneEntries(assignments)[k].1)
    ensures forall i :: 0 <= i < |assignments| && assignments[i].Backbone? ==>
              (i, assignments[i].value) in BackboneEntries(assignments)
    ensures forall k, m :: 0 <= k < m < |BackboneEntries(assignments)| ==>
              BackboneEntries(assignments)[k].0 < BackboneEntries(assignments)[m].0
  {
    if |assignments| > 0 {
      var n := |assignments| - 1;
      var prefix := assignments[..n];
      BackboneEntriesSpec(prefix);
      assert forall i :: 0 <= i < n ==> prefix[i] == assignments[i];
    }
  }

  /** The count line of the report. */
  function CountLine(count: nat): string {
    "Found " + NatToString(count) + " backbones:"
  }

  /** The literal line of the report. */
  function LiteralLine(entries: seq<(nat, bool)>): string {
    Join(EncodePairs(entries), " ")
  }

  /** The two lines printed at the end: the count, then the literals separated by spaces. */
  function ReportText(entries: seq<(nat, bool)>): string {
    Terminated([CountLine(|entries|), LiteralLine(entries)])
  }

  lemma CountLineIsPlain(count: nat)
    ensures PlainLine(CountLine(count))
  {
    var digits := NatToString(count);
    var line := CountLine(count);
    assert line == "Found " + (digits + " backbones:");
    forall j | 0 <= j < |line| ensures line[j] != '\n' {
      if 6 <= j < 6 + |digits| {
        assert line[j] == digits[j - 6];
        assert IsDigit(digits[j - 6]);
      }
    }
  }

  lemma LiteralLineIsPlain(entries: seq<(nat, bool)>)
    ensures PlainLine(LiteralLine(entries))
  {
    var words := EncodePairs(entries);
    var P := (ch: char) => ch != '\n' && ch != '\r';
    forall k, j | 0 <= k < |words| && 0 <= j < |words[k]| ensures P(words[k][j]) {
      LiteralTextChars(entries[k].0, entries[k].1);
    }
    JoinChars(words, " ", P);
  }

  /** The report is read back as its count line and its literal line. */
  lemma ReportLines(entries: seq<(nat, bool)>)
    ensures Lines(ReportText(entries)) == [CountLine(|entries|), LiteralLine(entries)]
  {
    CountLineIsPlain(|entries|);
    LiteralLineIsPlain(entries);
    LinesOfTerminated([CountLine(|entries|), LiteralLine(entries)]);
  }

  /**
   * Reading the report back: the words of its second line parse as DIMACS
   * literals that decode to the entries, in order.
   */
  lemma ReportRoundTrip(entries: seq<(nat, bool)>)
    requires forall k :: 0 <= k < |entries| ==> entries[k].0 < I64Max
    ensures |Lines(ReportText(entries))| == 2
    ensures Lines(ReportText(entries))[0] == CountLine(|entries|)
    ensures SplitWhitespace(Lines(ReportText(entries))[1]) == EncodePairs(entries)
    ensures forall k :: 0 <= k < |entries| ==>
              ParseI64(EncodePairs(entries)[k]).Some? && ParseI64(EncodePairs(entries)[k]).value != 0
              && DecodeLiteral(ParseI64(EncodePairs(entries)[k]).value) == entries[k]
  {
    ReportLines(entries);
    EncodedPairsAreTokens(entries);
    SplitWhitespaceOfJoin(EncodePairs(entries));
    forall k | 0 <= k < |entries|
      ensures ParseI64(EncodePairs(entries)[k]).Some? && ParseI64(EncodePairs(entries)[k]).value != 0
              && DecodeLiteral(ParseI64(EncodePairs(entries)[k]).value) == entries[k]
    {
      LiteralRoundTrip(entries[k].0, entries[k].1);
    }
  }

  /** The literals forced in every model of `cs`, over the variables below `n`, in index order. */
  ghost function ForcedEntries(cs: seq<Clause>, n: nat): seq<(nat, bool)> {
    if n == 0 then []
    else
      ForcedEntries(cs, n - 1)
      + (if Forced(cs, n - 1, true) then [(n - 1, true)]
         else if Forced(cs, n - 1, false) then [(n - 1, false)]
         else [])
  }

  /** A classification whose Backbone entries are exactly the forced literals reports exactly those. */
  lemma {:induction false} EntriesOfExactClassification(cs: seq<Clause>, assignments: seq<VariableValue>)
    requires Satisfiable(cs)
    requires forall i, b :: 0 <= i < |assignments| ==> (assignments[i] == Backbone(b) <==> Forced(cs, i, b))
    ensures BackboneEntries(assignments) == ForcedEntries(cs, |assignments|)
  {
    if |assignments| > 0 {
      var n := |assignments| - 1;
      var prefix := assignments[..n];
      forall i, b | 0 <= i < n ensures prefix[i] == Backbone(b) <==> Forced(cs, i, b) {
        assert prefix[i] == assignments[i];
      }
      EntriesOfExactClassification(cs, prefix);
      var a :| SatisfiesAll(a, cs);
      if assignments[n] == Backbone(false) {
        assert Forced(cs, n, false);
        assert n in a && !a[n];
      }
      if !assignments[n].Backbone? {
        assert assignments[n] != Backbone(true) && assignments[n] != Backbone(false);
      }
    }
  }

  // ----------------------------------------------------------- the program

  /** How the program ends without a report. */
  datatype RunError = UnsatisfiableCnf | Panicked(fault: Fault)

  /**
   * `main` from the parsed input on: build the clause set, classify the
   * variables with at most one solver call more than there are variables,
   * and produce the report.  With a correct solver the report lists exactly
   * the literals that hold in every model of the input, and an
   * unsatisfiable input is refused.
   */
  method Run(d: Dimacs, solver: string -> string) returns (r: Result<string, RunError>, ghost calls: nat)
    requires LiteralsInRange(d)
    requires ReadableSolver(solver)
    ensures calls <= d.variableCount + 1
    ensures SoundSolver(solver) && d.variableCount <= I64Max ==>
              r == if Satisfiable(DimacsClauses(d))
                   then Ok(ReportText(ForcedEntries(DimacsClauses(d), d.variableCount)))
                   else Err(UnsatisfiableCnf)
  {
    var sat, vars := DimacsToSat(d);
    ghost var probes;
    var outcome;
    DimacsClausesBelow(d);
    outcome, calls, probes := SearchBackbones(sat, vars, solver);
    match outcome {
      case Finished(assignments) =>
        r := Ok(ReportText(BackboneEntries(assignments)));
        if SoundSolver(solver) && d.variableCount <= I64Max {
          var cs := DimacsClauses(d);
          assert forall i, b :: 0 <= i < |assignments| ==> (assignments[i] == Backbone(b) <==> Forced(cs, i, b)) by {
            forall i, b | 0 <= i < |assignments| ensures assignments[i] == Backbone(b) <==> Forced(cs, i, b) {
              assert vars[i] == i;
            }
          }
          EntriesOfExactClassification(cs, assignments);
        }
      case UnsatisfiableInput =>
        r := Err(UnsatisfiableCnf);
      case Panic(fault) =>
        r := Err(Panicked(fault));
    }
  }
}
