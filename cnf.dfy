/**
 * `CnfSat` of core/src/lib.rs: a table of named variables with dense ids
 * handed out in creation order, an append-only list of clauses, the two
 * cardinality encoders, the DIMACS writer and the reader of a solver's
 * reply.  The external solver is a function from request text to reply
 * text; spawning it, piping and timing are not modelled.
 */
module Cnf {
  import opened Wrappers
  import opened Text
  import opened Clauses
  import opened DimacsFormat

  /** A named variable and its id. */
  datatype SatVariable = SatVariable(name: string, id: nat)

  // -------------------------------------------------------------- SatModel

  /** A solver's model, looked up by variable id or by variable name. */
  datatype SatModel = SatModel(resultsByName: map<string, bool>, resultsById: map<nat, bool>)
  {
    /** `SatModel::get_result_by_id`. */
    function GetResultById(id: nat): Option<bool> {
      if id in resultsById then Some(resultsById[id]) else None
    }

    /** `SatModel::get_result_by_name`. */
    function GetResultByName(name: string): Option<bool> {
      if name in resultsByName then Some(resultsByName[name]) else None
    }
  }

  /**
   * The name-to-value table `SatModel::from_vec` fills: each pair's id is
   * looked up by name (`order[id]`), later pairs overwriting earlier ones.
   */
  function ResultsByName(order: seq<string>, pairs: seq<(nat, bool)>): map<string, bool>
    requires forall k :: 0 <= k < |pairs| ==> pairs[k].0 < |order|
  {
    if |pairs| == 0 then map[]
    else
      var last := pairs[|pairs| - 1];
      ResultsByName(order, pairs[..|pairs| - 1])[order[last.0] := last.1]
  }

  /** The model `SatModel::from_vec` builds for variables named `order` (by id). */
  function ModelFromPairs(order: seq<string>, pairs: seq<(nat, bool)>): SatModel
    requires forall k :: 0 <= k < |pairs| ==> pairs[k].0 < |order|
  {
    SatModel(ResultsByName(order, pairs), ResultsById(pairs))
  }

  /**
   * With distinct names, looking a variable up by name gives the same answer
   * as looking it up by id.
   */
  lemma {:induction false} ResultsByNameAgrees(order: seq<string>, pairs: seq<(nat, bool)>, id: nat)
    requires forall i, j :: 0 <= i < j < |order| ==> order[i] != order[j]
    requires forall k :: 0 <= k < |pairs| ==> pairs[k].0 < |order|
    requires id < |order|
    ensures ModelFromPairs(order, pairs).GetResultByName(order[id]) == ModelFromPairs(order, pairs).GetResultById(id)
  {
    if |pairs| > 0 {
      var init := pairs[..|pairs| - 1];
      ResultsByNameAgrees(order, init, id);
      var last := pairs[|pairs| - 1];
      if last.0 != id {
        assert order[last.0] != order[id];
      }
    }
  }

  /**
   * Looking up an id in a model built from pairs: present iff some pair
   * names the id, with the value of the last such pair.
   */
  lemma ModelLookupById(order: seq<string>, pairs: seq<(nat, bool)>, id: nat)
    requires forall k :: 0 <= k < |pairs| ==> pairs[k].0 < |order|
    ensures ModelFromPairs(order, pairs).GetResultById(id).Some? <==>
            exists k :: 0 <= k < |pairs| && pairs[k].0 == id
    ensures forall k :: 0 <= k < |pairs| && pairs[k].0 == id
                        && (forall m :: k < m < |pairs| ==> pairs[m].0 != id)
                        ==> ModelFromPairs(order, pairs).GetResultById(id) == Some(pairs[k].1)
  {
    LaterPairWins(pairs, id);
  }

  /** `EvaluationResult` without the solving time: the reply text, and the model when satisfiable. */
  datatype EvaluationResult = Sat(dimacs: string, model: SatModel) | Unsat(dimacs: string)

  // ---------------------------------------------------------------- solver

  /**
   * A reply that `result_from_dimacs` reads without panicking for a formula
   * over `variableCount` variables: every value word parses and, when the
   * reply reads as satisfiable, every literal names a known variable.
   */
  ghost predicate ReplyReadable(variableCount: nat, reply: string) {
    ReplyParses(Lines(reply))
    && (StatusOf(Lines(reply)) ==>
          forall k :: 0 <= k < |ModelPairs(Lines(reply))| ==> ModelPairs(Lines(reply))[k].0 < variableCount)
  }

  /** A solver whose every reply to a request is readable. */
  ghost predicate ReadableSolver(solver: string -> string) {
    forall variableCount: nat, cs: seq<Clause>, orders: seq<seq<nat>> ::
      OrdersFor(cs, orders) ==> ReplyReadable(variableCount, solver(DimacsText(variableCount, cs, orders)))
  }

  /**
   * A correct reply to the clauses `cs`: it is readable, reads as
   * satisfiable exactly when `cs` is, and then its literals form a model
   * of `cs` that gives every variable a value.
   */
  ghost predicate SoundReply(variableCount: nat, cs: seq<Clause>, reply: string) {
    ReplyReadable(variableCount, reply)
    && (StatusOf(Lines(reply)) <==> Satisfiable(cs))
    && (StatusOf(Lines(reply)) ==>
          SatisfiesAll(ResultsById(ModelPairs(Lines(reply))), cs)
          && forall id :: 0 <= id < variableCount ==> id in ResultsById(ModelPairs(Lines(reply))))
  }

  /**
   * A solver that answers every answerable request correctly, whatever the
   * literal order of its lines. A request is answerable when its header
   * declares every variable its clauses mention and those variables can be
   * written as i64 literals; for any other request no reply can be sound,
   * since a model naming an undeclared id is unreadable.
   */
  ghost predicate SoundSolver(solver: string -> string) {
    forall variableCount: nat, cs: seq<Clause>, orders: seq<seq<nat>> ::
      OrdersFor(cs, orders) && Answerable(variableCount, cs) ==>
        SoundReply(variableCount, cs, solver(DimacsText(variableCount, cs, orders)))
  }

  /**
   * `r` is what `CnfSat.Evaluate` makes of the solver's reply: `orders` writes the
   * literals of `cs`, the solver was given that DIMACS text, and `r` is `Sat` with
   * the reply's model exactly when the reply's status says satisfiable.
   */
  ghost predicate Answered(solver: string -> string, order: seq<string>, cs: seq<Clause>, orders: seq<seq<nat>>, r: EvaluationResult)
  {
    && OrdersFor(cs, orders)
    && r.dimacs == solver(DimacsText(|order|, cs, orders))
    && ReplyReadable(|order|, r.dimacs)
    && (r.Sat? <==> StatusOf(Lines(r.dimacs)))
    && (r.Sat? ==> r.model == ModelFromPairs(order, ModelPairs(Lines(r.dimacs))))
  }

  /** A correct reply, read through `Evaluate`, answers the satisfiability question. */
  lemma SoundEvaluation(solver: string -> string, order: seq<string>, cs: seq<Clause>, orders: seq<seq<nat>>, r: EvaluationResult)
    requires SoundSolver(solver) && Answerable(|order|, cs)
    requires Answered(solver, order, cs, orders, r)
    ensures r.Sat? <==> Satisfiable(cs)
    ensures r.Sat? ==> SatisfiesAll(r.model.resultsById, cs)
    ensures r.Sat? ==> forall id :: 0 <= id < |order| ==> id in r.model.resultsById
  {
    assert SoundReply(|order|, cs, solver(DimacsText(|order|, cs, orders)));
  }

  // ------------------------------------------------- a sound solver exists

  /** Some model of satisfiable clauses. */
  ghost function SomeModel(cs: seq<Clause>): (a: Assignment)
    requires Satisfiable(cs)
    ensures SatisfiesAll(a, cs)
  {
    var a :| SatisfiesAll(a, cs); a
  }

  /** The value of every variable below `variableCount` under `a`, unset ones false, in id order. */
  function FullModelPairs(variableCount: nat, a: Assignment): (r: seq<(nat, bool)>)
    ensures |r| == variableCount
    ensures forall k :: 0 <= k < variableCount ==> r[k] == (k, k in a && a[k])
  {
    seq(variableCount, k requires 0 <= k < variableCount => (k as nat, k in a && a[k]))
  }

  /**
   * The reply a complete solver gives: a full model of the clauses when
   * there is one, the unsatisfiable status line otherwise.
   */
  ghost function CanonicalReply(variableCount: nat, cs: seq<Clause>): string {
    if Satisfiable(cs) then WitnessReply(FullModelPairs(variableCount, SomeModel(cs)))
    else Terminated(["s UNSATISFIABLE"])
  }

  /** The unsatisfiable reply is readable and reads as unsatisfiable. */
  lemma UnsatReplyReadable(variableCount: nat)
    ensures ReplyReadable(variableCount, Terminated(["s UNSATISFIABLE"]))
    ensures !StatusOf(Lines(Terminated(["s UNSATISFIABLE"])))
  {
    UnsatisfiableStatusLine();
    LinesOfTerminated(["s UNSATISFIABLE"]);
    UnsatReplyIsUnsat([], []);
    assert [] + ["s UNSATISFIABLE"] + [] == ["s UNSATISFIABLE"];
  }

  /**
   * The full model read back as a table: it names every variable below
   * `variableCount` and, when those include every variable of `cs`,
   * satisfies `cs` whenever `a` does.
   */
  lemma FullModelSatisfies(variableCount: nat, a: Assignment, cs: seq<Clause>)
    requires IdsBelow(cs, variableCount) && SatisfiesAll(a, cs)
    ensures forall id :: 0 <= id < variableCount ==> id in ResultsById(FullModelPairs(variableCount, a))
    ensures SatisfiesAll(ResultsById(FullModelPairs(variableCount, a)), cs)
  {
    var pairs := FullModelPairs(variableCount, a);
    ResultsByIdOfDistinct(pairs);
    var m := ResultsById(pairs);
    assert forall id :: 0 <= id < variableCount ==> id in m && m[id] == (id in a && a[id]) by {
      forall id | 0 <= id < variableCount ensures id in m && m[id] == (id in a && a[id]) {
        assert pairs[id].0 == id;
      }
    }
    forall k | 0 <= k < |cs| ensures SatisfiesClause(m, cs[k]) {
      assert SatisfiesClause(a, cs[k]);
      var id :| id in cs[k].values && id in a && a[id] == cs[k].values[id];
      assert id < variableCount;
    }
  }

  /** The reply of a complete solver to an answerable request is sound. */
  lemma CanonicalReplySound(variableCount: nat, cs: seq<Clause>)
    requires Answerable(variableCount, cs)
    ensures SoundReply(variableCount, cs, CanonicalReply(variableCount, cs))
  {
    if Satisfiable(cs) {
      var a := SomeModel(cs);
      WitnessReplyRoundTrip(FullModelPairs(variableCount, a));
      FullModelSatisfies(variableCount, a, cs);
    } else {
      UnsatReplyReadable(variableCount);
    }
  }

  /** A request in answerable form, as an index set for the canonical solver. */
  ghost predicate AnswerableRequest(request: string, variableCount: nat, cs: seq<Clause>, orders: seq<seq<nat>>) {
    OrdersFor(cs, orders) && Answerable(variableCount, cs) && request == DimacsText(variableCount, cs, orders)
  }

  /** Some answerable request triple that writes `request`. */
  ghost function PickRequest(request: string): (t: (nat, seq<Clause>, seq<seq<nat>>))
    requires exists variableCount: nat, cs: seq<Clause>, orders: seq<seq<nat>> :: AnswerableRequest(request, variableCount, cs, orders)
    ensures AnswerableRequest(request, t.0, t.1, t.2)
  {
    var variableCount: nat, cs: seq<Clause>, orders: seq<seq<nat>> :| AnswerableRequest(request, variableCount, cs, orders);
    (variableCount, cs, orders)
  }

  /** A solver answering every answerable request with its canonical reply, and any other text with nothing. */
  ghost function CanonicalSolver(request: string): string {
    if exists variableCount: nat, cs: seq<Clause>, orders: seq<seq<nat>> :: AnswerableRequest(request, variableCount, cs, orders) then
      var t := PickRequest(request);
      CanonicalReply(t.0, t.1)
    else ""
  }

  /** The canonical solver's reply to any request, answerable or not. */
  lemma CanonicalSolverReply(variableCount: nat, cs: seq<Clause>, orders: seq<seq<nat>>)
    requires OrdersFor(cs, orders)
    ensures ReplyReadable(variableCount, CanonicalSolver(DimacsText(variableCount, cs, orders)))
    ensures Answerable(variableCount, cs) ==>
              SoundReply(variableCount, cs, CanonicalSolver(DimacsText(variableCount, cs, orders)))
  {
    var request := DimacsText(variableCount, cs, orders);
    if exists vc: nat, cs2: seq<Clause>, orders2: seq<seq<nat>> :: AnswerableRequest(request, vc, cs2, orders2) {
      var t := PickRequest(request);
      var vc, cs2, orders2 := t.0, t.1, t.2;
      assert CanonicalSolver(request) == CanonicalReply(vc, cs2);
      DimacsTextDetermines(variableCount, cs, orders, vc, cs2, orders2);
      CanonicalReplySound(vc, cs2);
      if Answerable(variableCount, cs) {
        assert IdsWritable(cs) && IdsWritable(cs2);
      }
    } else {
      assert !AnswerableRequest(request, variableCount, cs, orders);
      assert Lines("") == [];
    }
  }

  /**
   * The sound-solver hypothesis can be met: some solver is readable on every
   * request and sound on every answerable one.
   */
  lemma SoundSolverExists()
    ensures exists solver: string -> string :: ReadableSolver(solver) && SoundSolver(solver)
  {
    var solver: string -> string := CanonicalSolver;
    forall variableCount: nat, cs: seq<Clause>, orders: seq<seq<nat>> | OrdersFor(cs, orders)
      ensures ReplyReadable(variableCount, solver(DimacsText(variableCount, cs, orders)))
      ensures Answerable(variableCount, cs) ==> SoundReply(variableCount, cs, solver(DimacsText(variableCount, cs, orders)))
    {
      CanonicalSolverReply(variableCount, cs, orders);
    }
    assert ReadableSolver(solver) && SoundSolver(solver);
  }

  // ---------------------------------------------------------------- CnfSat

  class CnfSat {
    /** Name to variable. */
    var variables: map<string, SatVariable>
    /** The clauses, in the order they were added. */
    var clauses: seq<Clause>
    /** The variable names in creation order: `order[id]` is the name of the variable with id `id`. */
    ghost var order: seq<string>

    /** Ids are dense and follow creation order; each entry is filed under its own name. */
    ghost predicate Valid()
      reads this`variables, this`order
    {
      |order| == |variables|
      && (forall id :: 0 <= id < |order| ==>
            order[id] in variables && variables[order[id]] == SatVariable(order[id], id))
      && (forall name :: name in variables ==>
            variables[name].id < |order| && order[variables[name].id] == name)
    }

    lemma OrderDistinct()
      requires Valid()
      ensures forall i, j :: 0 <= i < j < |order| ==> order[i] != order[j]
    {
    }

    /** `CnfSat::new`. */
    constructor ()
      ensures Valid()
      ensures variables == map[] && clauses == [] && order == []
    {
      variables := map[];
      clauses := [];
      order := [];
    }

    /**
     * `create_variable`: the new variable gets the id `variable_count()`
     * had before the call.  A name already in use panics.
     */
    method CreateVariable(name: string)
      requires Valid()
      requires name !in variables
      modifies this
      ensures Valid()
      ensures variables == old(variables)[name := SatVariable(name, |old(variables)|)]
      ensures order == old(order) + [name]
      ensures clauses == old(clauses)
    {
      variables := variables[name := SatVariable(name, |variables|)];
      order := order + [name];
    }

    /** `add_clause`: the clause goes at the end; the earlier clauses stay as they were. */
    method AddClause(clause: Clause)
      requires Valid()
      modifies this`clauses
      ensures Valid()
      ensures clauses == old(clauses) + [clause]
      ensures ClauseCount() == old(ClauseCount()) + 1
      ensures variables == old(variables) && order == old(order)
    {
      clauses := clauses + [clause];
    }

    /** `pop_clause`: removes the last clause; the list must not be empty. */
    method PopClause()
      requires Valid()
      requires |clauses| > 0
      modifies this`clauses
      ensures Valid()
      ensures clauses == old(clauses)[..|old(clauses)| - 1]
      ensures variables == old(variables) && order == old(order)
    {
      clauses := clauses[..|clauses| - 1];
    }

    /**
     * `get_variable_by_id`: a search through the table for the variable
     * with this id, None when there is none.
     */
    method GetVariableById(id: nat) returns (r: Option<SatVariable>)
      requires Valid()
      ensures r.Some? <==> id < |order|
      ensures r.Some? ==> r.value == SatVariable(order[id], id) && variables[order[id]] == r.value
    {
      assert id < |order| ==> order[id] in variables && variables[order[id]].id == id;
      var unseen := variables.Keys;
      while unseen != {}
        invariant unseen <= variables.Keys
        invariant forall name :: name in variables && name !in unseen ==> variables[name].id != id
        decreases |unseen|
      {
        var name :| name in unseen;
        if variables[name].id == id {
          return Some(variables[name]);
        }
        unseen := unseen - {name};
      }
      return None;
    }

    /** `get_variable`: the id the name was given at creation; an undeclared name panics. */
    function GetVariable(name: string): (id: nat)
      requires Valid()
      requires name in variables
      reads this`variables, this`order
      ensures id < |order| && order[id] == name
    {
      variables[name].id
    }

    /** `variable_count`: the number of variables created so far. */
    function VariableCount(): (n: nat)
      requires Valid()
      reads this`variables, this`order
      ensures n == |order|
    {
      |variables|
    }

    /** `clause_count`. */
    function ClauseCount(): (n: nat)
      reads this
      ensures n == |clauses|
    {
      |clauses|
    }

    /** `ensure_at_least_one_set`: adds the single clause v1 ∨ … ∨ vN. */
    method EnsureAtLeastOneSet(vars: seq<nat>)
      requires Valid()
      modifies this`clauses
      ensures Valid()
      ensures clauses == old(clauses) + [AtLeastOneClause(vars)]
      ensures variables == old(variables) && order == old(order)
    {
      var clause := EmptyClause;
      for i := 0 to |vars|
        invariant clause == SetAll(EmptyClause, vars[..i], true)
      {
        assert vars[..i + 1][..i] == vars[..i];
        clause := Set(clause, vars[i], true);
      }
      assert vars[..|vars|] == vars;
      AddClause(clause);
    }

    /** `ensure_max_one_set`: adds ¬vi ∨ ¬vj for each index pair i < j, pairs in loop order. */
    method EnsureMaxOneSet(vars: seq<nat>)
      requires Valid()
      modifies this`clauses
      ensures Valid()
      ensures clauses == old(clauses) + AtMostOneClauses(vars)
      ensures variables == old(variables) && order == old(order)
    {
      for i := 0 to |vars|
        invariant Valid()
        invariant variables == old(variables) && order == old(order)
        invariant clauses == old(clauses) + PairClauses(vars, i)
      {
        AddPairsWith(vars[i], vars[i + 1..]);
        ConcatAssoc(old(clauses), PairClauses(vars, i), PairsWith(vars[i], vars[i + 1..]));
      }
    }

    /** The inner loop of `ensure_max_one_set`: ¬v ∨ ¬w for each later variable w, in list order. */
    method AddPairsWith(v: nat, rest: seq<nat>)
      requires Valid()
      modifies this`clauses
      ensures Valid()
      ensures clauses == old(clauses) + PairsWith(v, rest)
      ensures variables == old(variables) && order == old(order)
    {
      for k := 0 to |rest|
        invariant Valid()
        invariant variables == old(variables) && order == old(order)
        invariant clauses == old(clauses) + PairsWith(v, rest[..k])
      {
        PairsWithAppend(v, rest, k);
        ConcatAssoc(old(clauses), PairsWith(v, rest[..k]), [PairClause(v, rest[k])]);
        AddClause(Set(Set(EmptyClause, v, false), rest[k], false));
      }
      assert rest[..|rest|] == rest;
    }

    /**
     * `to_dimacs`: the header with the current counts, then one line per
     * clause in clause order.  The literal order inside a line is the
     * table's iteration order, which the result leaves open (`orders`).
     */
    method ToDimacs() returns (dimacs: string, ghost orders: seq<seq<nat>>)
      requires Valid()
      ensures OrdersFor(clauses, orders)
      ensures dimacs == DimacsText(|variables|, clauses, orders)
      ensures |Lines(dimacs)| == |clauses| + 1 && Lines(dimacs)[0] == HeaderLine(|variables|, |clauses|)
      ensures IdsWritable(clauses) ==>
                forall i :: 0 <= i < |clauses| ==>
                  TokensParse(SplitWhitespace(Lines(dimacs)[i + 1]))
                  && ResultsById(DecodeTokens(SplitWhitespace(Lines(dimacs)[i + 1]))) == clauses[i].values
    {
      var header := HeaderLine(|variables|, |clauses|);
      dimacs := header + "\n";
      orders := [];
      assert dimacs == Terminated([header] + ClauseLines(clauses[..0], orders));
      for i := 0 to |clauses|
        invariant OrdersFor(clauses[..i], orders)
        invariant dimacs == Terminated([header] + ClauseLines(clauses[..i], orders))
      {
        var line;
        ghost var ord;
        line, ord := WriteClauseLine(clauses[i]);
        ClauseLinesAppend(clauses[..i], orders, clauses[i], ord);
        assert clauses[..i + 1] == clauses[..i] + [clauses[i]];
        TerminatedAppend([header] + ClauseLines(clauses[..i], orders), line);
        assert [header] + ClauseLines(clauses[..i], orders) + [line]
            == [header] + ClauseLines(clauses[..i + 1], orders + [ord]);
        dimacs := dimacs + line + "\n";
        orders := orders + [ord];
      }
      assert clauses[..|clauses|] == clauses;
      DimacsTextLines(|variables|, clauses, orders);
      if IdsWritable(clauses) {
        DimacsTextReadsBack(|variables|, clauses, orders);
      }
    }

    /**
     * `result_from_dimacs`: reads the reply line by line; the last status
     * line decides satisfiability and the value lines' literals, zeros
     * skipped, are collected in order.  A malformed value word or an
     * unknown id panics in the source.
     */
    method ResultFromDimacs(dimacs: string) returns (r: Result<SatModel, ()>)
      requires Valid()
      requires ReplyReadable(|order|, dimacs)
      ensures r.Ok? <==> StatusOf(Lines(dimacs))
      ensures r.Ok? ==> r.value == ModelFromPairs(order, ModelPairs(Lines(dimacs)))
    {
      var lines := Lines(dimacs);
      var satisfiable := false;
      var model: seq<(nat, bool)> := [];
      for i := 0 to |lines|
        invariant ReplyParses(lines[..i])
        invariant satisfiable == StatusOf(lines[..i])
        invariant model == ModelPairs(lines[..i])
      {
        var line := lines[i];
        ReplyStep(lines, i);
        if StartsWithChar(line, 's') {
          satisfiable := !Contains(line, "UNSATISFIABLE");
        }
        if StartsWithChar(line, 'v') {
          var pairs := ReadValueLine(line);
          model := model + pairs;
        }
      }
      assert lines[..|lines|] == lines;
      if satisfiable {
        var m := FromVec(this, model);
        r := Ok(m);
      } else {
        r := Err(());
      }
    }

    /**
     * The classification at the end of `evaluate`: the request goes to the
     * solver, and a reply that reads as satisfiable becomes `Sat` with its
     * model, any other reply `Unsat`.
     */
    method Evaluate(solver: string -> string) returns (r: EvaluationResult, ghost orders: seq<seq<nat>>)
      requires Valid()
      requires forall orders: seq<seq<nat>> :: OrdersFor(clauses, orders) ==>
                 ReplyReadable(|variables|, solver(DimacsText(|variables|, clauses, orders)))
      ensures OrdersFor(clauses, orders)
      ensures r.dimacs == solver(DimacsText(|variables|, clauses, orders))
      ensures ReplyReadable(|order|, r.dimacs)
      ensures r.Sat? <==> StatusOf(Lines(r.dimacs))
      ensures r.Sat? ==> r.model == ModelFromPairs(order, ModelPairs(Lines(r.dimacs)))
    {
      var input;
      input, orders := ToDimacs();
      var output := solver(input);
      var result := ResultFromDimacs(output);
      match result {
        case Ok(model) => r := Sat(output, model);
        case Err(_) => r := Unsat(output);
      }
    }
  }

  /**
   * The inner loop of `result_from_dimacs`: the words after `v ` are parsed
   * one by one, a zero is skipped and any other number becomes a literal.
   */
  method ReadValueLine(line: string) returns (pairs: seq<(nat, bool)>)
    requires StartsWithChar(line, 'v') && LineParses(line)
    ensures pairs == LinePairs(line)
  {
    var words := SplitWhitespace(Trim(line)[2..]);
    pairs := [];
    for j := 0 to |words|
      invariant TokensParse(words[..j])
      invariant pairs == DecodeTokens(words[..j])
    {
      TokensStep(words, j);
      var val := ParseI64(words[j]).value;
      if val != 0 {
        pairs := pairs + [DecodeLiteral(val)];
      }
    }
    assert words[..|words|] == words;
  }

  /**
   * One clause line of `to_dimacs`: the clause's literals in the table's
   * iteration order (left open as `ord`), joined with spaces, then ` 0`.
   */
  method WriteClauseLine(c: Clause) returns (line: string, ghost ord: seq<nat>)
    ensures IsOrderOf(ord, c.values.Keys)
    ensures line == ClauseLine(c, ord)
    ensures (forall id :: id in c.values ==> id < I64Max) ==>
              TokensParse(SplitWhitespace(line)) && ResultsById(DecodeTokens(SplitWhitespace(line))) == c.values
  {
    var unseen := c.values.Keys;
    var literals: seq<string> := [];
    ord := [];
    while unseen != {}
      invariant unseen <= c.values.Keys
      invariant forall k :: k in c.values <==> k in unseen || k in ord
      invariant forall k :: k in ord ==> k !in unseen
      invariant forall i, j :: 0 <= i < j < |ord| ==> ord[i] != ord[j]
      invariant literals == EncodePairs(ClausePairs(c, ord))
      decreases |unseen|
    {
      var id :| id in unseen;
      assert EncodePairs(ClausePairs(c, ord + [id]))
          == EncodePairs(ClausePairs(c, ord)) + [LiteralText(id, c.values[id])];
      literals := literals + [LiteralText(id, c.values[id])];
      ord := ord + [id];
      unseen := unseen - {id};
    }
    line := Join(literals, " ") + " 0";
    if forall id :: id in c.values ==> id < I64Max {
      ClauseLineRoundTrip(c, ord);
    }
  }

  /**
   * `SatModel::from_vec`: each pair's id is looked up in the variable
   * table (an unknown id panics) and the value filed under the id and the
   * name; a later pair for the same variable overwrites an earlier one.
   */
  method FromVec(sat: CnfSat, model: seq<(nat, bool)>) returns (m: SatModel)
    requires sat.Valid()
    requires forall k :: 0 <= k < |model| ==> model[k].0 < |sat.order|
    ensures m == ModelFromPairs(sat.order, model)
  {
    var byName: map<string, bool> := map[];
    var byId: map<nat, bool> := map[];
    for i := 0 to |model|
      invariant byId == ResultsById(model[..i])
      invariant byName == ResultsByName(sat.order, model[..i])
    {
      assert model[..i + 1][..i] == model[..i];
      var (id, value) := model[i];
      var variable := sat.GetVariableById(id);
      var name := variable.value.name;
      byId := byId[id := value];
      byName := byName[name := value];
    }
    assert model[..|model|] == model;
    m := SatModel(byName, byId);
  }
}
