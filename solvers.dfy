// Choosing the SAT solver executable from the command line, and the
// command line that runs it (core/src/solvers.rs).

module Solvers {
  import opened Wrappers
  import opened Text

  /** The solvers the drivers can run; `threads` is a `usize`. */
  datatype Solver =
    | Kissat
    | Cadical
    | Oxisat
    | OxisatDpll
    | Glucose
    | GlucoseSyrup(threads: nat)

  /** A solver whose thread count fits a `usize`. */
  predicate InRange(s: Solver) {
    s.GlucoseSyrup? ==> s.threads <= UsizeMax
  }

  /** The first arguments `parse_solver` recognises. */
  const KnownNames: set<string> := {"cadical", "oxisat", "oxisat-dpll", "glucose", "glucose-syrup"}

  /**
   * `parse_solver`: `args[1]` picks the solver, Kissat when it is missing or
   * not recognised; `glucose-syrup` reads its thread count from `args[2]`,
   * 1 when that is missing or not a `usize`.
   */
  function ParseSolver(args: seq<string>): (s: Solver)
    ensures InRange(s)
    ensures s.GlucoseSyrup? ==> s.threads >= 1 || (|args| > 2 && ParseUsize(args[2]) == Some(0))
  {
    if |args| < 2 then Kissat
    else if args[1] == "cadical" then Cadical
    else if args[1] == "oxisat" then Oxisat
    else if args[1] == "oxisat-dpll" then OxisatDpll
    else if args[1] == "glucose" then Glucose
    else if args[1] == "glucose-syrup" then
      var threads := if |args| > 2 then ParseUsize(args[2]) else None;
      GlucoseSyrup(if threads.Some? then threads.value else 1)
    else Kissat
  }

  /** The arguments after the program name that select `s`. */
  function Args(s: Solver): seq<string> {
    match s
    case Kissat => []
    case Cadical => ["cadical"]
    case Oxisat => ["oxisat"]
    case OxisatDpll => ["oxisat-dpll"]
    case Glucose => ["glucose"]
    case GlucoseSyrup(threads) => ["glucose-syrup", NatToString(threads)]
  }

  /** Every solver in range is selected by its own arguments, whatever the program name. */
  lemma ParseSolverOfArgs(program: string, s: Solver)
    requires InRange(s)
    ensures ParseSolver([program] + Args(s)) == s
  {
    if s.GlucoseSyrup? {
      ParseUsizeOfNatToString(s.threads);
      assert ([program] + Args(s))[2] == NatToString(s.threads);
    }
  }

  /** Kissat is chosen exactly when no recognised name is given. */
  lemma ParseSolverDefault(args: seq<string>)
    ensures ParseSolver(args) == Kissat <==> |args| < 2 || args[1] !in KnownNames
  {
  }

  /** The program name `args[0]` and anything after `args[2]` are never consulted. */
  lemma ParseSolverReadsOnlyTwo(args: seq<string>, other: seq<string>)
    requires |args| == |other| || (|args| >= 3 && |other| >= 3)
    requires forall i :: 1 <= i < 3 && i < |args| ==> args[i] == other[i]
    ensures ParseSolver(args) == ParseSolver(other)
  {
  }

  /** `glucose-syrup` takes its thread count from `args[2]` when that parses, 1 otherwise. */
  lemma ParseSolverThreads(args: seq<string>)
    requires |args| >= 2 && args[1] == "glucose-syrup"
    ensures ParseSolver(args).GlucoseSyrup?
    ensures |args| > 2 && ParseUsize(args[2]).Some? ==> ParseSolver(args).threads == ParseUsize(args[2]).value
    ensures (|args| == 2 || ParseUsize(args[2]).None?) ==> ParseSolver(args).threads == 1
  {
  }

  /** `std::process::Command` as data: the executable and its arguments. */
  datatype Command = Command(program: string, args: seq<string>)

  const SolverDirectory: string := "../solvers/"

  /** `build_command`: the executable under `../solvers/` and its arguments. */
  function BuildCommand(s: Solver): (c: Command)
    ensures |c.program| > |SolverDirectory| && c.program[..|SolverDirectory|] == SolverDirectory
    ensures c.args == [] <==> s.Kissat? || s.Cadical?
    ensures |c.args| == if s.GlucoseSyrup? then 2 else if s.Kissat? || s.Cadical? then 0 else 1
  {
    match s
    case Kissat => Command(SolverDirectory + "kissat", [])
    case Cadical => Command(SolverDirectory + "cadical", [])
    case Oxisat => Command(SolverDirectory + "oxisat", ["cdcl"])
    case OxisatDpll => Command(SolverDirectory + "oxisat", ["dpll"])
    case Glucose => Command(SolverDirectory + "glucose", ["-model"])
    case GlucoseSyrup(threads) => Command(SolverDirectory + "glucose-syrup", ["-model", "-nthreads=" + NatToString(threads)])
  }

  /** Different solvers run different command lines. */
  lemma BuildCommandInjective(s1: Solver, s2: Solver)
    requires BuildCommand(s1) == BuildCommand(s2)
    ensures s1 == s2
  {
    var c1 := BuildCommand(s1);
    var c2 := BuildCommand(s2);
    var d := |SolverDirectory|;
    assert c1.program[d..] == c2.program[d..];
    if s1.GlucoseSyrup? && s2.GlucoseSyrup? {
      var prefix := "-nthreads=";
      assert c1.args[1][|prefix|..] == NatToString(s1.threads);
      assert c2.args[1][|prefix|..] == NatToString(s2.threads);
      NatToStringInjective(s1.threads, s2.threads);
    }
  }

  /** The thread count of `glucose-syrup` reaches the solver as `-nthreads=` and reads back. */
  lemma BuildCommandThreads(threads: nat)
    requires threads <= UsizeMax
    ensures var c := BuildCommand(GlucoseSyrup(threads));
            c.args[0] == "-model" && c.args[1][..10] == "-nthreads="
            && ParseUsize(c.args[1][10..]) == Some(threads)
  {
    var c := BuildCommand(GlucoseSyrup(threads));
    assert c.args[1][10..] == NatToString(threads);
    ParseUsizeOfNatToString(threads);
  }
}
