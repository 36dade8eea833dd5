# SAT-driven backbones and N-queens, modelled in Dafny

This project models the SAT toolkit of the nail094-tasks repository:
- the `core` library that builds CNF formulas, writes them as DIMACS, and reads a SAT solver's reply;
- the `backbones` program that finds the backbone literals of a DIMACS formula;
- the `n-queens` program that encodes the N-queens puzzle as a formula and draws the solver's model;
- `parse_solver` / `build_command`, which choose the solver from the command line.

Files and modules (one module each):

| file | module | models |
|---|---|---|
| `wrappers.dfy` | `Wrappers` | `Option` and `Result` |
| `text.dfy` | `Text` | The Rust string operations the programs rely on: `format!("{}")` of a number, `parse::<i64>` / `parse::<usize>`, `lines()`, `split_whitespace()`, `trim()`, `contains`, `join`, and the text `writeln!` produces. |
| `clauses.dfy` | `Clauses` | `CnfClause` as a value (a map from variable id to polarity), what it means for an assignment to satisfy clauses, and the at-least-one / at-most-one encodings. |
| `dimacs_format.dfy` | `DimacsFormat` | The DIMACS request text `to_dimacs` writes, and the reply grammar `result_from_dimacs` reads (status lines, `v` lines, literals), with their round trips. |
| `cnf.dfy` | `Cnf` | The `CnfSat` class (variable table, clause list, the encoders, `to_dimacs`, `result_from_dimacs`, `evaluate`), `SatModel` and `from_vec`. |
| `backbones.dfy` | `Backbones` | `main` of the backbones program (the probe loop), `find_backbone_candidate`, `dimacs_to_sat` and the report. |
| `nqueens.dfy` | `NQueens` | Variable naming, `add_queen_vars`, `add_queen_restrictions`, `queen_map_from_model`, and one round of `main`. |
| `solvers.dfy` | `Solvers` | `parse_solver` and `build_command`. |

The external solver is a function `string -> string` from DIMACS request to reply.

A solver is **readable** when every reply parses, since `result_from_dimacs` unwraps every literal and slices every `v` line. A request is **answerable** when its header declares every variable its clauses mention and the declared count is at most 2^63−1, so that every variable can be written as an i64 literal (`DimacsFormat.Answerable`). A solver is **sound** (`Cnf.SoundSolver`) when, on every answerable request:
- it answers `s SATISFIABLE` exactly when the formula is satisfiable;
- when satisfiable, its `v` lines give a model that satisfies every clause and names every declared variable.

No reply can be sound for a request that is not answerable: a model naming an undeclared variable cannot be read. `Cnf.SoundSolverExists` shows the hypothesis can be met: a solver that is readable on every request and sound on every answerable one exists. The requests the drivers send are answerable: `backbones` declares every variable its input mentions (`Backbones.DimacsClausesBelow`), and `n-queens` declares all n³ cell variables (`NQueens.QueenClausesBelow`).

Readability is a precondition of the drivers. Soundness, for a request within the i64 bound, is the hypothesis of their correctness guarantees.

The headline results:
- **Backbones.** `Backbones.Run`: with a sound solver and at most 2^63−1 declared variables, the backbones program prints exactly the literals that hold in every model of the input, in variable order. It refuses an unsatisfiable input, and it calls the solver at most once per variable plus once.
- **N-queens formula.** `NQueens.QueenClausesMeaning`: an assignment satisfies the clauses of `add_queen_restrictions` exactly when it places n queens on an n×n board with no two of them sharing a row, a column or a diagonal.
- **N-queens round.** `NQueens.SolveBoard`: with a sound solver and n³ ≤ 2^63−1, a board is drawn exactly when such a placement exists, and the drawn map is that placement.

Behaviour of the code that differs from the prose description of the system; the model follows the code:
- **Empty clauses.** A clause may be empty. `ensure_at_least_one_set` on an empty list adds an empty clause, and an input clause with no literals becomes an empty clause.
- **Repeated variables.** A clause never mentions a variable twice, because `CnfClause::set` overwrites. So the input clause `1 -1 0` becomes the unit clause `-1`, not a tautology (`Backbones.TautologyBecomesUnit`).
- **Missing variables.** The backbones driver panics when a model misses any variable; it does not skip it. This is modelled as the `VarMissing` fault, which a sound solver never triggers.
- **Non-ASCII after `v`.** `result_from_dimacs` slices `line.trim()[2..]` by bytes. So a `v` line whose second character is not ASCII (such as `vé 1 0`) panics, and readability excludes it (`DimacsFormat.LineParses`).
- **`pop_clause`.** `backbones/src/main.rs:128` calls `CnfSat::pop_clause`, which `core/src/lib.rs` does not define. `Cnf.CnfSat.PopClause` supplies it as removal of the last clause.

## Model

| member | source | states |
|---|---|---|
| Text.NatToStringInjective | core/src/lib.rs:127 | Distinct numbers print as distinct decimal strings, so the names and literals built with `format!` never collide. |
| Text.ParseI64OfNatToString | core/src/lib.rs:150 | `parse::<i64>` reads a printed number below 2^63 back as that number. |
| Text.ParseI64OfNegated | core/src/lib.rs:150 | `parse::<i64>` reads `-` followed by a printed m, for 0 < m ≤ 2^63, back as −m. |
| Text.ParseUsizeOfNatToString | core/src/solvers.rs:21 | `parse::<usize>` reads back every printed number up to `usize::MAX`. |
| Text.LinesOfTerminated | core/src/lib.rs:143 | `lines()` of text written line by line with `writeln!` returns exactly those lines, provided none contains a line break. |
| Text.SplitWhitespaceOfJoin | core/src/lib.rs:148 | `split_whitespace` of whitespace-free tokens joined by single spaces returns the tokens. |
| Text.TrimOfUnpadded | core/src/lib.rs:148 | `trim` leaves a string without leading or trailing whitespace unchanged. |
| Clauses.Set | core/src/lib.rs:40-42 | `CnfClause::set`: the clause then mentions the id with the given polarity; every other literal is unchanged. |
| Clauses.SetOverwrites | core/src/lib.rs:40-42 | Setting the same id twice keeps only the second polarity. |
| Clauses.SetCommutes | core/src/lib.rs:40-42 | Setting two different ids gives the same clause in either order. |
| Clauses.SetAll | core/src/lib.rs:80-83 | The loop of `ensure_at_least_one_set`: every listed variable gets the value, and unlisted ones keep theirs. |
| Clauses.AtLeastOneMeaning | core/src/lib.rs:77-85 | The at-least-one clause holds exactly when some listed variable is true. |
| Clauses.PairClauseMeaning | core/src/lib.rs:92-95 | A pair clause holds exactly when its two variables are not both true. |
| Clauses.AtMostOneCount | core/src/lib.rs:87-98 | `ensure_max_one_set` on k variables adds k(k−1)/2 clauses. |
| Clauses.PairClausesComplete | core/src/lib.rs:90-97 | Every pair of positions p < q gets its pair clause. |
| Clauses.PairClausesSound | core/src/lib.rs:90-97 | Every clause added is the pair clause of some positions p < q. |
| Clauses.AtMostOneMeaning | core/src/lib.rs:87-98 | The at-most-one clauses all hold exactly when no two listed variables are both true. |
| Clauses.IdsBelowConcat | core/src/lib.rs:64-66 | Appending clauses that mention only variables below a bound keeps every clause below it. |
| Clauses.AtMostOneBelow | core/src/lib.rs:87-98 | The pair clauses of a list mention only the listed variables. |
| Clauses.ExactlyOneMeaning | n-queens/src/main.rs:57-58 | The two encodings together hold exactly when exactly one listed variable is true. |
| DimacsFormat.LiteralRoundTrip | core/src/lib.rs:125-157 | A literal written by `to_dimacs` (id+1, negated when false) parses as a non-zero i64 and decodes back to the same id and polarity. |
| DimacsFormat.LiteralTextChars | core/src/lib.rs:125-131 | A written literal is a single token of digits and `-`. |
| DimacsFormat.ClauseLines | core/src/lib.rs:121-136 | The request has one literal line per clause, in clause order. |
| DimacsFormat.DimacsTextLines | core/src/lib.rs:113-138 | `lines()` of the request is the `p cnf <variables> <clauses>` header followed by the clause lines. |
| DimacsFormat.HeaderLineWords | core/src/lib.rs:115-120 | The header splits into the words `p`, `cnf`, the variable count and the clause count. |
| DimacsFormat.DimacsTextDetermines | core/src/lib.rs:113-138 | Two requests with the same text have the same variable count and clause count, and, when every id can be written, the same clauses, whatever their literal orders. |
| DimacsFormat.DimacsTextReadsBack | core/src/lib.rs:113-138 | Read back line by line, a request gives its header and then, clause by clause, words that decode to exactly that clause, whatever the literal order. |
| DimacsFormat.ClauseLineRoundTrip | core/src/lib.rs:121-136 | Reading a clause line back with the reply's literal decoder recovers exactly the clause, whatever the iteration order. |
| DimacsFormat.StatusOfLastStatusLine | core/src/lib.rs:143-146 | Satisfiability is decided by the last line starting with `s`: satisfiable iff that line does not contain `UNSATISFIABLE`. |
| DimacsFormat.NoStatusLineIsUnsat | core/src/lib.rs:141-166 | A reply with no status line reads as unsatisfiable. |
| DimacsFormat.LaterPairWins | core/src/lib.rs:211-214 | An id has a value in the model iff some decoded pair names it, and the value is that of the last such pair. |
| DimacsFormat.ResultsByIdOfDistinct | core/src/lib.rs:211-214 | With no id repeated, the model holds exactly the decoded pairs. |
| DimacsFormat.DecodeEncodedPairs | core/src/lib.rs:147-158 | Decoding the literal tokens of a list of pairs gives back the list, in order. |
| DimacsFormat.WitnessReplyRoundTrip | core/src/lib.rs:140-167 | A reply made of `s SATISFIABLE` and a `v … 0` line reads as satisfiable, with exactly the pairs written. |
| DimacsFormat.UnsatReplyIsUnsat | core/src/lib.rs:141-146 | A reply whose last status line is `s UNSATISFIABLE` reads as unsatisfiable, whatever lines precede it. |
| Cnf.ResultsByNameAgrees | core/src/lib.rs:207-230 | When variable names are unique, looking a variable up by name gives the same answer as looking it up by id. |
| Cnf.ModelLookupById | core/src/lib.rs:211-225 | `get_result_by_id` finds an id iff some reply pair names it, and returns the last such pair's value. |
| Cnf.SoundEvaluation | core/src/lib.rs:192-202 | For a sound solver and an answerable request, `evaluate` answers `Sat` exactly when the clauses are satisfiable. A `Sat` model satisfies every clause and names every variable. |
| Cnf.FullModelSatisfies | core/src/lib.rs:207-214 | A model of the clauses, written out for every declared variable and read back with `from_vec`, names every declared variable and still satisfies the clauses. |
| Cnf.CanonicalReplySound | core/src/lib.rs:140-167 | For every answerable request, the reply of a complete solver (a full model when satisfiable, `s UNSATISFIABLE` otherwise) is sound. |
| Cnf.CanonicalSolverReply | core/src/lib.rs:113-167 | The solver that reads the formula off the request and gives the complete reply is readable on every request and sound on every answerable one. |
| Cnf.SoundSolverExists | core/src/lib.rs:169-203 | Some solver is readable on every request and sound on every answerable one, so the soundness hypothesis of the drivers can be met. |
| Cnf.CnfSat.OrderDistinct | core/src/lib.rs:53-62 | No variable name is registered twice. |
| Cnf.CnfSat.constructor | core/src/lib.rs:46-51 | A new formula has no variables and no clauses. |
| Cnf.CnfSat.CreateVariable | core/src/lib.rs:53-62 | A new name gets the next dense id, equal to the previous variable count; clauses are untouched. |
| Cnf.CnfSat.AddClause | core/src/lib.rs:64-66 | The clause is appended at the end and the clause count grows by one; variables are untouched. |
| Cnf.CnfSat.PopClause | backbones/src/main.rs:126-129 | The last clause is removed and everything else is kept. |
| Cnf.CnfSat.GetVariableById | core/src/lib.rs:68-72 | Finds a variable iff the id is below the variable count, and returns the one created with that id. |
| Cnf.CnfSat.GetVariable | core/src/lib.rs:73-75 | Returns the id under which the name was created. |
| Cnf.CnfSat.VariableCount | core/src/lib.rs:100-102 | Equals the number of variables created. |
| Cnf.CnfSat.ClauseCount | core/src/lib.rs:104-106 | Equals the number of clauses added. |
| Cnf.CnfSat.EnsureAtLeastOneSet | core/src/lib.rs:77-85 | Appends exactly the at-least-one clause of the list (see `Clauses.AtLeastOneMeaning`). |
| Cnf.CnfSat.EnsureMaxOneSet | core/src/lib.rs:87-98 | Appends exactly the pair clauses of the list, in loop order (see `Clauses.AtMostOneMeaning`). |
| Cnf.CnfSat.AddPairsWith | core/src/lib.rs:91-96 | The inner loop of `ensure_max_one_set`: appends the pair clause of one variable with each later one, in order; variables are untouched. |
| Cnf.WriteClauseLine | core/src/lib.rs:121-135 | A clause line lists each literal of the clause exactly once, in some iteration order, followed by ` 0`; when every id fits an i64 literal, its words read back as exactly the clause. |
| Cnf.CnfSat.ToDimacs | core/src/lib.rs:113-138 | The request is the DIMACS text of the current variable count and clauses, with each clause's literal order left open: a `p cnf` header with both counts, then one line per clause that reads back as that clause. |
| Cnf.CnfSat.ResultFromDimacs | core/src/lib.rs:140-167 | `Ok` exactly when the last status line says satisfiable; the model then holds the decoded `v`-line pairs, by id and by name. |
| Cnf.ReadValueLine | core/src/lib.rs:147-158 | The inner loop over the words of a `v` line collects exactly the decoded literals of that line, zeros skipped, in order. |
| Cnf.FromVec | core/src/lib.rs:207-220 | The model maps each id, and its variable's name, to the value of its last pair. |
| Cnf.CnfSat.Evaluate | core/src/lib.rs:169-203 | The solver gets the request; the reply is classified `Sat`, with its model, exactly when it reads as satisfiable. |
| Backbones.Merge | backbones/src/main.rs:85-106 | The merge fails exactly on an unseen variable after the first run (the assert) or on a backbone contradicted by the model. Otherwise a backbone is kept, and any other value records the union of the polarities seen. |
| Backbones.FindBackboneCandidate | backbones/src/main.rs:168-187 | Returns the least index from `start` on whose entry is True or False, with that value; None iff there is none. |
| Backbones.UnitClauseMeaning | backbones/src/main.rs:65-68 | The probe clause holds exactly when the variable has the probed polarity. |
| Backbones.ProbeUnsatIffForced | backbones/src/main.rs:65-68 | Adding the negated candidate literal makes the formula unsatisfiable exactly when every model gives the candidate its value, i.e. it is a backbone. |
| Backbones.MergeJustified | backbones/src/main.rs:85-106 | Merging a value taken from a real model never claims more than the models show. |
| Backbones.SettledIsExact | backbones/src/main.rs:110-121 | For a satisfiable formula, a justified entry that is Either or Backbone says Backbone(b) exactly when every model gives the variable b. |
| Backbones.MergeModel | backbones/src/main.rs:75-107 | The merge loop succeeds iff every variable is in the model and merges. Its result is the entry-wise merge; on failure it reports the first failing variable. |
| Backbones.SatRound | backbones/src/main.rs:73-107 | After a satisfiable answer, every entry stays justified and the probed candidate becomes Either. |
| Backbones.SoundModelMerges | backbones/src/main.rs:75-97 | A sound solver's model never triggers the "var missing" panic or a backbone assert. |
| Backbones.SettledStaysSettled | backbones/src/main.rs:85-106 | Merging never turns an Either or Backbone entry back into a candidate, and leaves no entry unseen. |
| Backbones.AskSolver | backbones/src/main.rs:60-71 | Pushes the probe clause when searching, then returns `evaluate`'s reading of the solver's reply to the DIMACS text of exactly those clauses (`Cnf.Answered`: `Sat` with the reply's model iff the reply's status says satisfiable), whatever the solver. With a sound solver and an answerable formula, the answer decides the satisfiability of the clauses sent and carries a complete model. |
| Backbones.Classify | backbones/src/main.rs:72-124 | For any answer: an unsatisfiable first run stops the program; an unsatisfiable probe sets only the probed entry, to its backbone value. A model is merged entry by entry (`Backbones.Classified`), and the round goes on iff every merge succeeds; otherwise it panics with the first failing fault. With a sound answer it never panics and settles the probed variable. |
| Backbones.Round | backbones/src/main.rs:60-129 | One loop body up to the state change: the answer is `evaluate`'s reading of the solver's reply to the input clauses plus the probe clause (`Cnf.Answered`), that answer is classified as in `Backbones.Classify`, and the clause list is restored unless the round panics. With a sound solver and an answerable formula, entries stay justified against the input and the probed entry is settled. |
| Backbones.Advance | backbones/src/main.rs:131-148 | The next state probes the first candidate after the current one; the loop ends iff none is left. Then, under a sound solver, every entry is exact. |
| Backbones.StrictlyIncreasingBound | backbones/src/main.rs:131-148 | Probed indices strictly increase below the variable count, so there are at most that many probes. |
| Backbones.FinishedIsExact | backbones/src/main.rs:141-142 | When no candidate remains, every entry is settled and Backbone(b) holds exactly for the forced literals. |
| Backbones.SearchBackbones | backbones/src/main.rs:57-149 | The loop ends after at most one solver call per variable plus one, with the clauses restored. With a sound solver and an answerable input formula it never panics, reports unsatisfiable input exactly when the input is unsatisfiable, and otherwise ends with exactly the backbones marked. |
| Backbones.ClauseOfMentions | backbones/src/main.rs:200-211 | Every variable a literal names is in the built clause. |
| Backbones.ClauseOfOnlyMentions | backbones/src/main.rs:200-211 | The built clause names no other variable. |
| Backbones.ClauseOfLastWins | backbones/src/main.rs:202-211 | The last literal on a variable decides the polarity the clause keeps. |
| Backbones.ClauseOfConsistent | backbones/src/main.rs:202-211 | Without a variable of both signs, each literal keeps its own polarity. |
| Backbones.ClauseOfMeaning | backbones/src/main.rs:200-214 | Without a variable of both signs, the built clause holds exactly when some input literal holds. |
| Backbones.TautologyBecomesUnit | backbones/src/main.rs:202-211 | The input clause `1 -1 0` becomes the unit clause `-1`, which the assignment making variable 1 true violates. |
| Backbones.VariableNames | backbones/src/main.rs:192-198 | The variables are named "0", "1", … after their index. |
| Backbones.NextNameIsNew | backbones/src/main.rs:192-198 | Each new name differs from all earlier ones, so `create_variable` never panics here. |
| Backbones.CreateNumberedVariables | backbones/src/main.rs:192-198 | Creates variables "0" … "n−1"; their ids are 0 … n−1 in order. |
| Backbones.BuildClause | backbones/src/main.rs:200-211 | The inner loop builds exactly the clause of the literal list: each literal sets its variable, and later literals overwrite earlier ones. |
| Backbones.DimacsToSat | backbones/src/main.rs:189-217 | A fresh formula with the numbered variables and one clause per input clause, in input order. |
| Backbones.BackboneEntriesSpec | backbones/src/main.rs:151-160 | The report lists exactly the Backbone entries, each with its value, in strictly increasing index order. |
| Backbones.ReportLines | backbones/src/main.rs:162-163 | The output is two lines: `Found <k> backbones:` and the literals. |
| Backbones.ReportRoundTrip | backbones/src/main.rs:151-163 | The literal line splits into DIMACS literals that decode back to the reported entries, in order. |
| Backbones.EntriesOfExactClassification | backbones/src/main.rs:151-160 | A classification whose Backbone entries are exactly the forced literals reports exactly the forced literals. |
| Backbones.DimacsClausesBelow | backbones/src/main.rs:192-211 | Every clause built from the input mentions only variables the input header declares. |
| Backbones.Run | backbones/src/main.rs:20-166 | With a sound solver and at most 2^63−1 declared variables, the output is the report of the literals true in every model when the input is satisfiable, and the "Unsatisfiable CNF" error otherwise. Solver calls are at most variables + 1. |
| NQueens.QueenPosInjective | n-queens/src/main.rs:37-39 | Different (queen, x, y) give different variable names. |
| NQueens.RowNamesIndex | n-queens/src/main.rs:44-46 | The innermost loop names cell x of the row in position x. |
| NQueens.QueenNamesLength | n-queens/src/main.rs:41-49 | `add_queen_vars` creates n·n·n variables. |
| NQueens.QueenNamesIndex | n-queens/src/main.rs:41-49 | The variable of (queen, x, y) gets id queen·n² + y·n + x. |
| NQueens.NotInQueens | n-queens/src/main.rs:41-49 | Names of later queens are not yet taken, so `create_variable` never panics. |
| NQueens.AddRowVars | n-queens/src/main.rs:44-46 | Appends the names of one row, in x order. |
| NQueens.AddQueenVars | n-queens/src/main.rs:41-49 | On an empty formula, creates exactly the board's names, in loop order; clauses are untouched. |
| NQueens.AddBoardVars | n-queens/src/main.rs:43-47 | The middle loop of `add_queen_vars`: extends the names of the earlier queens by those of one more board, row by row. |
| NQueens.CellVariable | n-queens/src/main.rs:55 | `get_variable` of a board cell's name returns its id. |
| NQueens.GroupVarsAreIds | n-queens/src/main.rs:54-56 | The `vars` vector collected for a group is the list of its cells' ids. |
| NQueens.ProductMembers | n-queens/src/main.rs:54 | `iproduct!` yields exactly the pairs of its two ranges. |
| NQueens.ProductLength | n-queens/src/main.rs:54 | `iproduct!` yields outer·inner items. |
| NQueens.QueenCellsMembers | n-queens/src/main.rs:53-59 | The group of a queen is exactly the board cells of that queen. |
| NQueens.RowCellsMembers | n-queens/src/main.rs:62-67 | The group of row y is exactly the board cells with that y, over all queens. |
| NQueens.ColumnCellsMembers | n-queens/src/main.rs:70-75 | The group of column x is exactly the board cells with that x. |
| NQueens.DownFromLeftMembers | n-queens/src/main.rs:78-87 | Diagonal `\` from (0, s) holds exactly the cells with y = x + s. |
| NQueens.DownFromTopMembers | n-queens/src/main.rs:90-98 | Diagonal `\` from (s, 0) holds exactly the cells with x = y + s. |
| NQueens.UpFromLeftMembers | n-queens/src/main.rs:101-109 | Diagonal `/` from (0, s) holds exactly the cells with x + y = s. |
| NQueens.UpFromBottomMembers | n-queens/src/main.rs:112-120 | Diagonal `/` from (s, n−1) holds exactly the cells with x + y = s + n − 1. |
| NQueens.EachCellOnOneDownDiagonal | n-queens/src/main.rs:77-98 | The two `\` loops cover each board cell exactly once: one group contains it, and no two do. |
| NQueens.EachCellOnOneUpDiagonal | n-queens/src/main.rs:100-120 | The two `/` loops cover each board cell exactly once. |
| NQueens.GroupsDistinct | n-queens/src/main.rs:53-120 | No group lists a cell twice. |
| NQueens.AddExactlyOneGroups | n-queens/src/main.rs:53-59 | The queen loop appends at-least-one and at-most-one clauses for each group, in order. |
| NQueens.AddAtMostOneGroups | n-queens/src/main.rs:62-120 | The row, column and diagonal loops append at-most-one clauses for each group, in order. |
| NQueens.AddQueenRestrictions | n-queens/src/main.rs:51-121 | Appends exactly the clause list `QueenClauses(n)` and leaves the variables alone. |
| NQueens.GroupAtLeastOne | n-queens/src/main.rs:57 | The at-least-one clause of a group holds exactly when some cell of the group is occupied. |
| NQueens.GroupAtMostOne | n-queens/src/main.rs:58 | The at-most-one clauses of a group hold exactly when no two cells of the group are occupied. |
| NQueens.ExactlyOneGroupsHold | n-queens/src/main.rs:53-59 | The queen clauses hold exactly when each queen's group has exactly one occupied cell. |
| NQueens.AtMostOneGroupsHold | n-queens/src/main.rs:62-120 | A family's clauses hold exactly when no group of the family has two occupied cells. |
| NQueens.FamilyMeaning | n-queens/src/main.rs:62-120 | When a family partitions the board by a line (row, column or diagonal), "no group has two occupied cells" means no two occupied cells share that line. |
| NQueens.QueenGroupsPartition | n-queens/src/main.rs:53-59 | The queen groups partition the board by queen. |
| NQueens.RowGroupsPartition | n-queens/src/main.rs:62-67 | The row groups partition the board by row. |
| NQueens.ColumnGroupsPartition | n-queens/src/main.rs:70-75 | The column groups partition the board by column. |
| NQueens.DownDiagonalsPartition | n-queens/src/main.rs:77-98 | The `\` groups partition the board by y − x. |
| NQueens.UpDiagonalsPartition | n-queens/src/main.rs:100-120 | The `/` groups partition the board by x + y. |
| NQueens.QueenPartMeaning | n-queens/src/main.rs:53-59 | The queen clauses hold exactly when every queen stands on some cell and no queen stands on two. |
| NQueens.RowPartMeaning | n-queens/src/main.rs:62-67 | The row clauses hold exactly when no two placed queens share a row. |
| NQueens.ColumnPartMeaning | n-queens/src/main.rs:70-75 | The column clauses hold exactly when no two placed queens share a column. |
| NQueens.DownPartMeaning | n-queens/src/main.rs:77-98 | The `\` clauses hold exactly when no two placed queens share a `\` diagonal. |
| NQueens.UpPartMeaning | n-queens/src/main.rs:100-120 | The `/` clauses hold exactly when no two placed queens share a `/` diagonal. |
| NQueens.CellIdsBelow | n-queens/src/main.rs:41-49 | Every cell on the board has an id below n³, the number of variables `add_queen_vars` creates. |
| NQueens.ExactlyOneGroupsBelow | n-queens/src/main.rs:53-59 | The exactly-one clauses of the queen loops mention only the n³ declared variables. |
| NQueens.AtMostOneGroupsBelow | n-queens/src/main.rs:61-121 | The at-most-one clauses of the row, column and diagonal loops mention only the n³ declared variables. |
| NQueens.QueenClausesBelow | n-queens/src/main.rs:51-121 | Every clause `add_queen_restrictions` adds mentions only the n³ variables the request header declares. |
| NQueens.QueenClausesMeaning | n-queens/src/main.rs:51-121 | An assignment of the board variables satisfies all the clauses iff every one of the n queens stands on the board and no two stand on the same cell, row, column or diagonal. |
| NQueens.NoSolutionMeansUnsat | n-queens/src/main.rs:28-30 | An unsatisfiable formula means no n-queens placement exists. |
| NQueens.QueenMapFromModel | n-queens/src/main.rs:123-146 | The three loops build the queen map: one line per row, with `Q` for each queen on a square and `.` for an empty one. |
| NQueens.AppendRow | n-queens/src/main.rs:126-143 | One pass of the row loop appends the text of every cell of the row, left to right, then a line feed. |
| NQueens.AppendCell | n-queens/src/main.rs:127-141 | One cell appends a `Q` for each queen the model sets there, or a single `.` when there is none. |
| NQueens.MarksCount | n-queens/src/main.rs:129-136 | A square shows one `Q` per queen the model places there. |
| NQueens.CellTextMeaning | n-queens/src/main.rs:138-140 | A square shows `.` exactly when no queen is on it, and otherwise only `Q`s. |
| NQueens.CellOfSolution | n-queens/src/main.rs:126-141 | For a solution, each square shows `Q` if occupied and `.` otherwise. |
| NQueens.QueenMapOfSolution | n-queens/src/main.rs:123-146 | For a solution, the map has n lines of n squares, each the square's picture. |
| NQueens.PictureOfSolution | n-queens/src/main.rs:123-146 | For a solution, the lines of the map are exactly the board picture of the placement. |
| NQueens.BuildFormula | n-queens/src/main.rs:12-14 | The formula of round n has exactly the board variables and the clauses `QueenClauses(n)`. |
| NQueens.Draw | n-queens/src/main.rs:23-31 | With a sound answer, the round draws a board iff a placement exists, the board drawn is a placement, and the `unwrap` never panics. |
| NQueens.SolveBoard | n-queens/src/main.rs:12-31 | The round reports n³ variables and the size of `QueenClauses(n)`. With a sound solver and n³ ≤ 2^63−1, it draws a board exactly when n queens can be placed without attacking each other, and the board is such a placement. |
| Solvers.ParseSolver | core/src/solvers.rs:13-26 | The chosen solver's thread count fits a `usize`, and `glucose-syrup` runs with at least one thread unless `0` is given explicitly. |
| Solvers.ParseSolverOfArgs | core/src/solvers.rs:13-26 | Every solver is chosen by its own arguments, whatever the program name. |
| Solvers.ParseSolverDefault | core/src/solvers.rs:14-24 | Kissat is chosen exactly when the first argument is missing or not a known solver name. |
| Solvers.ParseSolverReadsOnlyTwo | core/src/solvers.rs:13-26 | Only the first two arguments after the program name are consulted. |
| Solvers.ParseSolverThreads | core/src/solvers.rs:20-23 | `glucose-syrup` takes its thread count from the next argument when it parses as `usize`, and 1 otherwise. |
| Solvers.BuildCommand | core/src/solvers.rs:28-53 | Every command runs a program under `../solvers/`. Kissat and CaDiCaL get no arguments; oxisat and glucose get one; glucose-syrup gets two. |
| Solvers.BuildCommandInjective | core/src/solvers.rs:28-53 | Different solvers are run with different command lines. |
| Solvers.BuildCommandThreads | core/src/solvers.rs:47-51 | glucose-syrup gets `-model` and `-nthreads=<threads>`, and the thread count reads back. |

## Left out

- Running the solver process: spawning, piping stdin and stdout, UTF-8 decoding, and the `Instant` timing in `evaluate` (core/src/lib.rs:170-190). The solver is a function from request text to reply text, and the `time` fields of `EvaluationResult` are dropped.
- `std::process::Command` is represented only as data (program and arguments); nothing runs it.
- The DIMACS input parser of the backbones program (its `dimacs` module) is not part of this model. Its result is the `Dimacs` datatype (variable count and literal lists), and reading stdin and the parse-error path are left out.
- The `eprintln!` diagnostics are left out. The `println!` output is modelled as the text it prints: the backbones report and the queen map; the "Starting"/"Finished" lines are reduced to their counts and answer.
- n-queens `main` loops over n = 1, 2, … forever; the model is one round for a given n (`NQueens.SolveBoard`).
- `HashMap` iteration order: the order in which `to_dimacs` lists a clause's literals is a nondeterministic choice, exposed as a ghost order per clause.
- `create_variable` on a taken name, `get_variable` on an unknown name, and the `unwrap`s in `result_from_dimacs` / `from_vec` panic. They are preconditions (`Cnf.CnfSat.CreateVariable`, `Cnf.CnfSat.GetVariable`, a readable solver, `Cnf.FromVec`), and each call site proves them. The same holds for the index `vars[(variable - 1) as usize]` in `dimacs_to_sat`; see the `Backbones.Run` line below.
- The asserts and `expect` in the backbones loop are `Panic` outcomes; the `unwrap` in `queen_map_from_model` is the `Panic` answer of a round. The guarantees show a sound solver never reaches them on an answerable request.
- Cnf.SoundSolver: soundness is required only on answerable requests (every mentioned variable declared, at most 2^63−1 variables), because no reply to another request can be both readable and correct.
- Backbones.Run: an input literal naming a variable above the header's count panics in `dimacs_to_sat` (backbones/src/main.rs:205, 208). The model does not represent that panic. Instead `Backbones.DimacsToSat` and `Backbones.Run` require `LiteralsInRange`, so the model says nothing about such an input.
- Backbones.Run: the correctness guarantee assumes at most 2^63−1 declared variables, so that every variable of a model can be written as an i64 literal; for a larger input only the call bound is stated.
- NQueens.SolveBoard: the correctness guarantee assumes n³ ≤ 2^63−1, for the same reason; for a larger n only the counts are stated.
- Backbones.SearchBackbones, Backbones.Round and Backbones.AskSolver: their solver guarantees assume the formula they are given is answerable; `Backbones.Run` discharges this for the input formula.
- `usize` and `i64` are unbounded naturals and integers. Overflow of `id + 1` and of `n * n * n` is not modelled; thread counts and reply literals are bounded where the source parses them.
- Backbones.ReportRoundTrip: stated only for indices below 2^63 − 1, so that the printed literals are in `i64` range.
