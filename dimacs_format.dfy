/**
 * The DIMACS CNF text that `CnfSat::to_dimacs` writes and the solver reply
 * that `CnfSat::result_from_dimacs` reads (core/src/lib.rs), as functions on
 * strings, with the round trips between encoding and decoding.
 *
 * A literal is written as the signed 1-based variable number `id + 1` or
 * `-(id + 1)`; a request is the line `p cnf V C` followed by one line per
 * clause ending in ` 0`; a reply holds status lines starting with `s` and
 * value lines starting with `v` whose literals run on across lines.
 */
module DimacsFormat {
  import opened Wrappers
  import opened Text
  import opened Clauses

  // ------------------------------------------------------------- literals

  /** A literal as text: `id + 1` when positive, `-(id + 1)` when negative. */
  function LiteralText(id: nat, value: bool): string {
    if value then NatToString(id + 1) else "-" + NatToString(id + 1)
  }

  function Abs(x: int): nat {
    if x < 0 then -x else x
  }

  /** A nonzero signed variable number read back as (|val| - 1, val > 0). */
  function DecodeLiteral(val: int): (nat, bool)
    requires val != 0
  {
    (Abs(val) - 1, val > 0)
  }

  /** Reading a written literal gives the literal back. */
  lemma LiteralRoundTrip(id: nat, value: bool)
    requires id < I64Max
    ensures ParseI64(LiteralText(id, value)) == Some(if value then id + 1 else -(id + 1))
    ensures DecodeLiteral(ParseI64(LiteralText(id, value)).value) == (id, value)
  {
    if value {
      ParseI64OfNatToString(id + 1);
    } else {
      ParseI64OfNegated(id + 1);
    }
  }

  /** Characters that may occur in a written literal. */
  predicate LiteralChar(c: char) {
    IsDigit(c) || c == '-'
  }

  lemma LiteralTextChars(id: nat, value: bool)
    ensures IsToken(LiteralText(id, value))
    ensures forall j :: 0 <= j < |LiteralText(id, value)| ==> LiteralChar(LiteralText(id, value)[j])
  {
  }

  /** The literals of a list of (id, value) pairs, written in list order. */
  function EncodePairs(pairs: seq<(nat, bool)>): (r: seq<string>)
    ensures |r| == |pairs|
  {
    seq(|pairs|, k requires 0 <= k < |pairs| => LiteralText(pairs[k].0, pairs[k].1))
  }

  // --------------------------------------------------------- request text

  /** `ord` lists every variable of `keys` exactly once. */
  ghost predicate IsOrderOf(ord: seq<nat>, keys: set<nat>) {
    (forall i, j :: 0 <= i < j < |ord| ==> ord[i] != ord[j])
    && (forall k :: k in keys <==> k in ord)
  }

  /** The literals of a clause, taken in the order `ord`. */
  function ClausePairs(c: Clause, ord: seq<nat>): (r: seq<(nat, bool)>)
    requires forall k :: k in ord ==> k in c.values
    ensures |r| == |ord|
  {
    seq(|ord|, i requires 0 <= i < |ord| => (ord[i], c.values[ord[i]]))
  }

  /** `p cnf <#variables> <#clauses>`. */
  function HeaderLine(variableCount: nat, clauseCount: nat): string {
    Join(["p", "cnf", NatToString(variableCount), NatToString(clauseCount)], " ")
  }

  /** A clause line: its literals in the order `ord`, space separated, then ` 0`. */
  function ClauseLine(c: Clause, ord: seq<nat>): string
    requires forall k :: k in ord ==> k in c.values
  {
    Join(EncodePairs(ClausePairs(c, ord)), " ") + " 0"
  }

  /** Each clause has its own literal order; the format leaves that order open. */
  ghost predicate OrdersFor(cs: seq<Clause>, orders: seq<seq<nat>>) {
    |orders| == |cs| && forall i :: 0 <= i < |cs| ==> IsOrderOf(orders[i], cs[i].values.Keys)
  }

  /** One line per clause, in clause order. */
  function ClauseLines(cs: seq<Clause>, orders: seq<seq<nat>>): (r: seq<string>)
    requires OrdersFor(cs, orders)
    ensures |r| == |cs|
    ensures forall i :: 0 <= i < |cs| ==> r[i] == ClauseLine(cs[i], orders[i])
  {
    seq(|cs|, i requires 0 <= i < |cs| => ClauseLine(cs[i], orders[i]))
  }

  lemma ClauseLinesAppend(cs: seq<Clause>, orders: seq<seq<nat>>, c: Clause, ord: seq<nat>)
    requires OrdersFor(cs, orders) && IsOrderOf(ord, c.values.Keys)
    ensures OrdersFor(cs + [c], orders + [ord])
    ensures ClauseLines(cs + [c], orders + [ord]) == ClauseLines(cs, orders) + [ClauseLine(c, ord)]
  {
    assert forall i :: 0 <= i < |cs| ==> (cs + [c])[i] == cs[i] && (orders + [ord])[i] == orders[i];
  }

  /** The lines of a request: the header, then one line per clause in clause order. */
  function DimacsLines(variableCount: nat, cs: seq<Clause>, orders: seq<seq<nat>>): (r: seq<string>)
    requires OrdersFor(cs, orders)
    ensures |r| == |cs| + 1
  {
    [HeaderLine(variableCount, |cs|)] + ClauseLines(cs, orders)
  }

  /** The request text: every line followed by a line feed. */
  function DimacsText(variableCount: nat, cs: seq<Clause>, orders: seq<seq<nat>>): string
    requires OrdersFor(cs, orders)
  {
    Terminated(DimacsLines(variableCount, cs, orders))
  }

  lemma {:induction false} JoinChars(parts: seq<string>, sep: string, P: char -> bool)
    requires forall k, j :: 0 <= k < |parts| && 0 <= j < |parts[k]| ==> P(parts[k][j])
    requires forall j :: 0 <= j < |sep| ==> P(sep[j])
    ensures forall j :: 0 <= j < |Join(parts, sep)| ==> P(Join(parts, sep)[j])
  {
    if |parts| > 1 {
      JoinChars(parts[1..], sep, P);
    }
  }

  lemma ClauseLineIsPlain(c: Clause, ord: seq<nat>)
    requires forall k :: k in ord ==> k in c.values
    ensures PlainLine(ClauseLine(c, ord))
  {
    var lits := EncodePairs(ClausePairs(c, ord));
    var P := (ch: char) => ch != '\n';
    forall k, j | 0 <= k < |lits| && 0 <= j < |lits[k]| ensures P(lits[k][j]) {
      LiteralTextChars(ClausePairs(c, ord)[k].0, ClausePairs(c, ord)[k].1);
    }
    JoinChars(lits, " ", P);
  }

  lemma HeaderLineIsPlain(variableCount: nat, clauseCount: nat)
    ensures PlainLine(HeaderLine(variableCount, clauseCount))
  {
    var words := ["p", "cnf", NatToString(variableCount), NatToString(clauseCount)];
    var P := (ch: char) => ch != '\n' && ch != '\r';
    assert forall k, j :: 0 <= k < |words| && 0 <= j < |words[k]| ==> P(words[k][j]);
    JoinChars(words, " ", P);
  }

  /**
   * Splitting a request into lines gives back the header and exactly one
   * line per clause, in clause order.
   */
  lemma DimacsTextLines(variableCount: nat, cs: seq<Clause>, orders: seq<seq<nat>>)
    requires OrdersFor(cs, orders)
    ensures Lines(DimacsText(variableCount, cs, orders)) == DimacsLines(variableCount, cs, orders)
  {
    DimacsLinesArePlain(variableCount, cs, orders);
    LinesOfTerminated(DimacsLines(variableCount, cs, orders));
  }

  lemma DimacsLinesArePlain(variableCount: nat, cs: seq<Clause>, orders: seq<seq<nat>>)
    requires OrdersFor(cs, orders)
    ensures forall k :: 0 <= k < |DimacsLines(variableCount, cs, orders)| ==> PlainLine(DimacsLines(variableCount, cs, orders)[k])
  {
    var lines := DimacsLines(variableCount, cs, orders);
    forall k | 0 <= k < |lines| ensures PlainLine(lines[k]) {
      if k == 0 {
        HeaderLineIsPlain(variableCount, |cs|);
      } else {
        assert lines[k] == ClauseLine(cs[k - 1], orders[k - 1]);
        ClauseLineIsPlain(cs[k - 1], orders[k - 1]);
      }
    }
  }

  // ----------------------------------------------------------- reply text

  /** Every word parses as an i64 (otherwise `result_from_dimacs` panics in `unwrap`). */
  predicate TokensParse(toks: seq<string>) {
    forall k :: 0 <= k < |toks| ==> ParseI64(toks[k]).Some?
  }

  /** The words of a value line: `line.trim()[2..]` split at whitespace. */
  function ValueTokens(line: string): seq<string>
    requires |Trim(line)| >= 2
  {
    SplitWhitespace(Trim(line)[2..])
  }

  /**
   * A reply line `result_from_dimacs` reads without panicking. The slice
   * `[2..]` is taken in bytes: it needs the trimmed line to be two bytes long
   * and byte 2 to start a character, so the character after the `v` must be
   * ASCII; then the byte slice and the character slice agree.
   */
  predicate LineParses(line: string) {
    StartsWithChar(line, 'v') ==>
      |Trim(line)| >= 2 && Trim(line)[1] < '\U{80}' && TokensParse(ValueTokens(line))
  }

  predicate ReplyParses(lines: seq<string>) {
    forall k :: 0 <= k < |lines| ==> LineParses(lines[k])
  }

  /** A zero ends a value list and is skipped; any other number is one literal. */
  function DecodeValue(val: int): seq<(nat, bool)> {
    if val == 0 then [] else [DecodeLiteral(val)]
  }

  /** The literals of a run of words, zeros skipped. */
  function DecodeTokens(toks: seq<string>): seq<(nat, bool)>
    requires TokensParse(toks)
  {
    if |toks| == 0 then []
    else DecodeTokens(toks[..|toks| - 1]) + DecodeValue(ParseI64(toks[|toks| - 1]).value)
  }

  /** The literals a reply line contributes: those of a value line, none otherwise. */
  function LinePairs(line: string): seq<(nat, bool)>
    requires LineParses(line)
  {
    if StartsWithChar(line, 'v') then DecodeTokens(ValueTokens(line)) else []
  }

  /** The literals of all value lines, concatenated across lines. */
  function ModelPairs(lines: seq<string>): seq<(nat, bool)>
    requires ReplyParses(lines)
  {
    if |lines| == 0 then []
    else ModelPairs(lines[..|lines| - 1]) + LinePairs(lines[|lines| - 1])
  }

  /** Reading one more line of a reply. */
  lemma ReplyStep(lines: seq<string>, i: nat)
    requires ReplyParses(lines) && i < |lines|
    ensures ReplyParses(lines[..i]) && ReplyParses(lines[..i + 1])
    ensures StatusOf(lines[..i + 1]) ==
            if StartsWithChar(lines[i], 's') then !Contains(lines[i], "UNSATISFIABLE") else StatusOf(lines[..i])
    ensures ModelPairs(lines[..i + 1]) == ModelPairs(lines[..i]) + LinePairs(lines[i])
  {
    assert lines[..i + 1][..i] == lines[..i];
  }

  /** Reading one more word of a value line. */
  lemma TokensStep(toks: seq<string>, j: nat)
    requires TokensParse(toks) && j < |toks|
    ensures TokensParse(toks[..j]) && TokensParse(toks[..j + 1])
    ensures DecodeTokens(toks[..j + 1]) == DecodeTokens(toks[..j]) + DecodeValue(ParseI64(toks[j]).value)
  {
    assert toks[..j + 1][..j] == toks[..j];
  }

  /**
   * The satisfiability flag after reading `lines`: false at first, and each
   * line starting with `s` sets it to whether the line lacks "UNSATISFIABLE".
   */
  function StatusOf(lines: seq<string>): bool {
    if |lines| == 0 then false
    else
      var last := lines[|lines| - 1];
      if StartsWithChar(last, 's') then !Contains(last, "UNSATISFIABLE")
      else StatusOf(lines[..|lines| - 1])
  }

  /** Line `i` is a status line and no later line is one. */
  predicate LastStatusLineAt(lines: seq<string>, i: nat) {
    i < |lines| && StartsWithChar(lines[i], 's')
    && forall j :: i < j < |lines| ==> !StartsWithChar(lines[j], 's')
  }

  /** The last status line alone decides: satisfiable iff it lacks "UNSATISFIABLE". */
  lemma {:induction false} StatusOfLastStatusLine(lines: seq<string>, i: nat)
    requires LastStatusLineAt(lines, i)
    ensures StatusOf(lines) == !Contains(lines[i], "UNSATISFIABLE")
  {
    var n := |lines| - 1;
    if i < n {
      var init := lines[..n];
      assert !StartsWithChar(lines[n], 's');
      assert LastStatusLineAt(init, i);
      StatusOfLastStatusLine(init, i);
    }
  }

  /** A reply without any status line reads as unsatisfiable. */
  lemma {:induction false} NoStatusLineIsUnsat(lines: seq<string>)
    requires forall k :: 0 <= k < |lines| ==> !StartsWithChar(lines[k], 's')
    ensures !StatusOf(lines)
  {
    if |lines| > 0 {
      NoStatusLineIsUnsat(lines[..|lines| - 1]);
    }
  }

  // ----------------------------------------------------------- from_vec

  /**
   * The id-to-value table `SatModel::from_vec` fills from a list of pairs:
   * inserted in list order, so a later pair for the same id wins.
   */
  function ResultsById(pairs: seq<(nat, bool)>): map<nat, bool> {
    if |pairs| == 0 then map[]
    else ResultsById(pairs[..|pairs| - 1])[pairs[|pairs| - 1].0 := pairs[|pairs| - 1].1]
  }

  /**
   * An id is in the table iff some pair names it, and its value is that of
   * the last pair naming it.
   */
  lemma {:induction false} LaterPairWins(pairs: seq<(nat, bool)>, id: nat)
    ensures id in ResultsById(pairs) <==> exists k :: 0 <= k < |pairs| && pairs[k].0 == id
    ensures forall k :: 0 <= k < |pairs| && pairs[k].0 == id
                        && (forall m :: k < m < |pairs| ==> pairs[m].0 != id)
                        ==> id in ResultsById(pairs) && ResultsById(pairs)[id] == pairs[k].1
  {
    if |pairs| > 0 {
      var n := |pairs| - 1;
      var init := pairs[..n];
      LaterPairWins(init, id);
      if exists k :: 0 <= k < |init| && init[k].0 == id {
        var k :| 0 <= k < |init| && init[k].0 == id;
        assert pairs[k].0 == id;
      }
      if exists k :: 0 <= k < |pairs| && pairs[k].0 == id {
        var k :| 0 <= k < |pairs| && pairs[k].0 == id;
        if k < n { assert init[k].0 == id; }
      }
      forall k | 0 <= k < |pairs| && pairs[k].0 == id && (forall m :: k < m < |pairs| ==> pairs[m].0 != id)
        ensures id in ResultsById(pairs) && ResultsById(pairs)[id] == pairs[k].1
      {
        if k < n {
          assert init[k] == pairs[k];
          assert forall m :: k < m < |init| ==> init[m] == pairs[m];
        }
      }
    }
  }

  /** Pairs with distinct ids give back exactly those pairs as a table. */
  lemma ResultsByIdOfDistinct(pairs: seq<(nat, bool)>)
    requires forall i, j :: 0 <= i < j < |pairs| ==> pairs[i].0 != pairs[j].0
    ensures forall k :: 0 <= k < |pairs| ==> pairs[k].0 in ResultsById(pairs) && ResultsById(pairs)[pairs[k].0] == pairs[k].1
    ensures forall id :: id in ResultsById(pairs) ==> exists k :: 0 <= k < |pairs| && pairs[k].0 == id
  {
    forall k | 0 <= k < |pairs|
      ensures pairs[k].0 in ResultsById(pairs) && ResultsById(pairs)[pairs[k].0] == pairs[k].1
    {
      LaterPairWins(pairs, pairs[k].0);
    }
    forall id | id in ResultsById(pairs) ensures exists k :: 0 <= k < |pairs| && pairs[k].0 == id {
      LaterPairWins(pairs, id);
    }
  }

  // ----------------------------------------------------------- round trips

  /** Decoding written literals gives the literals back, in order. */
  lemma {:induction false} DecodeEncodedPairs(pairs: seq<(nat, bool)>)
    requires forall k :: 0 <= k < |pairs| ==> pairs[k].0 < I64Max
    ensures TokensParse(EncodePairs(pairs))
    ensures DecodeTokens(EncodePairs(pairs)) == pairs
  {
    var toks := EncodePairs(pairs);
    forall k | 0 <= k < |toks| ensures ParseI64(toks[k]).Some? {
      LiteralRoundTrip(pairs[k].0, pairs[k].1);
    }
    if |pairs| > 0 {
      var n := |pairs| - 1;
      var init := pairs[..n];
      assert toks[..n] == EncodePairs(init);
      DecodeEncodedPairs(init);
      LiteralRoundTrip(pairs[n].0, pairs[n].1);
      var val := ParseI64(toks[n]).value;
      assert DecodeValue(val) == [pairs[n]];
      assert DecodeTokens(toks) == DecodeTokens(toks[..n]) + DecodeValue(val);
      PrefixStep(pairs, init, n, pairs[n]);
      assert pairs[..n + 1] == pairs;
    }
  }

  lemma EncodedPairsAreTokens(pairs: seq<(nat, bool)>)
    ensures forall k :: 0 <= k < |pairs| ==> IsToken(EncodePairs(pairs)[k])
  {
    forall k | 0 <= k < |pairs| ensures IsToken(EncodePairs(pairs)[k]) {
      LiteralTextChars(pairs[k].0, pairs[k].1);
    }
  }

  /** A trailing "0" word decodes to nothing. */
  lemma DecodeTokensZero(toks: seq<string>)
    requires TokensParse(toks)
    ensures TokensParse(toks + ["0"])
    ensures DecodeTokens(toks + ["0"]) == DecodeTokens(toks)
  {
    ParseI64OfNatToString(0);
    assert NatToString(0) == "0";
    assert (toks + ["0"])[..|toks|] == toks;
  }

  /** The words of `Join(lits, " ") + " 0"`: the literals, then "0". */
  lemma SplitTerminatedLiterals(pairs: seq<(nat, bool)>)
    ensures SplitWhitespace(Join(EncodePairs(pairs), " ") + " 0") == EncodePairs(pairs) + ["0"]
  {
    var lits := EncodePairs(pairs);
    EncodedPairsAreTokens(pairs);
    assert IsToken("0");
    if |lits| == 0 {
      assert Join(lits, " ") + " 0" == " 0";
      assert " 0"[1..] == "0";
      SplitWhitespaceOfToken("0");
    } else {
      JoinAppend(lits, " ", "0");
      assert Join(lits, " ") + " 0" == Join(lits, " ") + " " + "0";
      SplitWhitespaceOfJoin(lits + ["0"]);
    }
  }

  /** The literals of a clause in any order form the clause's own map again. */
  lemma ResultsByIdOfClausePairs(c: Clause, ord: seq<nat>)
    requires IsOrderOf(ord, c.values.Keys)
    ensures ResultsById(ClausePairs(c, ord)) == c.values
  {
    var pairs := ClausePairs(c, ord);
    ResultsByIdOfDistinct(pairs);
    var m := ResultsById(pairs);
    forall id | id in m ensures id in c.values && m[id] == c.values[id] {
      var k :| 0 <= k < |pairs| && pairs[k].0 == id;
    }
    forall id | id in c.values ensures id in m {
      var k :| 0 <= k < |ord| && ord[k] == id;
      assert pairs[k].0 == id;
    }
  }

  /**
   * Reading a clause line as value literals gives back the clause: the
   * words are the literals followed by "0", every word parses, and the
   * decoded literals form exactly the clause's id-to-polarity map.
   */
  lemma ClauseLineRoundTrip(c: Clause, ord: seq<nat>)
    requires IsOrderOf(ord, c.values.Keys)
    requires forall id :: id in c.values ==> id < I64Max
    ensures SplitWhitespace(ClauseLine(c, ord)) == EncodePairs(ClausePairs(c, ord)) + ["0"]
    ensures TokensParse(SplitWhitespace(ClauseLine(c, ord)))
    ensures ResultsById(DecodeTokens(SplitWhitespace(ClauseLine(c, ord)))) == c.values
  {
    var pairs := ClausePairs(c, ord);
    assert forall k :: 0 <= k < |pairs| ==> pairs[k].0 == ord[k] && ord[k] in c.values;
    SplitTerminatedLiterals(pairs);
    DecodeEncodedPairs(pairs);
    DecodeTokensZero(EncodePairs(pairs));
    ResultsByIdOfClausePairs(c, ord);
  }

  /** Ids every clause of a request can write as an i64 literal. */
  predicate IdsWritable(cs: seq<Clause>) {
    forall i, id :: 0 <= i < |cs| && id in cs[i].values ==> id < I64Max
  }

  /**
   * A request read back line by line: the header, then for each clause a
   * line whose words decode to exactly that clause, whatever the literal order.
   */
  lemma DimacsTextReadsBack(variableCount: nat, cs: seq<Clause>, orders: seq<seq<nat>>)
    requires OrdersFor(cs, orders) && IdsWritable(cs)
    ensures |Lines(DimacsText(variableCount, cs, orders))| == |cs| + 1
    ensures Lines(DimacsText(variableCount, cs, orders))[0] == HeaderLine(variableCount, |cs|)
    ensures forall i :: 0 <= i < |cs| ==>
              TokensParse(SplitWhitespace(Lines(DimacsText(variableCount, cs, orders))[i + 1]))
              && ResultsById(DecodeTokens(SplitWhitespace(Lines(DimacsText(variableCount, cs, orders))[i + 1]))) == cs[i].values
  {
    DimacsTextLines(variableCount, cs, orders);
    var lines := DimacsLines(variableCount, cs, orders);
    forall i | 0 <= i < |cs|
      ensures TokensParse(SplitWhitespace(lines[i + 1]))
              && ResultsById(DecodeTokens(SplitWhitespace(lines[i + 1]))) == cs[i].values
    {
      assert lines[i + 1] == ClauseLine(cs[i], orders[i]);
      ClauseLineRoundTrip(cs[i], orders[i]);
    }
  }

  /**
   * A request a solver can answer in full: every variable a clause mentions
   * is declared by the header, and every declared variable can be written as
   * an i64 literal.
   */
  predicate Answerable(variableCount: nat, cs: seq<Clause>) {
    variableCount <= I64Max && IdsBelow(cs, variableCount)
  }

  /** The words of a header line. */
  lemma HeaderLineWords(variableCount: nat, clauseCount: nat)
    ensures SplitWhitespace(HeaderLine(variableCount, clauseCount))
            == ["p", "cnf", NatToString(variableCount), NatToString(clauseCount)]
  {
    var words := ["p", "cnf", NatToString(variableCount), NatToString(clauseCount)];
    assert IsToken("p") && IsToken("cnf");
    assert forall k :: 0 <= k < |words| ==> IsToken(words[k]);
    SplitWhitespaceOfJoin(words);
  }

  /**
   * A request text determines its header counts and, when the ids can be
   * written, its clauses: two requests with the same text ask the same
   * question, whatever literal orders they were written with.
   */
  lemma DimacsTextDetermines(vc1: nat, cs1: seq<Clause>, orders1: seq<seq<nat>>,
                             vc2: nat, cs2: seq<Clause>, orders2: seq<seq<nat>>)
    requires OrdersFor(cs1, orders1) && OrdersFor(cs2, orders2)
    requires DimacsText(vc1, cs1, orders1) == DimacsText(vc2, cs2, orders2)
    ensures vc1 == vc2 && |cs1| == |cs2|
    ensures IdsWritable(cs1) && IdsWritable(cs2) ==> cs1 == cs2
  {
    DimacsTextLines(vc1, cs1, orders1);
    DimacsTextLines(vc2, cs2, orders2);
    var lines := DimacsLines(vc1, cs1, orders1);
    assert lines == DimacsLines(vc2, cs2, orders2);
    HeaderLineWords(vc1, |cs1|);
    HeaderLineWords(vc2, |cs2|);
    assert lines[0] == HeaderLine(vc1, |cs1|) == HeaderLine(vc2, |cs2|);
    NatToStringInjective(vc1, vc2);
    NatToStringInjective(|cs1|, |cs2|);
    if IdsWritable(cs1) && IdsWritable(cs2) {
      DimacsTextReadsBack(vc1, cs1, orders1);
      DimacsTextReadsBack(vc2, cs2, orders2);
      forall i | 0 <= i < |cs1| ensures cs1[i] == cs2[i] {
        assert cs1[i].values == cs2[i].values;
      }
    }
  }

  /** A solver reply reporting `pairs` as a satisfying assignment, on one value line. */
  function WitnessReply(pairs: seq<(nat, bool)>): string {
    Terminated(["s SATISFIABLE", ValueLine(pairs)])
  }

  /** The value line of a witness reply. */
  function ValueLine(pairs: seq<(nat, bool)>): string {
    "v " + Join(EncodePairs(pairs) + ["0"], " ")
  }

  lemma {:induction false} JoinEnds(parts: seq<string>, sep: string)
    requires |parts| > 0 && forall k :: 0 <= k < |parts| ==> |parts[k]| > 0
    ensures |Join(parts, sep)| > 0
    ensures Join(parts, sep)[0] == parts[0][0]
    ensures Join(parts, sep)[|Join(parts, sep)| - 1] == parts[|parts| - 1][|parts[|parts| - 1]| - 1]
  {
    if |parts| > 1 {
      JoinEnds(parts[1..], sep);
    }
  }

  /** The text after `v ` on a value line: the words, then "0". */
  lemma ValueLineBody(pairs: seq<(nat, bool)>)
    ensures forall j :: 0 <= j < |Join(EncodePairs(pairs) + ["0"], " ")| ==> Join(EncodePairs(pairs) + ["0"], " ")[j] != '\n'
    ensures |Join(EncodePairs(pairs) + ["0"], " ")| > 0
    ensures Join(EncodePairs(pairs) + ["0"], " ")[|Join(EncodePairs(pairs) + ["0"], " ")| - 1] == '0'
    ensures SplitWhitespace(Join(EncodePairs(pairs) + ["0"], " ")) == EncodePairs(pairs) + ["0"]
  {
    var toks := EncodePairs(pairs) + ["0"];
    EncodedPairsAreTokens(pairs);
    assert IsToken("0");
    assert forall k :: 0 <= k < |toks| ==> IsToken(toks[k]);
    JoinChars(toks, " ", (ch: char) => ch != '\n');
    JoinEnds(toks, " ");
    SplitWhitespaceOfJoin(toks);
  }

  /** A value line is one plain line starting with `v`, and its words are the literals and "0". */
  lemma ValueLineShape(pairs: seq<(nat, bool)>)
    ensures PlainLine(ValueLine(pairs)) && StartsWithChar(ValueLine(pairs), 'v')
    ensures |Trim(ValueLine(pairs))| >= 2 && Trim(ValueLine(pairs))[1] == ' '
    ensures ValueTokens(ValueLine(pairs)) == EncodePairs(pairs) + ["0"]
  {
    var body := Join(EncodePairs(pairs) + ["0"], " ");
    var vline := ValueLine(pairs);
    ValueLineBody(pairs);
    assert vline == "v " + body;
    assert vline[|vline| - 1] == '0';
    TrimOfUnpadded(vline);
    assert vline[2..] == body;
  }

  /** A value line reads back as exactly the pairs it was written from. */
  lemma ValueLineWords(pairs: seq<(nat, bool)>)
    requires forall k :: 0 <= k < |pairs| ==> pairs[k].0 < I64Max
    ensures PlainLine(ValueLine(pairs)) && StartsWithChar(ValueLine(pairs), 'v')
    ensures LineParses(ValueLine(pairs))
    ensures LinePairs(ValueLine(pairs)) == pairs
  {
    ValueLineShape(pairs);
    DecodeEncodedPairs(pairs);
    DecodeTokensZero(EncodePairs(pairs));
  }

  lemma SatisfiableStatusLine()
    ensures PlainLine("s SATISFIABLE") && StartsWithChar("s SATISFIABLE", 's')
    ensures !Contains("s SATISFIABLE", "UNSATISFIABLE")
  {
    assert "s SATISFIABLE"[..13] != "UNSATISFIABLE" by {
      assert "s SATISFIABLE"[0] != "UNSATISFIABLE"[0];
    }
    assert |"s SATISFIABLE"[1..]| < |"UNSATISFIABLE"|;
  }

  /**
   * Writing an assignment as a solver reply and reading the reply gives the
   * assignment back: the reply reads as satisfiable and its literals are
   * exactly the pairs, in order.
   */
  lemma WitnessReplyRoundTrip(pairs: seq<(nat, bool)>)
    requires forall k :: 0 <= k < |pairs| ==> pairs[k].0 < I64Max
    ensures ReplyParses(Lines(WitnessReply(pairs)))
    ensures StatusOf(Lines(WitnessReply(pairs)))
    ensures ModelPairs(Lines(WitnessReply(pairs))) == pairs
  {
    ValueLineWords(pairs);
    SatisfiableStatusLine();
    StatusThenValues("s SATISFIABLE", ValueLine(pairs));
  }

  /** A reply of one status line and one value line, read back. */
  lemma StatusThenValues(status: string, values: string)
    requires PlainLine(status) && StartsWithChar(status, 's')
    requires PlainLine(values) && StartsWithChar(values, 'v') && LineParses(values)
    ensures Lines(Terminated([status, values])) == [status, values]
    ensures ReplyParses([status, values])
    ensures StatusOf([status, values]) == !Contains(status, "UNSATISFIABLE")
    ensures ModelPairs([status, values]) == LinePairs(values)
  {
    LinesOfTerminated([status, values]);
    var lines := [status, values];
    assert lines[..1] == [status];
    assert [status][..0] == [];
    assert LinePairs(status) == [];
    assert ModelPairs([status]) == ModelPairs([]) + LinePairs(status);
    assert ModelPairs(lines) == ModelPairs([status]) + LinePairs(values);
  }

  lemma UnsatisfiableStatusLine()
    ensures PlainLine("s UNSATISFIABLE") && StartsWithChar("s UNSATISFIABLE", 's')
    ensures Contains("s UNSATISFIABLE", "UNSATISFIABLE")
  {
    var line := "s UNSATISFIABLE";
    assert line[2..15] == "UNSATISFIABLE";
    ContainsAt(line, "UNSATISFIABLE", 2);
  }

  /**
   * A reply whose last status line is `s UNSATISFIABLE` reads as
   * unsatisfiable, whatever lines come before it: later non-status lines
   * leave the flag alone, and earlier status lines are overridden.
   */
  lemma UnsatReplyIsUnsat(before: seq<string>, after: seq<string>)
    requires forall j :: 0 <= j < |after| ==> !StartsWithChar(after[j], 's')
    ensures !StatusOf(before + ["s UNSATISFIABLE"] + after)
  {
    var lines := before + ["s UNSATISFIABLE"] + after;
    var i := |before|;
    UnsatisfiableStatusLine();
    assert lines[i] == "s UNSATISFIABLE";
    assert forall j :: i < j < |lines| ==> lines[j] == after[j - i - 1];
    StatusOfLastStatusLine(lines, i);
  }

  lemma {:induction false} ContainsAt(s: string, pattern: string, i: nat)
    requires i + |pattern| <= |s| && s[i..i + |pattern|] == pattern
    ensures Contains(s, pattern)
    decreases i
  {
    if i > 0 {
      assert s[1..][i - 1..i - 1 + |pattern|] == pattern;
      ContainsAt(s[1..], pattern, i - 1);
    }
  }
}
