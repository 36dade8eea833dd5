/**
 * Clauses as `core/src/lib.rs` builds them.  A `CnfClause` maps a variable
 * id to the polarity the clause requires of it, so a clause names each
 * variable at most once.  The clauses that the two cardinality encoders of
 * `CnfSat` add are defined here, together with what clauses mean under an
 * assignment of truth values to variable ids.
 */
module Clauses {

  /** A disjunction of literals: variable id to required polarity. */
  datatype Clause = Clause(values: map<nat, bool>)

  /** `CnfClause::new`: the clause without literals. */
  const EmptyClause: Clause := Clause(map[])

  /**
   * `CnfClause::set`: the clause now requires `value` of `id`; every other
   * variable keeps its polarity and no variable gets a second one.
   */
  function Set(c: Clause, id: nat, value: bool): (r: Clause)
    ensures r.values.Keys == c.values.Keys + {id}
    ensures r.values[id] == value
    ensures forall k :: k in c.values && k != id ==> r.values[k] == c.values[k]
  {
    Clause(c.values[id := value])
  }

  /** Setting a variable a second time replaces the first polarity. */
  lemma SetOverwrites(c: Clause, id: nat, first: bool, second: bool)
    ensures Set(Set(c, id, first), id, second) == Set(c, id, second)
  {
    assert Set(Set(c, id, first), id, second).values == Set(c, id, second).values;
  }

  /** Setting two different variables gives the same clause in either order. */
  lemma SetCommutes(c: Clause, i: nat, a: bool, j: nat, b: bool)
    requires i != j
    ensures Set(Set(c, i, a), j, b) == Set(Set(c, j, b), i, a)
  {
    assert Set(Set(c, i, a), j, b).values == Set(Set(c, j, b), i, a).values;
  }

  // --------------------------------------------------------------- meaning

  /** Truth values for (some) variable ids, as a solver's model gives them. */
  type Assignment = map<nat, bool>

  /** Some literal of the clause holds under `a`. */
  predicate SatisfiesClause(a: Assignment, c: Clause) {
    exists id :: id in c.values && id in a && a[id] == c.values[id]
  }

  /** Every clause holds under `a`. */
  predicate SatisfiesAll(a: Assignment, cs: seq<Clause>) {
    forall i :: 0 <= i < |cs| ==> SatisfiesClause(a, cs[i])
  }

  ghost predicate Satisfiable(cs: seq<Clause>) {
    exists a :: SatisfiesAll(a, cs)
  }

  /** Helper (sequence algebra, not a property of the program): regrouping a concatenation, stated once so that callers need not reason element by element. */
  lemma ConcatAssoc<T>(a: seq<T>, b: seq<T>, c: seq<T>)
    ensures (a + b) + c == a + (b + c)
  {
  }

  /** Helper (sequence algebra): appending the next element of `s` to its prefix of length `i` gives the prefix of length `i + 1`. */
  lemma PrefixStep<T>(s: seq<T>, prefix: seq<T>, i: nat, next: T)
    requires i < |s| && prefix == s[..i] && next == s[i]
    ensures prefix + [next] == s[..i + 1]
  {
  }

  /** Helper (sequence algebra): indexing a concatenation: the left part first, then the right part. */
  lemma ConcatIndex<T>(a: seq<T>, b: seq<T>, k: nat)
    requires k < |a| + |b|
    ensures k < |a| ==> (a + b)[k] == a[k]
    ensures k >= |a| ==> (a + b)[k] == b[k - |a|]
  {
  }

  /** A model of a longer clause sequence is a model of each prefix of it. */
  lemma SatisfiesPrefix(a: Assignment, cs: seq<Clause>, extra: seq<Clause>)
    requires SatisfiesAll(a, cs + extra)
    ensures SatisfiesAll(a, cs)
  {
    forall i | 0 <= i < |cs| ensures SatisfiesClause(a, cs[i]) {
      assert (cs + extra)[i] == cs[i];
    }
  }

  /** A model of two clause sequences is exactly a model of their concatenation. */
  lemma SatisfiesConcat(a: Assignment, cs: seq<Clause>, extra: seq<Clause>)
    ensures SatisfiesAll(a, cs + extra) <==> SatisfiesAll(a, cs) && SatisfiesAll(a, extra)
  {
    if SatisfiesAll(a, cs) && SatisfiesAll(a, extra) {
      forall i | 0 <= i < |cs + extra| ensures SatisfiesClause(a, (cs + extra)[i]) {
        if i >= |cs| {
          assert (cs + extra)[i] == extra[i - |cs|];
        }
      }
    }
    if SatisfiesAll(a, cs + extra) {
      SatisfiesPrefix(a, cs, extra);
      forall i | 0 <= i < |extra| ensures SatisfiesClause(a, extra[i]) {
        assert (cs + extra)[|cs| + i] == extra[i];
      }
    }
  }

  // ---------------------------------------------------------- at least one

  /** The clause built by setting each listed variable to `value`, in list order. */
  function SetAll(c: Clause, vars: seq<nat>, value: bool): (r: Clause)
    ensures forall id :: id in r.values <==> id in c.values || id in vars
    ensures forall id :: id in vars ==> r.values[id] == value
    ensures forall id :: id in c.values && id !in vars ==> r.values[id] == c.values[id]
  {
    if |vars| == 0 then c
    else
      var init := vars[..|vars| - 1];
      assert forall id :: id in vars <==> id in init || id == vars[|vars| - 1];
      Set(SetAll(c, init, value), vars[|vars| - 1], value)
  }

  /** The clause `ensure_at_least_one_set` adds: v1 ∨ v2 ∨ … ∨ vN. */
  function AtLeastOneClause(vars: seq<nat>): Clause {
    SetAll(EmptyClause, vars, true)
  }

  /** The at-least-one clause holds exactly when some listed variable is true. */
  lemma AtLeastOneMeaning(a: Assignment, vars: seq<nat>)
    ensures SatisfiesClause(a, AtLeastOneClause(vars)) <==>
            exists k :: 0 <= k < |vars| && vars[k] in a && a[vars[k]]
  {
    var c := AtLeastOneClause(vars);
    if SatisfiesClause(a, c) {
      var id :| id in c.values && id in a && a[id] == c.values[id];
      assert id in vars;
      var k :| 0 <= k < |vars| && vars[k] == id;
    }
    if exists k :: 0 <= k < |vars| && vars[k] in a && a[vars[k]] {
      var k :| 0 <= k < |vars| && vars[k] in a && a[vars[k]];
      assert vars[k] in c.values;
    }
  }

  // ----------------------------------------------------------- at most one

  /** ¬v1 ∨ ¬v2: the two variables are not both true. */
  function PairClause(v1: nat, v2: nat): Clause {
    Set(Set(EmptyClause, v1, false), v2, false)
  }

  /** The pair clauses of `v` with each later variable, in list order. */
  function PairsWith(v: nat, rest: seq<nat>): (r: seq<Clause>)
    ensures |r| == |rest|
    ensures forall j :: 0 <= j < |rest| ==> r[j] == PairClause(v, rest[j])
  {
    seq(|rest|, j requires 0 <= j < |rest| => PairClause(v, rest[j]))
  }

  lemma PairsWithAppend(v: nat, rest: seq<nat>, j: nat)
    requires j < |rest|
    ensures PairsWith(v, rest[..j + 1]) == PairsWith(v, rest[..j]) + [PairClause(v, rest[j])]
  {
  }

  /**
   * The clauses of the first `i` rounds of the outer loop of
   * `ensure_max_one_set`: round `r` pairs `vars[r]` with every later variable.
   */
  function PairClauses(vars: seq<nat>, i: nat): seq<Clause>
    requires i <= |vars|
  {
    if i == 0 then [] else PairClauses(vars, i - 1) + PairsWith(vars[i - 1], vars[i..])
  }

  /** The clauses `ensure_max_one_set` adds: ¬vi ∨ ¬vj for every index pair i < j. */
  function AtMostOneClauses(vars: seq<nat>): seq<Clause> {
    PairClauses(vars, |vars|)
  }

  /** The arithmetic of one more round: (i−1)(2k−i) + 2(k−i) = i(2k−i−1). */
  lemma PairCountStep(i: int, k: int, before: int, after: int)
    requires 2 * before == (i - 1) * (2 * k - (i - 1) - 1)
    requires after == before + (k - i)
    ensures 2 * after == i * (2 * k - i - 1)
  {
    assert (i - 1) * (2 * k - (i - 1) - 1) == i * (2 * k - i - 1) - 2 * (k - i);
  }

  lemma {:induction false} PairClausesLength(vars: seq<nat>, i: nat)
    requires i <= |vars|
    ensures 2 * |PairClauses(vars, i)| == i * (2 * |vars| - i - 1)
  {
    if i > 0 {
      PairClausesLength(vars, i - 1);
      PairCountStep(i, |vars|, |PairClauses(vars, i - 1)|, |PairClauses(vars, i)|);
    }
  }

  /** A list of k variables gives k(k-1)/2 pair clauses. */
  lemma AtMostOneCount(vars: seq<nat>)
    ensures 2 * |AtMostOneClauses(vars)| == |vars| * (|vars| - 1)
  {
    PairClausesLength(vars, |vars|);
  }

  /** The first `i` rounds hold the pair clause of every index pair (p, q) with p < i. */
  lemma {:induction false} PairClausesComplete(vars: seq<nat>, i: nat, p: nat, q: nat)
    requires i <= |vars| && p < i && p < q < |vars|
    ensures PairClause(vars[p], vars[q]) in PairClauses(vars, i)
  {
    var prev := PairClauses(vars, i - 1);
    var round := PairsWith(vars[i - 1], vars[i..]);
    assert PairClauses(vars, i) == prev + round;
    if p == i - 1 {
      assert round[q - i] == PairClause(vars[p], vars[q]);
      assert round[q - i] in prev + round;
    } else {
      PairClausesComplete(vars, i - 1, p, q);
    }
  }

  /** Every clause of the first `i` rounds is the pair clause of an index pair (p, q) with p < i. */
  lemma {:induction false} PairClausesSound(vars: seq<nat>, i: nat, j: nat)
    requires i <= |vars| && j < |PairClauses(vars, i)|
    ensures exists p, q :: 0 <= p < i && p < q < |vars| && PairClauses(vars, i)[j] == PairClause(vars[p], vars[q])
  {
    var prev := PairClauses(vars, i - 1);
    var round := PairsWith(vars[i - 1], vars[i..]);
    assert PairClauses(vars, i) == prev + round;
    if j < |prev| {
      PairClausesSound(vars, i - 1, j);
      var p, q :| 0 <= p < i - 1 && p < q < |vars| && prev[j] == PairClause(vars[p], vars[q]);
      assert PairClauses(vars, i)[j] == PairClause(vars[p], vars[q]);
    } else {
      var m := j - |prev|;
      assert PairClauses(vars, i)[j] == round[m] == PairClause(vars[i - 1], vars[i + m]);
    }
  }

  lemma PairClauseMeaning(a: Assignment, v1: nat, v2: nat)
    requires v1 in a && v2 in a
    ensures SatisfiesClause(a, PairClause(v1, v2)) <==> !(a[v1] && a[v2])
  {
    var c := PairClause(v1, v2);
    if !a[v1] {
      assert v1 in c.values && c.values[v1] == false;
    } else if !a[v2] {
      assert v2 in c.values && c.values[v2] == false;
    }
  }

  /** For an assignment of every listed variable: the pair clauses hold iff no two listed positions are both true. */
  lemma AtMostOneMeaning(a: Assignment, vars: seq<nat>)
    requires forall k :: 0 <= k < |vars| ==> vars[k] in a
    ensures SatisfiesAll(a, AtMostOneClauses(vars)) <==>
            forall p, q :: 0 <= p < q < |vars| ==> !(a[vars[p]] && a[vars[q]])
  {
    var cs := AtMostOneClauses(vars);
    if SatisfiesAll(a, cs) {
      forall p, q | 0 <= p < q < |vars| ensures !(a[vars[p]] && a[vars[q]]) {
        PairClausesComplete(vars, |vars|, p, q);
        var j :| 0 <= j < |cs| && cs[j] == PairClause(vars[p], vars[q]);
        PairClauseMeaning(a, vars[p], vars[q]);
      }
    }
    if forall p, q :: 0 <= p < q < |vars| ==> !(a[vars[p]] && a[vars[q]]) {
      forall j | 0 <= j < |cs| ensures SatisfiesClause(a, cs[j]) {
        PairClausesSound(vars, |vars|, j);
        var p, q :| 0 <= p < |vars| && p < q < |vars| && cs[j] == PairClause(vars[p], vars[q]);
        PairClauseMeaning(a, vars[p], vars[q]);
      }
    }
  }

  /**
   * The at-least-one clause together with the pair clauses say "exactly one
   * listed position is true".
   */
  lemma ExactlyOneMeaning(a: Assignment, vars: seq<nat>)
    requires forall k :: 0 <= k < |vars| ==> vars[k] in a
    ensures (SatisfiesClause(a, AtLeastOneClause(vars)) && SatisfiesAll(a, AtMostOneClauses(vars))) <==>
            exists k :: 0 <= k < |vars| && a[vars[k]] && forall m :: 0 <= m < |vars| && m != k ==> !a[vars[m]]
  {
    AtLeastOneMeaning(a, vars);
    AtMostOneMeaning(a, vars);
    if exists k :: 0 <= k < |vars| && a[vars[k]] && forall m :: 0 <= m < |vars| && m != k ==> !a[vars[m]] {
      var k :| 0 <= k < |vars| && a[vars[k]] && forall m :: 0 <= m < |vars| && m != k ==> !a[vars[m]];
      forall p, q | 0 <= p < q < |vars| ensures !(a[vars[p]] && a[vars[q]]) {
        if p != k { assert !a[vars[p]]; } else { assert !a[vars[q]]; }
      }
    }
  }

  /** Every variable any clause mentions is below `bound`: the clauses fit a header declaring `bound` variables. */
  predicate IdsBelow(cs: seq<Clause>, bound: int) {
    forall k, id :: 0 <= k < |cs| && id in cs[k].values ==> id < bound
  }

  /** Helper: the bound survives concatenation. */
  lemma IdsBelowConcat(cs: seq<Clause>, extra: seq<Clause>, bound: int)
    requires IdsBelow(cs, bound) && IdsBelow(extra, bound)
    ensures IdsBelow(cs + extra, bound)
  {
    forall k, id | 0 <= k < |cs + extra| && id in (cs + extra)[k].values ensures id < bound {
      if k >= |cs| {
        assert (cs + extra)[k] == extra[k - |cs|];
      }
    }
  }

  /** The at-least-one clause mentions only the listed variables. */
  lemma AtLeastOneBelow(vars: seq<nat>, bound: int)
    requires forall k :: 0 <= k < |vars| ==> vars[k] < bound
    ensures IdsBelow([AtLeastOneClause(vars)], bound)
  {
  }

  /** The pair clauses mention only the listed variables. */
  lemma AtMostOneBelow(vars: seq<nat>, bound: int)
    requires forall k :: 0 <= k < |vars| ==> vars[k] < bound
    ensures IdsBelow(AtMostOneClauses(vars), bound)
  {
    var cs := AtMostOneClauses(vars);
    forall k, id | 0 <= k < |cs| && id in cs[k].values ensures id < bound {
      PairClausesSound(vars, |vars|, k);
    }
  }
}
