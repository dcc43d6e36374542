// The wrap-around prover: an SMT solver that is trusted only for unsat.
module Prover {
  import opened BvTerms

  datatype Answer = Sat | Unsat | Unknown

  /** The SMT solver: satisfiability of a list of conditions, and simplification. */
  datatype Smt = Smt(check: seq<Bl> -> Answer, simplify: Bl -> Bl)

  ghost predicate Unsatisfiable(ps: seq<Bl>)
    requires WfBAll(ps)
  {
    forall rho: Val :: !Model(ps, rho)
  }

  ghost predicate Equivalent(p: Bl, q: Bl)
    requires WfB(p) && WfB(q)
  {
    forall rho: Val :: EvalB(p, rho) == EvalB(q, rho)
  }

  ghost predicate Entails(ps: seq<Bl>, p: Bl)
    requires WfBAll(ps) && WfB(p)
  {
    forall rho: Val | Model(ps, rho) :: EvalB(p, rho)
  }

  /** What is assumed of the solver: unsat answers are right, and terms keep their meaning. */
  ghost predicate Trusted(smt: Smt) {
    && (forall ps: seq<Bl> | WfBAll(ps) && smt.check(ps) == Unsat :: Unsatisfiable(ps))
    && (forall p: Bl | WfB(p) :: WfB(smt.simplify(p)) && Equivalent(smt.simplify(p), p))
  }

  /** The solver shows that the condition follows: it simplifies to true, or its negation is refuted. */
  predicate Proves(smt: Smt, conditions: seq<Bl>, cond: Bl) {
    var c := smt.simplify(cond);
    c == Lit(true) || (c != Lit(false) && Refutes(smt, conditions, c))
  }

  predicate Refutes(smt: Smt, conditions: seq<Bl>, c: Bl) {
    smt.check(conditions + [Not(c)]) == Unsat
  }

  lemma ProvenEntails(smt: Smt, conditions: seq<Bl>, cond: Bl)
    requires Trusted(smt) && WfBAll(conditions) && WfB(cond) && Proves(smt, conditions, cond)
    ensures Entails(conditions, cond)
  {
    hide Trusted, EvalB;
    var c := smt.simplify(cond);
    assert WfB(c) && Equivalent(c, cond) by {
      SimplifiedMeans(smt, cond);
    }
    if c != Lit(true) {
      assert WfBAll(conditions + [Not(c)]);
      RefutedMeans(smt, conditions + [Not(c)]);
      NegationUnsat(conditions, c);
    } else {
      TrueMeans();
    }
  }

  lemma SimplifiedMeans(smt: Smt, cond: Bl)
    requires Trusted(smt) && WfB(cond)
    ensures WfB(smt.simplify(cond)) && Equivalent(smt.simplify(cond), cond)
  {
  }

  lemma RefutedMeans(smt: Smt, ps: seq<Bl>)
    requires Trusted(smt) && WfBAll(ps) && smt.check(ps) == Unsat
    ensures Unsatisfiable(ps)
  {
  }

  lemma TrueMeans()
    ensures forall rho: Val :: EvalB(Lit(true), rho)
  {
  }

  class WrapProver {
    const smt: Smt
    const conditions: seq<Bl>
    var memo: map<Bl, bool>

    ghost predicate Valid()
      reads this
    {
      && Trusted(smt)
      && WfBAll(conditions)
      && forall p | p in memo :: memo[p] == Refutes(smt, conditions, p)
    }

    constructor (smt: Smt, conditions: seq<Bl>)
      requires Trusted(smt) && WfBAll(conditions)
      ensures Valid() && this.smt == smt && this.conditions == conditions
    {
      this.smt, this.conditions, memo := smt, conditions, map[];
    }

    /** Whether the solver shows that `cond` follows from the conditions; each simplified condition is asked once. */
    method IsValid(cond: Bl) returns (valid: bool)
      requires Valid() && WfB(cond)
      modifies this
      ensures Valid()
      ensures valid <==> Proves(smt, conditions, cond)
      ensures valid ==> Entails(conditions, cond)
    {
      hide Entails, Trusted;
      if Proves(smt, conditions, cond) {
        ProvenEntails(smt, conditions, cond);
      }
      var c := smt.simplify(cond);
      if c == Lit(true) {
        return true;
      }
      if c == Lit(false) {
        return false;
      }
      if c !in memo {
        var answer := smt.check(conditions + [Not(c)]);
        memo := memo[c := answer == Unsat];
      }
      return memo[c];
    }
  }

  lemma NegationUnsat(ps: seq<Bl>, p: Bl)
    requires WfBAll(ps) && WfB(p) && WfBAll(ps + [Not(p)])
    requires Unsatisfiable(ps + [Not(p)])
    ensures Entails(ps, p)
  {
    forall rho: Val | Model(ps, rho)
      ensures EvalB(p, rho)
    {
      assert !Model(ps + [Not(p)], rho);
    }
  }
}
