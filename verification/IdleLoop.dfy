// Loops whose lasso is not marked as an approximation and yet enters states that the loop does not:
// one variable that starts with any input and keeps it, encoded with small constants only.
module SmallRangeExample {
  import opened Options
  import opened Bits
  import opened BvTerms
  import opened IntTerms
  import opened IntFacts
  import opened Prover
  import opened Lasso
  import opened LassoFacts
  import opened LassoProofs
  import opened LassoBuilder

  const KEPT := "lasso_v0_0"

  function Idle(): Loop {
    Loop([KEPT], [Word(Var(WORD, "x"))], [], [], None, [BodyPath([], [Word(Var(WORD, KEPT))], [])])
  }

  /** There are such loops. */
  lemma IdleWf()
    ensures WfLoop(Idle()) && IdleLoop(Idle())
  {
    hide Pow2;
    assert LOOP_VAR_PREFIX <= KEPT;
    assert |PrevName(KEPT)| == |KEPT| + 5;
    assert WfBody(Idle().bodies[0], [KEPT]);
  }

  lemma IdleIsExact(loop: Loop, smt: Smt, previous: bool)
    requires WfLoop(loop) && IdleLoop(loop)
    ensures AllWords(loop.bodies) && ExactLoop(loop, smt, true, previous) && |loop.vars| == 1
  {
  }

  /** The head in which the variable holds v. */
  function Holding(v: nat): Head {
    Head([v], [], [])
  }

  lemma SmallPower()
    ensures Pow2(13) == 8192
  {
  }

  lemma WordIsWide()
    ensures Pow2(WORD) > MAX_SMALL_CONSTANT
  {
    hide Pow2;
    SmallPower();
    Pow2Add(13, 13);
    Pow2Add(26, 26);
    Pow2Less(52, WORD);
  }

  lemma EntersWith(v: nat, m: nat, sigma: Sigma)
    requires sigma == imap[Entry(0) := v, Aux(m) := v]
    ensures AtEntry(Holding(v), sigma)
    ensures Holds(StemFormula(1, [], [], true, IdleEntry(m, true)), sigma)
  {
    hide Pow2, RangeOf, Holds;
    WordIsWide();
    var equation := [Same(IntVar(Entry(0)), IntVar(Aux(m)))];
    assert StemParts([], [IntVar(Aux(m))], []) == equation;
    assert AllHold(equation, sigma) by {
      EquationsHold([Entry(0)], [IntVar(Aux(m))], sigma);
      VariableValue(Aux(m), sigma);
      assert Equations([Entry(0)], [IntVar(Aux(m))]) == equation;
    }
    RangeMeans(Typed(Aux(m), WORD), true, sigma);
    AppendHolds(equation, RangeOf(Aux(m), WORD, true), sigma);
    StemFormulaHolds(1, [], [], true, IdleEntry(m, true), sigma);
  }

  lemma EntersAnywhere(loop: Loop, l: LassoProgram, q: LoopParts, v: nat)
    requires IdleLasso(loop, l, q) && q.small && Shaped(l, 1, [], [])
    ensures LassoEnters(l, Holding(v))
  {
    hide Pow2, RangeOf, Holds, StemFormula, IdleEntry, AtEntry;
    var m :| l.stem == StemFormula(1, [], [], true, IdleEntry(m, true));
    EntersWith(v, m, imap[Entry(0) := v, Aux(m) := v]);
  }

  /** No loop state is that wide. */
  lemma NothingIsTooWide(loop: Loop, invs: seq<Bv>, rho: Val, v: nat)
    requires WfEach(invs) && v >= Pow2(WORD)
    ensures !Represents(loop, invs, rho, Holding(v))
  {
    hide Pow2;
    assert Holding(v).vars[0] == v;
  }

  lemma IdleIsNotReflected(loop: Loop, l: LassoProgram, invs: seq<Bv>)
    requires WfLoop(loop) && LassoEnters(l, Holding(Pow2(WORD)))
    ensures !Reflects(loop, l, invs)
  {
    hide Pow2, WfLoop, BvEnters, BvStep, LassoEnters;
    forall rho | WfEach(invs)
      ensures !Represents(loop, invs, rho, Holding(Pow2(WORD)))
    {
      NothingIsTooWide(loop, invs, rho, Pow2(WORD));
    }
  }

  /**
   * With small constants the lasso of any such loop is not marked, and enters with every number,
   * although only words are values of the loop.
   */
  method IdleLassoIsLoose(loop: Loop, complete: bool, smt: Smt)
    returns (approximate: bool, l: LassoProgram, ghost invs: seq<Bv>)
    requires WfLoop(loop) && IdleLoop(loop) && Trusted(smt)
    ensures !approximate && (forall v: nat :: LassoEnters(l, Holding(v))) && !Reflects(loop, l, invs)
  {
    hide Pow2, WfLoop, IdleLoop, ExactLoop, Trusted, Simulates, Reflects, LassoEnters, PartsOk, StemOk, LoopFormula,
         StemFormula, IdleLasso, ExactBody, ExactStem;
    IdleIsExact(loop, smt, complete);
    var result; ghost var o;
    approximate, result, o := BuildLasso(loop, false, complete, smt);
    l := result.value;
    invs := o.paths.invariants;
    SharesNothing(loop, l, o.paths);
    forall v: nat
      ensures LassoEnters(l, Holding(v))
    {
      EntersAnywhere(loop, l, o.paths, v);
    }
    IdleIsNotReflected(loop, l, invs);
  }

  lemma SharesNothing(loop: Loop, l: LassoProgram, q: LoopParts)
    requires IdleLasso(loop, l, q)
    ensures q.invariants == [] && q.constants == []
  {
  }
}
