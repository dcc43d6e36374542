// A loop for which slicing the stem makes an exact lasso run forever although the loop terminates:
// for (i = 0; i != n; i += 2) under the condition n % 2 == 0, which shares no symbol with 0.
module SlicedStemExample {
  import opened Options
  import opened Bits
  import opened BvTerms
  import opened BvFacts
  import opened Symbols
  import opened Prover
  import opened Exactness
  import opened Slice
  import opened Lasso
  import opened LassoProofs
  import opened LassoBuilder
  import opened SlicedLassos

  const COUNTER := "lasso_v1_0"

  function Counter(): Bv { Var(WORD, COUNTER) }

  function Limit(): Bv { Var(WORD, "n") }

  function Literal(v: nat): Bv { Num(WORD, v) }

  function Next(): Bv { Nary(WORD, Add, [Counter(), Literal(2)]) }

  function LimitIsEven(): Bl { Rel(Eq, Bin(WORD, Urem, Limit(), Literal(2)), Literal(0)) }

  function Entered(): Bl { Rel(Distinct, Literal(0), Limit()) }

  function Again(): Bl { Rel(Distinct, Next(), Limit()) }

  function EvenContext(): seq<Bl> { [LimitIsEven(), Entered()] }

  function EvenInitial(): seq<Term> { [Word(Literal(0))] }

  function EvenLoop(stem: seq<Bl>): Loop {
    Loop([COUNTER], EvenInitial(), stem, EvenContext(), None,
         [BodyPath([Again()], [Word(Next())], [LimitIsEven(), Again()])])
  }

  // ---- its terms ----

  lemma TwoFits()
    ensures 3 < Pow2(WORD) && Pow2(WORD) % 2 == 0
  {
    hide Pow2;
    Four();
    Pow2Less(2, WORD);
    Pow2Add(1, WORD - 1);
  }

  lemma Four()
    ensures Pow2(1) == 2 && Pow2(2) == 4
  {
  }

  lemma EvenWf()
    ensures Wf(Counter()) && Wf(Limit()) && Wf(Literal(0)) && Wf(Literal(2)) && Wf(Next())
    ensures WfB(LimitIsEven()) && WfB(Entered()) && WfB(Again())
  {
    hide Pow2;
    TwoFits();
    assert LOOP_VAR_PREFIX <= COUNTER;
    assert Wf(Counter()) && Wf(Limit()) && Wf(Literal(0)) && Wf(Literal(2));
  }

  lemma CounterNames()
    ensures VarNames(Next()) == {COUNTER}
    ensures VarNamesB(LimitIsEven()) == {"n"} == VarNamesB(Entered())
    ensures VarNamesB(Again()) == {COUNTER, "n"}
    ensures LOOP_VAR_PREFIX <= COUNTER && !(LOOP_VAR_PREFIX <= "n")
    ensures PrevName(COUNTER) !in {COUNTER, "n"}
  {
    var args := [Counter(), Literal(2)];
    assert args[1..] == [Literal(2)] && args[1..][1..] == [];
    assert VarNamesAll(args[1..]) == {};
    assert VarNamesAll(args) == {COUNTER};
    assert |PrevName(COUNTER)| == |COUNTER| + 5;
    assert |LOOP_VAR_PREFIX| == 7;
  }

  lemma NamesOfOne(p: Bl)
    ensures VarNamesBAll([p]) == VarNamesB(p)
  {
    hide VarNamesB;
    assert [p][1..] == [];
  }

  lemma NamesOfPair(p: Bl, q: Bl)
    ensures VarNamesBAll([p, q]) == VarNamesB(p) + VarNamesB(q)
    ensures VarNamesBAll([p]) == VarNamesB(p)
  {
    hide VarNamesB;
    assert [p, q][1..] == [q];
    NamesOfOne(p);
    NamesOfOne(q);
  }

  lemma EvenLoopWf(stem: seq<Bl>)
    requires WfBAll(stem)
    ensures WfLoop(EvenLoop(stem))
  {
    hide Pow2, VarNames, VarNamesB, Wf, WfB, LimitIsEven, Again, Entered, PrevName;
    EvenWf();
    CounterNames();
    NamesOfPair(LimitIsEven(), Again());
    NamesOfPair(Again(), Again());
    var b := EvenLoop(stem).bodies[0];
    assert IsWord(b.outputs[0]) by {
      assert Next().w == WORD;
    }
    assert VarNamesTerm(b.outputs[0]) == VarNames(Next());
    assert WfBody(b, [COUNTER]);
    assert IsWord(EvenInitial()[0]);
  }

  lemma EvenMeaning(rho: Val, s: nat)
    requires s < Pow2(WORD)
    ensures Wf(Next()) && WfB(Again()) && WfB(LimitIsEven()) && WfB(Entered())
    ensures var tau := Assigned(rho, [COUNTER], [s]); var n := VarValue(rho, "n", WORD);
      && Eval(Next(), tau) == Mod2(s + 2, WORD)
      && (EvalB(Again(), tau) <==> Mod2(s + 2, WORD) != n)
    ensures var n := VarValue(rho, "n", WORD);
      && (EvalB(LimitIsEven(), rho) <==> n % 2 == 0)
      && (EvalB(Entered(), rho) <==> n != 0)
  {
    hide Pow2, Rem, Assigned, VarValue, Wf, Eval, Next, Limit, Literal;
    EvenWf();
    var tau := Assigned(rho, [COUNTER], [s]);
    CounterMeans(rho, s);
    EvalAddPair(WORD, Counter(), Literal(2), tau);
    NextIs();
    EvenLimit(rho);
    EvenLimit(tau);
  }

  lemma NextIs()
    ensures Next() == Nary(WORD, Add, [Counter(), Literal(2)])
  {
  }

  /** What the terms are in the state s. */
  lemma CounterMeans(rho: Val, s: nat)
    requires s < Pow2(WORD)
    ensures var tau := Assigned(rho, [COUNTER], [s]);
      && Wf(Counter()) && Wf(Literal(2)) && Counter().w == WORD == Literal(2).w
      && Eval(Counter(), tau) == s && Eval(Literal(2), tau) == 2
      && VarValue(tau, "n", WORD) == VarValue(rho, "n", WORD)
  {
    hide Pow2, Rem, Assigned, VarValue;
    EvenWf();
    assert InRange([s], 1);
    AssignedValue(rho, [COUNTER], [s], COUNTER, WORD);
    AssignedValue(rho, [COUNTER], [s], "n", WORD);
  }

  lemma EvenLimit(rho: Val)
    ensures Wf(Limit()) && Eval(Limit(), rho) == VarValue(rho, "n", WORD)
    ensures WfB(LimitIsEven()) && WfB(Entered())
    ensures var n := VarValue(rho, "n", WORD);
      && (EvalB(LimitIsEven(), rho) <==> n % 2 == 0)
      && (EvalB(Entered(), rho) <==> n != 0)
  {
    hide Pow2, Rem, VarValue;
    EvenWf();
    RemainderIsMod(VarValue(rho, "n", WORD), 2);
  }

  // ---- the slice of its stem is empty ----

  lemma NothingKept(kept: set<nat>)
    requires IsSlice(EvenContext(), EvenInitial(), kept)
    ensures kept == {} && Kept(EvenContext(), kept) == []
  {
    hide UsesB;
    assert EvenInitial()[1..] == [];
    assert SeedSyms(EvenInitial()) == {};
    assert Reached(EvenContext(), EvenInitial(), {}) == {};
    assert Closed(EvenContext(), EvenInitial(), {});
    assert Select(EvenContext(), {}, true, 0) == [] && Select(EvenContext(), {}, true, 1) == [];
  }

  // ---- the loop terminates ----

  lemma {:induction false} CounterIsBelow(rho: Val, run: nat -> State, i: nat)
    requires WfLoop(EvenLoop([])) && BvRun(EvenLoop([]), false, false, rho, run)
    ensures run(i) == [2 * i] && 2 * i < VarValue(rho, "n", WORD) && VarValue(rho, "n", WORD) % 2 == 0
  {
    hide Pow2, Rem, VarValue, WfBody, Again, LimitIsEven, Entered, Next, Wf, WfB, Assigned, EvalB, Eval;
    var loop, n := EvenLoop([]), VarValue(rho, "n", WORD);
    TwoFits();
    EvenMeaning(rho, 0);
    assert EvalB(EvenContext()[0], rho) && EvalB(EvenContext()[1], rho);
    if i == 0 {
      assert run(0)[0] == EvalTerm(loop.initial[0], rho);
      LiteralMeans(0, rho);
    } else {
      CounterIsBelow(rho, run, i - 1);
      assert BvStep(loop, false, rho, run(i - 1), run(i - 1 + 1));
      IterationMeans(rho, 2 * (i - 1), run(i));
      SmallMod(2 * i, WORD);
    }
  }

  lemma LiteralMeans(v: nat, rho: Val)
    requires v < Pow2(WORD)
    ensures Wf(Literal(v)) && Eval(Literal(v), rho) == v
  {
    hide Pow2;
  }

  lemma IterationMeans(rho: Val, s: nat, t: State)
    requires WfLoop(EvenLoop([])) && s < Pow2(WORD)
    ensures BvStep(EvenLoop([]), true, rho, [s], t) <==>
              t == [Mod2(s + 2, WORD)] && Mod2(s + 2, WORD) != VarValue(rho, "n", WORD)
    ensures BvStep(EvenLoop([]), false, rho, [s], t) ==> BvStep(EvenLoop([]), true, rho, [s], t)
  {
    hide Pow2, Rem, VarValue, WfBody, Again, LimitIsEven, Entered, Next, Wf, WfB, Assigned, EvalB, Eval, InContext;
    var loop := EvenLoop([]);
    var b := loop.bodies[0];
    EvenMeaning(rho, s);
    assert WfBody(b, loop.vars);
    var tau := Assigned(rho, loop.vars, [s]);
    assert Model(b.conditions, tau) <==> EvalB(Again(), tau) by {
      assert b.conditions[0] == Again();
    }
    assert EvalTerm(b.outputs[0], tau) == Eval(Next(), tau);
    if t == [Mod2(s + 2, WORD)] && Mod2(s + 2, WORD) != VarValue(rho, "n", WORD) {
      assert Iterates(loop, loop.bodies[0], rho, [s], t);
    }
  }

  lemma EvenLoopTerminates()
    requires WfLoop(EvenLoop([]))
    ensures LoopTerminates(EvenLoop([]), false, false)
  {
    hide Pow2, VarValue, BvRun, WfLoop;
    forall rho: Val, run: nat -> State
      ensures !BvRun(EvenLoop([]), false, false, rho, run)
    {
      if BvRun(EvenLoop([]), false, false, rho, run) {
        CounterIsBelow(rho, run, VarValue(rho, "n", WORD));
      }
    }
  }

  // ---- the sliced loop does not ----

  /** The inputs with n == 3, which the loop is never entered with. */
  ghost function Three(): Val {
    Val(imap[("n", WORD) := 3], imap[], iset{})
  }

  ghost function EvenRun(): nat -> State {
    (i: nat) => [Mod2(2 * i, WORD)]
  }

  lemma ModStep(a: nat)
    ensures Mod2(Mod2(a, WORD) + 2, WORD) == Mod2(a + 2, WORD)
    ensures Mod2(a, WORD) % 2 == a % 2
  {
    hide Pow2;
    RemAdd(a, 2, Pow2(WORD));
    TwoFits();
    RemainderIsMod(a, Pow2(WORD));
    Parity(a, Pow2(WORD) / 2);
  }

  lemma Parity(a: nat, h: nat)
    requires h > 0
    ensures (a % (2 * h)) % 2 == a % 2
  {
    var q := a / (2 * h);
    assert a == 2 * (h * q) + a % (2 * h) by {
      assert (2 * h) * q == 2 * (h * q);
    }
  }

  lemma EvenRuns()
    requires WfLoop(EvenLoop([]))
    ensures BvRun(EvenLoop([]), true, false, Three(), EvenRun())
    ensures !Model(EvenContext(), Three())
  {
    hide Pow2, Rem, WfBody, Again, LimitIsEven, Entered, Next, Wf, WfB, Assigned, EvalB, Eval;
    var loop, rho := EvenLoop([]), Three();
    TwoFits();
    SmallMod(3, WORD);
    assert VarValue(rho, "n", WORD) == 3;
    EvenMeaning(rho, 0);
    assert EvenContext()[0] == LimitIsEven();
    LiteralMeans(0, rho);
    SmallMod(0, WORD);
    forall i: nat
      ensures BvStep(loop, true, rho, EvenRun()(i), EvenRun()(i + 1))
    {
      ModStep(2 * i);
      ModStep(2 * (i + 1));
      IterationMeans(rho, Mod2(2 * i, WORD), EvenRun()(i + 1));
    }
  }

  // ---- the lasso ----

  lemma EvenIsExact(smt: Smt)
    requires WfLoop(EvenLoop([]))
    ensures ExactLoop(EvenLoop([]), smt, false, false)
  {
    hide Exact, ExactB, WfLoop, LimitIsEven, Entered, EvenContext;
    EvenTermsExact();
  }

  lemma EvenTermsExact()
    ensures Exact(Literal(0), Unlimited) && Exact(Next(), Unlimited) && ExactB(Again(), Unlimited)
  {
    var args := [Counter(), Literal(2)];
    assert forall i | 0 <= i < |args| :: Exact(args[i], Unlimited);
    assert Exact(Next(), Unlimited);
  }

  /** The terms of the lasso share n with the dropped conditions. */
  lemma EvenIsNotSeparated()
    ensures Extracted(EvenLoop([])) && !Separated(EvenLoop([]), {})
  {
    hide UsesB, SeedUses, Closed, OperatorsApart;
    var loop := EvenLoop([]);
    CounterNames();
    NamesOfPair(LimitIsEven(), Entered());
    var n := WordSym("n", WORD);
    assert n in UsesB(LimitIsEven()) && n in UsesB(Again()) by {
      LimitUsed();
    }
    LassoTermsInclude(loop);
    BodyTermsInclude(loop.bodies, 0);
    SeedUsesInclude(BoolTerms([Again()]), 0);
    UsesOfBool(Again());
    assert BoolTerms([Again()])[0] == Bool(Again());
    assert n in SeedSyms(LassoTerms(loop)) && n in SymsB(loop.stemContext[0]);
    assert n in Reached(loop.stemContext, LassoTerms(loop), {});
    assert !Closed(loop.stemContext, LassoTerms(loop), {}) by {
      NotClosed(loop.stemContext, LassoTerms(loop), 0, n);
    }
  }

  lemma LimitUsed()
    ensures WordSym("n", WORD) in UsesB(LimitIsEven()) && WordSym("n", WORD) in UsesB(Again())
  {
  }

  lemma NotClosed(conditions: seq<Bl>, seeds: seq<Term>, i: nat, x: Sym)
    requires i < |conditions| && x in SymsB(conditions[i]) && x in Reached(conditions, seeds, {})
    ensures !Closed(conditions, seeds, {})
  {
  }

  /**
   * The loop as it is extracted: its lasso is exact and not marked as an approximation, and runs
   * forever, although the loop terminates for all inputs that satisfy the stem conditions.
   */
  method EvenLasso(complete: bool, smt: Smt) returns (approximate: bool, l: LassoProgram, stem: seq<Bl>)
    requires Trusted(smt)
    ensures exists kept :: IsSlice(EvenContext(), EvenInitial(), kept) && stem == Kept(EvenContext(), kept)
    ensures WfLoop(EvenLoop(stem)) && Extracted(EvenLoop(stem))
    ensures !approximate && !LassoTerminates(l)
    ensures LoopTerminates(EvenLoop(stem), false, false)
  {
    hide Pow2, IsSlice, Kept, WfLoop, Extracted, Simulates, Reflects, BvRun, LassoRun, HeadRun, LoopTerminates,
         ExactLoop, Trusted, EvenLoop, EvenContext;
    stem := SliceConditions(EvenContext(), EvenInitial());
    ghost var kept :| IsSlice(EvenContext(), EvenInitial(), kept) && stem == Kept(EvenContext(), kept);
    NothingKept(kept);
    EvenLoopWf([]);
    EvenIsExact(smt);
    EvenIsNotSeparated();
    var result; ghost var o;
    approximate, result, o := BuildLasso(EvenLoop(stem), true, complete, smt);
    l := result.value;
    EvenLoopTerminates();
    EvenRuns();
    ghost var invs, consts := o.paths.invariants, o.paths.constants;
    SimulatesWf(EvenLoop([]), true, false, l, invs, consts);
    SeenRunsAreMatched(EvenLoop([]), true, false, l, invs, consts, Three(), EvenRun());
  }
}
