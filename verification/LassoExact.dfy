// When entries, steps and runs of a lasso are those of the loop.
module ExactLassos {
  import opened Bits
  import opened BvTerms
  import opened Symbols
  import opened IntTerms
  import opened Encoding
  import opened Translation
  import opened Lasso
  import opened LassoFacts
  import opened LassoProofs

  /** All variables hold words. */
  ghost predicate WordsWithin(h: Head) {
    forall i | 0 <= i < |h.vars| :: 0 <= h.vars[i] < Pow2(WORD)
  }

  /** So do the constants that stand for bare symbols. */
  ghost predicate SharedWithin(invs: seq<Bv>, h: Head)
    requires |h.invariants| == |invs|
  {
    forall j | 0 <= j < |invs| && invs[j].Var? :: 0 <= h.invariants[j] < Pow2(invs[j].w)
  }

  /** The stem leads to h by an assignment that agrees with the inputs and with what was assumed of them. */
  ghost predicate EntersFor(l: LassoProgram, o: Origin, rho: Val, h: Head) {
    && Fits(l, h)
    && exists sigma: Sigma :: Agrees(o.stem, rho, sigma) && AtEntry(h, sigma) && Holds(l.stem, sigma)
  }

  /** The transition leads from h to g along a body path for which the prover's assumptions hold. */
  ghost predicate StepsFor(loop: Loop, o: Origin, rho: Val, p: State, h: Head, g: Head)
    requires PartsOk(loop, o.paths) && WordsWithin(h) && |h.vars| == |p| == |loop.vars|
  {
    exists k :: 0 <= k < |loop.bodies| && Assumed(loop, o.paths, k, rho, p, StateOf(h)) && StepAlong(o.paths, k, h, g)
  }

  // ---- entries ----

  lemma EntryIsReal(loop: Loop, l: LassoProgram, o: Origin, rho: Val, h: Head)
    requires Built(loop, l, o) && !o.stem.approximate
    requires EntersFor(l, o, rho, h) && WordsWithin(h)
    ensures Represents(loop, o.paths.invariants, rho, h) && BvEnters(loop, !o.paths.small, rho, StateOf(h))
  {
    hide Pow2, Eval, EvalB, Wf, WfB, WfBody, Holds, EvalTerm, StemFormula, OrderOf, EntryInRange, Sound, PartOk, Agrees,
         StemFulfils, WordsWithin, Represents, BvEnters, AtEntry, LoopFormula;
    var sigma: Sigma :| Agrees(o.stem, rho, sigma) && AtEntry(h, sigma) && Holds(l.stem, sigma);
    StemFormulaHolds(|loop.vars|, o.paths.invariants, o.paths.constants, o.paths.small, o.entry, sigma);
    assert StemFulfils(loop, o.stem.invariants, rho, sigma);
    AgreesModel(o.stem, rho, sigma);
    EntryValues(loop, o.paths.small, o.paths.invariants, rho, h, sigma);
  }

  lemma AgreesModel(c: Context, rho: Val, sigma: Sigma)
    requires Agrees(c, rho, sigma)
    ensures WfBAll(c.conditions) && Model(c.conditions, rho)
  {
    hide EvalB, WfB;
  }

  lemma EntryValues(loop: Loop, small: bool, invs: seq<Bv>, rho: Val, h: Head, sigma: Sigma)
    requires WfLoop(loop) && WfEach(invs) && |h.vars| == |loop.vars| && |h.invariants| == |invs| && WordsWithin(h)
    requires AtEntry(h, sigma) && StemFulfils(loop, invs, rho, sigma)
    requires WfBAll(StemConditions(loop, small)) && Model(StemConditions(loop, small), rho)
    ensures Represents(loop, invs, rho, h) && BvEnters(loop, !small, rho, StateOf(h))
  {
    hide Pow2, Eval, EvalB, Wf, WfB, WfBody, EvalTerm;
  }

  lemma EntryIsFor(loop: Loop, l: LassoProgram, o: Origin, rho: Val, s: State)
    requires Built(loop, l, o) && BvEnters(loop, !o.paths.small, rho, s)
    ensures InRange(s, |loop.vars|) && EntersFor(l, o, rho, HeadOf(o.paths.invariants, o.paths.constants, rho, s))
  {
    hide Pow2, Eval, EvalB, Wf, WfB, WfBody, Holds, EvalTerm, StemFormula, OrderOf, EntryInRange, PartOk, Sound, Agrees,
         Witnessed;
    var c := o.stem;
    var sigma := Assignment(c, c.invariants, c.constants, rho, s, []);
    AssignmentIsIntended(c, c.invariants, c.constants, rho, s, []);
    EntryAssigned(loop, c.small, c, rho, s);
    SortedIncreasing(c.constants, |c.constants|);
    OrderHolds(SortedBelow(c.constants, |c.constants|), c.constants, true, sigma);
    StemFormulaHolds(|loop.vars|, c.invariants, c.constants, c.small, o.entry, sigma);
  }

  /** The loop is entered in a state exactly if that state is in range and the stem leads to it for the inputs. */
  lemma EntryIsExact(loop: Loop, l: LassoProgram, o: Origin, rho: Val, s: State)
    requires Built(loop, l, o) && !o.stem.approximate
    ensures BvEnters(loop, !o.paths.small, rho, s) <==>
              InRange(s, |loop.vars|) && EntersFor(l, o, rho, HeadOf(o.paths.invariants, o.paths.constants, rho, s))
  {
    hide PartOk, Sound, WfBody, WfB, Wf, Pow2, EntersFor, StemFormula, LoopFormula, BvEnters;
    var h := HeadOf(o.paths.invariants, o.paths.constants, rho, s);
    if BvEnters(loop, !o.paths.small, rho, s) {
      EntryIsFor(loop, l, o, rho, s);
    }
    if InRange(s, |loop.vars|) && EntersFor(l, o, rho, h) {
      EntryIsReal(loop, l, o, rho, h);
      assert StateOf(h) == s;
    }
  }

  /**
   * For an assignment of the stem there are inputs that agree with it exactly if the variables of
   * symbols and the shared symbols are below their widths, and the assumptions hold of those inputs.
   */
  lemma AgreementIsRange(loop: Loop, l: LassoProgram, o: Origin, rho: Val, sigma: Sigma)
    requires Built(loop, l, o) && AllHold(o.stem.constraints, sigma)
    ensures var c := o.stem; var tau := Readback(c, rho, sigma);
      Agrees(c, tau, sigma) <==>
        && (forall v | v in c.symbols :: 0 <= Look(sigma, Aux(c.symbols[v])) < Pow2(v.w))
        && (forall j | 0 <= j < |c.invariants| && c.invariants[j].Var? ::
              0 <= Look(sigma, Invariant(j, true)) < Pow2(c.invariants[j].w))
        && Model(c.conditions, tau)
  {
    hide Pow2, Eval, EvalB, Holds, Agrees, PartOk, StemFormula, LoopFormula, WfBody, Readback;
    var c, tau := o.stem, Readback(o.stem, rho, sigma);
    if Agrees(c, tau, sigma) {
      AgreesInRange(c, tau, sigma);
    }
    if (forall v | v in c.symbols :: 0 <= Look(sigma, Aux(c.symbols[v])) < Pow2(v.w))
       && (forall j | 0 <= j < |c.invariants| && c.invariants[j].Var? ::
             0 <= Look(sigma, Invariant(j, true)) < Pow2(c.invariants[j].w))
       && Model(c.conditions, tau) {
      ReadbackAgrees(c, rho, sigma);
    }
  }

  lemma AgreesInRange(c: Context, rho: Val, sigma: Sigma)
    requires Agrees(c, rho, sigma)
    ensures Model(c.conditions, rho)
    ensures forall v | v in c.symbols :: 0 <= Look(sigma, Aux(c.symbols[v])) < Pow2(v.w)
    ensures forall j | 0 <= j < |c.invariants| && c.invariants[j].Var? ::
              0 <= Look(sigma, Invariant(j, c.stem)) < Pow2(c.invariants[j].w)
  {
    hide Pow2, EvalB, Eval;
  }

  // ---- steps ----

  /** Inputs explain a head exactly if its variables and the shared symbols are in range. */
  lemma HeadIsRepresented(loop: Loop, invs: seq<Bv>, consts: seq<nat>, h: Head)
    requires RegistryOk(invs, consts) && |h.vars| == |loop.vars| && |h.invariants| == |invs|
    ensures WordsWithin(h) && SharedWithin(invs, h) <==> exists rho :: Represents(loop, invs, rho, h)
  {
    hide Pow2, Eval;
    if WordsWithin(h) && SharedWithin(invs, h) {
      var rho := Val(imap k: (string, nat) :: SharedValue(invs, h, Var(k.1, k.0)), imap[], iset{});
      forall j | 0 <= j < |invs| && invs[j].Var?
        ensures h.invariants[j] == Eval(invs[j], rho)
      {
        SharedRead(invs, consts, h, rho, j);
      }
      assert Represents(loop, invs, rho, h);
    }
    if rho :| Represents(loop, invs, rho, h) {
      forall j | 0 <= j < |invs| && invs[j].Var?
        ensures 0 <= h.invariants[j] < Pow2(invs[j].w)
      {
        EvalRange(invs[j], rho);
      }
    }
  }

  ghost function SharedValue(invs: seq<Bv>, h: Head, v: Bv): nat
    requires |h.invariants| == |invs|
  {
    if v in invs && h.invariants[Find(invs, v)] >= 0 then h.invariants[Find(invs, v)] else 0
  }

  lemma SharedRead(invs: seq<Bv>, consts: seq<nat>, h: Head, rho: Val, j: nat)
    requires RegistryOk(invs, consts) && |h.invariants| == |invs| && SharedWithin(invs, h)
    requires j < |invs| && invs[j].Var?
    requires rho == Val(imap k: (string, nat) :: SharedValue(invs, h, Var(k.1, k.0)), imap[], iset{})
    ensures h.invariants[j] == Eval(invs[j], rho)
  {
    hide Pow2;
    var v := invs[j];
    FindUnique(invs, j);
    assert Var(v.w, v.name) == v;
  }

  lemma EvalRange(e: Bv, rho: Val)
    requires Wf(e)
    ensures 0 <= Eval(e, rho) < Pow2(e.w)
  {
    hide Pow2;
  }

  /** A step along a body path whose assumptions hold, between heads in range, is an iteration. */
  lemma StepIsReal(loop: Loop, l: LassoProgram, o: Origin, rho: Val, p: State, h: Head, g: Head)
    requires Built(loop, l, o) && Forced(o) && InRange(p, |loop.vars|)
    requires Represents(loop, o.paths.invariants, rho, h) && WordsWithin(h)
    requires Fits(l, g) && WordsWithin(g) && g.invariants == h.invariants
    requires StepsFor(loop, o, rho, p, h, g)
    ensures Represents(loop, o.paths.invariants, rho, g)
    ensures BvStep(loop, !o.paths.small, rho, StateOf(h), StateOf(g))
  {
    hide Pow2, Eval, EvalB, Wf, WfB, WfBody, VarNames, VarNamesB, VarValue, Holds, EvalTerm, LoopFormula, StemFormula,
         OrderOf, Iterates, PartOk, StemOk, LoopInRange, Assumed, AllHold, InContext;
    var q := o.paths;
    var k :| 0 <= k < |loop.bodies| && Assumed(loop, q, k, rho, p, StateOf(h)) && StepAlong(q, k, h, g);
    var sigma: Sigma :|
      && AtStep(h, g, sigma)
      && AllHold(OrderOf(SortedBelow(q.constants, |q.constants|), false), sigma)
      && LoopInRange(|h.vars|, q, sigma)
      && Holds(q.disjuncts[k], sigma);
    HeadsAreShown(loop, q, rho, h, g, sigma);
    DisjunctIsIteration(loop, q, k, rho, p, StateOf(h), StateOf(g), sigma);
    if q.small {
      AssumedContext(loop, q, k, rho, p, StateOf(h));
    }
  }

  /** What was assumed of a body path includes its path conditions. */
  lemma AssumedContext(loop: Loop, q: LoopParts, k: nat, rho: Val, p: State, s: State)
    requires PartsOk(loop, q) && k < |loop.bodies| && q.small && InRange(s, |loop.vars|) && InRange(p, |loop.vars|)
    requires Assumed(loop, q, k, rho, p, s)
    ensures WfBody(loop.bodies[k], loop.vars) && InContext(loop, loop.bodies[k], rho, s)
  {
    hide Pow2, Eval, EvalB, Wf, WfB, VarNames, VarNamesB, VarValue, Find, PartOk, PreviousFacts, EvalTerm, WithPrevious,
         Assigned;
    var b := loop.bodies[k];
    assert WfBody(b, loop.vars);
    BodyForgets(loop, b, rho, s, p);
    var conditions := BodyConditions(loop, q.small, q.previous, k);
    assert forall i | 0 <= i < |b.context| :: conditions[i] == b.context[i];
  }

  /** A step between loop states along a body path for which the prover's assumptions hold. */
  ghost predicate Steps(loop: Loop, o: Origin, rho: Val, p: State, s: State, t: State)
    requires PartsOk(loop, o.paths) && |s| == |p| == |loop.vars|
  {
    var q := o.paths;
    exists k :: 0 <= k < |loop.bodies| && Assumed(loop, q, k, rho, p, s)
             && StepAlong(q, k, HeadOf(q.invariants, q.constants, rho, s), HeadOf(q.invariants, q.constants, rho, t))
  }

  /** Under the facts on the previous iteration, an iteration is exactly a step between states in range. */
  lemma StepIsExact(loop: Loop, o: Origin, rho: Val, p: State, s: State, t: State)
    requires PartsOk(loop, o.paths) && Forced(o) && InRange(p, |loop.vars|)
    requires o.paths.previous ==> BvStep(loop, !o.paths.small, rho, p, s)
    ensures BvStep(loop, !o.paths.small, rho, s, t) <==>
              InRange(s, |loop.vars|) && InRange(t, |loop.vars|) && Steps(loop, o, rho, p, s, t)
  {
    hide Pow2, Eval, EvalB, Wf, WfB, WfBody, VarNames, VarNamesB, VarValue, EvalTerm, PartOk, InContext, StepAlong,
         Assumed, Assigned, HeadOf;
    if BvStep(loop, !o.paths.small, rho, s, t) {
      StepIsFor(loop, o, rho, p, s, t);
    }
    if InRange(s, |loop.vars|) && InRange(t, |loop.vars|) && Steps(loop, o, rho, p, s, t) {
      StepsAreReal(loop, o, rho, p, s, t);
    }
  }

  lemma StepsAreReal(loop: Loop, o: Origin, rho: Val, p: State, s: State, t: State)
    requires PartsOk(loop, o.paths) && Forced(o) && InRange(p, |loop.vars|)
    requires InRange(s, |loop.vars|) && InRange(t, |loop.vars|) && Steps(loop, o, rho, p, s, t)
    ensures BvStep(loop, !o.paths.small, rho, s, t)
  {
    hide Pow2, Eval, EvalB, Wf, WfB, WfBody, VarNames, VarNamesB, VarValue, EvalTerm, PartOk, InContext, StepAlong,
         Assumed, Assigned, HeadOf;
    var q := o.paths;
    var k :| 0 <= k < |loop.bodies| && Assumed(loop, q, k, rho, p, s)
             && StepAlong(q, k, HeadOf(q.invariants, q.constants, rho, s), HeadOf(q.invariants, q.constants, rho, t));
    StepAlongIsIteration(loop, q, k, rho, p, s, t);
    if q.small {
      AssumedContext(loop, q, k, rho, p, s);
    }
  }

  lemma StepIsFor(loop: Loop, o: Origin, rho: Val, p: State, s: State, t: State)
    requires PartsOk(loop, o.paths) && InRange(p, |loop.vars|) && BvStep(loop, !o.paths.small, rho, s, t)
    requires o.paths.previous ==> BvStep(loop, !o.paths.small, rho, p, s)
    ensures InRange(s, |loop.vars|) && InRange(t, |loop.vars|) && Steps(loop, o, rho, p, s, t)
  {
    hide Pow2, Eval, EvalB, Wf, WfB, WfBody, VarNames, VarNamesB, VarValue, EvalTerm, PartOk, InContext, StepAlong,
         Assigned, HeadOf, WithPrevious, PreviousFacts;
    var q := o.paths;
    var k :| 0 <= k < |loop.bodies| && Iterates(loop, loop.bodies[k], rho, s, t)
             && (q.small ==> InContext(loop, loop.bodies[k], rho, s));
    ConditionsHold(loop, q, k, rho, p, s);
    assert Assumed(loop, q, k, rho, p, s);
    IterationIsAlong(loop, q, k, rho, p, s, t);
  }

  // ---- runs ----

  /** The state before the i-th one. */
  function Before(p: State, states: nat -> State, i: nat): State {
    if i == 0 then p else states(i - 1)
  }

  /** The state before the first one, of which the facts on the previous iteration tell. */
  ghost predicate Precedes(loop: Loop, o: Origin, rho: Val, p: State, s: State)
    requires WfLoop(loop)
  {
    InRange(p, |loop.vars|) && (o.paths.previous ==> BvStep(loop, !o.paths.small, rho, p, s))
  }

  /** All states are words, the first is an entry of the lasso and each next one a step of it, for the inputs. */
  ghost predicate RunsFor(loop: Loop, l: LassoProgram, o: Origin, rho: Val, p: State, states: nat -> State)
    requires PartsOk(loop, o.paths)
  {
    && (forall i: nat :: InRange(states(i), |loop.vars|))
    && EntersFor(l, o, rho, HeadOf(o.paths.invariants, o.paths.constants, rho, states(0)))
    && forall i: nat :: StepsAt(loop, o, rho, p, states, i)
  }

  ghost predicate StepsAt(loop: Loop, o: Origin, rho: Val, p: State, states: nat -> State, i: nat)
    requires PartsOk(loop, o.paths)
  {
    |Before(p, states, i)| == |states(i)| == |loop.vars| && Steps(loop, o, rho, Before(p, states, i), states(i), states(i + 1))
  }

  /**
   * In both encodings, if nothing was approximated: an infinite run of the loop is exactly one of the
   * lasso in which all variables are words, and the prover's assumptions hold of the inputs at the
   * entry and at each step; `p` is the state before the first one.
   */
  lemma RunIsExact(loop: Loop, l: LassoProgram, o: Origin, rho: Val, p: State, states: nat -> State)
    requires Built(loop, l, o) && Forced(o) && Precedes(loop, o, rho, p, states(0))
    ensures BvRun(loop, !o.paths.small, o.paths.previous, rho, states) <==> RunsFor(loop, l, o, rho, p, states)
  {
    hide Pow2, Eval, Wf, WfB, WfBody, WfLoop, LoopFormula, StemFormula, PartsOk, StemOk, BvStep, Steps, EntersFor,
         BvEnters, HeadOf, Sound, Precedes, StepsAt, InRange, Forced;
    PartsAreWf(loop, o);
    ForcedStem(o);
    EntryIsExact(loop, l, o, rho, states(0));
    if BvRun(loop, !o.paths.small, o.paths.previous, rho, states) {
      forall i: nat
        ensures InRange(states(i), |loop.vars|) && StepsAt(loop, o, rho, p, states, i)
      {
        StepInRun(loop, o, rho, p, states, i);
      }
    }
    if RunsFor(loop, l, o, rho, p, states) {
      forall i: nat
        ensures BvStep(loop, !o.paths.small, rho, states(i), states(i + 1))
      {
        StepAtIsReal(loop, l, o, rho, p, states, i);
      }
      if o.paths.previous {
        PrecedesStep(loop, o, rho, p, states(0));
      }
    }
  }

  lemma StepAtIsReal(loop: Loop, l: LassoProgram, o: Origin, rho: Val, p: State, states: nat -> State, i: nat)
    requires PartsOk(loop, o.paths) && Forced(o) && Precedes(loop, o, rho, p, states(0))
    requires RunsFor(loop, l, o, rho, p, states)
    ensures BvStep(loop, !o.paths.small, rho, states(i), states(i + 1))
  {
    hide Pow2, Eval, Wf, WfB, WfBody, PartOk, BvStep, Steps, EntersFor, HeadOf, Forced;
    assert StepsAt(loop, o, rho, p, states, i);
    assert InRange(Before(p, states, i), |loop.vars|) && InRange(states(i), |loop.vars|);
    StepsAreReal(loop, o, rho, Before(p, states, i), states(i), states(i + 1));
  }

  lemma PrecedesStep(loop: Loop, o: Origin, rho: Val, p: State, s: State)
    requires WfLoop(loop) && Precedes(loop, o, rho, p, s) && o.paths.previous
    ensures HasPredecessor(loop, !o.paths.small, rho, s)
  {
    hide WfBody, BvStep, InRange;
  }

  lemma PartsAreWf(loop: Loop, o: Origin)
    requires PartsOk(loop, o.paths)
    ensures WfLoop(loop) && WfEach(o.paths.invariants)
  {
    hide WfLoop, PartOk;
  }

  lemma StepInRun(loop: Loop, o: Origin, rho: Val, p: State, states: nat -> State, i: nat)
    requires PartsOk(loop, o.paths) && Forced(o) && Precedes(loop, o, rho, p, states(0))
    requires BvRun(loop, !o.paths.small, o.paths.previous, rho, states)
    ensures InRange(states(i), |loop.vars|) && StepsAt(loop, o, rho, p, states, i)
  {
    hide Pow2, Eval, Wf, WfB, WfBody, PartOk, BvStep, Steps, BvEnters, Forced;
    assert BvStep(loop, !o.paths.small, rho, states(i), states(i + 1));
    if i > 0 {
      assert BvStep(loop, !o.paths.small, rho, states(i - 1), states(i - 1 + 1));
      StepEnds(loop, o, rho, states(i - 1), states(i));
    }
    StepIsExact(loop, o, rho, Before(p, states, i), states(i), states(i + 1));
  }

  lemma StepEnds(loop: Loop, o: Origin, rho: Val, s: State, t: State)
    requires WfLoop(loop) && BvStep(loop, !o.paths.small, rho, s, t)
    ensures InRange(s, |loop.vars|) && InRange(t, |loop.vars|)
  {
    hide Pow2, WfBody, WfB, EvalTerm, InContext;
  }

  // ---- runs of heads ----

  /** The i-th step of a run of the lasso, whose state before the first one is p. */
  ghost predicate HeadStepsAt(loop: Loop, o: Origin, rho: Val, p: State, run: nat -> Head, i: nat)
    requires PartsOk(loop, o.paths)
  {
    && WordsWithin(run(i))
    && (i > 0 ==> WordsWithin(run(i - 1)))
    && |run(i).vars| == |loop.vars|
    && |HeadBefore(p, run, i)| == |loop.vars|
    && StepsFor(loop, o, rho, HeadBefore(p, run, i), run(i), run(i + 1))
  }

  ghost function HeadBefore(p: State, run: nat -> Head, i: nat): State
    requires i > 0 ==> WordsWithin(run(i - 1))
  {
    if i == 0 then p else StateOf(run(i - 1))
  }

  /** All variables are words, the entry agrees with the inputs, and so does each step. */
  ghost predicate HeadRunsFor(loop: Loop, l: LassoProgram, o: Origin, rho: Val, p: State, run: nat -> Head)
    requires PartsOk(loop, o.paths)
  {
    && LassoRun(l, run)
    && EntersFor(l, o, rho, run(0))
    && (forall k: nat :: WordsWithin(run(k)))
    && forall k: nat :: HeadStepsAt(loop, o, rho, p, run, k)
  }

  ghost function StatesOf(run: nat -> Head): nat -> State {
    (i: nat) => if WordsWithin(run(i)) then StateOf(run(i)) else []
  }

  lemma {:induction false} HeadsAreReal(loop: Loop, l: LassoProgram, o: Origin, rho: Val, p: State, run: nat -> Head, i: nat)
    requires Built(loop, l, o) && Forced(o) && InRange(p, |loop.vars|) && HeadRunsFor(loop, l, o, rho, p, run)
    ensures Represents(loop, o.paths.invariants, rho, run(i)) && Represents(loop, o.paths.invariants, rho, run(i + 1))
    ensures BvStep(loop, !o.paths.small, rho, StateOf(run(i)), StateOf(run(i + 1)))
  {
    hide Pow2, PartsOk, StemOk, WfLoop, BvStep, BvEnters, LassoEnters, StepsFor, EntersFor, StemFormula, LoopFormula,
         Forced, WordsWithin, Represents;
    PartsAreWf(loop, o);
    if i == 0 {
      ForcedStem(o);
      EntryIsReal(loop, l, o, rho, run(0));
    } else {
      HeadsAreReal(loop, l, o, rho, p, run, i - 1);
    }
    assert LassoStep(l, run(i), run(i + 1)) && HeadStepsAt(loop, o, rho, p, run, i);
    WordsAreStates(loop, p, run, i);
    StepIsReal(loop, l, o, rho, HeadBefore(p, run, i), run(i), run(i + 1));
  }

  lemma ForcedStem(o: Origin)
    requires Forced(o)
    ensures !o.stem.approximate
  {
  }

  lemma WordsAreStates(loop: Loop, p: State, run: nat -> Head, i: nat)
    requires InRange(p, |loop.vars|) && (i > 0 ==> WordsWithin(run(i - 1)) && |run(i - 1).vars| == |loop.vars|)
    ensures InRange(HeadBefore(p, run, i), |loop.vars|)
  {
    hide Pow2;
  }

  /**
   * A run of the lasso in which all variables are words is one of the loop if its entry agrees with
   * the inputs and each step is along a body path for which the prover's assumptions hold.
   */
  lemma HeadRunIsReal(loop: Loop, l: LassoProgram, o: Origin, rho: Val, p: State, run: nat -> Head)
    requires Built(loop, l, o) && Forced(o) && HeadRunsFor(loop, l, o, rho, p, run)
    requires Precedes(loop, o, rho, p, StatesOf(run)(0))
    ensures BvRun(loop, !o.paths.small, o.paths.previous, rho, StatesOf(run))
  {
    hide Pow2, PartsOk, StemOk, WfLoop, BvStep, BvEnters, LassoRun, StepsFor, EntersFor, StemFormula, LoopFormula,
         Forced, WordsWithin, Represents, HeadStepsAt;
    PartsAreWf(loop, o);
    ForcedStem(o);
    EntryIsReal(loop, l, o, rho, run(0));
    forall i: nat
      ensures BvStep(loop, !o.paths.small, rho, StatesOf(run)(i), StatesOf(run)(i + 1))
    {
      HeadsAreReal(loop, l, o, rho, p, run, i);
    }
  }
}
