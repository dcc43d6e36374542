// When a lasso whose stem is sliced says the truth about the loop.
module SlicedLassos {
  import opened Bits
  import opened BvTerms
  import opened Symbols
  import opened Translation
  import opened Slice
  import opened Lasso
  import opened LassoProofs

  // ---- loops as they are extracted ----

  /**
   * The encoded stem is part of the stem conditions, which are about inputs only; the path
   * conditions of a body path are conditions of the stem or were added along the path.
   */
  predicate Extracted(loop: Loop) {
    && (forall p | p in loop.stem :: p in loop.stemContext)
    && (forall x | x in loop.vars :: x !in VarNamesBAll(loop.stemContext))
    && forall k | 0 <= k < |loop.bodies| ::
         forall p | p in loop.bodies[k].context :: p in loop.stemContext || p in loop.bodies[k].conditions
  }

  lemma MemberHolds(ps: seq<Bl>, p: Bl, rho: Val)
    requires WfBAll(ps) && Model(ps, rho) && p in ps
    ensures WfB(p) && EvalB(p, rho)
  {
  }

  /** Under the stem conditions, an iteration is within its path conditions. */
  lemma IterationInContext(loop: Loop, k: nat, rho: Val, s: State, t: State)
    requires WfLoop(loop) && Extracted(loop) && k < |loop.bodies|
    requires Model(loop.stemContext, rho) && Iterates(loop, loop.bodies[k], rho, s, t)
    ensures InContext(loop, loop.bodies[k], rho, s)
  {
    hide EvalB, WfB, VarNamesB, Find, EvalTerm, VarValue, Pow2;
    var b, tau := loop.bodies[k], Assigned(rho, loop.vars, s);
    assert WfBody(b, loop.vars);
    AssignedElsewhere(rho, loop.vars, s, VarNamesBAll(loop.stemContext));
    ModelAgrees(loop.stemContext, rho, tau);
    forall i | 0 <= i < |b.context|
      ensures EvalB(b.context[i], tau)
    {
      assert b.context[i] in b.context;
      if b.context[i] in loop.stemContext {
        MemberHolds(loop.stemContext, b.context[i], tau);
      } else {
        MemberHolds(b.conditions, b.context[i], tau);
      }
    }
  }

  lemma StepInContext(loop: Loop, rho: Val, s: State, t: State)
    requires WfLoop(loop) && Extracted(loop) && Model(loop.stemContext, rho)
    requires BvStep(loop, true, rho, s, t)
    ensures BvStep(loop, false, rho, s, t)
  {
    hide WfBody, WfB, Extracted, Iterates, InContext, Model;
    var k :| 0 <= k < |loop.bodies| && Iterates(loop, loop.bodies[k], rho, s, t);
    IterationInContext(loop, k, rho, s, t);
  }

  /** A run of the sliced loop is one of the loop exactly if its inputs satisfy the stem conditions. */
  lemma RunIsReal(loop: Loop, previous: bool, rho: Val, run: nat -> State)
    requires WfLoop(loop) && Extracted(loop)
    ensures BvRun(loop, false, previous, rho, run) <==>
              BvRun(loop, true, previous, rho, run) && Model(loop.stemContext, rho)
  {
    hide WfBody, WfB, Extracted, BvStep, Model, EvalTerm;
    if BvRun(loop, false, previous, rho, run) {
      RunIsSliced(loop, previous, rho, run);
    }
    if BvRun(loop, true, previous, rho, run) && Model(loop.stemContext, rho) {
      forall i: nat
        ensures BvStep(loop, false, rho, run(i), run(i + 1))
      {
        StepInContext(loop, rho, run(i), run(i + 1));
      }
      if previous {
        var r: State :| BvStep(loop, true, rho, r, run(0));
        StepInContext(loop, rho, r, run(0));
      }
    }
  }

  // ---- slices that the loop cannot tell from the whole ----

  function BoolTerms(ps: seq<Bl>): (ts: seq<Term>)
    ensures |ts| == |ps|
  {
    seq(|ps|, i requires 0 <= i < |ps| => Bool(ps[i]))
  }

  function BodyTerms(bodies: seq<BodyPath>): seq<Term> {
    if bodies == [] then [] else BoolTerms(bodies[0].conditions) + bodies[0].outputs + BodyTerms(bodies[1..])
  }

  /** All terms of the lasso: the initial values, the guard and the body paths. */
  function LassoTerms(loop: Loop): seq<Term> {
    loop.initial + (if loop.guard.Some? then [Bool(loop.guard.value)] else []) + BodyTerms(loop.bodies)
  }

  /**
   * The stem is a slice of the stem conditions in which the dropped ones have nothing in common
   * with the kept ones and with the terms of the lasso.
   */
  predicate Separated(loop: Loop, kept: set<nat>) {
    && (forall i | i in kept :: i < |loop.stemContext|)
    && loop.stem == Kept(loop.stemContext, kept)
    && Closed(loop.stemContext, LassoTerms(loop), kept)
    && OperatorsApart(loop.stemContext, LassoTerms(loop), kept)
  }

  /** The dropped conditions hold of tau, which agrees with rho on the operators that they share with the rest. */
  ghost predicate Completes(loop: Loop, kept: set<nat>, rho: Val, tau: Val) {
    var dropped := Dropped(loop.stemContext, kept);
    && WfBAll(dropped)
    && Model(dropped, tau)
    && SameOn(SharedOperators(loop.stemContext, LassoTerms(loop), kept), rho, tau)
  }

  lemma {:induction false} SeedUsesConcat(a: seq<Term>, b: seq<Term>)
    ensures SeedUses(a + b) == SeedUses(a) + SeedUses(b)
  {
    hide UsesTerm;
    if a == [] {
      assert a + b == b;
    } else {
      SeedUsesConcat(a[1..], b);
      assert (a + b)[1..] == a[1..] + b && (a + b)[0] == a[0];
    }
  }

  lemma {:induction false} BodyTermsInclude(bodies: seq<BodyPath>, k: nat)
    requires k < |bodies|
    ensures SeedUses(BoolTerms(bodies[k].conditions)) <= SeedUses(BodyTerms(bodies))
    ensures SeedUses(bodies[k].outputs) <= SeedUses(BodyTerms(bodies))
  {
    hide UsesTerm, SeedUses;
    var b := bodies[0];
    SeedUsesConcat(BoolTerms(b.conditions) + b.outputs, BodyTerms(bodies[1..]));
    SeedUsesConcat(BoolTerms(b.conditions), b.outputs);
    if k > 0 {
      BodyTermsInclude(bodies[1..], k - 1);
    }
  }

  lemma LassoTermsInclude(loop: Loop)
    ensures SeedUses(loop.initial) <= SeedUses(LassoTerms(loop))
    ensures loop.guard.Some? ==> UsesB(loop.guard.value) <= SeedUses(LassoTerms(loop))
    ensures SeedUses(BodyTerms(loop.bodies)) <= SeedUses(LassoTerms(loop))
  {
    hide UsesTerm, SeedUses, BodyTerms;
    var g := if loop.guard.Some? then [Bool(loop.guard.value)] else [];
    SeedUsesConcat(loop.initial + g, BodyTerms(loop.bodies));
    SeedUsesConcat(loop.initial, g);
    if loop.guard.Some? {
      SeedUsesInclude(g, 0);
      UsesOfBool(loop.guard.value);
    }
  }

  lemma UsesOfBool(p: Bl)
    ensures UsesTerm(Bool(p)) == UsesB(p)
  {
  }

  /** The loop variables take the same values; elsewhere the valuations are not told apart. */
  lemma AssignedSame(xs: set<Sym>, vars: seq<string>, rho: Val, tau: Val, s: State)
    requires SameOn(xs, rho, tau) && InRange(s, |vars|)
    ensures SameOn(xs, Assigned(rho, vars, s), Assigned(tau, vars, s))
  {
    hide Pow2, VarValue, Find;
    forall x | x in xs
      ensures SameAt(x, Assigned(rho, vars, s), Assigned(tau, vars, s))
    {
      assert SameAt(x, rho, tau);
      if x.WordSym? {
        AssignedValue(rho, vars, s, x.name, x.w);
        AssignedValue(tau, vars, s, x.name, x.w);
      } else if x.WordOp? {
        forall vs
          ensures OpValue(Assigned(rho, vars, s), x.name, x.w, vs) == OpValue(Assigned(tau, vars, s), x.name, x.w, vs)
        {
          assert OpValue(rho, x.name, x.w, vs) == OpValue(tau, x.name, x.w, vs);
        }
      }
    }
  }

  lemma SameModel(ps: seq<Bl>, rho: Val, tau: Val)
    requires WfBAll(ps) && SameOn(SeedUses(BoolTerms(ps)), rho, tau)
    ensures Model(ps, rho) == Model(ps, tau)
  {
    hide EvalB, WfB, UsesB, SameAt, SeedUses;
    forall i | 0 <= i < |ps|
      ensures EvalB(ps[i], rho) == EvalB(ps[i], tau)
    {
      SeedUsesInclude(BoolTerms(ps), i);
      UsesOfBool(ps[i]);
      assert BoolTerms(ps)[i] == Bool(ps[i]);
      SameTruth(ps[i], rho, tau);
    }
  }

  lemma SameTerms(ts: seq<Term>, i: nat, rho: Val, tau: Val)
    requires i < |ts| && WfTerm(ts[i]) && SameOn(SeedUses(ts), rho, tau)
    ensures EvalTerm(ts[i], rho) == EvalTerm(ts[i], tau)
  {
    hide EvalTerm, UsesTerm, SameAt, SeedUses;
    SeedUsesInclude(ts, i);
    SameTerm(ts[i], rho, tau);
  }

  lemma SameIteration(loop: Loop, k: nat, rho: Val, tau: Val, s: State, t: State)
    requires WfLoop(loop) && k < |loop.bodies| && SameOn(SeedUses(LassoTerms(loop)), rho, tau)
    requires Iterates(loop, loop.bodies[k], rho, s, t)
    ensures Iterates(loop, loop.bodies[k], tau, s, t)
  {
    hide EvalB, WfB, Eval, EvalTerm, Find, VarValue, Pow2, SameAt, SeedUses, UsesB, LassoTerms, Assigned, VarNamesB,
         VarNames, BodyTerms, Model;
    var b := loop.bodies[k];
    assert WfBody(b, loop.vars);
    var rho', tau' := Assigned(rho, loop.vars, s), Assigned(tau, loop.vars, s);
    AssignedSame(SeedUses(LassoTerms(loop)), loop.vars, rho, tau, s);
    LassoTermsInclude(loop);
    BodyTermsInclude(loop.bodies, k);
    SameModel(b.conditions, rho', tau');
    if loop.guard.Some? {
      SameTruth(loop.guard.value, rho', tau');
    }
    forall i | 0 <= i < |t|
      ensures EvalTerm(b.outputs[i], tau') == EvalTerm(b.outputs[i], rho')
    {
      SameTerms(b.outputs, i, rho', tau');
    }
  }

  /** Inputs that the terms of the lasso cannot tell apart have the same runs. */
  lemma SameRun(loop: Loop, previous: bool, rho: Val, tau: Val, run: nat -> State)
    requires WfLoop(loop) && BvRun(loop, true, previous, rho, run)
    requires SameOn(SeedUses(LassoTerms(loop)), rho, tau) && Model(loop.stem, tau)
    ensures BvRun(loop, true, previous, tau, run)
  {
    hide EvalB, WfB, Eval, EvalTerm, SameOn, SeedUses, LassoTerms, Iterates, WfBody, Model;
    forall s, t | BvStep(loop, true, rho, s, t)
      ensures BvStep(loop, true, tau, s, t)
    {
      var k :| 0 <= k < |loop.bodies| && Iterates(loop, loop.bodies[k], rho, s, t);
      SameIteration(loop, k, rho, tau, s, t);
    }
    if previous {
      var r: State :| BvStep(loop, true, rho, r, run(0));
      assert BvStep(loop, true, tau, r, run(0));
    }
    forall i | 0 <= i < |loop.initial|
      ensures EvalTerm(loop.initial[i], rho) == EvalTerm(loop.initial[i], tau)
    {
      InitialSame(loop, i, rho, tau);
    }
  }

  lemma InitialSame(loop: Loop, i: nat, rho: Val, tau: Val)
    requires WfLoop(loop) && i < |loop.initial| && SameOn(SeedUses(LassoTerms(loop)), rho, tau)
    ensures EvalTerm(loop.initial[i], rho) == EvalTerm(loop.initial[i], tau)
  {
    hide EvalTerm, SeedUses, LassoTerms, WfBody, SameAt;
    LassoTermsInclude(loop);
    SameTerms(loop.initial, i, rho, tau);
  }

  /** The stem conditions that the slice leaves out can be met. */
  ghost predicate DroppedHaveModel(loop: Loop, kept: set<nat>)
    requires WfLoop(loop)
  {
    exists tau: Val :: WfBAll(Dropped(loop.stemContext, kept)) && Model(Dropped(loop.stemContext, kept), tau)
  }

  /** A run becomes one of the loop under other inputs, whether or not operators are shared. */
  lemma RunIsCompleted(loop: Loop, kept: set<nat>, previous: bool, rho: Val, tau: Val, run: nat -> State)
    requires WfLoop(loop) && Extracted(loop) && (forall i | i in kept :: i < |loop.stemContext|)
    requires loop.stem == Kept(loop.stemContext, kept) && Closed(loop.stemContext, LassoTerms(loop), kept)
    requires Completes(loop, kept, rho, tau) && BvRun(loop, true, previous, rho, run)
    ensures exists both: Val :: BvRun(loop, false, previous, both, run)
  {
    hide EvalB, WfB, WfBody, SameOn, SeedUses, LassoTerms, Closed, SharedOperators, BvStep, Extracted, Dropped,
         EvalTerm;
    var both := SidesCombine(loop.stemContext, LassoTerms(loop), kept, rho, tau);
    SelectModel(loop.stemContext, kept, true, |loop.stemContext|, both);
    SameOnSymmetric(SeedUses(LassoTerms(loop)), both, rho);
    SameRun(loop, previous, rho, both, run);
    RunIsReal(loop, previous, both, run);
  }

  lemma SeparatedCompletes(loop: Loop, kept: set<nat>, rho: Val) returns (tau: Val)
    requires WfLoop(loop) && Separated(loop, kept) && DroppedHaveModel(loop, kept)
    ensures Completes(loop, kept, rho, tau)
  {
    hide EvalB, WfB, WfBody, SameOn, LassoTerms, Closed, OperatorsApart, SharedOperators, Dropped;
    tau :| WfBAll(Dropped(loop.stemContext, kept)) && Model(Dropped(loop.stemContext, kept), tau);
    NothingShared(loop.stemContext, LassoTerms(loop), kept, rho, tau);
  }

  lemma CompletedRun(loop: Loop, kept: set<nat>, rho: Val, tau: Val, run: nat -> State)
    requires WfLoop(loop) && Extracted(loop) && Separated(loop, kept) && Completes(loop, kept, rho, tau)
    requires BvRun(loop, true, false, rho, run)
    ensures !LoopTerminates(loop, false, false)
  {
    hide WfLoop, BvRun, Extracted, Completes, Closed, OperatorsApart, LassoTerms;
    RunIsCompleted(loop, kept, false, rho, tau, run);
  }

  lemma SameOnSymmetric(xs: set<Sym>, rho: Val, tau: Val)
    requires SameOn(xs, rho, tau)
    ensures SameOn(xs, tau, rho)
  {
    hide VarValue;
    forall x | x in xs
      ensures SameAt(x, tau, rho)
    {
      assert SameAt(x, rho, tau);
    }
  }

  /** The dropped conditions hold in every run of the loop. */
  lemma RunHasModel(loop: Loop, kept: set<nat>, previous: bool, rho: Val, run: nat -> State)
    requires WfLoop(loop) && BvRun(loop, false, previous, rho, run)
    ensures DroppedHaveModel(loop, kept)
  {
    hide EvalB, WfB, WfBody, BvStep, EvalTerm;
    SelectModel(loop.stemContext, kept, false, |loop.stemContext|, rho);
    var dropped := Dropped(loop.stemContext, kept);
    assert WfBAll(dropped) && Model(dropped, rho);
  }

  /**
   * With exact constants and no approximation, and a slice that is separated from the lasso, the
   * lasso terminates exactly when the loop does, unless the dropped conditions contradict each other.
   */
  lemma TerminationAgrees(loop: Loop, kept: set<nat>, l: LassoProgram, invs: seq<Bv>, consts: seq<nat>)
    requires WfLoop(loop) && Simulates(loop, true, false, l, invs, consts) && Reflects(loop, l, invs)
    requires Extracted(loop) && Separated(loop, kept)
    ensures LoopTerminates(loop, false, false) <==> LassoTerminates(l) || !DroppedHaveModel(loop, kept)
  {
    hide WfLoop, BvRun, Simulates, Reflects, Extracted, Separated, DroppedHaveModel, LassoTerminates;
    SlicedTerminationAgrees(loop, l, invs, consts);
    if LassoTerminates(l) {
      TerminationTransfers(loop, true, false, l, invs, consts);
    } else if !DroppedHaveModel(loop, kept) {
      forall rho: Val, run: nat -> State
        ensures !BvRun(loop, false, false, rho, run)
      {
        if BvRun(loop, false, false, rho, run) {
          RunHasModel(loop, kept, false, rho, run);
        }
      }
    } else {
      var rho: Val, run: nat -> State :| BvRun(loop, true, false, rho, run);
      var tau := SeparatedCompletes(loop, kept, rho);
      CompletedRun(loop, kept, rho, tau, run);
    }
  }

  function Indices(n: nat): (r: set<nat>)
    ensures forall i | i in r :: i < n
    ensures forall i: nat | i < n :: i in r
  {
    if n == 0 then {} else Indices(n - 1) + {n - 1}
  }

  /** A stem that is not sliced is separated. */
  lemma WholeStemIsSeparated(loop: Loop)
    requires loop.stem == loop.stemContext
    ensures Separated(loop, Indices(|loop.stemContext|))
  {
    hide UsesB, SeedUses, LassoTerms;
    var all := Indices(|loop.stemContext|);
    SelectAll(loop.stemContext, all, |loop.stemContext|);
    assert loop.stemContext[..|loop.stemContext|] == loop.stemContext;
    assert UsedBy(loop.stemContext, all, false) == {};
  }

  lemma {:induction false} SelectAll(ps: seq<Bl>, chosen: set<nat>, n: nat)
    requires n <= |ps| && forall i | 0 <= i < |ps| :: i in chosen
    ensures Select(ps, chosen, true, n) == ps[..n]
    ensures Select(ps, chosen, false, n) == []
  {
    if n > 0 {
      SelectAll(ps, chosen, n - 1);
    }
  }

  /** With the whole stem, an exact lasso agrees with the loop on termination. */
  lemma WholeStemAgrees(loop: Loop, l: LassoProgram, invs: seq<Bv>, consts: seq<nat>)
    requires WfLoop(loop) && Simulates(loop, true, false, l, invs, consts) && Reflects(loop, l, invs)
    requires Extracted(loop) && loop.stem == loop.stemContext
    ensures LoopTerminates(loop, false, false) <==> LassoTerminates(l)
  {
    hide WfLoop, BvRun, Simulates, Reflects, Extracted, Separated, LassoTerminates;
    var all := Indices(|loop.stemContext|);
    WholeStemIsSeparated(loop);
    SelectAll(loop.stemContext, all, |loop.stemContext|);
    assert DroppedHaveModel(loop, all) by {
      assert Model(Dropped(loop.stemContext, all), Val(imap[], imap[], iset{}));
    }
    TerminationAgrees(loop, all, l, invs, consts);
  }
}
