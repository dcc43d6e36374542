// Why the formulas of a lasso describe the loop and its stem.
module LassoProofs {
  import opened Bits
  import opened BvTerms
  import opened Symbols
  import opened IntTerms
  import opened Encoding
  import opened EncodingFacts
  import opened NodeMeanings
  import opened Translation
  import opened Lasso
  import opened LassoFacts

  // ---- valuations with some words reassigned ----

  lemma AssignedValue(rho: Val, xs: seq<string>, s: State, x: string, w: nat)
    requires InRange(s, |xs|)
    ensures VarValue(Assigned(rho, xs, s), x, w) ==
            if w == WORD && x in xs then s[Find(xs, x)] else VarValue(rho, x, w)
  {
    hide Pow2;
    var tau := Assigned(rho, xs, s);
    assert (x, w) in tau.vars;
  }

  lemma {:induction false} FindUnique<T>(xs: seq<T>, i: nat)
    requires Unique(xs) && i < |xs|
    ensures Find(xs, xs[i]) == i
  {
  }

  /** Reassigning variables that do not occur changes nothing. */
  lemma AssignedElsewhere(rho: Val, xs: seq<string>, s: State, names: set<string>)
    requires InRange(s, |xs|) && forall x | x in xs :: x !in names
    ensures AgreeOn(names, rho, Assigned(rho, xs, s))
  {
    hide Find, VarValue;
    forall x, w | x in names
      ensures VarValue(rho, x, w) == VarValue(Assigned(rho, xs, s), x, w)
    {
      AssignedValue(rho, xs, s, x, w);
    }
  }

  lemma {:induction false} ModelAgrees(ps: seq<Bl>, rho: Val, tau: Val)
    requires WfBAll(ps) && AgreeOn(VarNamesBAll(ps), rho, tau)
    ensures Model(ps, rho) == Model(ps, tau)
  {
    hide EvalB, WfB;
    forall i | 0 <= i < |ps|
      ensures EvalB(ps[i], rho) == EvalB(ps[i], tau)
    {
      ArgNamesB(ps, i);
      EvalAgreeB(ps[i], rho, tau);
    }
  }

  lemma TermAgrees(t: Term, rho: Val, tau: Val)
    requires WfTerm(t) && AgreeOn(VarNamesTerm(t), rho, tau)
    ensures EvalTerm(t, rho) == EvalTerm(t, tau)
  {
    hide Eval, EvalB, Wf, WfB;
    match t
    case Word(e) => EvalAgree(e, rho, tau);
    case Bool(p) => EvalAgreeB(p, rho, tau);
  }

  // ---- one disjunct of the loop transition ----

  /** The body path is taken and the outputs hold its results. */
  ghost predicate Fulfils(loop: Loop, b: BodyPath, tau: Val, sigma: Sigma)
    requires WfLoop(loop) && WfBody(b, loop.vars)
  {
    && GuardHolds(loop.guard, tau)
    && Model(b.conditions, tau)
    && forall i | 0 <= i < |b.outputs| :: Look(sigma, Output(i)) == EvalTerm(b.outputs[i], tau)
  }

  function LoopNames(vars: seq<string>): map<Bv, Name> {
    map x | x in vars :: Var(WORD, x) := Input(Find(vars, x))
  }

  /** What is known of the disjunct of a body path and of the translator that produced it. */
  ghost predicate DisjunctOk(loop: Loop, b: BodyPath, conditions: seq<Bl>, small: bool, c: Context, d: Ib)
    requires WfLoop(loop) && WfBody(b, loop.vars)
  {
    && Sound(c)
    && RegistryOk(c.invariants, c.constants)
    && !c.stem
    && c.small == small
    && c.names == LoopNames(loop.vars)
    && c.symbols == map[]
    && c.conditions == conditions
    && (small ==> SmallF(d))
    && (forall tau, sigma | Intended(c, tau, sigma) && Fulfils(loop, b, tau, sigma) :: Holds(d, sigma))
    && (!c.approximate ==>
          forall tau, sigma | Agrees(c, tau, sigma) && Holds(d, sigma) :: Fulfils(loop, b, tau, sigma))
    && (forall sigma: Sigma | Holds(d, sigma) :: AllHold(c.constraints, sigma))
  }

  function OutputNames(n: nat): (xs: seq<Name>)
    ensures |xs| == n
  {
    seq(n, i requires 0 <= i < n => Output(i))
  }

  /** The guard, the conditions and the equations for the outputs. */
  function DisjunctParts(gs: seq<Ib>, fs: seq<Ib>, ts: seq<It>): seq<Ib> {
    gs + fs + Equations(OutputNames(|ts|), ts)
  }

  lemma PartsMean(loop: Loop, b: BodyPath, c: Context, gs: seq<Ib>, fs: seq<Ib>, ts: seq<It>, tau: Val, sigma: Sigma)
    requires WfLoop(loop) && WfBody(b, loop.vars) && World(c, tau, sigma)
    requires if loop.guard.Some? then DenotesEachB(c, gs, [loop.guard.value]) else gs == []
    requires DenotesEachB(c, fs, b.conditions) && DenotesTerms(c, ts, b.outputs)
    ensures AllHold(DisjunctParts(gs, fs, ts), sigma) <==> Fulfils(loop, b, tau, sigma)
  {
    hide World, Holds, EvalB, Eval, Wf, WfB, EvalTerm, VarNames, VarNamesB, WfLoop, SmallF;
    AppendHolds(gs, fs, sigma);
    AppendHolds(gs + fs, Equations(OutputNames(|ts|), ts), sigma);
    EquationsMean(c, OutputNames(|ts|), ts, b.outputs, tau, sigma);
    assert AllHold(fs, sigma) <==> Model(b.conditions, tau) by {
      assert forall i | 0 <= i < |fs| :: DenotesB(c, fs[i], b.conditions[i]);
    }
    assert AllHold(gs, sigma) <==> GuardHolds(loop.guard, tau) by {
      if loop.guard.Some? {
        assert DenotesB(c, gs[0], [loop.guard.value][0]);
      }
    }
  }

  lemma DisjunctMeaning(loop: Loop, b: BodyPath, conditions: seq<Bl>, c: Context, gs: seq<Ib>, fs: seq<Ib>, ts: seq<It>)
    requires WfLoop(loop) && WfBody(b, loop.vars)
    requires Sound(c) && RegistryOk(c.invariants, c.constants)
    requires !c.stem && c.names == LoopNames(loop.vars) && c.symbols == map[] && c.conditions == conditions
    requires if loop.guard.Some? then DenotesEachB(c, gs, [loop.guard.value]) else gs == []
    requires DenotesEachB(c, fs, b.conditions) && DenotesTerms(c, ts, b.outputs)
    ensures DisjunctOk(loop, b, conditions, c.small, c, Conj(DisjunctParts(gs, fs, ts) + c.constraints))
  {
    hide Agrees, Witnessed, Holds, EvalB, Eval, Wf, WfB, EvalTerm, VarNames, VarNamesB, WfLoop, WfBody, SmallF,
         Fulfils, Conj, DisjunctParts, SymbolOk;
    var parts := DisjunctParts(gs, fs, ts);
    var d := Conj(parts + c.constraints);
    forall sigma: Sigma
      ensures Holds(d, sigma) <==> AllHold(parts, sigma) && AllHold(c.constraints, sigma)
    {
      ConjHolds(parts + c.constraints, sigma);
      AppendHolds(parts, c.constraints, sigma);
    }
    forall tau, sigma | World(c, tau, sigma)
      ensures AllHold(parts, sigma) <==> Fulfils(loop, b, tau, sigma)
    {
      PartsMean(loop, b, c, gs, fs, ts, tau, sigma);
    }
    IntendedIsWorld(c);
    if c.small {
      PartsSmall(c, loop, b, gs, fs, ts);
      ConjSmall(parts + c.constraints);
    }
  }

  lemma PartsSmall(c: Context, loop: Loop, b: BodyPath, gs: seq<Ib>, fs: seq<Ib>, ts: seq<It>)
    requires c.small && WfLoop(loop) && WfBody(b, loop.vars)
    requires if loop.guard.Some? then DenotesEachB(c, gs, [loop.guard.value]) else gs == []
    requires DenotesEachB(c, fs, b.conditions) && DenotesTerms(c, ts, b.outputs)
    ensures AllSmall(DisjunctParts(gs, fs, ts))
  {
    hide World, Holds, EvalB, Eval, Wf, WfB, SmallF, SmallT, EvalI;
    assert AllSmall(gs) by {
      if loop.guard.Some? {
        assert DenotesB(c, gs[0], [loop.guard.value][0]);
      }
    }
    assert AllSmall(fs) by {
      assert forall i | 0 <= i < |fs| :: DenotesB(c, fs[i], b.conditions[i]);
    }
    assert forall i | 0 <= i < |ts| :: SmallT(ts[i]) by {
      assert forall i | 0 <= i < |ts| :: Denotes(c, ts[i], TermMeaning(b.outputs[i]));
    }
    EquationsSmall(OutputNames(|ts|), ts);
  }

  // ---- the prover's facts about the previous iteration ----

  function PrevNames(vars: seq<string>): (xs: seq<string>)
    ensures |xs| == |vars|
  {
    seq(|vars|, i requires 0 <= i < |vars| => PrevName(vars[i]))
  }

  function ToPrev(vars: seq<string>): map<string, string> {
    map x | x in vars :: PrevName(x)
  }

  /** The conditions of a body path in the previous state, and its results in the current one. */
  function PreviousAlong(b: BodyPath, vars: seq<string>): seq<Bl>
    requires |b.outputs| == |vars| && forall i | 0 <= i < |b.outputs| :: b.outputs[i].Word?
  {
    seq(|b.conditions|, i requires 0 <= i < |b.conditions| => RenameB(b.conditions[i], WORD, ToPrev(vars))) +
    seq(|vars|, i requires 0 <= i < |vars| =>
          Rel(Eq, Var(WORD, vars[i]), Rename(b.outputs[i].bv, WORD, ToPrev(vars))))
  }

  predicate AllWords(bodies: seq<BodyPath>) {
    forall k | 0 <= k < |bodies| :: forall i | 0 <= i < |bodies[k].outputs| :: bodies[k].outputs[i].Word?
  }

  /** Some body path led to the current state. */
  function PreviousFacts(loop: Loop): seq<Bl>
    requires WfLoop(loop) && AllWords(loop.bodies)
  {
    [Junction(false, seq(|loop.bodies|, k requires 0 <= k < |loop.bodies| =>
                           Junction(true, PreviousAlong(loop.bodies[k], loop.vars))))]
  }

  /** The current values of the loop variables, and those of the previous iteration. */
  ghost function WithPrevious(loop: Loop, rho: Val, s: State, p: State): Val
    requires |s| == |p| == |loop.vars|
  {
    Assigned(Assigned(rho, loop.vars, s), PrevNames(loop.vars), p)
  }

  lemma PrevFind(vars: seq<string>, x: string)
    requires Unique(vars) && x in vars
    ensures PrevName(x) in PrevNames(vars) && Find(PrevNames(vars), PrevName(x)) == Find(vars, x)
  {
    var i := Find(vars, x);
    var xs := PrevNames(vars);
    assert xs[i] == PrevName(x);
    forall j, k | 0 <= j < k < |xs|
      ensures xs[j] != xs[k]
    {
      assert |xs[j]| == |vars[j]| + 5 && |xs[k]| == |vars[k]| + 5;
      assert xs[j][..|vars[j]|] == vars[j] && xs[k][..|vars[k]|] == vars[k];
    }
    FindUnique(xs, i);
  }

  /** In the renamed facts, the loop variables read the previous state. */
  lemma PreviousRenames(loop: Loop, rho: Val, s: State, p: State)
    requires WfLoop(loop) && InRange(s, |loop.vars|) && InRange(p, |loop.vars|)
    ensures var tau := WithPrevious(loop, rho, s, p);
      Renamed(WORD, ToPrev(loop.vars), tau, Assigned(tau, loop.vars, p))
  {
    hide VarValue, Pow2, Find, WfBody, Wf, WfB;
    var tau := WithPrevious(loop, rho, s, p);
    forall x, w
      ensures VarValue(Assigned(tau, loop.vars, p), x, w) ==
              VarValue(tau, if w == WORD && x in ToPrev(loop.vars) then ToPrev(loop.vars)[x] else x, w)
    {
      AssignedValue(tau, loop.vars, p, x, w);
      if w == WORD && x in loop.vars {
        PrevFind(loop.vars, x);
        AssignedValue(Assigned(rho, loop.vars, s), PrevNames(loop.vars), p, PrevName(x), w);
      }
    }
  }

  /** Away from the names of previous values, only the loop variables matter. */
  lemma PreviousForgets(loop: Loop, rho: Val, s: State, p: State, names: set<string>)
    requires WfLoop(loop) && InRange(s, |loop.vars|) && InRange(p, |loop.vars|)
    requires AvoidsPrev(names, loop.vars)
    ensures var tau := WithPrevious(loop, rho, s, p);
      && AgreeOn(names, tau, Assigned(rho, loop.vars, s))
      && AgreeOn(names, Assigned(tau, loop.vars, p), Assigned(rho, loop.vars, p))
  {
    hide VarValue, Pow2, Find, WfBody, Wf, WfB;
    var tau := WithPrevious(loop, rho, s, p);
    forall x, w | x in names
      ensures VarValue(tau, x, w) == VarValue(Assigned(rho, loop.vars, s), x, w)
      ensures VarValue(Assigned(tau, loop.vars, p), x, w) == VarValue(Assigned(rho, loop.vars, p), x, w)
    {
      assert x !in PrevNames(loop.vars);
      AssignedValue(Assigned(rho, loop.vars, s), PrevNames(loop.vars), p, x, w);
      AssignedValue(tau, loop.vars, p, x, w);
      AssignedValue(rho, loop.vars, p, x, w);
      AssignedValue(rho, loop.vars, s, x, w);
    }
  }

  lemma PreviousFactsWf(loop: Loop)
    requires WfLoop(loop) && AllWords(loop.bodies)
    ensures WfBAll(PreviousFacts(loop))
    ensures forall k | 0 <= k < |loop.bodies| :: WfBAll(PreviousAlong(loop.bodies[k], loop.vars))
  {
    hide Pow2, Rename, RenameB, EvalB, Eval;
    var rho := Val(imap[], imap[], iset{});
    var s := seq(|loop.vars|, i => 0);
    assert InRange(s, |loop.vars|);
    PreviousRenames(loop, rho, s, s);
    var tau := WithPrevious(loop, rho, s, s);
    forall k | 0 <= k < |loop.bodies|
      ensures WfBAll(PreviousAlong(loop.bodies[k], loop.vars))
    {
      PreviousAlongWf(loop, loop.bodies[k], tau, Assigned(tau, loop.vars, s));
    }
    assert WfB(PreviousFacts(loop)[0]);
  }

  lemma PreviousAlongWf(loop: Loop, b: BodyPath, tau: Val, upsilon: Val)
    requires WfLoop(loop) && b in loop.bodies && AllWords(loop.bodies)
    requires Renamed(WORD, ToPrev(loop.vars), tau, upsilon)
    ensures WfBAll(PreviousAlong(b, loop.vars))
  {
    hide Pow2, Rename, RenameB, EvalB, Eval, VarNames, VarNamesB;
    forall i | 0 <= i < |b.conditions|
      ensures WfB(RenameB(b.conditions[i], WORD, ToPrev(loop.vars)))
    {
      RenameMeansB(b.conditions[i], WORD, ToPrev(loop.vars), tau, upsilon);
    }
    forall i | 0 <= i < |loop.vars|
      ensures WfB(Rel(Eq, Var(WORD, loop.vars[i]), Rename(b.outputs[i].bv, WORD, ToPrev(loop.vars))))
    {
      RenameMeans(b.outputs[i].bv, WORD, ToPrev(loop.vars), tau, upsilon);
    }
  }

  /** From the previous state, the path leads to the current one. */
  ghost predicate LedTo(loop: Loop, b: BodyPath, rho: Val, p: State, s: State)
    requires WfLoop(loop) && WfBody(b, loop.vars)
  {
    && |s| == |p| == |loop.vars|
    && var upsilon := Assigned(rho, loop.vars, p);
    && Model(b.conditions, upsilon)
    && forall i | 0 <= i < |s| :: s[i] == EvalTerm(b.outputs[i], upsilon)
  }

  /** The facts about the previous iteration say exactly that some path led from it to the current state. */
  lemma PreviousHolds(loop: Loop, rho: Val, p: State, s: State)
    requires WfLoop(loop) && AllWords(loop.bodies) && InRange(s, |loop.vars|) && InRange(p, |loop.vars|)
    ensures WfBAll(PreviousFacts(loop))
    ensures Model(PreviousFacts(loop), WithPrevious(loop, rho, s, p)) <==>
              exists k :: 0 <= k < |loop.bodies| && LedTo(loop, loop.bodies[k], rho, p, s)
  {
    hide Pow2, Rename, RenameB, EvalB, Eval, Wf, WfB, VarNames, VarNamesB, PreviousAlong, LedTo;
    PreviousFactsWf(loop);
    var tau := WithPrevious(loop, rho, s, p);
    var all := seq(|loop.bodies|, j requires 0 <= j < |loop.bodies| =>
                     Junction(true, PreviousAlong(loop.bodies[j], loop.vars)));
    DisjunctionMeans(all, tau);
    forall k | 0 <= k < |loop.bodies|
      ensures EvalB(all[k], tau) <==> LedTo(loop, loop.bodies[k], rho, p, s)
    {
      AlongMeans(loop, k, rho, p, s);
      JunctionMeans(PreviousAlong(loop.bodies[k], loop.vars), tau);
    }
  }

  lemma IteratesLedTo(loop: Loop, b: BodyPath, rho: Val, p: State, s: State)
    requires WfLoop(loop) && WfBody(b, loop.vars) && Iterates(loop, b, rho, p, s)
    ensures LedTo(loop, b, rho, p, s)
  {
    hide WfLoop, WfBody, EvalTerm, GuardHolds;
  }

  lemma JunctionMeans(ps: seq<Bl>, rho: Val)
    requires WfBAll(ps)
    ensures WfB(Junction(true, ps)) && (EvalB(Junction(true, ps), rho) <==> Model(ps, rho))
  {
    hide Eval, Wf;
  }

  lemma DisjunctionMeans(ps: seq<Bl>, rho: Val)
    requires WfBAll([Junction(false, ps)])
    ensures WfBAll(ps) && (Model([Junction(false, ps)], rho) <==> exists k :: 0 <= k < |ps| && EvalB(ps[k], rho))
  {
    hide Eval, Wf;
    assert WfB([Junction(false, ps)][0]);
  }

  lemma AlongMeans(loop: Loop, k: nat, rho: Val, p: State, s: State)
    requires WfLoop(loop) && AllWords(loop.bodies) && k < |loop.bodies|
    requires InRange(s, |loop.vars|) && InRange(p, |loop.vars|)
    requires WfBAll(PreviousAlong(loop.bodies[k], loop.vars))
    ensures Model(PreviousAlong(loop.bodies[k], loop.vars), WithPrevious(loop, rho, s, p)) <==>
            LedTo(loop, loop.bodies[k], rho, p, s)
  {
    hide Pow2, Rename, RenameB, EvalB, Eval, Wf, WfB, VarNames, VarNamesB, VarValue, Find, Assigned, ToPrev, WithPrevious,
         EvalTerm;
    var b, tau := loop.bodies[k], WithPrevious(loop, rho, s, p);
    var upsilon := Assigned(rho, loop.vars, p);
    assert WfBody(b, loop.vars);
    var along, n := PreviousAlong(b, loop.vars), |b.conditions|;
    forall j | 0 <= j < n
      ensures EvalB(along[j], tau) <==> EvalB(b.conditions[j], upsilon)
    {
      ConditionMeans(loop, k, j, rho, p, s);
    }
    forall i | 0 <= i < |s|
      ensures EvalB(along[n + i], tau) <==> s[i] == EvalTerm(b.outputs[i], upsilon)
    {
      OutputMeans(loop, k, i, rho, p, s);
    }
    assert forall j | n <= j < |along| :: along[j] == along[n + (j - n)];
  }

  lemma ConditionMeans(loop: Loop, k: nat, i: nat, rho: Val, p: State, s: State)
    requires WfLoop(loop) && k < |loop.bodies| && InRange(s, |loop.vars|) && InRange(p, |loop.vars|)
    requires i < |loop.bodies[k].conditions|
    ensures var e := RenameB(loop.bodies[k].conditions[i], WORD, ToPrev(loop.vars));
      WfB(e) && WfBody(loop.bodies[k], loop.vars) &&
      (EvalB(e, WithPrevious(loop, rho, s, p)) <==> EvalB(loop.bodies[k].conditions[i], Assigned(rho, loop.vars, p)))
  {
    hide Pow2, RenameB, EvalB, VarNames, VarNamesB, VarValue, Find;
    var b := loop.bodies[k];
    assert WfBody(b, loop.vars);
    var tau := WithPrevious(loop, rho, s, p);
    PreviousRenames(loop, rho, s, p);
    PreviousForgets(loop, rho, s, p, VarNamesBAll(b.conditions));
    ArgNamesB(b.conditions, i);
    EvalAgreeB(b.conditions[i], Assigned(tau, loop.vars, p), Assigned(rho, loop.vars, p));
    RenameMeansB(b.conditions[i], WORD, ToPrev(loop.vars), tau, Assigned(tau, loop.vars, p));
  }

  lemma OutputMeans(loop: Loop, k: nat, i: nat, rho: Val, p: State, s: State)
    requires WfLoop(loop) && AllWords(loop.bodies) && k < |loop.bodies| && i < |loop.vars|
    requires InRange(s, |loop.vars|) && InRange(p, |loop.vars|)
    ensures var b := loop.bodies[k];
      && WfBody(b, loop.vars) && |b.outputs| == |loop.vars| && b.outputs[i].Word?
      && var e := Rel(Eq, Var(WORD, loop.vars[i]), Rename(b.outputs[i].bv, WORD, ToPrev(loop.vars)));
      && WfB(e)
      && (EvalB(e, WithPrevious(loop, rho, s, p)) <==> s[i] == EvalTerm(b.outputs[i], Assigned(rho, loop.vars, p)))
  {
    hide Pow2, Rename, Eval, VarNames, VarNamesB, VarValue, Find;
    var b := loop.bodies[k];
    assert WfBody(b, loop.vars);
    var out := b.outputs[i].bv;
    var tau := WithPrevious(loop, rho, s, p);
    PreviousRenames(loop, rho, s, p);
    PreviousForgets(loop, rho, s, p, VarNamesTerm(b.outputs[i]));
    RenameMeans(out, WORD, ToPrev(loop.vars), tau, Assigned(tau, loop.vars, p));
    TermAgrees(b.outputs[i], Assigned(tau, loop.vars, p), Assigned(rho, loop.vars, p));
    CurrentValue(loop, rho, s, p, i);
  }

  lemma CurrentValue(loop: Loop, rho: Val, s: State, p: State, i: nat)
    requires WfLoop(loop) && InRange(s, |loop.vars|) && InRange(p, |loop.vars|) && i < |loop.vars|
    ensures Wf(Var(WORD, loop.vars[i]))
    ensures Eval(Var(WORD, loop.vars[i]), WithPrevious(loop, rho, s, p)) == s[i]
  {
    hide Pow2, VarValue, Find;
    var x := loop.vars[i];
    assert x !in PrevNames(loop.vars);
    AssignedValue(Assigned(rho, loop.vars, s), PrevNames(loop.vars), p, x, WORD);
    AssignedValue(rho, loop.vars, s, x, WORD);
    FindUnique(loop.vars, i);
  }

  // ---- the loop transition ----

  /** What one run of build_lasso has established about the loop transition. */
  datatype LoopParts = LoopParts(
    small: bool,
    previous: bool,
    invariants: seq<Bv>,
    constants: seq<nat>,
    contexts: seq<Context>,
    disjuncts: seq<Ib>)

  function BodyFormula(disjuncts: seq<Ib>): Ib {
    if |disjuncts| == 1 then disjuncts[0] else AnyOf(disjuncts)
  }

  function Transition(n: nat, invs: seq<Bv>, consts: seq<nat>, small: bool, disjuncts: seq<Ib>): Ib {
    Ordered(OrderOf(SortedBelow(consts, |consts|), false),
            AllOf(Ranges(LoopVars(n) + InvariantVars(invs, false), small) + [BodyFormula(disjuncts)]))
  }

  function LoopFormula(n: nat, q: LoopParts): Ib {
    Transition(n, q.invariants, q.constants, q.small, q.disjuncts)
  }

  /** What the prover may assume while a body path is translated. */
  function BodyConditions(loop: Loop, small: bool, previous: bool, k: nat): seq<Bl>
    requires WfLoop(loop) && k < |loop.bodies| && (previous ==> AllWords(loop.bodies))
  {
    if small then loop.bodies[k].context + (if previous then PreviousFacts(loop) else []) else []
  }

  ghost predicate PartsOk(loop: Loop, q: LoopParts) {
    && WfLoop(loop)
    && (q.previous ==> q.small && AllWords(loop.bodies))
    && RegistryOk(q.invariants, q.constants)
    && |q.contexts| == |q.disjuncts| == |loop.bodies|
    && forall k | 0 <= k < |loop.bodies| :: PartOk(loop, q, k)
  }

  ghost predicate PartOk(loop: Loop, q: LoopParts, k: nat)
    requires WfLoop(loop) && (q.previous ==> AllWords(loop.bodies))
    requires k < |loop.bodies| && k < |q.contexts| && k < |q.disjuncts|
  {
    && DisjunctOk(loop, loop.bodies[k], BodyConditions(loop, q.small, q.previous, k), q.small,
                  q.contexts[k], q.disjuncts[k])
    && q.contexts[k].invariants <= q.invariants
    && q.contexts[k].constants <= q.constants
  }

  /** Later parts keep what is known of the earlier ones. */
  lemma PartGrows(loop: Loop, q: LoopParts, r: LoopParts, k: nat)
    requires WfLoop(loop) && (q.previous ==> AllWords(loop.bodies))
    requires k < |loop.bodies| && k < |q.contexts| && k < |q.disjuncts| && PartOk(loop, q, k)
    requires q.small == r.small && q.previous == r.previous
    requires q.contexts <= r.contexts && q.disjuncts <= r.disjuncts
    requires q.invariants <= r.invariants && q.constants <= r.constants
    ensures PartOk(loop, r, k)
  {
    hide DisjunctOk, WfLoop;
  }

  lemma BodyFormulaHolds(disjuncts: seq<Ib>, sigma: Sigma)
    requires disjuncts != []
    ensures Holds(BodyFormula(disjuncts), sigma) <==> exists k :: 0 <= k < |disjuncts| && Holds(disjuncts[k], sigma)
  {
    hide EvalI;
    if |disjuncts| == 1 && Holds(disjuncts[0], sigma) {
      assert exists k :: 0 <= k < |disjuncts| && Holds(disjuncts[k], sigma);
    }
  }

  ghost predicate LoopInRange(n: nat, q: LoopParts, sigma: Sigma) {
    && (forall i | 0 <= i < n ::
          WithinRange(Typed(Input(i), WORD), q.small, sigma) && WithinRange(Typed(Output(i), WORD), q.small, sigma))
    && (forall j | 0 <= j < |q.invariants| ::
          WithinRange(Typed(Invariant(j, false), q.invariants[j].w), q.small, sigma))
  }

  lemma LoopFormulaHolds(n: nat, q: LoopParts, sigma: Sigma)
    requires q.disjuncts != []
    ensures Holds(LoopFormula(n, q), sigma) <==>
              && AllHold(OrderOf(SortedBelow(q.constants, |q.constants|), false), sigma)
              && LoopInRange(n, q, sigma)
              && exists k :: 0 <= k < |q.disjuncts| && Holds(q.disjuncts[k], sigma)
  {
    hide Holds, WithinRange, Pow2, LoopInRange;
    var xs := LoopVars(n) + InvariantVars(q.invariants, false);
    var ranges, body := Ranges(xs, q.small), BodyFormula(q.disjuncts);
    OrderedHolds(OrderOf(SortedBelow(q.constants, |q.constants|), false), AllOf(ranges + [body]), sigma);
    AllOfHolds(ranges + [body], sigma);
    AppendHolds(ranges, [body], sigma);
    ConsHolds(body, [], sigma);
    assert [body] + [] == [body];
    RangesHold(xs, q.small, sigma);
    BodyFormulaHolds(q.disjuncts, sigma);
    LoopRanges(n, q, sigma);
    assert AllHold(ranges + [body], sigma) <==> AllHold(ranges, sigma) && Holds(body, sigma);
    assert AllHold(ranges, sigma) <==> LoopInRange(n, q, sigma);
  }

  lemma LoopRanges(n: nat, q: LoopParts, sigma: Sigma)
    ensures var xs := LoopVars(n) + InvariantVars(q.invariants, false);
      (forall k | 0 <= k < |xs| :: WithinRange(xs[k], q.small, sigma)) <==> LoopInRange(n, q, sigma)
  {
    hide WithinRange, LoopVars;
    var vs, ks := LoopVars(n), InvariantVars(q.invariants, false);
    var xs := vs + ks;
    if forall k | 0 <= k < |xs| :: WithinRange(xs[k], q.small, sigma) {
      forall i | 0 <= i < n
        ensures WithinRange(Typed(Input(i), WORD), q.small, sigma) && WithinRange(Typed(Output(i), WORD), q.small, sigma)
      {
        LoopVarsAt(n, i);
        assert xs[2 * i] == vs[2 * i] && xs[2 * i + 1] == vs[2 * i + 1];
      }
      forall j | 0 <= j < |q.invariants|
        ensures WithinRange(Typed(Invariant(j, false), q.invariants[j].w), q.small, sigma)
      {
        assert xs[|vs| + j] == ks[j];
      }
    }
    if LoopInRange(n, q, sigma) {
      forall k | 0 <= k < |xs|
        ensures WithinRange(xs[k], q.small, sigma)
      {
        if k < |vs| {
          LoopVarsOnly(n, k);
          assert xs[k] == vs[k];
        } else {
          assert xs[k] == ks[k - |vs|];
        }
      }
    }
  }

  /** The intended assignment of one iteration. */
  lemma IterationFulfils(loop: Loop, q: LoopParts, k: nat, rho: Val, p: State, s: State, t: State)
    requires PartsOk(loop, q) && k < |loop.bodies| && Iterates(loop, loop.bodies[k], rho, s, t)
    requires q.small ==> InContext(loop, loop.bodies[k], rho, s)
    requires InRange(p, |loop.vars|)
    requires q.previous ==> exists j :: 0 <= j < |loop.bodies| && Iterates(loop, loop.bodies[j], rho, p, s)
    ensures var tau := WithPrevious(loop, rho, s, p);
      var sigma := Assignment(q.contexts[k], q.invariants, q.constants, tau, s, t);
      Intended(q.contexts[k], tau, sigma) && Fulfils(loop, loop.bodies[k], tau, sigma)
  {
    hide Pow2, Eval, EvalB, Wf, WfB, VarNames, VarNamesB, VarValue, Find, Holds, Intended, EvalTerm;
    var b, c, tau := loop.bodies[k], q.contexts[k], WithPrevious(loop, rho, s, p);
    assert PartOk(loop, q, k);
    assert WfBody(b, loop.vars);
    NamesHold(loop, rho, s, p);
    ConditionsHold(loop, q, k, rho, p, s);
    AssignmentIsIntended(c, q.invariants, q.constants, tau, s, t);
    BodyForgets(loop, b, rho, s, p);
    OutputsAssigned(loop, b, c, q, tau, rho, s, t);
  }

  lemma OutputsAssigned(loop: Loop, b: BodyPath, c: Context, q: LoopParts, tau: Val, rho: Val, s: State, t: State)
    requires WfLoop(loop) && WfBody(b, loop.vars) && WfEach(q.invariants) && Iterates(loop, b, rho, s, t)
    requires forall i | 0 <= i < |b.outputs| ::
               EvalTerm(b.outputs[i], tau) == EvalTerm(b.outputs[i], Assigned(rho, loop.vars, s))
    ensures forall i | 0 <= i < |b.outputs| ::
              Look(Assignment(c, q.invariants, q.constants, tau, s, t), Output(i)) == EvalTerm(b.outputs[i], tau)
  {
    hide Pow2, Eval, EvalB, Wf, WfB, EvalTerm, Find;
  }

  /** What the current values of a body's terms are, with or without the previous ones. */
  lemma BodyForgets(loop: Loop, b: BodyPath, rho: Val, s: State, p: State)
    requires WfLoop(loop) && WfBody(b, loop.vars) && InRange(s, |loop.vars|) && InRange(p, |loop.vars|)
    ensures var tau, upsilon := WithPrevious(loop, rho, s, p), Assigned(rho, loop.vars, s);
      && GuardHolds(loop.guard, tau) == GuardHolds(loop.guard, upsilon)
      && Model(b.conditions, tau) == Model(b.conditions, upsilon)
      && Model(b.context, tau) == Model(b.context, upsilon)
      && forall i | 0 <= i < |b.outputs| :: EvalTerm(b.outputs[i], tau) == EvalTerm(b.outputs[i], upsilon)
  {
    hide Pow2, Eval, EvalB, VarNames, VarNamesB, VarValue, Find, Model, EvalTerm;
    var tau, upsilon := WithPrevious(loop, rho, s, p), Assigned(rho, loop.vars, s);
    PreviousForgets(loop, rho, s, p, VarNamesBAll(b.conditions));
    ModelAgrees(b.conditions, tau, upsilon);
    PreviousForgets(loop, rho, s, p, VarNamesBAll(b.context));
    ModelAgrees(b.context, tau, upsilon);
    if loop.guard.Some? {
      PreviousForgets(loop, rho, s, p, VarNamesB(loop.guard.value));
      EvalAgreeB(loop.guard.value, tau, upsilon);
    }
    forall i | 0 <= i < |b.outputs|
      ensures EvalTerm(b.outputs[i], tau) == EvalTerm(b.outputs[i], upsilon)
    {
      PreviousForgets(loop, rho, s, p, VarNamesTerm(b.outputs[i]));
      TermAgrees(b.outputs[i], tau, upsilon);
    }
  }

  lemma NamesHold(loop: Loop, rho: Val, s: State, p: State)
    requires WfLoop(loop) && InRange(s, |loop.vars|) && InRange(p, |loop.vars|)
    ensures NamesOk(LoopNames(loop.vars), WithPrevious(loop, rho, s, p), s)
  {
    hide Pow2, Eval, Wf, WfBody, WfB;
    var names := LoopNames(loop.vars);
    forall v | v in names
      ensures Wf(v) && names[v].Input? && names[v].i < |s| && Eval(v, WithPrevious(loop, rho, s, p)) == s[names[v].i]
    {
      NameOfVar(loop.vars, v);
      CurrentValue(loop, rho, s, p, Find(loop.vars, v.name));
    }
  }

  lemma NameOfVar(vars: seq<string>, v: Bv)
    requires v in LoopNames(vars)
    ensures v.Var? && v.w == WORD && v.name in vars && LoopNames(vars)[v] == Input(Find(vars, v.name))
  {
  }

  lemma ConditionsHold(loop: Loop, q: LoopParts, k: nat, rho: Val, p: State, s: State)
    requires PartsOk(loop, q) && k < |loop.bodies| && InRange(s, |loop.vars|) && InRange(p, |loop.vars|)
    requires q.small ==> InContext(loop, loop.bodies[k], rho, s)
    requires q.previous ==> exists j :: 0 <= j < |loop.bodies| && Iterates(loop, loop.bodies[j], rho, p, s)
    ensures WfBAll(BodyConditions(loop, q.small, q.previous, k))
    ensures Model(BodyConditions(loop, q.small, q.previous, k), WithPrevious(loop, rho, s, p))
  {
    hide Pow2, Eval, EvalB, Wf, WfB, VarNames, VarNamesB, VarValue, Find, PartOk, PreviousFacts, EvalTerm;
    if q.small {
      assert WfBody(loop.bodies[k], loop.vars);
      BodyForgets(loop, loop.bodies[k], rho, s, p);
      if q.previous {
        var j :| 0 <= j < |loop.bodies| && Iterates(loop, loop.bodies[j], rho, p, s);
        IteratesLedTo(loop, loop.bodies[j], rho, p, s);
        PreviousHolds(loop, rho, p, s);
      }
    }
  }

  /** Loop-invariant terms keep their value. */
  lemma InvariantsKept(loop: Loop, invs: seq<Bv>, consts: seq<nat>, rho: Val, s: State, p: State)
    requires WfLoop(loop) && InRange(s, |loop.vars|) && InRange(p, |loop.vars|) && RegistryOk(invs, consts)
    ensures forall j | 0 <= j < |invs| :: Eval(invs[j], WithPrevious(loop, rho, s, p)) == Eval(invs[j], rho)
    ensures forall j | 0 <= j < |invs| :: Eval(invs[j], Assigned(rho, loop.vars, s)) == Eval(invs[j], rho)
  {
    hide Pow2, Eval, Wf, WfB, WfBody, VarNames, Find, VarValue;
    forall j | 0 <= j < |invs|
      ensures Eval(invs[j], WithPrevious(loop, rho, s, p)) == Eval(invs[j], rho)
      ensures Eval(invs[j], Assigned(rho, loop.vars, s)) == Eval(invs[j], rho)
    {
      var names := VarNames(invs[j]);
      PrevNamesHavePrefix(loop);
      assert !DependsOnLoopVars(invs[j]);
      var upsilon := Assigned(rho, loop.vars, s);
      AssignedElsewhere(rho, loop.vars, s, names);
      EvalAgree(invs[j], rho, upsilon);
      AssignedElsewhere(upsilon, PrevNames(loop.vars), p, names);
      EvalAgree(invs[j], upsilon, WithPrevious(loop, rho, s, p));
    }
  }

  lemma PrefixKept(x: string)
    requires LOOP_VAR_PREFIX <= x
    ensures LOOP_VAR_PREFIX <= PrevName(x)
  {
    assert PrevName(x)[..|LOOP_VAR_PREFIX|] == x[..|LOOP_VAR_PREFIX|];
  }

  lemma PrevNamesHavePrefix(loop: Loop)
    requires WfLoop(loop)
    ensures forall x | x in PrevNames(loop.vars) :: LOOP_VAR_PREFIX <= x
  {
    hide WfBody, WfB;
    forall x | x in PrevNames(loop.vars)
      ensures LOOP_VAR_PREFIX <= x
    {
      var i :| 0 <= i < |loop.vars| && x == PrevName(loop.vars[i]);
      assert loop.vars[i] in loop.vars;
      PrefixKept(loop.vars[i]);
    }
  }

  /** Every iteration of the loop is a step of the lasso. */
  lemma StepIsSimulated(loop: Loop, l: LassoProgram, q: LoopParts, rho: Val, s: State, t: State)
    requires PartsOk(loop, q)
    requires l.loop == LoopFormula(|loop.vars|, q)
    requires l.vars == |loop.vars| && l.invariants == |q.invariants| && l.constants == |q.constants|
    requires BvStep(loop, !q.small, rho, s, t)
    requires q.previous ==> HasPredecessor(loop, !q.small, rho, s)
    ensures LassoStep(l, HeadOf(q.invariants, q.constants, rho, s), HeadOf(q.invariants, q.constants, rho, t))
  {
    hide Pow2, Eval, EvalB, Wf, WfB, VarNames, VarNamesB, VarValue, Find, Holds, Intended, EvalTerm, LoopFormula,
         Fulfils, WithinRange, OrderOf, WfBody, WithPrevious, SortedBelow;
    var k :| 0 <= k < |loop.bodies| && Iterates(loop, loop.bodies[k], rho, s, t)
             && (q.small ==> InContext(loop, loop.bodies[k], rho, s));
    var p := s;
    if q.previous {
      p :| BvStep(loop, !q.small, rho, p, s);
    }
    IterationFulfils(loop, q, k, rho, p, s, t);
    var tau := WithPrevious(loop, rho, s, p);
    var sigma := Assignment(q.contexts[k], q.invariants, q.constants, tau, s, t);
    assert PartOk(loop, q, k);
    assert Holds(q.disjuncts[k], sigma);
    InvariantsKept(loop, q.invariants, q.constants, rho, s, p);
    StepAssigned(loop, q, k, tau, rho, s, t);
    SortedIncreasing(q.constants, |q.constants|);
    OrderHolds(SortedBelow(q.constants, |q.constants|), q.constants, false, sigma);
    LoopFormulaHolds(|loop.vars|, q, sigma);
  }

  lemma StepAssigned(loop: Loop, q: LoopParts, k: nat, tau: Val, rho: Val, s: State, t: State)
    requires WfEach(q.invariants) && k < |q.contexts|
    requires InRange(s, |loop.vars|) && InRange(t, |loop.vars|)
    requires forall j | 0 <= j < |q.invariants| :: Eval(q.invariants[j], tau) == Eval(q.invariants[j], rho)
    ensures var sigma := Assignment(q.contexts[k], q.invariants, q.constants, tau, s, t);
      && AtStep(HeadOf(q.invariants, q.constants, rho, s), HeadOf(q.invariants, q.constants, rho, t), sigma)
      && (forall j | 0 <= j < |q.constants| :: Look(sigma, Constant(j, false)) == q.constants[j])
      && (forall i | 0 <= i < |loop.vars| ::
            WithinRange(Typed(Input(i), WORD), q.small, sigma) && WithinRange(Typed(Output(i), WORD), q.small, sigma))
      && (forall j | 0 <= j < |q.invariants| ::
            WithinRange(Typed(Invariant(j, false), q.invariants[j].w), q.small, sigma))
  {
    hide Pow2, Eval, Wf;
  }

  // ---- the loop transition, read back ----

  lemma LoopVarIsNamed(vars: seq<string>, x: string)
    ensures x in vars <==> Var(WORD, x) in LoopNames(vars)
  {
  }

  /** The program variables hold s and t, and the bare symbols their values. */
  ghost predicate Shows(q: LoopParts, rho: Val, s: State, t: State, sigma: Sigma)
    requires WfEach(q.invariants)
  {
    && (forall i | 0 <= i < |s| :: Look(sigma, Input(i)) == s[i])
    && (forall i | 0 <= i < |t| :: Look(sigma, Output(i)) == t[i])
    && (forall j | 0 <= j < |q.invariants| && q.invariants[j].Var? ::
          Look(sigma, Invariant(j, false)) == Eval(q.invariants[j], rho))
  }

  /** What the prover assumed while the body path was translated, for current and previous values. */
  ghost predicate Assumed(loop: Loop, q: LoopParts, k: nat, rho: Val, p: State, s: State)
    requires WfLoop(loop) && k < |loop.bodies| && (q.previous ==> AllWords(loop.bodies))
    requires |s| == |p| == |loop.vars|
  {
    var conditions := BodyConditions(loop, q.small, q.previous, k);
    WfBAll(conditions) && Model(conditions, WithPrevious(loop, rho, s, p))
  }

  lemma StepAgrees(loop: Loop, q: LoopParts, k: nat, rho: Val, p: State, s: State, t: State, sigma: Sigma)
    requires PartsOk(loop, q) && k < |loop.bodies| && InRange(s, |loop.vars|) && InRange(p, |loop.vars|)
    requires Assumed(loop, q, k, rho, p, s) && Shows(q, rho, s, t, sigma)
    ensures Agrees(q.contexts[k], WithPrevious(loop, rho, s, p), sigma)
  {
    hide Pow2, Eval, EvalB, Wf, WfB, WfBody, VarNames, VarNamesB, VarValue, Holds, EvalTerm, Intended, PreviousFacts,
         Find, WithPrevious;
    var c, tau := q.contexts[k], WithPrevious(loop, rho, s, p);
    assert PartOk(loop, q, k);
    InvariantsKept(loop, q.invariants, q.constants, rho, s, p);
    NamesHold(loop, rho, s, p);
    forall i | 0 <= i < |c.invariants| && c.invariants[i].Var?
      ensures Look(sigma, Invariant(i, false)) == Eval(c.invariants[i], tau)
    {
      assert c.invariants[i] == q.invariants[i];
    }
  }

  /** A disjunct that holds without an approximation is an iteration of its body path. */
  lemma DisjunctIsIteration(loop: Loop, q: LoopParts, k: nat, rho: Val, p: State, s: State, t: State, sigma: Sigma)
    requires PartsOk(loop, q) && k < |loop.bodies| && !q.contexts[k].approximate
    requires InRange(s, |loop.vars|) && InRange(t, |loop.vars|) && InRange(p, |loop.vars|)
    requires Assumed(loop, q, k, rho, p, s) && Shows(q, rho, s, t, sigma) && Holds(q.disjuncts[k], sigma)
    ensures Iterates(loop, loop.bodies[k], rho, s, t)
  {
    hide Pow2, Eval, EvalB, Wf, WfB, VarNames, VarNamesB, VarValue, Find, Holds, EvalTerm, Agrees, Intended, Assumed,
         WithPrevious;
    var b, tau := loop.bodies[k], WithPrevious(loop, rho, s, p);
    assert PartOk(loop, q, k) && WfBody(b, loop.vars);
    StepAgrees(loop, q, k, rho, p, s, t, sigma);
    assert Fulfils(loop, b, tau, sigma);
    BodyForgets(loop, b, rho, s, p);
  }

  /** Every step of an exact lasso is an iteration of the sliced loop. */
  lemma StepIsReflected(loop: Loop, l: LassoProgram, q: LoopParts, rho: Val, h: Head, g: Head)
    requires PartsOk(loop, q) && !q.small
    requires forall k | 0 <= k < |q.contexts| :: !q.contexts[k].approximate
    requires l.loop == LoopFormula(|loop.vars|, q)
    requires l.vars == |loop.vars| && l.invariants == |q.invariants| && l.constants == |q.constants|
    requires Represents(loop, q.invariants, rho, h) && LassoStep(l, h, g)
    ensures Represents(loop, q.invariants, rho, g) && BvStep(loop, true, rho, StateOf(h), StateOf(g))
  {
    hide Pow2, Eval, EvalB, Wf, WfB, WfBody, VarNames, VarNamesB, VarValue, Holds, EvalTerm, LoopFormula, OrderOf,
         Iterates, PartOk, LoopInRange, Assumed, Shows;
    var sigma: Sigma :| AtStep(h, g, sigma) && Holds(l.loop, sigma);
    LoopFormulaHolds(|loop.vars|, q, sigma);
    OutputsInRange(loop, q, rho, h, g, sigma);
    var k :| 0 <= k < |q.disjuncts| && Holds(q.disjuncts[k], sigma);
    NothingAssumed(loop, q, k, rho, StateOf(h), StateOf(h));
    HeadsAreShown(loop, q, rho, h, g, sigma);
    DisjunctIsIteration(loop, q, k, rho, StateOf(h), StateOf(h), StateOf(g), sigma);
  }

  lemma NothingAssumed(loop: Loop, q: LoopParts, k: nat, rho: Val, p: State, s: State)
    requires PartsOk(loop, q) && k < |loop.bodies| && !q.small && |s| == |p| == |loop.vars|
    ensures Assumed(loop, q, k, rho, p, s)
  {
    hide Pow2, WfBody, WfB, PartOk;
  }

  lemma HeadsAreShown(loop: Loop, q: LoopParts, rho: Val, h: Head, g: Head, sigma: Sigma)
    requires WfEach(q.invariants) && Represents(loop, q.invariants, rho, h) && AtStep(h, g, sigma)
    requires forall i | 0 <= i < |g.vars| :: g.vars[i] >= 0
    ensures Shows(q, rho, StateOf(h), StateOf(g), sigma)
  {
    hide Pow2, Eval, Wf;
  }

  lemma OutputsInRange(loop: Loop, q: LoopParts, rho: Val, h: Head, g: Head, sigma: Sigma)
    requires WfEach(q.invariants) && !q.small && Represents(loop, q.invariants, rho, h)
    requires AtStep(h, g, sigma) && LoopInRange(|loop.vars|, q, sigma)
    requires |g.vars| == |h.vars| && g.invariants == h.invariants
    ensures Represents(loop, q.invariants, rho, g)
  {
    hide Pow2, Eval, Wf;
    forall i | 0 <= i < |g.vars|
      ensures 0 <= g.vars[i] < Pow2(WORD)
    {
      assert WithinRange(Typed(Output(i), WORD), q.small, sigma);
    }
  }

  // ---- steps along one body path, in both encodings ----

  /** The transition leads from h to g by the disjunct of a body path. */
  ghost predicate StepAlong(q: LoopParts, k: nat, h: Head, g: Head)
    requires k < |q.disjuncts|
  {
    exists sigma: Sigma ::
      && AtStep(h, g, sigma)
      && AllHold(OrderOf(SortedBelow(q.constants, |q.constants|), false), sigma)
      && LoopInRange(|h.vars|, q, sigma)
      && Holds(q.disjuncts[k], sigma)
  }

  /** Each step of the lasso is along some body path. */
  lemma StepIsAlong(loop: Loop, l: LassoProgram, q: LoopParts, h: Head, g: Head)
    requires PartsOk(loop, q) && l.loop == LoopFormula(|loop.vars|, q) && l.vars == |loop.vars|
    requires Fits(l, h) && Fits(l, g) && g.invariants == h.invariants && g.constants == h.constants
    ensures LassoStep(l, h, g) <==> exists k :: 0 <= k < |loop.bodies| && StepAlong(q, k, h, g)
  {
    hide Holds, AllHold, LoopInRange, LoopFormula, OrderOf, PartOk, WfBody, WfB, AtStep;
    if LassoStep(l, h, g) {
      var sigma: Sigma :| AtStep(h, g, sigma) && Holds(l.loop, sigma);
      LoopFormulaHolds(|loop.vars|, q, sigma);
      var k :| 0 <= k < |q.disjuncts| && Holds(q.disjuncts[k], sigma);
      assert StepAlong(q, k, h, g);
    }
    if k :| 0 <= k < |loop.bodies| && StepAlong(q, k, h, g) {
      var sigma: Sigma :|
        && AtStep(h, g, sigma)
        && AllHold(OrderOf(SortedBelow(q.constants, |q.constants|), false), sigma)
        && LoopInRange(|h.vars|, q, sigma)
        && Holds(q.disjuncts[k], sigma);
      LoopFormulaHolds(|loop.vars|, q, sigma);
    }
  }

  /**
   * Without approximation, in both encodings: under what the prover assumed, an iteration along a
   * body path is exactly a step along its disjunct in which all variables are below their widths.
   */
  lemma StepAlongIsIteration(loop: Loop, q: LoopParts, k: nat, rho: Val, p: State, s: State, t: State)
    requires PartsOk(loop, q) && k < |loop.bodies| && !q.contexts[k].approximate
    requires |s| == |t| == |loop.vars| && InRange(p, |loop.vars|)
    ensures Iterates(loop, loop.bodies[k], rho, s, t) && Assumed(loop, q, k, rho, p, s) <==>
              && InRange(s, |loop.vars|) && InRange(t, |loop.vars|) && Assumed(loop, q, k, rho, p, s)
              && StepAlong(q, k, HeadOf(q.invariants, q.constants, rho, s), HeadOf(q.invariants, q.constants, rho, t))
  {
    hide Pow2, Eval, EvalB, Wf, WfB, VarNames, VarNamesB, VarValue, Find, Holds, EvalTerm, OrderOf, PartOk, WfBody,
         LoopInRange, Assumed, AllHold, AtStep, Shows, HeadOf;
    var h, g := HeadOf(q.invariants, q.constants, rho, s), HeadOf(q.invariants, q.constants, rho, t);
    if Iterates(loop, loop.bodies[k], rho, s, t) && Assumed(loop, q, k, rho, p, s) {
      IterationIsAlong(loop, q, k, rho, p, s, t);
    }
    if InRange(s, |loop.vars|) && InRange(t, |loop.vars|) && Assumed(loop, q, k, rho, p, s) && StepAlong(q, k, h, g) {
      var sigma: Sigma :|
        && AtStep(h, g, sigma)
        && AllHold(OrderOf(SortedBelow(q.constants, |q.constants|), false), sigma)
        && LoopInRange(|h.vars|, q, sigma)
        && Holds(q.disjuncts[k], sigma);
      HeadsShow(q, rho, s, t, sigma);
      DisjunctIsIteration(loop, q, k, rho, p, s, t, sigma);
    }
  }

  lemma HeadsShow(q: LoopParts, rho: Val, s: State, t: State, sigma: Sigma)
    requires WfEach(q.invariants)
    requires AtStep(HeadOf(q.invariants, q.constants, rho, s), HeadOf(q.invariants, q.constants, rho, t), sigma)
    ensures Shows(q, rho, s, t, sigma)
  {
    hide Eval, Wf;
    var h, g := HeadOf(q.invariants, q.constants, rho, s), HeadOf(q.invariants, q.constants, rho, t);
    assert forall i | 0 <= i < |s| :: h.vars[i] == s[i];
    assert forall i | 0 <= i < |t| :: g.vars[i] == t[i];
    assert forall j | 0 <= j < |q.invariants| :: h.invariants[j] == Eval(q.invariants[j], rho);
  }

  lemma IterationIsAlong(loop: Loop, q: LoopParts, k: nat, rho: Val, p: State, s: State, t: State)
    requires PartsOk(loop, q) && k < |loop.bodies| && InRange(p, |loop.vars|)
    requires Iterates(loop, loop.bodies[k], rho, s, t) && Assumed(loop, q, k, rho, p, s)
    ensures StepAlong(q, k, HeadOf(q.invariants, q.constants, rho, s), HeadOf(q.invariants, q.constants, rho, t))
  {
    hide Pow2, Eval, EvalB, Wf, WfB, VarNames, VarNamesB, VarValue, Find, Holds, Intended, EvalTerm,
         WithinRange, OrderOf, WithPrevious, SortedBelow, PreviousFacts;
    var b, c, tau := loop.bodies[k], q.contexts[k], WithPrevious(loop, rho, s, p);
    assert PartOk(loop, q, k) && WfBody(b, loop.vars);
    NamesHold(loop, rho, s, p);
    AssignmentIsIntended(c, q.invariants, q.constants, tau, s, t);
    BodyForgets(loop, b, rho, s, p);
    OutputsAssigned(loop, b, c, q, tau, rho, s, t);
    var sigma := Assignment(c, q.invariants, q.constants, tau, s, t);
    assert Fulfils(loop, b, tau, sigma);
    InvariantsKept(loop, q.invariants, q.constants, rho, s, p);
    StepAssigned(loop, q, k, tau, rho, s, t);
    SortedIncreasing(q.constants, |q.constants|);
    OrderHolds(SortedBelow(q.constants, |q.constants|), q.constants, false, sigma);
    assert Holds(q.disjuncts[k], sigma);
  }

  // ---- the stem ----

  /** The stem is taken, and the initial values and the invariants are those of rho. */
  ghost predicate StemFulfils(loop: Loop, invs: seq<Bv>, rho: Val, sigma: Sigma)
    requires WfLoop(loop) && WfEach(invs)
  {
    && Model(loop.stem, rho)
    && (forall i | 0 <= i < |loop.initial| :: Look(sigma, Entry(i)) == EvalTerm(loop.initial[i], rho))
    && (forall j | 0 <= j < |invs| :: Look(sigma, Invariant(j, true)) == Eval(invs[j], rho))
  }

  function EntryNames(n: nat): (xs: seq<Name>)
    ensures |xs| == n
  {
    seq(n, i requires 0 <= i < n => Entry(i))
  }

  function InvariantNames(n: nat): (xs: seq<Name>)
    ensures |xs| == n
  {
    seq(n, j requires 0 <= j < n => Invariant(j, true))
  }

  function AsTerms(es: seq<Bv>): (ts: seq<Term>)
    ensures |ts| == |es|
  {
    seq(|es|, i requires 0 <= i < |es| => Word(es[i]))
  }

  /** The stem conditions and the equations for the initial values and the invariants. */
  function StemParts(fs: seq<Ib>, ts: seq<It>, us: seq<It>): seq<Ib> {
    fs + Equations(EntryNames(|ts|), ts) + Equations(InvariantNames(|us|), us)
  }

  function StemFormula(n: nat, invs: seq<Bv>, consts: seq<nat>, small: bool, parts: seq<Ib>): Ib {
    Ordered(OrderOf(SortedBelow(consts, |consts|), true),
            Conj(Ranges(EntryVars(n) + InvariantVars(invs, true), small) + parts))
  }

  /** What the prover may assume while the stem is translated. */
  function StemConditions(loop: Loop, small: bool): seq<Bl> {
    if !small then [] else if loop.stemContext != [] then loop.stemContext else loop.stem
  }

  /** What is known of the stem and of the translator that produced it. */
  ghost predicate StemOk(loop: Loop, small: bool, c: Context, parts: seq<Ib>) {
    && WfLoop(loop)
    && Sound(c)
    && RegistryOk(c.invariants, c.constants)
    && c.stem
    && c.small == small
    && c.names == map[]
    && c.conditions == StemConditions(loop, small)
    && (small ==> AllSmall(parts))
    && (forall rho, sigma | Intended(c, rho, sigma) && StemFulfils(loop, c.invariants, rho, sigma) ::
          AllHold(parts, sigma))
    && (!c.approximate ==>
          forall rho, sigma | Agrees(c, rho, sigma) && AllHold(parts, sigma) ::
            StemFulfils(loop, c.invariants, rho, sigma))
    && (forall sigma: Sigma | AllHold(parts, sigma) :: AllHold(c.constraints, sigma))
  }

  lemma StemPartsMean(loop: Loop, c: Context, fs: seq<Ib>, ts: seq<It>, us: seq<It>, rho: Val, sigma: Sigma)
    requires WfLoop(loop) && WfEach(c.invariants) && World(c, rho, sigma)
    requires DenotesEachB(c, fs, loop.stem) && DenotesTerms(c, ts, loop.initial)
    requires DenotesTerms(c, us, AsTerms(c.invariants))
    ensures AllHold(StemParts(fs, ts, us), sigma) <==> StemFulfils(loop, c.invariants, rho, sigma)
  {
    hide World, Holds, EvalB, Eval, Wf, WfB, WfBody, EvalTerm, VarNames, VarNamesB, SmallF, SmallT, Denotes;
    AppendHolds(fs, Equations(EntryNames(|ts|), ts), sigma);
    AppendHolds(fs + Equations(EntryNames(|ts|), ts), Equations(InvariantNames(|us|), us), sigma);
    EquationsMean(c, EntryNames(|ts|), ts, loop.initial, rho, sigma);
    EquationsMean(c, InvariantNames(|us|), us, AsTerms(c.invariants), rho, sigma);
    assert AllHold(fs, sigma) <==> Model(loop.stem, rho) by {
      assert forall i | 0 <= i < |fs| :: DenotesB(c, fs[i], loop.stem[i]);
    }
    InvariantEquations(c.invariants, rho, sigma);
  }

  lemma InvariantEquations(invs: seq<Bv>, rho: Val, sigma: Sigma)
    requires WfEach(invs)
    ensures (forall j | 0 <= j < |invs| ::
               WfTerm(AsTerms(invs)[j]) && Look(sigma, InvariantNames(|invs|)[j]) == EvalTerm(AsTerms(invs)[j], rho)) <==>
            (forall j | 0 <= j < |invs| :: Look(sigma, Invariant(j, true)) == Eval(invs[j], rho))
  {
    hide Eval, Wf;
    forall j | 0 <= j < |invs|
      ensures WfTerm(AsTerms(invs)[j]) && EvalTerm(AsTerms(invs)[j], rho) == Eval(invs[j], rho)
      ensures InvariantNames(|invs|)[j] == Invariant(j, true)
    {
    }
  }

  lemma StemMeaning(loop: Loop, c: Context, fs: seq<Ib>, ts: seq<It>, us: seq<It>)
    requires WfLoop(loop) && Sound(c) && RegistryOk(c.invariants, c.constants)
    requires c.stem && c.names == map[] && c.conditions == StemConditions(loop, c.small)
    requires DenotesEachB(c, fs, loop.stem) && DenotesTerms(c, ts, loop.initial)
    requires DenotesTerms(c, us, AsTerms(c.invariants))
    ensures StemOk(loop, c.small, c, StemParts(fs, ts, us) + c.constraints)
  {
    hide Agrees, Witnessed, Holds, EvalB, Eval, Wf, WfB, EvalTerm, VarNames, VarNamesB, WfLoop, WfBody, SmallF,
         StemFulfils, StemParts, SymbolOk;
    var parts := StemParts(fs, ts, us);
    forall sigma: Sigma
      ensures AllHold(parts + c.constraints, sigma) <==> AllHold(parts, sigma) && AllHold(c.constraints, sigma)
    {
      AppendHolds(parts, c.constraints, sigma);
    }
    forall rho, sigma | World(c, rho, sigma)
      ensures AllHold(parts, sigma) <==> StemFulfils(loop, c.invariants, rho, sigma)
    {
      StemPartsMean(loop, c, fs, ts, us, rho, sigma);
    }
    IntendedIsWorld(c);
    if c.small {
      StemPartsSmall(loop, c, fs, ts, us);
    }
  }

  lemma StemPartsSmall(loop: Loop, c: Context, fs: seq<Ib>, ts: seq<It>, us: seq<It>)
    requires c.small && WfLoop(loop)
    requires DenotesEachB(c, fs, loop.stem) && DenotesTerms(c, ts, loop.initial)
    requires DenotesTerms(c, us, AsTerms(c.invariants))
    ensures AllSmall(StemParts(fs, ts, us))
  {
    hide World, Holds, EvalB, Eval, Wf, WfB, SmallF, SmallT, EvalI, WfBody;
    assert forall i | 0 <= i < |fs| :: DenotesB(c, fs[i], loop.stem[i]);
    assert forall i | 0 <= i < |ts| :: Denotes(c, ts[i], TermMeaning(loop.initial[i]));
    assert forall i | 0 <= i < |us| :: Denotes(c, us[i], TermMeaning(AsTerms(c.invariants)[i]));
    EquationsSmall(EntryNames(|ts|), ts);
    EquationsSmall(InvariantNames(|us|), us);
  }

  ghost predicate EntryInRange(n: nat, invs: seq<Bv>, small: bool, sigma: Sigma) {
    && (forall i | 0 <= i < n :: WithinRange(Typed(Entry(i), WORD), small, sigma))
    && (forall j | 0 <= j < |invs| :: WithinRange(Typed(Invariant(j, true), invs[j].w), small, sigma))
  }

  lemma EntryRanges(n: nat, invs: seq<Bv>, small: bool, sigma: Sigma)
    ensures var xs := EntryVars(n) + InvariantVars(invs, true);
      (forall k | 0 <= k < |xs| :: WithinRange(xs[k], small, sigma)) <==> EntryInRange(n, invs, small, sigma)
  {
    hide WithinRange;
    var vs, ks := EntryVars(n), InvariantVars(invs, true);
    var xs := vs + ks;
    if forall k | 0 <= k < |xs| :: WithinRange(xs[k], small, sigma) {
      forall i | 0 <= i < n
        ensures WithinRange(Typed(Entry(i), WORD), small, sigma)
      {
        assert xs[i] == vs[i];
      }
      forall j | 0 <= j < |invs|
        ensures WithinRange(Typed(Invariant(j, true), invs[j].w), small, sigma)
      {
        assert xs[n + j] == ks[j];
      }
    }
  }

  lemma StemFormulaHolds(n: nat, invs: seq<Bv>, consts: seq<nat>, small: bool, parts: seq<Ib>, sigma: Sigma)
    ensures Holds(StemFormula(n, invs, consts, small, parts), sigma) <==>
              && AllHold(OrderOf(SortedBelow(consts, |consts|), true), sigma)
              && EntryInRange(n, invs, small, sigma)
              && AllHold(parts, sigma)
  {
    hide Holds, WithinRange, Pow2, Conj, OrderOf, EntryInRange;
    var xs := EntryVars(n) + InvariantVars(invs, true);
    OrderedHolds(OrderOf(SortedBelow(consts, |consts|), true), Conj(Ranges(xs, small) + parts), sigma);
    ConjHolds(Ranges(xs, small) + parts, sigma);
    AppendHolds(Ranges(xs, small), parts, sigma);
    RangesHold(xs, small, sigma);
    EntryRanges(n, invs, small, sigma);
    assert AllHold(Ranges(xs, small), sigma) <==> EntryInRange(n, invs, small, sigma);
  }

  /** Every entry of the loop is one of the lasso. */
  lemma EnterIsSimulated(loop: Loop, small: bool, l: LassoProgram, c: Context, parts: seq<Ib>, rho: Val, s: State)
    requires StemOk(loop, small, c, parts)
    requires l.stem == StemFormula(|loop.vars|, c.invariants, c.constants, small, parts)
    requires l.vars == |loop.vars| && l.invariants == |c.invariants| && l.constants == |c.constants|
    requires BvEnters(loop, !small, rho, s)
    ensures LassoEnters(l, HeadOf(c.invariants, c.constants, rho, s))
  {
    hide Pow2, Eval, EvalB, Wf, WfB, WfBody, Holds, Intended, EvalTerm, StemFormula, OrderOf, EntryInRange;
    var sigma := Assignment(c, c.invariants, c.constants, rho, s, []);
    AssignmentIsIntended(c, c.invariants, c.constants, rho, s, []);
    EntryAssigned(loop, small, c, rho, s);
    SortedIncreasing(c.constants, |c.constants|);
    OrderHolds(SortedBelow(c.constants, |c.constants|), c.constants, true, sigma);
    StemFormulaHolds(|loop.vars|, c.invariants, c.constants, small, parts, sigma);
  }

  lemma EntryAssigned(loop: Loop, small: bool, c: Context, rho: Val, s: State)
    requires WfLoop(loop) && WfEach(c.invariants) && BvEnters(loop, !small, rho, s)
    ensures var sigma := Assignment(c, c.invariants, c.constants, rho, s, []);
      && AtEntry(HeadOf(c.invariants, c.constants, rho, s), sigma)
      && (forall j | 0 <= j < |c.constants| :: Look(sigma, Constant(j, true)) == c.constants[j])
      && StemFulfils(loop, c.invariants, rho, sigma)
      && EntryInRange(|loop.vars|, c.invariants, small, sigma)
  {
    hide Pow2, Eval, EvalB, Wf, WfB, WfBody, EvalTerm;
  }

  ghost function NoInputs(): Val {
    Val(imap[], imap[], iset{})
  }

  /** Every entry of an exact lasso is one of the loop, for some inputs. */
  lemma EnterIsReflected(loop: Loop, l: LassoProgram, c: Context, parts: seq<Ib>, h: Head)
    requires StemOk(loop, false, c, parts) && !c.approximate
    requires l.stem == StemFormula(|loop.vars|, c.invariants, c.constants, false, parts)
    requires l.vars == |loop.vars| && l.invariants == |c.invariants| && l.constants == |c.constants|
    requires LassoEnters(l, h)
    ensures exists rho :: Represents(loop, c.invariants, rho, h) && BvEnters(loop, true, rho, StateOf(h))
  {
    hide Pow2, Eval, EvalB, Wf, WfB, WfBody, Holds, Agrees, EvalTerm, StemFormula, OrderOf, EntryInRange,
         StemFulfils, Sound;
    var sigma: Sigma :| AtEntry(h, sigma) && Holds(l.stem, sigma);
    StemFormulaHolds(|loop.vars|, c.invariants, c.constants, false, parts, sigma);
    var rho := Readback(c, NoInputs(), sigma);
    EntryAgrees(loop, c, sigma);
    assert StemFulfils(loop, c.invariants, rho, sigma);
    EntryReflected(loop, c.invariants, rho, h, sigma);
  }

  lemma EntryAgrees(loop: Loop, c: Context, sigma: Sigma)
    requires Sound(c) && Unique(c.invariants) && !c.small && c.stem && c.names == map[] && c.conditions == []
    requires AllHold(c.constraints, sigma) && EntryInRange(|loop.vars|, c.invariants, false, sigma)
    ensures Agrees(c, Readback(c, NoInputs(), sigma), sigma)
  {
    hide Pow2, Eval, EvalB, Wf, WfB, Holds, Agrees, Sound;
    forall i | 0 <= i < |c.invariants| && c.invariants[i].Var?
      ensures 0 <= Look(sigma, Invariant(i, true)) < Pow2(c.invariants[i].w)
    {
      assert WithinRange(Typed(Invariant(i, true), c.invariants[i].w), false, sigma);
    }
    ReadbackAgrees(c, NoInputs(), sigma);
  }

  lemma EntryReflected(loop: Loop, invs: seq<Bv>, rho: Val, h: Head, sigma: Sigma)
    requires WfLoop(loop) && WfEach(invs) && |h.vars| == |loop.vars| && |h.invariants| == |invs|
    requires AtEntry(h, sigma) && EntryInRange(|loop.vars|, invs, false, sigma)
    requires StemFulfils(loop, invs, rho, sigma)
    ensures Represents(loop, invs, rho, h) && BvEnters(loop, true, rho, StateOf(h))
  {
    hide Pow2, Eval, EvalB, Wf, WfB, WfBody, EvalTerm;
    forall i | 0 <= i < |h.vars|
      ensures 0 <= h.vars[i] < Pow2(WORD) && h.vars[i] == EvalTerm(loop.initial[i], rho)
    {
      assert WithinRange(Typed(Entry(i), WORD), false, sigma);
    }
  }

  // ---- the whole lasso ----

  /** Where a lasso comes from: its body paths, and the translator and the formulas of its stem. */
  datatype Origin = Origin(paths: LoopParts, stem: Context, entry: seq<Ib>)

  predicate Shaped(l: LassoProgram, n: nat, invs: seq<Bv>, consts: seq<nat>) {
    l.vars == n && l.invariants == |invs| && l.constants == |consts|
  }

  ghost predicate Built(loop: Loop, l: LassoProgram, o: Origin) {
    var q := o.paths;
    && PartsOk(loop, q)
    && StemOk(loop, q.small, o.stem, o.entry)
    && o.stem.invariants == q.invariants
    && o.stem.constants == q.constants
    && l.loop == LoopFormula(|loop.vars|, q)
    && l.stem == StemFormula(|loop.vars|, q.invariants, q.constants, q.small, o.entry)
    && Shaped(l, |loop.vars|, q.invariants, q.constants)
  }

  /** Nothing was approximated, or there was nothing that could have been. */
  ghost predicate Forced(o: Origin) {
    !o.stem.approximate && forall k | 0 <= k < |o.paths.contexts| :: !o.paths.contexts[k].approximate
  }

  /** No literal of a small lasso is too large. */
  lemma LassoIsSmall(loop: Loop, l: LassoProgram, o: Origin)
    requires Built(loop, l, o) && o.paths.small
    ensures SmallF(l.loop) && SmallF(l.stem)
  {
    hide Pow2, Wf, WfB, WfBody, SmallF, OrderOf, Ranges, Conj, Sound;
    var q, c, parts := o.paths, o.stem, o.entry;
    forall k | 0 <= k < |q.disjuncts|
      ensures SmallF(q.disjuncts[k])
    {
      assert PartOk(loop, q, k);
    }
    AllOfSmall(q.disjuncts);
    var order := OrderOf(SortedBelow(q.constants, |q.constants|), false);
    var ranges := Ranges(LoopVars(|loop.vars|) + InvariantVars(q.invariants, false), true);
    OrderSmall(SortedBelow(q.constants, |q.constants|), false);
    RangesSmall(LoopVars(|loop.vars|) + InvariantVars(q.invariants, false));
    AllOfSmall(ranges + [BodyFormula(q.disjuncts)]);
    AllOfSmall(order + [AllOf(ranges + [BodyFormula(q.disjuncts)])]);
    var stemRanges := Ranges(EntryVars(|loop.vars|) + InvariantVars(c.invariants, true), true);
    var stemOrder := OrderOf(SortedBelow(c.constants, |c.constants|), true);
    OrderSmall(SortedBelow(c.constants, |c.constants|), true);
    RangesSmall(EntryVars(|loop.vars|) + InvariantVars(c.invariants, true));
    ConjSmall(stemRanges + parts);
    AllOfSmall(stemOrder + [Conj(stemRanges + parts)]);
  }

  lemma LassoIsSimulation(loop: Loop, l: LassoProgram, o: Origin)
    requires Built(loop, l, o)
    ensures Simulates(loop, !o.paths.small, o.paths.previous, l, o.paths.invariants, o.paths.constants)
  {
    hide Pow2, Wf, WfB, WfBody, PartOk, StemOk, LoopFormula, StemFormula, BvEnters, BvStep, LassoEnters, LassoStep,
         HasPredecessor, HeadOf;
    var q := o.paths;
    forall rho, s | BvEnters(loop, !q.small, rho, s)
      ensures LassoEnters(l, HeadOf(q.invariants, q.constants, rho, s))
    {
      EnterIsSimulated(loop, q.small, l, o.stem, o.entry, rho, s);
    }
    forall rho, s, t | BvStep(loop, !q.small, rho, s, t) && (q.previous ==> HasPredecessor(loop, !q.small, rho, s))
      ensures LassoStep(l, HeadOf(q.invariants, q.constants, rho, s), HeadOf(q.invariants, q.constants, rho, t))
    {
      StepIsSimulated(loop, l, q, rho, s, t);
    }
  }

  lemma LassoIsReflection(loop: Loop, l: LassoProgram, o: Origin)
    requires Built(loop, l, o) && Forced(o) && !o.paths.small
    ensures Reflects(loop, l, o.paths.invariants)
  {
    hide Pow2, Wf, WfB, WfBody, PartOk, StemOk, LoopFormula, StemFormula, BvEnters, BvStep, LassoEnters, LassoStep;
    var q := o.paths;
    forall h | LassoEnters(l, h)
      ensures exists rho :: Represents(loop, q.invariants, rho, h) && BvEnters(loop, true, rho, StateOf(h))
    {
      EnterIsReflected(loop, l, o.stem, o.entry, h);
    }
    forall rho, h, g | Represents(loop, q.invariants, rho, h) && LassoStep(l, h, g)
      ensures Represents(loop, q.invariants, rho, g) && BvStep(loop, true, rho, StateOf(h), StateOf(g))
    {
      StepIsReflected(loop, l, q, rho, h, g);
    }
  }
}
