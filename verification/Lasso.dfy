// Lasso programs, bitvector loops, and how their runs correspond.
module Lasso {
  import opened Options
  import opened Bits
  import opened BvTerms
  import opened Symbols
  import opened IntTerms
  import opened Translation

  // ---- bitvector loops ----

  /** One path of the loop body. */
  datatype BodyPath = BodyPath(
    conditions: seq<Bl>,  // of one iteration along the path
    outputs: seq<Term>,   // one for each loop variable
    context: seq<Bl>)     // what holds of the inputs and variables on that path

  datatype Loop = Loop(
    vars: seq<string>,
    initial: seq<Term>,
    stem: seq<Bl>,        // the conditions of the stem that are encoded, possibly sliced
    stemContext: seq<Bl>, // all conditions of the stem
    guard: Option<Bl>,
    bodies: seq<BodyPath>)

  function PrevName(x: string): string {
    x + "_prev"
  }

  predicate IsWord(t: Term) {
    match t
    case Word(e) => Wf(e) && e.w == WORD
    case Bool(p) => WfB(p)
  }

  /** A term over input symbols and the loop variables only. */
  predicate Scoped(xs: set<string>, vars: seq<string>) {
    forall x | x in xs && LOOP_VAR_PREFIX <= x :: x in vars
  }

  /** None of the names is one that the prover's previous-iteration facts introduce. */
  predicate AvoidsPrev(xs: set<string>, vars: seq<string>) {
    forall x | x in vars :: PrevName(x) !in xs
  }

  predicate WfBody(b: BodyPath, vars: seq<string>) {
    && |b.outputs| == |vars|
    && WfBAll(b.conditions)
    && WfBAll(b.context)
    && (forall i | 0 <= i < |b.outputs| :: IsWord(b.outputs[i]))
    && Scoped(VarNamesBAll(b.conditions), vars)
    && (forall i | 0 <= i < |b.outputs| :: Scoped(VarNamesTerm(b.outputs[i]), vars))
    && AvoidsPrev(VarNamesBAll(b.conditions), vars)
    && AvoidsPrev(VarNamesBAll(b.context), vars)
    && (forall i | 0 <= i < |b.outputs| :: AvoidsPrev(VarNamesTerm(b.outputs[i]), vars))
  }

  /** The loop variables are distinct fresh symbols, as made by fresh_loop_var. */
  predicate WfLoop(loop: Loop) {
    && Unique(loop.vars)
    && (forall x | x in loop.vars :: LOOP_VAR_PREFIX <= x && PrevName(x) !in loop.vars)
    && |loop.initial| == |loop.vars|
    && (forall i | 0 <= i < |loop.initial| :: IsWord(loop.initial[i]))
    && WfBAll(loop.stem)
    && WfBAll(loop.stemContext)
    && loop.bodies != []
    && (forall i | 0 <= i < |loop.bodies| :: WfBody(loop.bodies[i], loop.vars))
    && (loop.guard.Some? ==>
          && WfB(loop.guard.value)
          && Scoped(VarNamesB(loop.guard.value), loop.vars)
          && AvoidsPrev(VarNamesB(loop.guard.value), loop.vars))
  }

  /** The values of the loop variables. */
  type State = seq<nat>

  predicate InRange(s: State, n: nat) {
    |s| == n && forall i | 0 <= i < n :: s[i] < Pow2(WORD)
  }

  /** The valuation in which the named words have the given values. */
  ghost function Assigned(rho: Val, xs: seq<string>, s: State): Val
    requires |s| == |xs|
  {
    rho.(vars := imap k: (string, nat) ::
      if k.1 == WORD && k.0 in xs then s[Find(xs, k.0)] else if k in rho.vars then rho.vars[k] else 0)
  }

  ghost predicate GuardHolds(guard: Option<Bl>, tau: Val)
    requires guard.Some? ==> WfB(guard.value)
  {
    guard.Some? ==> EvalB(guard.value, tau)
  }

  /** One iteration from s to t along a body path, for fixed inputs. */
  ghost predicate Iterates(loop: Loop, b: BodyPath, rho: Val, s: State, t: State)
    requires WfLoop(loop) && WfBody(b, loop.vars)
  {
    && InRange(s, |loop.vars|)
    && InRange(t, |loop.vars|)
    && var tau := Assigned(rho, loop.vars, s);
       && GuardHolds(loop.guard, tau)
       && Model(b.conditions, tau)
       && forall i | 0 <= i < |t| :: t[i] == EvalTerm(b.outputs[i], tau)
  }

  ghost predicate InContext(loop: Loop, b: BodyPath, rho: Val, s: State)
    requires WfLoop(loop) && WfBody(b, loop.vars) && |s| == |loop.vars|
  {
    Model(b.context, Assigned(rho, loop.vars, s))
  }

  // The loop itself is within all path conditions. The sliced loop is what the exact encoding
  // sees of it: the stem conditions that were kept, and the conditions along each body path.

  /** Some body path leads from s to t, within its path conditions unless the loop is sliced. */
  ghost predicate BvStep(loop: Loop, sliced: bool, rho: Val, s: State, t: State)
    requires WfLoop(loop)
  {
    exists i :: 0 <= i < |loop.bodies| && Iterates(loop, loop.bodies[i], rho, s, t)
             && (!sliced ==> InContext(loop, loop.bodies[i], rho, s))
  }

  /** The state has been reached by a previous iteration. */
  ghost predicate HasPredecessor(loop: Loop, sliced: bool, rho: Val, s: State)
    requires WfLoop(loop)
  {
    exists r: State :: BvStep(loop, sliced, rho, r, s)
  }

  /** The loop is entered in state s, under all conditions of the stem unless the loop is sliced. */
  ghost predicate BvEnters(loop: Loop, sliced: bool, rho: Val, s: State)
    requires WfLoop(loop)
  {
    && InRange(s, |loop.vars|)
    && Model(loop.stem, rho)
    && (!sliced ==> Model(loop.stemContext, rho))
    && forall i | 0 <= i < |s| :: s[i] == EvalTerm(loop.initial[i], rho)
  }

  // ---- integer lassos ----

  datatype LassoProgram = LassoProgram(
    vars: nat,        // v0, v1, ...
    invariants: nat,  // k0, k1, ...
    constants: nat,   // c0, c1, ...
    stem: Ib,
    loop: Ib,
    stemAux: seq<nat>,
    loopAux: seq<nat>)

  /** The program variables at the loop head. */
  datatype Head = Head(vars: seq<int>, invariants: seq<int>, constants: seq<int>)

  predicate Fits(l: LassoProgram, h: Head) {
    |h.vars| == l.vars && |h.invariants| == l.invariants && |h.constants| == l.constants
  }

  ghost predicate AtEntry(h: Head, sigma: Sigma) {
    && (forall i | 0 <= i < |h.vars| :: Look(sigma, Entry(i)) == h.vars[i])
    && (forall j | 0 <= j < |h.invariants| :: Look(sigma, Invariant(j, true)) == h.invariants[j])
    && (forall j | 0 <= j < |h.constants| :: Look(sigma, Constant(j, true)) == h.constants[j])
  }

  ghost predicate AtStep(h: Head, g: Head, sigma: Sigma) {
    && (forall i | 0 <= i < |h.vars| :: Look(sigma, Input(i)) == h.vars[i])
    && (forall i | 0 <= i < |g.vars| :: Look(sigma, Output(i)) == g.vars[i])
    && (forall j | 0 <= j < |h.invariants| :: Look(sigma, Invariant(j, false)) == h.invariants[j])
    && (forall j | 0 <= j < |h.constants| :: Look(sigma, Constant(j, false)) == h.constants[j])
  }

  /** The stem may lead to h. */
  ghost predicate LassoEnters(l: LassoProgram, h: Head) {
    Fits(l, h) && exists sigma: Sigma :: AtEntry(h, sigma) && Holds(l.stem, sigma)
  }

  /** The loop transition may lead from h to g; only the v's are assigned. */
  ghost predicate LassoStep(l: LassoProgram, h: Head, g: Head) {
    && Fits(l, h)
    && Fits(l, g)
    && g.invariants == h.invariants
    && g.constants == h.constants
    && exists sigma: Sigma :: AtStep(h, g, sigma) && Holds(l.loop, sigma)
  }

  // ---- runs ----

  ghost predicate LassoRun(l: LassoProgram, run: nat -> Head) {
    LassoEnters(l, run(0)) && forall i: nat :: LassoStep(l, run(i), run(i + 1))
  }

  ghost predicate LassoTerminates(l: LassoProgram) {
    forall run: nat -> Head :: !LassoRun(l, run)
  }

  /** An infinite run of the loop; `previous` asks for a predecessor of its first state. */
  ghost predicate BvRun(loop: Loop, sliced: bool, previous: bool, rho: Val, run: nat -> State)
    requires WfLoop(loop)
  {
    && BvEnters(loop, sliced, rho, run(0))
    && (previous ==> HasPredecessor(loop, sliced, rho, run(0)))
    && forall i: nat :: BvStep(loop, sliced, rho, run(i), run(i + 1))
  }

  ghost predicate LoopTerminates(loop: Loop, sliced: bool, previous: bool)
    requires WfLoop(loop)
  {
    forall rho: Val, run: nat -> State :: !BvRun(loop, sliced, previous, rho, run)
  }

  /** A run of the loop is one of the sliced loop. */
  lemma RunIsSliced(loop: Loop, previous: bool, rho: Val, run: nat -> State)
    requires WfLoop(loop) && BvRun(loop, false, previous, rho, run)
    ensures BvRun(loop, true, previous, rho, run)
  {
    hide WfLoop, Iterates, InContext, EvalTerm;
    forall i: nat
      ensures BvStep(loop, true, rho, run(i), run(i + 1))
    {
      assert BvStep(loop, false, rho, run(i), run(i + 1));
    }
    if previous {
      var r: State :| BvStep(loop, false, rho, r, run(0));
      assert BvStep(loop, true, rho, r, run(0));
    }
  }

  // ---- how lasso states represent loop states ----

  ghost function HeadOf(invs: seq<Bv>, consts: seq<nat>, rho: Val, s: State): Head
    requires WfEach(invs)
  {
    Head(seq(|s|, i requires 0 <= i < |s| => s[i] as int),
         seq(|invs|, j requires 0 <= j < |invs| => Eval(invs[j], rho)),
         seq(|consts|, j requires 0 <= j < |consts| => consts[j] as int))
  }

  /** Every entry and every iteration of the loop is one of the lasso; an exact one is blind to slicing. */
  ghost predicate Simulates(loop: Loop, exact: bool, previous: bool, l: LassoProgram, invs: seq<Bv>, consts: seq<nat>)
    requires WfLoop(loop)
  {
    && WfEach(invs)
    && (forall rho, s | BvEnters(loop, exact, rho, s) :: LassoEnters(l, HeadOf(invs, consts, rho, s)))
    && (forall rho, s, t | BvStep(loop, exact, rho, s, t) && (previous ==> HasPredecessor(loop, exact, rho, s)) ::
          LassoStep(l, HeadOf(invs, consts, rho, s), HeadOf(invs, consts, rho, t)))
  }

  /** The inputs rho explain the head h: it holds a loop state and the values of the inputs. */
  ghost predicate Represents(loop: Loop, invs: seq<Bv>, rho: Val, h: Head)
    requires WfEach(invs)
  {
    && |h.vars| == |loop.vars|
    && |h.invariants| == |invs|
    && (forall i | 0 <= i < |h.vars| :: 0 <= h.vars[i] < Pow2(WORD))
    && (forall j | 0 <= j < |invs| && invs[j].Var? :: h.invariants[j] == Eval(invs[j], rho))
  }

  ghost function StateOf(h: Head): State
    requires forall i | 0 <= i < |h.vars| :: h.vars[i] >= 0
  {
    seq(|h.vars|, i requires 0 <= i < |h.vars| => h.vars[i] as nat)
  }

  /** Every entry and every iteration of the lasso is one of the sliced loop. */
  ghost predicate Reflects(loop: Loop, l: LassoProgram, invs: seq<Bv>)
    requires WfLoop(loop)
  {
    && WfEach(invs)
    && (forall h | LassoEnters(l, h) ::
          exists rho :: Represents(loop, invs, rho, h) && BvEnters(loop, true, rho, StateOf(h)))
    && (forall rho, h, g | Represents(loop, invs, rho, h) && LassoStep(l, h, g) ::
          Represents(loop, invs, rho, g) && BvStep(loop, true, rho, StateOf(h), StateOf(g)))
  }

  ghost function HeadRun(invs: seq<Bv>, consts: seq<nat>, rho: Val, run: nat -> State): nat -> Head
    requires WfEach(invs)
  {
    (i: nat) => HeadOf(invs, consts, rho, run(i))
  }

  /** Every infinite run of what the encoding sees of the loop is matched step by step. */
  lemma SeenRunsAreMatched(loop: Loop, exact: bool, previous: bool, l: LassoProgram, invs: seq<Bv>, consts: seq<nat>,
                           rho: Val, run: nat -> State)
    requires WfLoop(loop) && Simulates(loop, exact, previous, l, invs, consts)
    requires BvRun(loop, exact, previous, rho, run)
    ensures LassoRun(l, HeadRun(invs, consts, rho, run))
  {
    hide WfLoop, BvStep, BvEnters, LassoStep, LassoEnters, HeadOf;
    forall i: nat
      ensures LassoStep(l, HeadOf(invs, consts, rho, run(i)), HeadOf(invs, consts, rho, run(i + 1)))
    {
      assert BvStep(loop, exact, rho, run(i), run(i + 1));
      if i > 0 {
        assert BvStep(loop, exact, rho, run(i - 1), run(i - 1 + 1));
        assert HasPredecessor(loop, exact, rho, run(i));
      }
    }
  }

  /** Every infinite run of the loop is matched step by step by a run of the lasso. */
  lemma RunsAreMatched(loop: Loop, exact: bool, previous: bool, l: LassoProgram, invs: seq<Bv>, consts: seq<nat>,
                       rho: Val, run: nat -> State)
    requires WfLoop(loop) && Simulates(loop, exact, previous, l, invs, consts)
    requires BvRun(loop, false, previous, rho, run)
    ensures LassoRun(l, HeadRun(invs, consts, rho, run))
  {
    hide WfLoop, BvRun, LassoRun, HeadRun, Simulates;
    if exact {
      RunIsSliced(loop, previous, rho, run);
    }
    SeenRunsAreMatched(loop, exact, previous, l, invs, consts, rho, run);
  }

  /** A termination proof of the lasso is one of the loop. */
  lemma TerminationTransfers(loop: Loop, exact: bool, previous: bool, l: LassoProgram, invs: seq<Bv>, consts: seq<nat>)
    requires WfLoop(loop) && Simulates(loop, exact, previous, l, invs, consts)
    requires LassoTerminates(l)
    ensures LoopTerminates(loop, false, previous) && LoopTerminates(loop, exact, previous)
  {
    hide WfLoop, BvRun, LassoRun, HeadRun, Simulates;
    assert WfEach(invs) by {
      SimulatesWf(loop, exact, previous, l, invs, consts);
    }
    forall rho: Val, run: nat -> State
      ensures !BvRun(loop, false, previous, rho, run) && !BvRun(loop, exact, previous, rho, run)
    {
      assert !LassoRun(l, HeadRun(invs, consts, rho, run));
      if BvRun(loop, false, previous, rho, run) {
        RunsAreMatched(loop, exact, previous, l, invs, consts, rho, run);
      }
      if BvRun(loop, exact, previous, rho, run) {
        SeenRunsAreMatched(loop, exact, previous, l, invs, consts, rho, run);
      }
    }
  }

  lemma SimulatesWf(loop: Loop, exact: bool, previous: bool, l: LassoProgram, invs: seq<Bv>, consts: seq<nat>)
    requires WfLoop(loop) && Simulates(loop, exact, previous, l, invs, consts)
    ensures WfEach(invs)
  {
  }

  lemma {:induction false} HeadsAreRepresented(loop: Loop, l: LassoProgram, invs: seq<Bv>, rho: Val, run: nat -> Head, i: nat)
    requires WfLoop(loop) && Reflects(loop, l, invs) && LassoRun(l, run)
    requires Represents(loop, invs, rho, run(0))
    ensures Represents(loop, invs, rho, run(i)) && Represents(loop, invs, rho, run(i + 1))
    ensures BvStep(loop, true, rho, StateOf(run(i)), StateOf(run(i + 1)))
  {
    hide WfLoop, BvStep, BvEnters, LassoStep, LassoEnters;
    if i > 0 {
      HeadsAreRepresented(loop, l, invs, rho, run, i - 1);
    }
    assert LassoStep(l, run(i), run(i + 1));
  }

  /** Every infinite run of an exact lasso is one of the sliced loop, for some inputs. */
  lemma RunsAreReflected(loop: Loop, l: LassoProgram, invs: seq<Bv>, run: nat -> Head)
    requires WfLoop(loop) && Reflects(loop, l, invs) && LassoRun(l, run)
    ensures exists rho: Val, states: nat -> State ::
              Represents(loop, invs, rho, run(0)) && states(0) == StateOf(run(0)) && BvRun(loop, true, false, rho, states)
  {
    hide WfLoop, BvStep, BvEnters, LassoStep, LassoEnters;
    var rho :| Represents(loop, invs, rho, run(0)) && BvEnters(loop, true, rho, StateOf(run(0)));
    var states := (i: nat) => (HeadsAreRepresented(loop, l, invs, rho, run, i); StateOf(run(i)));
    forall i: nat
      ensures BvStep(loop, true, rho, states(i), states(i + 1))
    {
      HeadsAreRepresented(loop, l, invs, rho, run, i);
    }
    assert BvRun(loop, true, false, rho, states);
  }

  /** With exact constants and no approximation, the lasso terminates exactly when the sliced loop does. */
  lemma SlicedTerminationAgrees(loop: Loop, l: LassoProgram, invs: seq<Bv>, consts: seq<nat>)
    requires WfLoop(loop) && Simulates(loop, true, false, l, invs, consts) && Reflects(loop, l, invs)
    ensures LassoTerminates(l) <==> LoopTerminates(loop, true, false)
  {
    hide WfLoop, BvRun, LassoRun, Simulates, Reflects;
    if LassoTerminates(l) {
      TerminationTransfers(loop, true, false, l, invs, consts);
    } else {
      var run: nat -> Head :| LassoRun(l, run);
      RunsAreReflected(loop, l, invs, run);
    }
  }
}
