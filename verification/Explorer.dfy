// Depth-first exploration of all paths of a program with one shared solver.
module Explorer {
  import opened Options
  import opened Bits
  import opened BvTerms
  import opened Prover
  import opened Paths
  import opened Exploration

  /** The unsatisfiability of a mirrored solver is that of the path. */
  lemma MirrorsModel<M(!new)>(s: Setup<M>, levels: seq<seq<Bl>>, conditions: seq<Bl>, v: Val)
    requires WfSetup(s) && Mirrors(s, levels, conditions) && WfBAll(conditions) && WfBAll(Flatten(levels))
    requires Model(conditions, v)
    ensures Model(Flatten(levels), v)
  {
    hide EvalB, WfB, Trusted, Flatten;
    var tail := conditions[|s.prefix|..];
    assert conditions == s.prefix + tail;
    ModelAppend(s.prefix, tail, v);
    ModelAppend(s.known, tail, v);
  }

  class Exec<M(!new)> {
    var state: M
    var jumpis: map<JumpId, Visits>
    const path: Path
    ghost var trail: multiset<(JumpId, bool)>

    constructor (state: M, jumpis: map<JumpId, Visits>, path: Path, ghost trail: multiset<(JumpId, bool)>)
      ensures this.state == state && this.jumpis == jumpis && this.path == path && this.trail == trail
    {
      this.state, this.jumpis, this.path, this.trail := state, jumpis, path, trail;
    }

    ghost function View(): Snap<M>
      reads this, path
    {
      Snap(state, jumpis, trail, path.numScopes, path.conditions, path.pending)
    }

    /** Quick answers first, then the solver. Only unsat is relied upon. */
    method Check(s: Setup<M>, cond: Bl) returns (answer: Answer)
      requires WfSetup(s) && path.Valid() && path.solver.smt == s.smt && WfB(cond)
      requires Mirrors(s, path.solver.levels, path.conditions)
      ensures answer == AnswerOf(s, path.solver.levels, path.conditions, cond)
      ensures answer == Unsat ==> forall v: Val | Explored(s, v) && Model(path.conditions, v) :: !EvalB(cond, v)
    {
      hide WfB, Mirrors, Flatten;
      var c := s.smt.simplify(cond);
      assert WfB(c) && Equivalent(c, cond);
      NotWf(c);
      var not := s.smt.simplify(Not(c));
      assert WfB(not) && Equivalent(not, Not(c));
      if c == Lit(true) {
        return Sat;
      }
      if c == Lit(false) || s.unlikely(c) {
        return Unsat;
      }
      if c in path.conditions {
        return Sat;
      }
      if not in path.conditions {
        return Unsat;
      }
      answer := path.solver.Check(c);
      forall v: Val | Model(path.conditions, v)
        ensures Model(Flatten(path.solver.levels), v)
      {
        MirrorsModel(s, path.solver.levels, path.conditions, v);
      }
    }

    /** A copy of this execution that waits with a further condition. */
    method CreateBranch(cond: Bl, state: M) returns (child: Exec<M>)
      requires path.Valid() && path.pending == [] && WfB(cond)
      modifies path.solver
      ensures path.Valid() && path.solver.levels == old(path.solver.levels) + [[]]
      ensures fresh(child) && fresh(child.path) && child.path.solver == path.solver && child.path.Valid()
      ensures child.View() == Snap(state, jumpis, trail, |old(path.solver.levels)| - 1, path.conditions, [cond])
    {
      hide WfB;
      var p := path.Branch(cond);
      child := new Exec(state, jumpis, p.value, trail);
    }
  }

  ghost function Views<M(!new)>(es: seq<Exec<M>>): (r: seq<Snap<M>>)
    reads set e | e in es
    reads set e | e in es :: e.path
    ensures |r| == |es|
  {
    if es == [] then [] else Views(es[..|es| - 1]) + [es[|es| - 1].View()]
  }

  lemma ViewsSnoc<M(!new)>(es: seq<Exec<M>>, e: Exec<M>)
    ensures Views(es + [e]) == Views(es) + [e.View()]
  {
    assert (es + [e])[..|es|] == es;
  }

  lemma ViewsOne<M(!new)>(e: Exec<M>)
    ensures Views([e]) == [e.View()]
  {
    ViewsSnoc([], e);
    assert [] + [e] == [e];
  }

  /** Distinct executions on distinct paths. */
  ghost predicate Apart<M(!new)>(es: seq<Exec<M>>) {
    forall i, j | 0 <= i < j < |es| :: es[i] != es[j] && es[i].path != es[j].path
  }

  class Explorer<M(!new)> {
    const setup: Setup<M>
    const solver: Solver
    var stack: seq<Exec<M>>
    var next: Exec?<M>
    var steps: nat
    var boundedLoops: seq<JumpId>
    // what has been yielded, and what is not followed
    ghost var finished: seq<Finished<M>>
    ghost var cuts: seq<Cut<M>>

    function Live(): seq<Exec<M>>
      reads this
    {
      if next == null then stack else stack + [next]
    }

    ghost function Kept(): Record<M>
      reads this
    {
      Record(finished, cuts, boundedLoops)
    }

    ghost predicate Holding(es: seq<Exec<M>>)
      reads this, solver
      reads set e | e in es
      reads set e | e in es :: e.path
    {
      && solver.Valid()
      && solver.smt == setup.smt
      && Apart(es)
      && (forall e | e in es :: e.path.solver == solver)
      && Inv(setup, solver.levels, Views(es), finished, cuts, boundedLoops)
    }

    ghost predicate Valid()
      reads this, solver
      reads set e | e in Live()
      reads set e | e in Live() :: e.path
    {
      Holding(Live())
    }

    /** Starts with one path, whose conditions the solver holds, possibly sliced. */
    constructor (setup: Setup<M>, path: Path)
      requires WfSetup(setup) && path.Valid() && path.solver.smt == setup.smt
      requires path.pending == [] && path.conditions == setup.prefix && Flatten(path.solver.levels) == setup.known
      ensures Valid() && this.setup == setup && this.solver == path.solver
      ensures |Live()| == 1 && Live()[0].path == path && finished == [] && cuts == [] && boundedLoops == []
      ensures steps == 0
    {
      hide WfSetup, WfB, Model, Flatten, Inv, Views, Trusted, WfLevels;
      var first := new Exec(setup.start, map[], path, multiset{});
      this.setup, this.solver := setup, path.solver;
      stack, next, steps, boundedLoops, finished, cuts := [], first, 0, [], [], [];
      new;
      FirstInv(setup, solver.levels, first.View());
      ViewsOne(first);
      assert Live() == [first];
    }

    /** The path that a step works on: active, off the stack. */
    ghost predicate Running(ex: Exec<M>)
      reads this, solver
      reads set e | e in stack + [ex]
      reads set e | e in stack + [ex] :: e.path
    {
      next == null && Holding(stack + [ex]) && ex.path.pending == []
    }

    lemma RunningFacts(ex: Exec<M>)
      requires Holding(stack + [ex])
      ensures WfSetup(setup) && ex.path.Valid() && ex.path.solver == solver && solver.smt == setup.smt
      ensures SnapOk(setup, ex.View())
      ensures Views(stack + [ex]) == Views(stack) + [ex.View()]
      ensures Inv(setup, solver.levels, Views(stack) + [ex.View()], finished, cuts, boundedLoops)
      ensures ex !in stack && forall e | e in stack :: e.path != ex.path && e.path.solver == solver
      ensures Apart(stack)
      ensures ex.path.pending == [] ==> Mirrors(setup, solver.levels, ex.path.conditions)
    {
      hide WfB, Trusted, Tracks, Counted, Mirrors, FinishedOk, CutOk, Waits, WfLevels;
      ViewsSnoc(stack, ex);
      var es := stack + [ex];
      assert es[|stack|] == ex;
      ApartPrefix(stack, ex);
      assert Views(es)[|stack|] == ex.View();
      forall e | e in stack
        ensures e != ex && e.path != ex.path && e.path.solver == solver
      {
        var k :| 0 <= k < |stack| && stack[k] == e;
        assert es[k] == e;
      }
    }

    /** Rolls the solver back for a path taken off the stack. */
    method Activate(ex: Exec<M>)
      requires next == null && Holding(stack + [ex]) && ex.path.pending != []
      modifies ex.path, solver
      ensures Running(ex)
      ensures ex.View() == old(ex.View()).(conditions := ex.path.conditions, pending := [])
      ensures ex.path.conditions == AppendedAll(setup.smt, old(ex.path.conditions), old(ex.path.pending))
      ensures Flatten(solver.levels) == setup.known + ex.path.conditions[|setup.prefix|..]
    {
      hide WfB, Trusted, Inv, Views, AppendedAll, Extended, SnapOk, Flatten;
      RunningFacts(ex);
      ghost var w, levels, views := ex.View(), solver.levels, Views(stack);
      ScopeInRange(setup, levels, views, w, finished, cuts, boundedLoops);
      var ok := ex.path.Activate();
      assert ok;
      assert Views(stack) == views;
      ActivatedInv(setup, levels, views, w, ex.View(), finished, cuts, boundedLoops);
      ViewsSnoc(stack, ex);
      RunningFacts(ex);
    }

    method Finish(ex: Exec<M>, final: Final)
      requires Running(ex)
      requires WfSetup(setup) && FinishedOk(setup, Finished(ex.state, ex.path.conditions, final))
      modifies this`finished
      ensures Valid() && Live() == stack
      ensures finished == old(finished) + [Finished(ex.state, ex.path.conditions, final)]
    {
      hide WfSetup, WfB, Trusted, Inv, Views, FinishedOk, SnapOk, Mirrors;
      RunningFacts(ex);
      FinishedInv(setup, solver.levels, Views(stack), ex.View(), final, finished, cuts, boundedLoops);
      finished := finished + [Finished(ex.state, ex.path.conditions, final)];
      ApartPrefix(stack, ex);
    }

    /** Continues the same path in another state. */
    method Advance(ex: Exec<M>, m: M)
      requires Running(ex) && WfSetup(setup)
      requires Tracks(setup, m, ex.path.conditions)
      modifies this`next, ex
      ensures Valid() && Live() == stack + [ex]
      ensures ex.View() == old(ex.View()).(state := m)
    {
      hide WfSetup, WfB, Trusted, Inv, Views, SnapOk, Mirrors, Tracks;
      RunningFacts(ex);
      ghost var views := Views(stack);
      MovedInv(setup, solver.levels, views, ex.View(), m, finished, cuts, boundedLoops);
      ex.state := m;
      next := ex;
      assert Views(stack) == views;
      ViewsSnoc(stack, ex);
    }

    ghost method GiveUp(ex: Exec<M>, reason: Reason<M>)
      requires Running(ex) && WfSetup(setup)
      requires CutOk(setup, boundedLoops, Cut(ex.state, ex.path.conditions, reason))
      modifies this`cuts
      ensures Valid() && Live() == stack
      ensures cuts == old(cuts) + [Cut(ex.state, ex.path.conditions, reason)]
    {
      hide WfB, Trusted, Inv, Views, CutOk, SnapOk, Mirrors, Explored, Weight, WfSetup, Apart, CutCount, Splits;
      RunningFacts(ex);
      var c := Cut(ex.state, ex.path.conditions, reason);
      CutWhole(setup, ex.View(), c);
      CutInv(setup, solver.levels, Views(stack), ex.View(), [c], finished, cuts, boundedLoops, boundedLoops);
      cuts := cuts + [c];
      ApartPrefix(stack, ex);
    }

    /** Only one direction is followed: the path itself takes it. */
    method TakeOne(ex: Exec<M>, taken: bool, symbolic: bool, ghost news: seq<Cut<M>>)
      requires Running(ex) && WfSetup(setup) && setup.program.instr(ex.state).Branch?
      requires var i := setup.program.instr(ex.state);
        && WfB(i.cond) && (taken ==> i.target in i.valid)
        && (symbolic ==> WithinBound(setup, ex.jumpis, i.id, taken))
        && Divides(setup, ex.path.conditions, i.cond, taken, !taken, news)
      requires AllCutOk(setup, boundedLoops, news)
      modifies this`stack, this`cuts, ex, ex.path, solver
      ensures Valid() && Live() == old(stack) + [ex] && cuts == old(cuts) + news
      ensures Views(Live()) == old(Views(stack)) + [Followed(setup, old(ex.View()), taken, symbolic)]
    {
      hide WfB, Trusted, Inv, Views, SnapOk, Mirrors, Divides, Direction, CutOk, Extended, NextJumpis, NextTrail,
           WithinBound, Appended, WfLevels, Follows, WaitsFor, Model, Explored, WfSetup, Apart;
      RunningFacts(ex);
      ghost var x, levels, views := ex.View(), solver.levels, Views(stack);
      var i := setup.program.instr(ex.state);
      DirectionMeans(setup, i.cond, taken, x.conditions, Val(imap[], imap[], iset{}));
      ex.path.Append(Direction(setup, i.cond, taken));
      ex.jumpis := NextJumpis(ex.jumpis, i.id, taken, symbolic);
      ex.trail := NextTrail(ex.trail, i.id, taken, symbolic);
      ex.state := if taken then i.past else i.fallen;
      OneSteps(setup, levels, views, x, taken, symbolic, news, finished, cuts, boundedLoops);
      assert Views(stack) == views;
      ViewsSnoc(stack, ex);
      ApartSnoc(stack, ex);
      stack := stack + [ex];
      cuts := cuts + news;
    }

    /** A path that waits to follow one direction. */
    method Fork(ex: Exec<M>, taken: bool, symbolic: bool) returns (child: Exec<M>)
      requires ex.path.Valid() && ex.path.pending == [] && ex.path.solver == solver
      requires WfSetup(setup) && setup.program.instr(ex.state).Branch?
      requires WfB(Direction(setup, setup.program.instr(ex.state).cond, taken))
      modifies solver
      ensures ex.path.Valid() && solver.levels == old(solver.levels) + [[]]
      ensures fresh(child) && fresh(child.path) && child.path.solver == solver && child.path.Valid()
      ensures child.View() == Waiting(setup, ex.View(), |old(solver.levels)| - 1, taken, symbolic)
    {
      hide WfB, Trusted, Direction, NextJumpis, NextTrail, WfSetup, WfLevels;
      var i := setup.program.instr(ex.state);
      child := ex.CreateBranch(Direction(setup, i.cond, taken), if taken then i.taken else i.fallen);
      child.jumpis := NextJumpis(ex.jumpis, i.id, taken, symbolic);
      child.trail := NextTrail(ex.trail, i.id, taken, symbolic);
    }

    /** Both directions are followed: a waiting path jumps, the path itself falls through. */
    method TakeBoth(ex: Exec<M>, symbolic: bool, ghost news: seq<Cut<M>>)
      requires Running(ex) && WfSetup(setup) && setup.program.instr(ex.state).Branch?
      requires var i := setup.program.instr(ex.state);
        && WfB(i.cond) && i.target in i.valid
        && (symbolic ==> WithinBound(setup, ex.jumpis, i.id, true) && WithinBound(setup, ex.jumpis, i.id, false))
        && Divides(setup, ex.path.conditions, i.cond, true, true, news)
      requires AllCutOk(setup, boundedLoops, news)
      modifies this`stack, this`cuts, ex, ex.path, solver
      ensures Valid() && cuts == old(cuts) + news
      ensures |stack| == |old(stack)| + 2 && Live() == stack == old(stack) + [stack[|old(stack)|], ex]
      ensures var child := stack[|old(stack)|]; fresh(child) && fresh(child.path)
      ensures Views(stack) == old(Views(stack)) +
        [Waiting(setup, old(ex.View()), |old(solver.levels)| - 1, true, symbolic),
         Followed(setup, old(ex.View()), false, symbolic)]
    {
      hide WfB, Trusted, Inv, Views, SnapOk, Mirrors, Divides, Direction, CutOk, Extended, NextJumpis, NextTrail,
           WithinBound, Appended, WfLevels, Follows, WaitsFor, Model, Explored, WfSetup, Apart, Waiting;
      RunningFacts(ex);
      ghost var x, levels, views, rest := ex.View(), solver.levels, Views(stack), stack;
      var i := setup.program.instr(ex.state);
      DirectionMeans(setup, i.cond, true, x.conditions, Val(imap[], imap[], iset{}));
      DirectionMeans(setup, i.cond, false, x.conditions, Val(imap[], imap[], iset{}));
      var child := Fork(ex, true, symbolic);
      ex.path.Append(Direction(setup, i.cond, false));
      ex.jumpis := NextJumpis(ex.jumpis, i.id, false, symbolic);
      ex.trail := NextTrail(ex.trail, i.id, false, symbolic);
      ex.state := i.fallen;
      BothSteps(setup, levels, views, x, symbolic, news, finished, cuts, boundedLoops);
      assert Views(stack) == views;
      PushBoth(stack, child, ex);
      stack := stack + [child];
      stack := stack + [ex];
      cuts := cuts + news;
    }

    /** The jump is invalid: this path ends there, but the fall-through is still followed. */
    method TakeBadJump(ex: Exec<M>, fallen: bool, symbolic: bool, ghost news: seq<Cut<M>>)
      requires Running(ex) && WfSetup(setup) && setup.program.instr(ex.state).Branch?
      requires var i := setup.program.instr(ex.state);
        && WfB(i.cond) && i.target !in i.valid
        && (fallen && symbolic ==> WithinBound(setup, ex.jumpis, i.id, false))
        && Divides(setup, ex.path.conditions, i.cond, true, fallen, news)
      requires AllCutOk(setup, boundedLoops, news)
      modifies this`stack, this`cuts, this`finished, ex.path, solver
      ensures Valid() && cuts == old(cuts) + news
      ensures finished == old(finished) + [Finished(ex.state, ex.path.conditions, Ended(BadJump))]
      ensures finished == old(finished) + [BadEnd(setup, old(ex.View()))]
      ensures Views(stack) == old(Views(stack)) +
        if fallen then [Waiting(setup, old(ex.View()), |old(solver.levels)| - 1, false, symbolic)] else []
      ensures |stack| == |old(stack)| + if fallen then 1 else 0
      ensures Live() == stack && old(stack) <= stack
      ensures fallen ==> var child := stack[|old(stack)|]; fresh(child) && fresh(child.path)
    {
      hide WfB, Trusted, Inv, Views, SnapOk, Mirrors, Divides, Direction, CutOk, Extended, NextJumpis, NextTrail,
           WithinBound, Appended, WfLevels, Follows, WaitsFor, Model, Explored, WfSetup, Apart, Waiting, FinishedOk;
      RunningFacts(ex);
      ghost var x, levels, views, rest := ex.View(), solver.levels, Views(stack), stack;
      var i := setup.program.instr(ex.state);
      DirectionMeans(setup, i.cond, true, x.conditions, Val(imap[], imap[], iset{}));
      DirectionMeans(setup, i.cond, false, x.conditions, Val(imap[], imap[], iset{}));
      if fallen {
        var child := Fork(ex, false, symbolic);
        stack := stack + [child];
      }
      ex.path.Append(Direction(setup, i.cond, true));
      BadJumpSteps(setup, levels, views, x, fallen, symbolic, news, finished, cuts, boundedLoops);
      assert Views(rest) == views;
      if fallen {
        ViewsSnoc(rest, stack[|rest|]);
        ApartSnoc(rest, stack[|rest|]);
        assert stack == rest + [stack[|rest|]];
      } else {
        assert views + [] == views;
      }
      finished := finished + [Finished(ex.state, ex.path.conditions, Ended(BadJump))];
      cuts := cuts + news;
    }

    /** The live executions come from `before`, or are new. */
    twostate predicate From(before: seq<Exec<M>>)
      reads this
    {
      forall e | e in Live() :: (e in before || fresh(e)) && ((exists d | d in before :: d.path == e.path) || fresh(e.path))
    }

    /** Asks for both directions; a condition is definite only if one is sat and the other unsat. */
    method Directions(ex: Exec<M>) returns (possibleTrue: bool, possibleFalse: bool, symbolic: bool)
      requires Running(ex) && WfSetup(setup) && setup.program.instr(ex.state).Branch?
      ensures WfB(setup.program.instr(ex.state).cond)
      ensures RuledOut(setup, ex.path.conditions, setup.program.instr(ex.state).cond, possibleTrue, true)
      ensures RuledOut(setup, ex.path.conditions, setup.program.instr(ex.state).cond, possibleFalse, false)
      ensures var cond := setup.program.instr(ex.state).cond;
        && possibleTrue == Possible(setup, solver.levels, ex.path.conditions, cond, true)
        && possibleFalse == Possible(setup, solver.levels, ex.path.conditions, cond, false)
        && symbolic == Symbolic(setup, solver.levels, ex.path.conditions, cond)
    {
      hide WfB, Trusted, Inv, Views, SnapOk, Direction, Apart, WfLevels, Model, Explored, WfSetup, Mirrors, AnswerOf;
      RunningFacts(ex);
      var cond := setup.program.instr(ex.state).cond;
      InstrWf(setup, ex.state);
      DirectionMeans(setup, cond, true, ex.path.conditions, Val(imap[], imap[], iset{}));
      DirectionMeans(setup, cond, false, ex.path.conditions, Val(imap[], imap[], iset{}));
      var checkTrue := ex.Check(setup, Direction(setup, cond, true));
      var checkFalse := ex.Check(setup, Direction(setup, cond, false));
      possibleTrue, possibleFalse := checkTrue != Unsat, checkFalse != Unsat;
      var mustTrue := checkTrue == Sat && checkFalse == Unsat;
      var mustFalse := checkTrue == Unsat && checkFalse == Sat;
      symbolic := !(mustTrue || mustFalse);
    }

    /** A JUMPI with a symbolic condition. */
    method Jumpi(ex: Exec<M>) returns (yielded: Exec?<M>)
      requires Running(ex) && WfSetup(setup) && setup.program.instr(ex.state).Branch?
      modifies this`stack, this`finished, this`cuts, this`boundedLoops, ex, ex.path, solver
      ensures Valid() && From(old(stack + [ex]))
      ensures Jumped(setup, old(ex.View()), old(solver.levels), old(Views(stack)), old(Kept()), Views(Live()), Kept())
      ensures old(boundedLoops) <= boundedLoops && old(cuts) <= cuts
      ensures forall k | |old(cuts)| <= k < |cuts| :: cuts[k].reason.Bounded?
      ensures yielded == null ==> finished == old(finished)
      ensures yielded != null ==>
                finished == old(finished) + [Finished(yielded.state, yielded.path.conditions, Ended(BadJump))]
    {
      hide WfB, Trusted, Inv, Views, SnapOk, Divides, Direction, CutOk, Extended, WithinBound, Apart, AllCutOk, AnswerOf,
           Appended, WfLevels, Follows, WaitsFor, Model, Explored, WfSetup, BoundCuts, FinishedOk, Mirrors, BadEnd,
           NextJumpis, NextTrail, Possible, Symbolic, Waiting, Followed, RuledOut, Follow, CutAt, Jumped;
      RunningFacts(ex);
      yielded := null;
      var i := setup.program.instr(ex.state);
      ghost var x, levels, rest, was := ex.View(), solver.levels, Views(stack), Kept();
      var potentialTrue, potentialFalse, symbolic := Directions(ex);
      // the unrolling bound does not apply to definite conditions
      var followTrue := potentialTrue && (symbolic ==> WithinBound(setup, ex.jumpis, i.id, true));
      var followFalse := potentialFalse && (symbolic ==> WithinBound(setup, ex.jumpis, i.id, false));
      FollowMeans(setup, x, levels, true, potentialTrue, symbolic);
      FollowMeans(setup, x, levels, false, potentialFalse, symbolic);
      if symbolic && ((potentialTrue && !followTrue) || (potentialFalse && !followFalse)) {
        LoggedInv(setup, solver.levels, Views(stack + [ex]), finished, cuts, boundedLoops, boundedLoops + [i.id]);
        boundedLoops := boundedLoops + [i.id];
      }
      ghost var news := BoundCuts(setup, x, levels, CutAt(setup, x, levels, true), CutAt(setup, x, levels, false));
      BoundCutsBounded(setup, x, levels, CutAt(setup, x, levels, true), CutAt(setup, x, levels, false));
      JumpiReady(setup, x, levels, potentialTrue, potentialFalse, boundedLoops);
      if followTrue && i.target !in i.valid {
        TakeBadJump(ex, followFalse, symbolic, news);
        yielded := ex;
      } else if followTrue && followFalse {
        TakeBoth(ex, symbolic, news);
      } else if followTrue || followFalse {
        TakeOne(ex, followTrue, symbolic, news);
      } else {
        Drop(ex, news);
      }
      JumpedBy(setup, x, levels, rest, was, followTrue, followFalse, symbolic, Views(Live()), Kept());
    }

    /** The path is not followed any further. */
    ghost method Drop(ex: Exec<M>, news: seq<Cut<M>>)
      requires Running(ex) && WfSetup(setup) && setup.program.instr(ex.state).Branch?
      requires Divides(setup, ex.path.conditions, setup.program.instr(ex.state).cond, false, false, news)
      requires AllCutOk(setup, boundedLoops, news)
      modifies this`cuts
      ensures Valid() && Live() == stack && cuts == old(cuts) + news && Views(stack) == old(Views(stack))
    {
      hide WfB, Trusted, Inv, Views, CutOk, SnapOk, Mirrors, Explored, Weight, WfSetup, Apart;
      RunningFacts(ex);
      assert ex.path.conditions + ex.path.pending == ex.path.conditions;
      CutInv(setup, solver.levels, Views(stack), ex.View(), news, finished, cuts, boundedLoops, boundedLoops);
      cuts := cuts + news;
    }

    /** The destinations that the solver does not exclude. */
    method Reachable(ex: Exec<M>) returns (ks: seq<nat>)
      requires Running(ex) && WfSetup(setup) && setup.program.instr(ex.state).Goto?
      ensures WfBAll(ex.path.conditions) && Destinations(setup, ex.View(), ks)
      ensures AreTargets(setup, solver.levels, ex.path.conditions, setup.program.instr(ex.state), ks)
    {
      hide AnswerOf, WfB, Trusted, Inv, Views, SnapOk, Apart, WfLevels, Model, Explored, Mirrors, JumpsTo, Wf, Eval, Pow2,
           EvalB, Destinations, AreTargets;
      RunningFacts(ex);
      InstrWf(setup, ex.state);
      var i := setup.program.instr(ex.state);
      ks := [];
      for k := 0 to |i.dests|
        invariant TargetsUpTo(setup, solver.levels, ex.path.conditions, i, ks, k)
      {
        JumpsToMeans(i.dst, i.dests[k], Val(imap[], imap[], iset{}));
        var answer := ex.Check(setup, JumpsTo(i.dst, i.dests[k]));
        TargetsNext(setup, solver.levels, ex.path.conditions, i, ks, k);
        if answer != Unsat {
          ks := ks + [k];
        }
      }
      TargetsAll(setup, solver.levels, ex.View(), ks);
    }

    /** Branches to every destination; executions that jump elsewhere are lost, and recorded as such. */
    method JumpAll(ex: Exec<M>, ks: seq<nat>)
      requires Running(ex) && WfSetup(setup) && setup.program.instr(ex.state).Goto? && setup.symbolicJump
      requires WfBAll(ex.path.conditions) && Destinations(setup, ex.View(), ks)
      modifies this`stack, this`cuts, solver
      ensures Valid() && Live() == stack && From(old(stack))
      ensures Branched(old(Views(stack)), Views(stack), ex.View(), setup.program.instr(ex.state), ks)
      ensures cuts == old(cuts) + [JumpsElsewhere(ex.View(), setup.program.instr(ex.state), ks)]
    {
      hide WfB, Trusted, Inv, Views, SnapOk, Apart, WfLevels, Model, Explored, WfSetup, Mirrors, JumpsTo, Wf, Eval,
           Pow2, EvalB, Stacked, Elsewhere, At, Destinations, JumpsElsewhere;
      RunningFacts(ex);
      InstrWf(setup, ex.state);
      InvStacked(setup, solver.levels, Views(stack) + [ex.View()], finished, cuts, boundedLoops);
      var i := setup.program.instr(ex.state);
      ghost var x, levels, views, rest := ex.View(), solver.levels, Views(stack), stack;
      ghost var children: seq<Snap<M>> := [];
      DestinationsInRange(setup, x, ks);
      assert views + [] == views;
      for j := 0 to |ks|
        invariant solver.Valid() && next == null
        invariant |stack| == |rest| + j && rest <= stack && ex !in stack && ex.View() == x && |children| == j
        invariant forall e | e in stack :: e.path.solver == solver && e.path != ex.path
        invariant forall k | |rest| <= k < |stack| :: fresh(stack[k]) && fresh(stack[k].path)
        invariant Apart(stack) && Views(rest) == views && Views(stack) == views + children
        invariant Stacked(setup, solver.levels, (views + children) + [x])
        invariant forall k | 0 <= k < j :: JumpsChild(x, i, ks[k], children[k])
        modifies this`stack, solver
      {
        JumpsToMeans(i.dst, i.dests[ks[j]], Val(imap[], imap[], iset{}));
        ghost var levels := solver.levels;
        var child := ex.CreateBranch(JumpsTo(i.dst, i.dests[ks[j]]), i.landed[ks[j]]);
        StackedPush(setup, levels, views + children, x, child.View());
        assert (views + children) + [child.View()] == views + (children + [child.View()]);
        assert Views(stack) == views + children;
        children := children + [child.View()];
        ViewsSnoc(stack, child);
        ApartSnoc(stack, child);
        stack := stack + [child];
      }
      JumpedInv(setup, levels, solver.levels, views, x, ks, children, finished, cuts, boundedLoops);
      cuts := cuts + [JumpsElsewhere(x, i, ks)];
    }

    /** A JUMP whose destination is not a constant. */
    method SymbolicJump(ex: Exec<M>) returns (yielded: Exec?<M>)
      requires Running(ex) && WfSetup(setup) && setup.program.instr(ex.state).Goto?
      modifies this`stack, this`cuts, this`finished, solver
      ensures Valid() && Live() == stack && From(old(stack))
      ensures JumpedTo(setup, ex.View(), old(solver.levels), old(Views(stack)), old(Kept()), Views(stack), Kept())
      ensures old(cuts) <= cuts && forall k | |old(cuts)| <= k < |cuts| :: cuts[k].reason.LostJump?
      ensures yielded == null ==> finished == old(finished)
      ensures yielded != null ==> exists final ::
                finished == old(finished) + [Finished(yielded.state, yielded.path.conditions, final)]
    {
      hide WfB, Trusted, Inv, Views, SnapOk, Apart, WfLevels, WfSetup, Mirrors, Destinations, FinishedOk;
      RunningFacts(ex);
      if !setup.symbolicJump {
        StuckOk(setup, ex.View());
        Finish(ex, Stuck);
        return ex;
      }
      var ks := Reachable(ex);
      if ks == [] {
        NowhereOk(setup, ex.View(), ks);
        Finish(ex, Ended(BadJump));
        return ex;
      }
      JumpAll(ex, ks);
      yielded := null;
    }

    /** The steps that need no solver. */
    method StepPlain(ex: Exec<M>) returns (yielded: Exec?<M>)
      requires Running(ex) && WfSetup(setup) && Plain(setup.program.instr(ex.state))
      modifies this`next, this`finished, ex
      ensures Valid() && stack == old(stack) && (Live() == stack || Live() == stack + [ex])
      ensures yielded == null ==> finished == old(finished)
      ensures yielded != null ==> exists final ::
                finished == old(finished) + [Finished(yielded.state, yielded.path.conditions, final)]
    {
      hide WfB, Trusted, Inv, Views, SnapOk, Apart, WfLevels, WfSetup, Mirrors, FinishedOk, Tracks;
      RunningFacts(ex);
      yielded := null;
      PlainOk(setup, ex.View());
      match setup.program.instr(ex.state) {
        case Next(m) =>
          Advance(ex, m);
        case Stop =>
          Finish(ex, Ended(Stopped));
          yielded := ex;
        case Branch(_, target, cond, valid, _, past, fallen) =>
          if cond == Lit(false) {
            Advance(ex, fallen);
          } else if target in valid {
            Advance(ex, past);
          } else {
            Finish(ex, Ended(BadJump));
            yielded := ex;
          }
        case Goto(dst, dests, _, passed) =>
          InstrWf(setup, ex.state);
          var k := IndexOf(dests, dst.value);
          if k < |dests| {
            Advance(ex, passed[k]);
          } else {
            Finish(ex, Ended(BadJump));
            yielded := ex;
          }
      }
    }

    /** Takes the current path, or the last one from the worklist, and activates it if it waits. */
    method Fetch() returns (ex: Exec<M>)
      requires Valid() && Live() != []
      modifies this`next, this`stack, this`steps, solver
      modifies set e | e in Live() :: e.path
      ensures Running(ex) && stack + [ex] == old(Live())
      ensures steps == old(steps) + 1
    {
      hide WfB, Trusted, Inv, Views, SnapOk, Apart, WfLevels, WfSetup, Mirrors, FinishedOk, CutOk;
      ghost var live := Live();
      if next != null {
        ex := next;
        next := null;
      } else {
        ex := stack[|stack| - 1];
        stack := stack[..|stack| - 1];
      }
      assert stack + [ex] == live;
      steps := steps + 1;
      RunningFacts(ex);
      assert ex in live;
      if ex.path.pending != [] {
        Activate(ex);
      }
    }

    /** Exactly the path of a step beyond the limit is cut for it. */
    ghost predicate TooDeepSince(n: nat, beyond: bool)
      reads this
    {
      && n <= |cuts|
      && (beyond ==> |cuts| == n + 1 && cuts[n].reason == TooDeep(steps))
      && (!beyond ==> forall k | n <= k < |cuts| :: !cuts[k].reason.TooDeep?)
    }

    /** One round of the explorer: fetches a path and executes one instruction. */
    method Step() returns (yielded: Exec?<M>, done: bool)
      requires Valid()
      modifies this, solver
      modifies set e | e in Live()
      modifies set e | e in Live() :: e.path
      ensures Valid() && From(old(Live()))
      ensures (done <==> old(Live()) == []) && (done ==> Live() == [])
      ensures old(boundedLoops) <= boundedLoops && old(cuts) <= cuts
      ensures steps == old(steps) + if done then 0 else 1
      ensures TooDeepSince(|old(cuts)|, !done && 0 < setup.depth < steps)
      ensures yielded == null ==> finished == old(finished)
      ensures yielded != null ==> exists final ::
                finished == old(finished) + [Finished(yielded.state, yielded.path.conditions, final)]
    {
      hide WfB, Trusted, Inv, Views, SnapOk, Apart, WfLevels, WfSetup, Mirrors, FinishedOk, CutOk, Plain, Holding, JumpedTo,
           Jumped;
      yielded := null;
      if next == null && stack == [] {
        return null, true;
      }
      done := false;
      var ex := Fetch();
      assert ex in old(Live());
      RunningFacts(ex);
      if setup.depth != 0 && steps > setup.depth {
        TooDeepOk(setup, ex.View(), steps, boundedLoops);
        GiveUp(ex, TooDeep(steps));
        return;
      }
      var i := setup.program.instr(ex.state);
      if Plain(i) {
        yielded := StepPlain(ex);
      } else if i.Branch? {
        yielded := Jumpi(ex);
      } else {
        NotPlain(i);
        yielded := SymbolicJump(ex);
      }
    }

    /** Any number of rounds. */
    method Explore(rounds: nat) returns (done: bool)
      requires Valid()
      modifies this, solver
      modifies set e | e in Live()
      modifies set e | e in Live() :: e.path
      ensures Valid() && (done ==> Live() == []) && (!done ==> steps == old(steps) + rounds)
      ensures old(boundedLoops) <= boundedLoops && old(cuts) <= cuts && old(finished) <= finished
    {
      hide WfB, Trusted, Inv, Views, SnapOk, Apart, WfLevels, WfSetup, Mirrors, FinishedOk, CutOk, Plain, Holding;
      done := false;
      ghost var first := Live();
      for i := 0 to rounds
        invariant Valid() && From(first) && steps == old(steps) + i
        invariant old(boundedLoops) <= boundedLoops && old(cuts) <= cuts && old(finished) <= finished
      {
        ghost var before := Live();
        var yielded;
        yielded, done := Step();
        if done {
          return;
        }
      }
    }
  }

  lemma NotPlain<M>(i: Instr<M>)
    requires !Plain(i)
    ensures i.Branch? || i.Goto?
  {
  }

  lemma TooDeepOk<M(!new)>(s: Setup<M>, x: Snap<M>, steps: nat, logged: seq<JumpId>)
    requires WfSetup(s) && SnapOk(s, x) && x.pending == [] && 0 < s.depth < steps
    ensures CutOk(s, logged, Cut(x.state, x.conditions, TooDeep(steps)))
  {
    assert x.conditions + x.pending == x.conditions;
  }

  /** The state after a plain instruction, unless the execution ends. */
  function Follower<M>(i: Instr<M>): Option<M>
    requires Plain(i) && (i.Goto? ==> |i.passed| == |i.dests|)
  {
    match i
    case Next(m) => Some(m)
    case Stop => None
    case Branch(_, target, cond, valid, _, past, fallen) =>
      if cond == Lit(false) then Some(fallen) else if target in valid then Some(past) else None
    case Goto(dst, dests, _, passed) =>
      var k := IndexOf(dests, dst.value);
      if k < |dests| then Some(passed[k]) else None
  }

  function EndingOf<M>(i: Instr<M>): Ending {
    if i.Stop? then Stopped else BadJump
  }

  /** What follows from a plain instruction. */
  lemma PlainOk<M(!new)>(s: Setup<M>, x: Snap<M>)
    requires WfSetup(s) && SnapOk(s, x) && x.pending == [] && Plain(s.program.instr(x.state))
    ensures var i := s.program.instr(x.state);
      && WfInstr(s.program, i)
      && match Follower(i)
         case Some(m) => Tracks(s, m, x.conditions)
         case None => FinishedOk(s, Finished(x.state, x.conditions, Ended(EndingOf(i))))
  {
    hide Counted, WfB, Explored, Model, Reaches, Trusted, Plain, Follower, Execute;
    assert x.conditions + x.pending == x.conditions;
    InstrWf(s, x.state);
    forall v: Val | Explored(s, v) && Model(x.conditions, v)
      ensures PlainFollows(s, x.state, v)
    {
      PlainReaches(s, x.state, v);
    }
  }

  ghost predicate PlainFollows<M(!new)>(s: Setup<M>, m: M, v: Val)
    requires WfSetup(s) && Plain(s.program.instr(m)) && WfInstr(s.program, s.program.instr(m))
  {
    match Follower(s.program.instr(m))
    case Some(m') => Reaches(s, v, m')
    case None => Execute(s.program, m, v) == Ends(EndingOf(s.program.instr(m)))
  }

  lemma PlainReaches<M(!new)>(s: Setup<M>, m: M, v: Val)
    requires WfSetup(s) && Plain(s.program.instr(m)) && Reaches(s, v, m)
    requires WfInstr(s.program, s.program.instr(m))
    ensures PlainFollows(s, m, v)
  {
    hide Explored, Model, Reaches, Trusted, Pow2;
    match s.program.instr(m)
    case Next(m') => ReachesNext(s, v, m, m');
    case Stop =>
    case Branch(_, target, cond, valid, taken, past, fallen) =>
      if cond == Lit(false) {
        ReachesNext(s, v, m, fallen);
      } else if target in valid {
        ReachesNext(s, v, m, taken);
        ReachesNext(s, v, taken, past);
      }
    case Goto(dst, dests, landed, passed) =>
      var k := IndexOf(dests, dst.value);
      if k < |dests| {
        ReachesNext(s, v, m, landed[k]);
        ReachesNext(s, v, landed[k], passed[k]);
      }
  }

  /** Instructions that have a single outcome. */
  predicate Plain<M>(i: Instr<M>) {
    match i
    case Next(_) => true
    case Stop => true
    case Branch(_, _, cond, _, _, _, _) => cond == Lit(true) || cond == Lit(false)
    case Goto(dst, _, _, _) => dst.Num?
  }

  lemma StuckOk<M(!new)>(s: Setup<M>, x: Snap<M>)
    requires WfSetup(s) && SnapOk(s, x) && x.pending == [] && s.program.instr(x.state).Goto? && !s.symbolicJump
    ensures FinishedOk(s, Finished(x.state, x.conditions, Stuck))
  {
    hide Tracks, Counted, WfB, Execute, Explored, Model;
    assert x.conditions + x.pending == x.conditions;
  }

  lemma NowhereOk<M(!new)>(s: Setup<M>, x: Snap<M>, ks: seq<nat>)
    requires WfSetup(s) && SnapOk(s, x) && x.pending == [] && s.program.instr(x.state).Goto?
    requires ks == [] && Destinations(s, x, ks)
    ensures FinishedOk(s, Finished(x.state, x.conditions, Ended(BadJump)))
  {
    hide Counted, WfB, Execute, Explored, Model, Eval, Wf, Reaches;
    assert x.conditions + x.pending == x.conditions;
    var i := s.program.instr(x.state);
    forall v: Val | Explored(s, v) && Model(x.conditions, v)
      ensures Execute(s.program, x.state, v) == Ends(BadJump)
    {
      assert Eval(i.dst, v) !in i.dests;
      NoDestination(s, x.state, v);
    }
  }


  lemma InvStacked<M(!new)>(s: Setup<M>, levels: seq<seq<Bl>>, live: seq<Snap<M>>,
                            finished: seq<Finished<M>>, cuts: seq<Cut<M>>, logged: seq<JumpId>)
    requires Inv(s, levels, live, finished, cuts, logged)
    ensures Stacked(s, levels, live)
  {
  }

  lemma DestinationsInRange<M(!new)>(s: Setup<M>, x: Snap<M>, ks: seq<nat>)
    requires WfSetup(s) && s.program.instr(x.state).Goto? && WfBAll(x.conditions) && Destinations(s, x, ks)
    ensures forall j | 0 <= j < |ks| :: ks[j] < |s.program.instr(x.state).dests|
  {
  }

  lemma InstrWf<M(!new)>(s: Setup<M>, m: M)
    requires WfSetup(s)
    ensures WfInstr(s.program, s.program.instr(m))
  {
  }

  /** What a waiting and an active path add to the stack. */
  lemma PushBoth<M(!new)>(es: seq<Exec<M>>, child: Exec<M>, ex: Exec<M>)
    requires Apart(es) && child != ex && child.path != ex.path
    requires forall d | d in es :: d != child && d.path != child.path && d != ex && d.path != ex.path
    ensures es + [child] + [ex] == es + [child, ex] && Apart(es + [child, ex])
    ensures Views(es + [child, ex]) == Views(es) + [child.View(), ex.View()]
  {
    hide Views, Apart;
    assert es + [child] + [ex] == es + [child, ex];
    ViewsSnoc(es, child);
    ViewsSnoc(es + [child], ex);
    ApartSnoc(es, child);
    ApartSnoc(es + [child], ex);
  }

  lemma ApartSnoc<M(!new)>(es: seq<Exec<M>>, e: Exec<M>)
    requires Apart(es) && forall d | d in es :: d != e && d.path != e.path
    ensures Apart(es + [e])
  {
    var all := es + [e];
    forall i, j | 0 <= i < j < |all|
      ensures all[i] != all[j] && all[i].path != all[j].path
    {
      assert all[i] == es[i] && es[i] in es;
      assert j < |es| ==> all[j] == es[j];
    }
  }

  lemma ApartPrefix<M(!new)>(es: seq<Exec<M>>, e: Exec<M>)
    requires Apart(es + [e])
    ensures Apart(es)
  {
    assert forall i | 0 <= i < |es| :: (es + [e])[i] == es[i];
  }

  /** A waiting path can always be activated. */
  lemma ScopeInRange<M(!new)>(s: Setup<M>, levels: seq<seq<Bl>>, rest: seq<Snap<M>>, w: Snap<M>,
                              finished: seq<Finished<M>>, cuts: seq<Cut<M>>, logged: seq<JumpId>)
    requires Inv(s, levels, rest + [w], finished, cuts, logged) && w.pending != []
    ensures w.scope + 1 < |levels|
  {
    hide WfSetup, SnapOk, Mirrors, Tracks, FinishedOk, CutOk;
    assert (rest + [w])[|rest|] == w;
  }

  lemma FirstInv<M(!new)>(s: Setup<M>, levels: seq<seq<Bl>>, x: Snap<M>)
    requires WfSetup(s) && levels != [] && WfLevels(levels) && Flatten(levels) == s.known
    requires x.state == s.start && x.conditions == s.prefix && x.pending == [] && x.jumpis == map[] && x.trail == multiset{}
    ensures Inv(s, levels, [x], [], [], [])
  {
    hide WfB, Flatten, EvalB, Trusted;
    assert x.conditions + x.pending == s.prefix;
    forall v: Val | Explored(s, v)
      ensures Reaches(s, v, s.start)
      ensures LiveCount([x], v) == 1
    {
      ReachesStart(s, v);
      LiveSnoc([], x, v);
      assert [] + [x] == [x];
    }
  }
}
