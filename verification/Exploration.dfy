// Configurations of the explorer and what they keep.
module Exploration {
  import opened Options
  import opened Bits
  import opened BvTerms
  import opened Prover
  import opened Paths

  // ---- programs ----

  /** A location of a JUMPI: the program counter and the jump destinations on the stack. */
  type JumpId = (nat, seq<nat>)

  /** One instruction on a symbolic state; `M` is everything but the path. */
  datatype Instr<!M> =
    | Next(next: M)
    | Stop
    // JUMPI: `past` follows `taken`, which is at the JUMPDEST
    | Branch(id: JumpId, target: nat, cond: Bl, valid: set<nat>, taken: M, past: M, fallen: M)
    // JUMP: the states at the valid destinations, and those that follow
    | Goto(dst: Bv, dests: seq<nat>, landed: seq<M>, passed: seq<M>)

  datatype Program<!M> = Program(instr: M -> Instr<M>)

  ghost predicate WfInstr<M(!new)>(p: Program<M>, i: Instr<M>) {
    match i
    case Next(_) => true
    case Stop => true
    case Branch(_, target, cond, valid, taken, past, _) =>
      WfB(cond) && (target in valid ==> p.instr(taken) == Next(past))
    case Goto(dst, dests, landed, passed) =>
      && Wf(dst) && dst.w == WORD
      && |landed| == |passed| == |dests|
      && (forall i | 0 <= i < |dests| :: dests[i] < Pow2(WORD) && p.instr(landed[i]) == Next(passed[i]))
      && (forall i, j | 0 <= i < j < |dests| :: dests[i] != dests[j])
  }

  /** How an execution ends. */
  datatype Ending = Stopped | BadJump

  datatype Outcome<M> = Goes(state: M) | Ends(ending: Ending)

  function IndexOf(s: seq<nat>, x: nat): (i: nat)
    ensures i <= |s|
    ensures i < |s| ==> s[i] == x
    ensures x in s ==> i < |s|
  {
    if s == [] then 0 else if s[0] == x then 0 else 1 + IndexOf(s[1..], x)
  }

  /** The concrete execution of one instruction under a valuation. */
  ghost function Execute<M(!new)>(p: Program<M>, m: M, v: Val): Outcome<M>
    requires WfInstr(p, p.instr(m))
  {
    match p.instr(m)
    case Next(m') => Goes(m')
    case Stop => Ends(Stopped)
    case Branch(_, target, cond, valid, taken, _, fallen) =>
      if !EvalB(cond, v) then Goes(fallen) else if target in valid then Goes(taken) else Ends(BadJump)
    case Goto(dst, dests, landed, _) =>
      var i := IndexOf(dests, Eval(dst, v));
      if i < |dests| then Goes(landed[i]) else Ends(BadJump)
  }

  ghost function After<M(!new)>(p: Program<M>, m: M, v: Val, n: nat): Option<M>
    requires forall m :: WfInstr(p, p.instr(m))
  {
    if n == 0 then Some(m) else
    match After(p, m, v, n - 1)
    case None => None
    case Some(m') => (match Execute(p, m', v) case Goes(m'') => Some(m'') case Ends(_) => None)
  }

  // ---- the setting of one exploration ----

  datatype Setup<!M> = Setup(
    program: Program<M>,
    smt: Smt,
    unlikely: Bl -> bool,  // conditions excluded by assumption (hash values near the end of the range)
    start: M,
    prefix: seq<Bl>,       // the conditions of the first path
    known: seq<Bl>,        // those that the solver was given
    loop: nat,             // unrolling bound
    depth: nat,            // bound on the number of steps, 0 for none
    symbolicJump: bool)

  /** The valuations that are explored. */
  ghost predicate Explored<M(!new)>(s: Setup<M>, v: Val)
    requires WfBAll(s.prefix)
  {
    Model(s.prefix, v) && forall c | WfB(c) && s.unlikely(c) :: !EvalB(c, v)
  }

  ghost predicate WfSetup<M(!new)>(s: Setup<M>) {
    && Trusted(s.smt)
    && WfBAll(s.prefix)
    && WfBAll(s.known)
    && (forall v: Val | Model(s.prefix, v) :: Model(s.known, v))
    && (forall m :: WfInstr(s.program, s.program.instr(m)))
  }

  ghost predicate Reaches<M(!new)>(s: Setup<M>, v: Val, m: M)
    requires WfSetup(s)
  {
    exists n: nat :: After(s.program, s.start, v, n) == Some(m)
  }

  lemma ReachesStart<M(!new)>(s: Setup<M>, v: Val)
    requires WfSetup(s)
    ensures Reaches(s, v, s.start)
  {
    assert After(s.program, s.start, v, 0) == Some(s.start);
  }

  lemma ReachesNext<M(!new)>(s: Setup<M>, v: Val, m: M, m': M)
    requires WfSetup(s) && Reaches(s, v, m) && Execute(s.program, m, v) == Goes(m')
    ensures Reaches(s, v, m')
  {
    var n: nat :| After(s.program, s.start, v, n) == Some(m);
    assert After(s.program, s.start, v, n + 1) == Some(m');
  }

  // ---- configurations ----

  datatype Visits = Visits(taken: nat, fallen: nat)

  /** One symbolic execution. */
  datatype Snap<M> = Snap(
    state: M,
    jumpis: map<JumpId, Visits>,
    trail: multiset<(JumpId, bool)>,  // the symbolic branches followed so far
    scope: nat,
    conditions: seq<Bl>,
    pending: seq<Bl>)

  function VisitsOf(jumpis: map<JumpId, Visits>, id: JumpId): Visits {
    if id in jumpis then jumpis[id] else Visits(0, 0)
  }

  /** A finished execution: stuck at a symbolic jump, or ended. */
  datatype Final = Ended(ending: Ending) | Stuck

  datatype Finished<M> = Finished(state: M, conditions: seq<Bl>, final: Final)

  /** Why the executions under some conditions are not followed. */
  datatype Reason<M> =
    | Bounded(id: JumpId, taken: bool, at: Snap<M>, levels: seq<seq<Bl>>)  // the path, and what the solver held
    | TooDeep(steps: nat)
    | LostJump

  datatype Cut<M> = Cut(state: M, conditions: seq<Bl>, reason: Reason<M>)

  /** The executions that a path stands for reach its state. */
  ghost predicate Tracks<M(!new)>(s: Setup<M>, m: M, conditions: seq<Bl>)
    requires WfSetup(s)
  {
    && WfBAll(conditions)
    && forall v: Val | Explored(s, v) && Model(conditions, v) :: Reaches(s, v, m)
  }

  ghost predicate SnapOk<M(!new)>(s: Setup<M>, x: Snap<M>)
    requires WfSetup(s)
  {
    && WfBAll(x.conditions)
    && WfBAll(x.pending)
    && s.prefix <= x.conditions
    && Tracks(s, x.state, x.conditions + x.pending)
    && Counted(s, x.jumpis, x.trail)
  }

  /** The counters say how often each symbolic branch was followed: never beyond the bound. */
  ghost predicate Counted<M(!new)>(s: Setup<M>, jumpis: map<JumpId, Visits>, trail: multiset<(JumpId, bool)>) {
    forall id: JumpId ::
      && VisitsOf(jumpis, id) == Visits(trail[(id, true)], trail[(id, false)])
      && trail[(id, true)] <= s.loop
      && trail[(id, false)] <= s.loop
  }

  ghost predicate FinishedOk<M(!new)>(s: Setup<M>, f: Finished<M>)
    requires WfSetup(s)
  {
    && Tracks(s, f.state, f.conditions)
    && (forall v: Val | Explored(s, v) && Model(f.conditions, v) && f.final.Ended? ::
          Execute(s.program, f.state, v) == Ends(f.final.ending))
    && (f.final.Stuck? ==> s.program.instr(f.state).Goto? && !s.symbolicJump)
  }

  // ---- answers ----

  /** The levels hold exactly the conditions; of the prefix, what the solver was given. */
  ghost predicate Mirrors<M(!new)>(s: Setup<M>, levels: seq<seq<Bl>>, conditions: seq<Bl>) {
    s.prefix <= conditions && Flatten(levels) == s.known + conditions[|s.prefix|..]
  }

  /** No valuation that is explored satisfies the condition. */
  predicate Excluded<M>(s: Setup<M>, c: Bl) {
    c == Lit(false) || (c != Lit(true) && s.unlikely(c))
  }

  /**
   * Whether a path can go on with a condition: it can if it has the condition already, it cannot if the condition is
   * excluded or the path has its negation, and otherwise the solver decides.
   */
  function AnswerOf<M>(s: Setup<M>, levels: seq<seq<Bl>>, conditions: seq<Bl>, cond: Bl): (answer: Answer)
    ensures var c := s.smt.simplify(cond);
      && (Excluded(s, c) ==> answer == Unsat)
      && (!Excluded(s, c) && (c == Lit(true) || c in conditions) ==> answer == Sat)
      && (!Excluded(s, c) && c != Lit(true) && c !in conditions && s.smt.simplify(Not(c)) in conditions ==> answer == Unsat)
      && (!Excluded(s, c) && c != Lit(true) && c !in conditions && s.smt.simplify(Not(c)) !in conditions ==>
            answer == s.smt.check(Flatten(levels) + [c]))
  {
    var c := s.smt.simplify(cond);
    if c == Lit(true) then Sat
    else if Excluded(s, c) then Unsat
    else if c in conditions then Sat
    else if s.smt.simplify(Not(c)) in conditions then Unsat
    else s.smt.check(Flatten(levels) + [c])
  }

  /** The condition of one direction of a JUMPI. */
  function Direction<M>(s: Setup<M>, cond: Bl, taken: bool): Bl {
    var yes := s.smt.simplify(cond);
    if taken then yes else s.smt.simplify(Not(yes))
  }

  /** The direction may be possible. */
  predicate Possible<M>(s: Setup<M>, levels: seq<seq<Bl>>, conditions: seq<Bl>, cond: Bl, taken: bool) {
    AnswerOf(s, levels, conditions, Direction(s, cond, taken)) != Unsat
  }

  /** One direction is known to be possible, and the other one not to be. */
  predicate Decided<M>(s: Setup<M>, levels: seq<seq<Bl>>, conditions: seq<Bl>, cond: Bl, taken: bool) {
    && AnswerOf(s, levels, conditions, Direction(s, cond, taken)) == Sat
    && AnswerOf(s, levels, conditions, Direction(s, cond, !taken)) == Unsat
  }

  predicate Symbolic<M>(s: Setup<M>, levels: seq<seq<Bl>>, conditions: seq<Bl>, cond: Bl) {
    !Decided(s, levels, conditions, cond, true) && !Decided(s, levels, conditions, cond, false)
  }

  /** There is budget left for a symbolic branch. */
  predicate WithinBound<M>(s: Setup<M>, jumpis: map<JumpId, Visits>, id: JumpId, taken: bool) {
    var visits := VisitsOf(jumpis, id);
    (if taken then visits.taken else visits.fallen) < s.loop
  }

  /** An active path at a branch that is not decided, with its own counters at the bound for a possible direction. */
  ghost predicate AtBound<M(!new)>(s: Setup<M>, x: Snap<M>, levels: seq<seq<Bl>>, taken: bool)
    requires WfSetup(s)
  {
    && SnapOk(s, x) && x.pending == [] && Mirrors(s, levels, x.conditions)
    && var i := s.program.instr(x.state);
    && i.Branch?
    && Symbolic(s, levels, x.conditions, i.cond) && Possible(s, levels, x.conditions, i.cond, taken)
    && !WithinBound(s, x.jumpis, i.id, taken)
  }

  /** A direction of a JUMPI is cut at its bound; a jump is lost if it has no valid destination. */
  ghost predicate CutOk<M(!new)>(s: Setup<M>, logged: seq<JumpId>, c: Cut<M>)
    requires WfSetup(s)
  {
    && Tracks(s, c.state, c.conditions)
    && match c.reason
       case Bounded(id, taken, at, levels) =>
         && var i := s.program.instr(c.state);
         && i.Branch? && i.id == id && id in logged
         && AtBound(s, at, levels, taken) && at.state == c.state
         && c.conditions == at.conditions + [Direction(s, i.cond, taken)]
         && forall v: Val | Explored(s, v) && Model(c.conditions, v) :: EvalB(i.cond, v) == taken
       case TooDeep(steps) => 0 < s.depth < steps
       case LostJump =>
         && s.symbolicJump && s.program.instr(c.state).Goto?
         && forall v: Val | Explored(s, v) && Model(c.conditions, v) ::
              Execute(s.program, c.state, v) == Ends(BadJump)
  }

  // ---- who stands for a valuation ----

  ghost function Weight(conditions: seq<Bl>, v: Val): nat {
    if WfBAll(conditions) && Model(conditions, v) then 1 else 0
  }

  ghost function LiveCount<M>(xs: seq<Snap<M>>, v: Val): nat {
    if xs == [] then 0 else
    LiveCount(xs[..|xs| - 1], v) + Weight(xs[|xs| - 1].conditions + xs[|xs| - 1].pending, v)
  }

  ghost function FinishedCount<M>(xs: seq<Finished<M>>, v: Val): nat {
    if xs == [] then 0 else FinishedCount(xs[..|xs| - 1], v) + Weight(xs[|xs| - 1].conditions, v)
  }

  ghost function CutCount<M>(xs: seq<Cut<M>>, v: Val): nat {
    if xs == [] then 0 else CutCount(xs[..|xs| - 1], v) + Weight(xs[|xs| - 1].conditions, v)
  }

  lemma LiveSnoc<M>(xs: seq<Snap<M>>, x: Snap<M>, v: Val)
    ensures LiveCount(xs + [x], v) == LiveCount(xs, v) + Weight(x.conditions + x.pending, v)
  {
    assert (xs + [x])[..|xs|] == xs;
  }

  lemma FinishedSnoc<M>(xs: seq<Finished<M>>, x: Finished<M>, v: Val)
    ensures FinishedCount(xs + [x], v) == FinishedCount(xs, v) + Weight(x.conditions, v)
  {
    assert (xs + [x])[..|xs|] == xs;
  }

  lemma CutSnoc<M>(xs: seq<Cut<M>>, x: Cut<M>, v: Val)
    ensures CutCount(xs + [x], v) == CutCount(xs, v) + Weight(x.conditions, v)
  {
    assert (xs + [x])[..|xs|] == xs;
  }

  // ---- what the solver holds ----

  /** A waiting path will find its conditions on the levels up to its scope. */
  ghost predicate Waits<M(!new)>(s: Setup<M>, levels: seq<seq<Bl>>, x: Snap<M>) {
    x.scope + 1 < |levels| && Mirrors(s, levels[..x.scope + 1], x.conditions)
  }

  /** Below the top, all paths wait, on increasing scopes; an active path is on top. */
  ghost predicate Stacked<M(!new)>(s: Setup<M>, levels: seq<seq<Bl>>, live: seq<Snap<M>>) {
    && levels != []
    && WfLevels(levels)
    && (forall i | 0 <= i < |live| - 1 :: live[i].pending != [])
    && (forall i | 0 <= i < |live| && live[i].pending != [] :: Waits(s, levels, live[i]))
    && (forall i, j | 0 <= i < j < |live| && live[i].pending != [] && live[j].pending != [] ::
          live[i].scope < live[j].scope)
    && (live != [] && live[|live| - 1].pending == [] ==> Mirrors(s, levels, live[|live| - 1].conditions))
  }

  /** The invariant of the exploration. */
  ghost predicate Inv<M(!new)>(s: Setup<M>, levels: seq<seq<Bl>>, live: seq<Snap<M>>, finished: seq<Finished<M>>,
                               cuts: seq<Cut<M>>, logged: seq<JumpId>)
  {
    && WfSetup(s)
    && Stacked(s, levels, live)
    && (forall i | 0 <= i < |live| :: SnapOk(s, live[i]))
    && (forall i | 0 <= i < |finished| :: FinishedOk(s, finished[i]))
    && (forall i | 0 <= i < |cuts| :: CutOk(s, logged, cuts[i]))
    && (forall v: Val | Explored(s, v) ::
          LiveCount(live, v) + FinishedCount(finished, v) + CutCount(cuts, v) == 1)
  }

  // ---- counting ----

  lemma {:induction false} LiveAppend<M>(xs: seq<Snap<M>>, ys: seq<Snap<M>>, v: Val)
    ensures LiveCount(xs + ys, v) == LiveCount(xs, v) + LiveCount(ys, v)
    decreases |ys|
  {
    if ys == [] {
      assert xs + ys == xs;
    } else {
      var n := |ys| - 1;
      LiveAppend(xs, ys[..n], v);
      assert xs + ys == (xs + ys[..n]) + [ys[n]];
      LiveSnoc(xs + ys[..n], ys[n], v);
    }
  }

  lemma {:induction false} FinishedAppend<M>(xs: seq<Finished<M>>, ys: seq<Finished<M>>, v: Val)
    ensures FinishedCount(xs + ys, v) == FinishedCount(xs, v) + FinishedCount(ys, v)
    decreases |ys|
  {
    if ys == [] {
      assert xs + ys == xs;
    } else {
      var n := |ys| - 1;
      FinishedAppend(xs, ys[..n], v);
      assert xs + ys == (xs + ys[..n]) + [ys[n]];
      FinishedSnoc(xs + ys[..n], ys[n], v);
    }
  }

  lemma {:induction false} CutAppend<M>(xs: seq<Cut<M>>, ys: seq<Cut<M>>, v: Val)
    ensures CutCount(xs + ys, v) == CutCount(xs, v) + CutCount(ys, v)
    decreases |ys|
  {
    if ys == [] {
      assert xs + ys == xs;
    } else {
      var n := |ys| - 1;
      CutAppend(xs, ys[..n], v);
      assert xs + ys == (xs + ys[..n]) + [ys[n]];
      CutSnoc(xs + ys[..n], ys[n], v);
    }
  }

  // ---- one path is replaced by others ----

  /** The new owners stand for exactly the valuations of the old one. */
  ghost predicate Splits<M(!new)>(s: Setup<M>, x: Snap<M>, live: seq<Snap<M>>, finished: seq<Finished<M>>, cuts: seq<Cut<M>>)
    requires WfSetup(s)
  {
    forall v: Val | Explored(s, v) ::
      Weight(x.conditions + x.pending, v) == LiveCount(live, v) + FinishedCount(finished, v) + CutCount(cuts, v)
  }

  lemma Replaced<M(!new)>(s: Setup<M>, levels: seq<seq<Bl>>, levels': seq<seq<Bl>>, rest: seq<Snap<M>>, x: Snap<M>,
                          news: seq<Snap<M>>, finished: seq<Finished<M>>, ends: seq<Finished<M>>,
                          cuts: seq<Cut<M>>, ends': seq<Cut<M>>, logged: seq<JumpId>, logged': seq<JumpId>)
    requires Inv(s, levels, rest + [x], finished, cuts, logged)
    requires Stacked(s, levels', rest + news) && logged <= logged'
    requires forall i | 0 <= i < |news| :: SnapOk(s, news[i])
    requires forall i | 0 <= i < |ends| :: FinishedOk(s, ends[i])
    requires forall i | 0 <= i < |ends'| :: CutOk(s, logged', ends'[i])
    requires Splits(s, x, news, ends, ends')
    ensures Inv(s, levels', rest + news, finished + ends, cuts + ends', logged')
  {
    hide Stacked, SnapOk, FinishedOk, Explored, Weight, CutOk;
    forall i | 0 <= i < |rest + news|
      ensures SnapOk(s, (rest + news)[i])
    {
      if i < |rest| {
        assert (rest + [x])[i] == rest[i];
      }
    }
    forall i | 0 <= i < |cuts + ends'|
      ensures CutOk(s, logged', (cuts + ends')[i])
    {
      if i < |cuts| {
        CutStays(s, logged, logged', cuts[i]);
      }
    }
    forall v: Val | Explored(s, v)
      ensures LiveCount(rest + news, v) + FinishedCount(finished + ends, v) + CutCount(cuts + ends', v) == 1
    {
      LiveSnoc(rest, x, v);
      LiveAppend(rest, news, v);
      FinishedAppend(finished, ends, v);
      CutAppend(cuts, ends', v);
    }
  }

  lemma CutStays<M(!new)>(s: Setup<M>, logged: seq<JumpId>, logged': seq<JumpId>, c: Cut<M>)
    requires WfSetup(s) && CutOk(s, logged, c) && logged <= logged'
    ensures CutOk(s, logged', c)
  {
    hide Explored, WfSetup, Tracks;
    assert forall id | id in logged :: id in logged';
  }

  // ---- what the steps do to the solver ----

  lemma MirrorsExtended<M(!new)>(s: Setup<M>, levels: seq<seq<Bl>>, conditions: seq<Bl>, added: seq<Bl>)
    requires levels != [] && Mirrors(s, levels, conditions)
    ensures Mirrors(s, Extended(levels, added), conditions + added)
  {
    hide Flatten, Extended;
    FlattenExtended(levels, added);
    assert (conditions + added)[|s.prefix|..] == conditions[|s.prefix|..] + added;
    assert s.known + conditions[|s.prefix|..] + added == s.known + (conditions[|s.prefix|..] + added);
  }

  /** The lower paths still wait after levels above them have changed. */
  lemma StillWaits<M(!new)>(s: Setup<M>, levels: seq<seq<Bl>>, levels': seq<seq<Bl>>, x: Snap<M>, n: nat)
    requires Waits(s, levels, x) && x.scope < n <= |levels| && n < |levels'|
    requires levels'[..n] == levels[..n]
    ensures Waits(s, levels', x)
  {
    assert levels'[..x.scope + 1] == levels'[..n][..x.scope + 1];
    assert levels[..x.scope + 1] == levels[..n][..x.scope + 1];
  }

  /** Activation leaves the solver with exactly the conditions of the path and its pending ones. */
  lemma StackedActivate<M(!new)>(s: Setup<M>, levels: seq<seq<Bl>>, rest: seq<Snap<M>>, w: Snap<M>, added: seq<Bl>, x: Snap<M>)
    requires Stacked(s, levels, rest + [w]) && w.pending != []
    requires w.scope < |levels| && WfLevels(Extended(levels[..w.scope + 1], added))
    requires x.pending == [] && x.conditions == w.conditions + added
    ensures Stacked(s, Extended(levels[..w.scope + 1], added), rest + [x])
  {
    hide Mirrors;
    var levels' := Extended(levels[..w.scope + 1], added);
    var was := rest + [w];
    assert was[|rest|] == w && Waits(s, levels, was[|rest|]);
    MirrorsExtended(s, levels[..w.scope + 1], w.conditions, added);
    var live := rest + [x];
    forall i | 0 <= i < |rest|
      ensures live[i] == was[i] && live[i].pending != [] && Waits(s, levels', live[i])
    {
      assert was[i].scope < was[|rest|].scope;
      assert levels'[..w.scope] == levels[..w.scope];
      StillLower(s, levels, levels', was[i], w.scope);
    }
  }

  lemma StillLower<M(!new)>(s: Setup<M>, levels: seq<seq<Bl>>, levels': seq<seq<Bl>>, x: Snap<M>, n: nat)
    requires Waits(s, levels, x) && x.scope < n < |levels| && |levels'| == n + 1
    requires levels'[..n] == levels[..n]
    ensures Waits(s, levels', x)
  {
    StillWaits(s, levels, levels', x, n);
  }

  lemma StackedAppend<M(!new)>(s: Setup<M>, levels: seq<seq<Bl>>, rest: seq<Snap<M>>, x: Snap<M>, added: seq<Bl>, y: Snap<M>)
    requires Stacked(s, levels, rest + [x]) && x.pending == [] && WfLevels(Extended(levels, added))
    requires y.pending == [] && y.conditions == x.conditions + added
    ensures Stacked(s, Extended(levels, added), rest + [y])
  {
    hide Mirrors;
    var levels', n := Extended(levels, added), |levels| - 1;
    var was, live := rest + [x], rest + [y];
    assert was[|rest|] == x;
    MirrorsExtended(s, levels, x.conditions, added);
    forall i | 0 <= i < |rest|
      ensures live[i] == was[i] && live[i].pending != [] && Waits(s, levels', live[i])
    {
      assert Waits(s, levels, was[i]);
      assert levels'[..n] == levels[..n];
      StillWaits(s, levels, levels', was[i], n);
    }
  }

  lemma StackedPush<M(!new)>(s: Setup<M>, levels: seq<seq<Bl>>, rest: seq<Snap<M>>, x: Snap<M>, child: Snap<M>)
    requires Stacked(s, levels, rest + [x]) && x.pending == []
    requires child.pending != [] && child.scope == |levels| - 1 && child.conditions == x.conditions
    ensures Stacked(s, levels + [[]], (rest + [child]) + [x])
  {
    hide Mirrors;
    var levels', n := levels + [[]], |levels|;
    var was, live := rest + [x], (rest + [child]) + [x];
    assert was[|rest|] == x;
    assert levels'[..n] == levels;
    forall i | 0 <= i < |rest|
      ensures live[i] == was[i] && live[i].pending != [] && Waits(s, levels', live[i]) && live[i].scope < child.scope
    {
      assert Waits(s, levels, was[i]);
      assert levels'[..n] == levels[..n];
      StillWaits(s, levels, levels', was[i], n);
    }
    assert Waits(s, levels', child);
    assert Mirrors(s, levels', x.conditions) by {
      PushedMirrors(s, levels, x.conditions);
    }
    WfPushed(levels);
  }

  lemma WfPushed(levels: seq<seq<Bl>>)
    requires WfLevels(levels)
    ensures WfLevels(levels + [[]])
  {
    hide WfB;
  }

  lemma PushedMirrors<M(!new)>(s: Setup<M>, levels: seq<seq<Bl>>, conditions: seq<Bl>)
    requires Mirrors(s, levels, conditions)
    ensures Mirrors(s, levels + [[]], conditions)
  {
    FlattenPushed(levels);
  }

  lemma StackedLevels<M(!new)>(s: Setup<M>, levels: seq<seq<Bl>>, live: seq<Snap<M>>)
    requires Stacked(s, levels, live)
    ensures levels != [] && WfLevels(levels)
  {
  }

  lemma StackedDrop<M(!new)>(s: Setup<M>, levels: seq<seq<Bl>>, rest: seq<Snap<M>>, x: Snap<M>)
    requires Stacked(s, levels, rest + [x])
    ensures Stacked(s, levels, rest)
  {
    hide Mirrors, Waits;
    var was := rest + [x];
    assert forall i | 0 <= i < |rest| :: rest[i] == was[i];
  }

  // ---- branching ----

  /** The two directions of a branching condition share the valuations of a path. */
  lemma DirectionsSplit(smt: Smt, conditions: seq<Bl>, cond: Bl, yes: Bl, no: Bl, v: Val)
    requires Trusted(smt) && WfBAll(conditions) && WfB(cond)
    requires yes == smt.simplify(cond) && no == smt.simplify(Not(yes))
    ensures WfB(yes) && WfB(no) && WfBAll(conditions + [yes]) && WfBAll(conditions + [no])
    ensures EvalB(yes, v) == EvalB(cond, v) && EvalB(no, v) == !EvalB(cond, v)
    ensures Model(conditions + [yes], v) <==> Model(conditions, v) && EvalB(cond, v)
    ensures Model(conditions + [no], v) <==> Model(conditions, v) && !EvalB(cond, v)
  {
    hide WfB;
    assert WfB(yes) && Equivalent(yes, cond);
    assert WfB(Not(yes)) by {
      NotWf(yes);
    }
    assert WfB(no) && Equivalent(no, Not(yes));
    ModelOne(yes, v);
    ModelOne(no, v);
    ModelAppend(conditions, [yes], v);
    ModelAppend(conditions, [no], v);
  }

  lemma NotWf(p: Bl)
    requires WfB(p)
    ensures WfB(Not(p))
  {
  }

  /** What a path taking one direction stands for. */
  lemma AppendedWeight(smt: Smt, conditions: seq<Bl>, cond: Bl, v: Val)
    requires Trusted(smt) && WfBAll(conditions) && WfB(cond)
    ensures WfBAll(Appended(smt, conditions, cond)) && WfBAll(conditions + [cond])
    ensures Model(Appended(smt, conditions, cond), v) <==> Model(conditions + [cond], v)
    ensures Weight(Appended(smt, conditions, cond), v) == Weight(conditions + [cond], v)
  {
    hide WfB, EvalB, Trusted, Appended;
    AppendedMeans(smt, conditions, cond, v);
    ModelOne(cond, v);
    ModelAppend(conditions, [cond], v);
  }

  lemma DirectionMeans<M(!new)>(s: Setup<M>, cond: Bl, taken: bool, conditions: seq<Bl>, v: Val)
    requires WfSetup(s) && WfB(cond) && WfBAll(conditions)
    ensures WfB(Direction(s, cond, taken)) && WfBAll(conditions + [Direction(s, cond, taken)])
    ensures EvalB(Direction(s, cond, taken), v) <==> EvalB(cond, v) == taken
    ensures Model(conditions + [Direction(s, cond, taken)], v) <==> Model(conditions, v) && EvalB(cond, v) == taken
  {
    hide WfB, Trusted, Explored;
    DirectionsSplit(s.smt, conditions, cond, Direction(s, cond, true), Direction(s, cond, false), v);
  }

  /** Following one direction of a JUMPI leads to the state of that direction. */
  lemma DirectionTracks<M(!new)>(s: Setup<M>, m: M, conditions: seq<Bl>, taken: bool)
    requires WfSetup(s) && Tracks(s, m, conditions) && s.program.instr(m).Branch?
    ensures var i := s.program.instr(m); var cs := conditions + [Direction(s, i.cond, taken)];
      && WfB(i.cond) && WfBAll(cs)
      && Tracks(s, m, cs)
      && (forall v: Val | Explored(s, v) && Model(cs, v) :: EvalB(i.cond, v) == taken)
      && (!taken ==> Tracks(s, i.fallen, cs))
      && (taken && i.target in i.valid ==> Tracks(s, i.taken, cs) && Tracks(s, i.past, cs))
      && (taken && i.target !in i.valid ==>
            forall v: Val | Explored(s, v) && Model(cs, v) :: Execute(s.program, m, v) == Ends(BadJump))
  {
    hide WfB, Explored, Direction, Reaches, Trusted, EvalB, Model;
    var i := s.program.instr(m);
    assert WfInstr(s.program, i);
    var cs := conditions + [Direction(s, i.cond, taken)];
    DirectionMeans(s, i.cond, taken, conditions, Val(imap[], imap[], iset{}));
    forall v: Val | Explored(s, v) && Model(cs, v)
      ensures Model(conditions, v) && Reaches(s, v, m) && EvalB(i.cond, v) == taken
      ensures !taken ==> Reaches(s, v, i.fallen)
      ensures taken && i.target in i.valid ==> Reaches(s, v, i.taken) && Reaches(s, v, i.past)
    {
      DirectionMeans(s, i.cond, taken, conditions, v);
      if !taken {
        ReachesNext(s, v, m, i.fallen);
      } else if i.target in i.valid {
        ReachesNext(s, v, m, i.taken);
        ReachesNext(s, v, i.taken, i.past);
      }
    }
  }

  /** The same valuations, expressed by the conditions of the path that continues. */
  lemma AppendedTracks<M(!new)>(s: Setup<M>, m: M, conditions: seq<Bl>, cond: Bl)
    requires WfSetup(s) && WfBAll(conditions) && WfB(cond) && Tracks(s, m, conditions + [cond])
    ensures Tracks(s, m, Appended(s.smt, conditions, cond))
  {
    hide WfB, Explored, Appended, Reaches, Trusted, EvalB, Model;
    forall v: Val
      ensures WfBAll(Appended(s.smt, conditions, cond))
      ensures Model(Appended(s.smt, conditions, cond), v) <==> Model(conditions + [cond], v)
    {
      AppendedWeight(s.smt, conditions, cond, v);
    }
    AppendedWeight(s.smt, conditions, cond, Val(imap[], imap[], iset{}));
  }

  function Bumped(jumpis: map<JumpId, Visits>, id: JumpId, taken: bool): map<JumpId, Visits> {
    var visits := VisitsOf(jumpis, id);
    jumpis[id := if taken then Visits(visits.taken + 1, visits.fallen) else Visits(visits.taken, visits.fallen + 1)]
  }

  lemma BumpedCounts<M(!new)>(s: Setup<M>, jumpis: map<JumpId, Visits>, trail: multiset<(JumpId, bool)>, id: JumpId, taken: bool)
    requires Counted(s, jumpis, trail)
    requires (if taken then VisitsOf(jumpis, id).taken else VisitsOf(jumpis, id).fallen) < s.loop
    ensures Counted(s, Bumped(jumpis, id, taken), trail + multiset{(id, taken)})
  {
    var trail' := trail + multiset{(id, taken)};
    forall j: JumpId
      ensures VisitsOf(Bumped(jumpis, id, taken), j) == Visits(trail'[(j, true)], trail'[(j, false)])
      ensures trail'[(j, true)] <= s.loop && trail'[(j, false)] <= s.loop
    {
      assert VisitsOf(jumpis, j) == Visits(trail[(j, true)], trail[(j, false)]);
      assert trail[(j, true)] <= s.loop && trail[(j, false)] <= s.loop;
    }
  }

  // ---- the steps of the explorer ----

  lemma ActivatedInv<M(!new)>(s: Setup<M>, levels: seq<seq<Bl>>, rest: seq<Snap<M>>, w: Snap<M>, y: Snap<M>,
                              finished: seq<Finished<M>>, cuts: seq<Cut<M>>, logged: seq<JumpId>)
    requires Inv(s, levels, rest + [w], finished, cuts, logged) && w.pending != []
    requires y == w.(conditions := AppendedAll(s.smt, w.conditions, w.pending), pending := [])
    requires w.scope < |levels|
    requires var levels' := Extended(levels[..w.scope + 1], y.conditions[|w.conditions|..]);
      WfLevels(levels')
    ensures Inv(s, Extended(levels[..w.scope + 1], y.conditions[|w.conditions|..]), rest + [y], finished, cuts, logged)
  {
    hide Stacked, FinishedOk, CutOk, WfB, EvalB, AppendedAll, Extended, Trusted, Reaches, Counted, Model;
    var levels' := Extended(levels[..w.scope + 1], y.conditions[|w.conditions|..]);
    assert (rest + [w])[|rest|] == w && SnapOk(s, w);
    assert y.conditions == w.conditions + y.conditions[|w.conditions|..];
    StackedActivate(s, levels, rest, w, y.conditions[|w.conditions|..], y);
    forall v: Val
      ensures WfBAll(y.conditions) && (Model(y.conditions, v) <==> Model(w.conditions + w.pending, v))
    {
      AppendedAllMeans(s.smt, w.conditions, w.pending, v);
      ModelAppend(w.conditions, w.pending, v);
    }
    assert WfBAll(y.conditions) by {
      AppendedAllMeans(s.smt, w.conditions, w.pending, Val(imap[], imap[], iset{}));
    }
    assert y.conditions + y.pending == y.conditions;
    forall v: Val | Explored(s, v)
      ensures Weight(w.conditions + w.pending, v) == LiveCount([y], v)
    {
      LiveSnoc([], y, v);
      assert [] + [y] == [y];
    }
    assert finished + [] == finished && cuts + [] == cuts;
    Replaced(s, levels, levels', rest, w, [y], finished, [], cuts, [], logged, logged);
  }

  lemma MovedInv<M(!new)>(s: Setup<M>, levels: seq<seq<Bl>>, rest: seq<Snap<M>>, x: Snap<M>, m: M,
                          finished: seq<Finished<M>>, cuts: seq<Cut<M>>, logged: seq<JumpId>)
    requires Inv(s, levels, rest + [x], finished, cuts, logged) && x.pending == []
    requires WfSetup(s) && Tracks(s, m, x.conditions)
    ensures Inv(s, levels, rest + [x.(state := m)], finished, cuts, logged)
  {
    hide Stacked, FinishedOk, CutOk, WfB, EvalB, Trusted, Tracks, Counted, Model, Extended, Explored, Weight;
    var y := x.(state := m);
    assert (rest + [x])[|rest|] == x && SnapOk(s, x);
    assert x.conditions + x.pending == x.conditions;
    StackedLevels(s, levels, rest + [x]);
    ExtendedNone(levels);
    StackedAppend(s, levels, rest, x, [], y);
    assert y.conditions + y.pending == y.conditions;
    forall v: Val | Explored(s, v)
      ensures Weight(x.conditions + x.pending, v) == LiveCount([y], v)
    {
      LiveSnoc([], y, v);
      assert [] + [y] == [y];
    }
    assert finished + [] == finished && cuts + [] == cuts;
    Replaced(s, levels, levels, rest, x, [y], finished, [], cuts, [], logged, logged);
  }

  lemma FinishedInv<M(!new)>(s: Setup<M>, levels: seq<seq<Bl>>, rest: seq<Snap<M>>, x: Snap<M>, final: Final,
                             finished: seq<Finished<M>>, cuts: seq<Cut<M>>, logged: seq<JumpId>)
    requires Inv(s, levels, rest + [x], finished, cuts, logged) && x.pending == []
    requires FinishedOk(s, Finished(x.state, x.conditions, final))
    ensures Inv(s, levels, rest, finished + [Finished(x.state, x.conditions, final)], cuts, logged)
  {
    hide Stacked, FinishedOk, CutOk, SnapOk, WfB, Trusted, Model, Explored, Weight, Splits;
    var f := Finished(x.state, x.conditions, final);
    StackedDrop(s, levels, rest, x);
    FinishedWhole(s, x, f);
    assert rest + [] == rest && cuts + [] == cuts;
    Replaced(s, levels, levels, rest, x, [], finished, [f], cuts, [], logged, logged);
  }

  /** A path that finishes as a whole. */
  lemma FinishedWhole<M(!new)>(s: Setup<M>, x: Snap<M>, f: Finished<M>)
    requires WfSetup(s) && x.pending == [] && f.conditions == x.conditions
    ensures Splits(s, x, [], [f], [])
  {
    hide Explored, Weight, Trusted, WfB;
    assert x.conditions + x.pending == x.conditions;
    forall v: Val | Explored(s, v)
      ensures Weight(x.conditions + x.pending, v) == FinishedCount([f], v)
    {
      FinishedSnoc([], f, v);
      assert [] + [f] == [f];
    }
  }

  /** A path that is cut as a whole. */
  lemma CutWhole<M(!new)>(s: Setup<M>, x: Snap<M>, c: Cut<M>)
    requires WfSetup(s) && x.pending == [] && c.conditions == x.conditions
    ensures Splits(s, x, [], [], [c])
  {
    hide Explored, Weight, Trusted, WfB;
    assert x.conditions + x.pending == x.conditions;
    forall v: Val | Explored(s, v)
      ensures Weight(x.conditions + x.pending, v) == CutCount([c], v)
    {
      CutSnoc([], c, v);
      assert [] + [c] == [c];
    }
  }

  lemma CutInv<M(!new)>(s: Setup<M>, levels: seq<seq<Bl>>, rest: seq<Snap<M>>, x: Snap<M>, news: seq<Cut<M>>,
                        finished: seq<Finished<M>>, cuts: seq<Cut<M>>, logged: seq<JumpId>, logged': seq<JumpId>)
    requires Inv(s, levels, rest + [x], finished, cuts, logged) && logged <= logged'
    requires forall i | 0 <= i < |news| :: CutOk(s, logged', news[i])
    requires Splits(s, x, [], [], news)
    ensures Inv(s, levels, rest, finished, cuts + news, logged')
  {
    hide Stacked, FinishedOk, CutOk, SnapOk, WfB, Trusted, Model, Explored, Weight, Splits;
    StackedDrop(s, levels, rest, x);
    assert rest + [] == rest && finished + [] == finished;
    Replaced(s, levels, levels, rest, x, [], finished, [], cuts, news, logged, logged');
  }

  // ---- the outcomes of a JUMPI ----

  /** The followed directions and the cuts share the valuations of the path. */
  ghost predicate Divides<M(!new)>(s: Setup<M>, conditions: seq<Bl>, cond: Bl, taken: bool, fallen: bool, news: seq<Cut<M>>)
    requires WfSetup(s)
  {
    forall v: Val | Explored(s, v) ::
      Weight(conditions, v) ==
      (if taken then Weight(conditions + [Direction(s, cond, true)], v) else 0) +
      (if fallen then Weight(conditions + [Direction(s, cond, false)], v) else 0) + CutCount(news, v)
  }

  /** The path that waits to follow one direction. */
  ghost predicate WaitsFor<M(!new)>(s: Setup<M>, levels: seq<seq<Bl>>, x: Snap<M>, cond: Bl, taken: bool, child: Snap<M>)
    requires WfSetup(s)
  {
    && child.scope == |levels| - 1
    && child.conditions == x.conditions
    && child.pending == [Direction(s, cond, taken)]
    && Tracks(s, child.state, x.conditions + child.pending)
    && Counted(s, child.jumpis, child.trail)
  }

  /** The path itself, following one direction. */
  ghost predicate Follows<M(!new)>(s: Setup<M>, x: Snap<M>, cond: Bl, taken: bool, y: Snap<M>)
    requires WfSetup(s)
  {
    && y.scope == x.scope
    && y.conditions == Appended(s.smt, x.conditions, Direction(s, cond, taken))
    && y.pending == []
    && Tracks(s, y.state, y.conditions)
    && Counted(s, y.jumpis, y.trail)
  }

  lemma FollowsOk<M(!new)>(s: Setup<M>, x: Snap<M>, cond: Bl, taken: bool, y: Snap<M>)
    requires WfSetup(s) && SnapOk(s, x) && WfB(cond) && Follows(s, x, cond, taken, y)
    ensures SnapOk(s, y)
    ensures forall v: Val :: LiveCount([y], v) == Weight(x.conditions + [Direction(s, cond, taken)], v)
  {
    hide WfB, EvalB, Trusted, Reaches, Counted, Model, Weight, Direction, Explored, Tracks;
    assert y.conditions + y.pending == y.conditions;
    forall v: Val
      ensures LiveCount([y], v) == Weight(x.conditions + [Direction(s, cond, taken)], v)
    {
      LiveSnoc([], y, v);
      assert [] + [y] == [y];
      DirectionMeans(s, cond, taken, x.conditions, v);
      AppendedWeight(s.smt, x.conditions, Direction(s, cond, taken), v);
    }
    assert WfBAll(y.conditions) by {
      assert Tracks(s, y.state, y.conditions);
      TracksWf(s, y.state, y.conditions);
    }
  }

  lemma TracksWf<M(!new)>(s: Setup<M>, m: M, conditions: seq<Bl>)
    requires WfSetup(s) && Tracks(s, m, conditions)
    ensures WfBAll(conditions)
  {
  }

  lemma ChildOk<M(!new)>(s: Setup<M>, levels: seq<seq<Bl>>, x: Snap<M>, cond: Bl, taken: bool, child: Snap<M>)
    requires WfSetup(s) && SnapOk(s, x) && WfB(cond) && WaitsFor(s, levels, x, cond, taken, child)
    ensures SnapOk(s, child)
    ensures forall v: Val :: LiveCount([child], v) == Weight(x.conditions + [Direction(s, cond, taken)], v)
  {
    hide WfB, EvalB, Trusted, Reaches, Counted, Model, Weight, Direction, Explored, Tracks;
    forall v: Val
      ensures LiveCount([child], v) == Weight(x.conditions + [Direction(s, cond, taken)], v)
    {
      LiveSnoc([], child, v);
      assert [] + [child] == [child];
    }
    DirectionMeans(s, cond, taken, x.conditions, Val(imap[], imap[], iset{}));
    assert child.pending[0] == Direction(s, cond, taken);
  }

  lemma OneInv<M(!new)>(s: Setup<M>, levels: seq<seq<Bl>>, rest: seq<Snap<M>>, x: Snap<M>, cond: Bl, taken: bool, y: Snap<M>,
                        news: seq<Cut<M>>, finished: seq<Finished<M>>, cuts: seq<Cut<M>>,
                        logged: seq<JumpId>, logged': seq<JumpId>)
    requires Inv(s, levels, rest + [x], finished, cuts, logged) && x.pending == [] && logged <= logged'
    requires WfB(cond) && Follows(s, x, cond, taken, y)
    requires WfLevels(Extended(levels, y.conditions[|x.conditions|..]))
    requires Divides(s, x.conditions, cond, taken, !taken, news)
    requires forall i | 0 <= i < |news| :: CutOk(s, logged', news[i])
    ensures Inv(s, Extended(levels, y.conditions[|x.conditions|..]), rest + [y], finished, cuts + news, logged')
  {
    hide Stacked, FinishedOk, CutOk, WfB, Trusted, Model, Explored, Weight, SnapOk, Direction, Extended;
    var added := y.conditions[|x.conditions|..];
    assert (rest + [x])[|rest|] == x && SnapOk(s, x);
    FollowsOk(s, x, cond, taken, y);
    assert y.conditions == x.conditions + added;
    StackedLevels(s, levels, rest + [x]);
    StackedAppend(s, levels, rest, x, added, y);
    assert x.conditions + x.pending == x.conditions && finished + [] == finished;
    Replaced(s, levels, Extended(levels, added), rest, x, [y], finished, [], cuts, news, logged, logged');
  }

  lemma BothInv<M(!new)>(s: Setup<M>, levels: seq<seq<Bl>>, rest: seq<Snap<M>>, x: Snap<M>, cond: Bl,
                         child: Snap<M>, y: Snap<M>,
                         news: seq<Cut<M>>, finished: seq<Finished<M>>, cuts: seq<Cut<M>>,
                         logged: seq<JumpId>, logged': seq<JumpId>)
    requires Inv(s, levels, rest + [x], finished, cuts, logged) && x.pending == [] && logged <= logged'
    requires WfB(cond) && WaitsFor(s, levels, x, cond, true, child) && Follows(s, x, cond, false, y)
    requires WfLevels(Extended(levels + [[]], y.conditions[|x.conditions|..]))
    requires Divides(s, x.conditions, cond, true, true, news)
    requires forall i | 0 <= i < |news| :: CutOk(s, logged', news[i])
    ensures Inv(s, Extended(levels + [[]], y.conditions[|x.conditions|..]), rest + [child, y], finished, cuts + news, logged')
  {
    hide Stacked, FinishedOk, CutOk, WfB, Trusted, Model, Explored, Weight, SnapOk, Direction, Extended;
    var added := y.conditions[|x.conditions|..];
    assert (rest + [x])[|rest|] == x && SnapOk(s, x);
    FollowsOk(s, x, cond, false, y);
    ChildOk(s, levels, x, cond, true, child);
    assert y.conditions == x.conditions + added;
    StackedPush(s, levels, rest, x, child);
    StackedAppend(s, levels + [[]], rest + [child], x, added, y);
    assert (rest + [child]) + [y] == rest + [child, y];
    forall v: Val
      ensures LiveCount([child, y], v) == LiveCount([child], v) + LiveCount([y], v)
    {
      LiveAppend([child], [y], v);
      assert [child] + [y] == [child, y];
    }
    assert x.conditions + x.pending == x.conditions && finished + [] == finished;
    Replaced(s, levels, Extended(levels + [[]], added), rest, x, [child, y], finished, [], cuts, news, logged, logged');
  }

  lemma BadEnding<M(!new)>(s: Setup<M>, x: Snap<M>, cond: Bl, y: Snap<M>)
    requires WfSetup(s) && SnapOk(s, x) && WfB(cond) && Follows(s, x, cond, true, y)
    ensures forall v: Val :: FinishedCount([Finished(y.state, y.conditions, Ended(BadJump))], v) ==
                             Weight(x.conditions + [Direction(s, cond, true)], v)
  {
    hide WfB, Trusted, Model, Explored, Weight, Direction, SnapOk;
    var f := Finished(y.state, y.conditions, Ended(BadJump));
    FollowsOk(s, x, cond, true, y);
    assert y.conditions + y.pending == y.conditions;
    forall v: Val
      ensures FinishedCount([f], v) == Weight(x.conditions + [Direction(s, cond, true)], v)
    {
      FinishedSnoc([], f, v);
      LiveSnoc([], y, v);
      assert [] + [f] == [f] && [] + [y] == [y];
    }
  }

  /** The path takes an invalid jump and ends. */
  lemma BadJumpInv<M(!new)>(s: Setup<M>, levels: seq<seq<Bl>>, rest: seq<Snap<M>>, x: Snap<M>, cond: Bl, y: Snap<M>,
                            news: seq<Cut<M>>, finished: seq<Finished<M>>, cuts: seq<Cut<M>>,
                            logged: seq<JumpId>, logged': seq<JumpId>)
    requires Inv(s, levels, rest + [x], finished, cuts, logged) && x.pending == [] && logged <= logged'
    requires WfB(cond) && Follows(s, x, cond, true, y)
    requires FinishedOk(s, Finished(y.state, y.conditions, Ended(BadJump)))
    requires levels != [] && WfLevels(Extended(levels, y.conditions[|x.conditions|..]))
    requires Divides(s, x.conditions, cond, true, false, news)
    requires forall i | 0 <= i < |news| :: CutOk(s, logged', news[i])
    ensures Inv(s, Extended(levels, y.conditions[|x.conditions|..]), rest,
                finished + [Finished(y.state, y.conditions, Ended(BadJump))], cuts + news, logged')
  {
    hide Stacked, FinishedOk, CutOk, WfB, Trusted, Model, Explored, Weight, SnapOk, Direction, Extended, WfLevels;
    var added := y.conditions[|x.conditions|..];
    assert (rest + [x])[|rest|] == x && SnapOk(s, x);
    BadEnding(s, x, cond, y);
    assert y.conditions == x.conditions + added;
    assert x.conditions + x.pending == x.conditions;
    StackedAppend(s, levels, rest, x, added, y);
    StackedDrop(s, Extended(levels, added), rest, y);
    assert rest + [] == rest;
    Replaced(s, levels, Extended(levels, added), rest, x, [], finished, [Finished(y.state, y.conditions, Ended(BadJump))],
             cuts, news, logged, logged');
  }

  /** The path takes an invalid jump and ends; another path waits to fall through. */
  lemma BadJumpBranchInv<M(!new)>(s: Setup<M>, levels: seq<seq<Bl>>, rest: seq<Snap<M>>, x: Snap<M>, cond: Bl,
                                  child: Snap<M>, y: Snap<M>,
                                  news: seq<Cut<M>>, finished: seq<Finished<M>>, cuts: seq<Cut<M>>,
                                  logged: seq<JumpId>, logged': seq<JumpId>)
    requires Inv(s, levels, rest + [x], finished, cuts, logged) && x.pending == [] && logged <= logged'
    requires WfB(cond) && Follows(s, x, cond, true, y) && WaitsFor(s, levels, x, cond, false, child)
    requires FinishedOk(s, Finished(y.state, y.conditions, Ended(BadJump)))
    requires WfLevels(Extended(levels + [[]], y.conditions[|x.conditions|..]))
    requires Divides(s, x.conditions, cond, true, true, news)
    requires forall i | 0 <= i < |news| :: CutOk(s, logged', news[i])
    ensures Inv(s, Extended(levels + [[]], y.conditions[|x.conditions|..]), rest + [child],
                finished + [Finished(y.state, y.conditions, Ended(BadJump))], cuts + news, logged')
  {
    hide Stacked, FinishedOk, CutOk, WfB, Trusted, Model, Explored, Weight, SnapOk, Direction, Extended, WfLevels;
    var added := y.conditions[|x.conditions|..];
    assert (rest + [x])[|rest|] == x && SnapOk(s, x);
    BadEnding(s, x, cond, y);
    ChildOk(s, levels, x, cond, false, child);
    assert y.conditions == x.conditions + added;
    assert x.conditions + x.pending == x.conditions;
    StackedPush(s, levels, rest, x, child);
    StackedAppend(s, levels + [[]], rest + [child], x, added, y);
    StackedDrop(s, Extended(levels + [[]], added), rest + [child], y);
    Replaced(s, levels, Extended(levels + [[]], added), rest, x, [child], finished,
             [Finished(y.state, y.conditions, Ended(BadJump))], cuts, news, logged, logged');
  }

  lemma LoggedInv<M(!new)>(s: Setup<M>, levels: seq<seq<Bl>>, live: seq<Snap<M>>, finished: seq<Finished<M>>,
                           cuts: seq<Cut<M>>, logged: seq<JumpId>, logged': seq<JumpId>)
    requires Inv(s, levels, live, finished, cuts, logged) && logged <= logged'
    ensures Inv(s, levels, live, finished, cuts, logged')
  {
    hide WfSetup, Stacked, SnapOk, FinishedOk, CutOk, Explored;
    forall i | 0 <= i < |cuts|
      ensures WfSetup(s) && CutOk(s, logged', cuts[i])
    {
      CutStays(s, logged, logged', cuts[i]);
    }
  }

  /** The counters and the trail after following a direction; only symbolic branches count. */
  function NextJumpis(jumpis: map<JumpId, Visits>, id: JumpId, taken: bool, symbolic: bool): map<JumpId, Visits> {
    if symbolic then Bumped(jumpis, id, taken) else jumpis
  }

  function NextTrail(trail: multiset<(JumpId, bool)>, id: JumpId, taken: bool, symbolic: bool): multiset<(JumpId, bool)> {
    if symbolic then trail + multiset{(id, taken)} else trail
  }

  lemma NextCounts<M(!new)>(s: Setup<M>, jumpis: map<JumpId, Visits>, trail: multiset<(JumpId, bool)>, id: JumpId,
                            taken: bool, symbolic: bool)
    requires Counted(s, jumpis, trail) && (symbolic ==> WithinBound(s, jumpis, id, taken))
    ensures Counted(s, NextJumpis(jumpis, id, taken, symbolic), NextTrail(trail, id, taken, symbolic))
  {
    if symbolic {
      BumpedCounts(s, jumpis, trail, id, taken);
    }
  }

  lemma MakesFollow<M(!new)>(s: Setup<M>, x: Snap<M>, taken: bool, symbolic: bool, y: Snap<M>)
    requires WfSetup(s) && SnapOk(s, x) && x.pending == [] && s.program.instr(x.state).Branch?
    requires var i := s.program.instr(x.state);
      && (taken ==> i.target in i.valid)
      && (symbolic ==> WithinBound(s, x.jumpis, i.id, taken))
      && y == Followed(s, x, taken, symbolic)
    ensures Follows(s, x, s.program.instr(x.state).cond, taken, y)
  {
    hide Tracks, Counted, WfB, Trusted, Direction, Appended, Explored, NextJumpis, NextTrail, WithinBound, Model;
    var i := s.program.instr(x.state);
    assert WfInstr(s.program, i);
    assert x.conditions + x.pending == x.conditions;
    DirectionTracks(s, x.state, x.conditions, taken);
    DirectionMeans(s, i.cond, taken, x.conditions, Val(imap[], imap[], iset{}));
    AppendedTracks(s, y.state, x.conditions, Direction(s, i.cond, taken));
    NextCounts(s, x.jumpis, x.trail, i.id, taken, symbolic);
  }

  lemma MakesChild<M(!new)>(s: Setup<M>, levels: seq<seq<Bl>>, x: Snap<M>, taken: bool, symbolic: bool, child: Snap<M>)
    requires WfSetup(s) && SnapOk(s, x) && x.pending == [] && s.program.instr(x.state).Branch? && levels != []
    requires var i := s.program.instr(x.state);
      && (taken ==> i.target in i.valid)
      && (symbolic ==> WithinBound(s, x.jumpis, i.id, taken))
      && child == Waiting(s, x, |levels| - 1, taken, symbolic)
    ensures WaitsFor(s, levels, x, s.program.instr(x.state).cond, taken, child)
  {
    hide Tracks, Counted, WfB, Trusted, Direction, Appended, Explored, NextJumpis, NextTrail, WithinBound, Model;
    assert x.conditions + x.pending == x.conditions;
    DirectionTracks(s, x.state, x.conditions, taken);
    NextCounts(s, x.jumpis, x.trail, s.program.instr(x.state).id, taken, symbolic);
  }

  lemma MakesBadJump<M(!new)>(s: Setup<M>, x: Snap<M>, y: Snap<M>)
    requires WfSetup(s) && SnapOk(s, x) && x.pending == [] && s.program.instr(x.state).Branch?
    requires var i := s.program.instr(x.state);
      i.target !in i.valid && y == x.(conditions := Appended(s.smt, x.conditions, Direction(s, i.cond, true)))
    ensures Follows(s, x, s.program.instr(x.state).cond, true, y)
    ensures FinishedOk(s, Finished(y.state, y.conditions, Ended(BadJump)))
  {
    hide Tracks, Counted, WfB, Trusted, Direction, Appended, Explored, Model, Execute, EvalB;
    var i := s.program.instr(x.state);
    var dir := Direction(s, i.cond, true);
    assert x.conditions + x.pending == x.conditions;
    DirectionTracks(s, x.state, x.conditions, true);
    DirectionMeans(s, i.cond, true, x.conditions, Val(imap[], imap[], iset{}));
    AppendedTracks(s, y.state, x.conditions, dir);
    forall v: Val
      ensures WfBAll(y.conditions) && (Model(y.conditions, v) <==> Model(x.conditions + [dir], v))
    {
      AppendedWeight(s.smt, x.conditions, dir, v);
    }
  }

  // ---- the decision at a JUMPI ----

  /** The directions that are possible but beyond the unrolling bound. */
  function BoundCuts<M>(s: Setup<M>, x: Snap<M>, levels: seq<seq<Bl>>, taken: bool, fallen: bool): seq<Cut<M>>
    requires s.program.instr(x.state).Branch?
  {
    (if taken then [BoundCut(s, x, levels, true)] else []) + (if fallen then [BoundCut(s, x, levels, false)] else [])
  }

  function BoundCut<M>(s: Setup<M>, x: Snap<M>, levels: seq<seq<Bl>>, taken: bool): Cut<M>
    requires s.program.instr(x.state).Branch?
  {
    var i := s.program.instr(x.state);
    Cut(x.state, x.conditions + [Direction(s, i.cond, taken)], Bounded(i.id, taken, x, levels))
  }

  lemma BoundCutOk<M(!new)>(s: Setup<M>, x: Snap<M>, levels: seq<seq<Bl>>, taken: bool, logged: seq<JumpId>)
    requires WfSetup(s) && AtBound(s, x, levels, taken) && s.program.instr(x.state).id in logged
    ensures CutOk(s, logged, BoundCut(s, x, levels, taken))
  {
    hide Tracks, Counted, WfB, Trusted, Direction, Explored, Model, Execute, EvalB, Mirrors, Symbolic, Possible,
         WithinBound;
    assert x.conditions + x.pending == x.conditions;
    DirectionTracks(s, x.state, x.conditions, taken);
  }

  lemma BoundCutsOk<M(!new)>(s: Setup<M>, x: Snap<M>, levels: seq<seq<Bl>>, taken: bool, fallen: bool, logged: seq<JumpId>)
    requires WfSetup(s) && s.program.instr(x.state).Branch?
    requires taken ==> AtBound(s, x, levels, true) && s.program.instr(x.state).id in logged
    requires fallen ==> AtBound(s, x, levels, false) && s.program.instr(x.state).id in logged
    ensures AllCutOk(s, logged, BoundCuts(s, x, levels, taken, fallen))
  {
    hide CutOk, AtBound, BoundCut, WfSetup;
    if taken {
      BoundCutOk(s, x, levels, true, logged);
    }
    if fallen {
      BoundCutOk(s, x, levels, false, logged);
    }
  }

  ghost predicate AllCutOk<M(!new)>(s: Setup<M>, logged: seq<JumpId>, news: seq<Cut<M>>)
    requires WfSetup(s)
  {
    forall k | 0 <= k < |news| :: CutOk(s, logged, news[k])
  }

  /** A direction that is not possible holds of no valuation of the path. */
  ghost predicate RuledOut<M(!new)>(s: Setup<M>, conditions: seq<Bl>, cond: Bl, possible: bool, taken: bool)
    requires WfSetup(s)
  {
    && WfBAll(conditions) && WfB(Direction(s, cond, taken))
    && (!possible ==> forall v: Val | Explored(s, v) && Model(conditions, v) :: !EvalB(Direction(s, cond, taken), v))
  }

  lemma FollowMeans<M>(s: Setup<M>, x: Snap<M>, levels: seq<seq<Bl>>, taken: bool, possible: bool, symbolic: bool)
    requires s.program.instr(x.state).Branch?
    requires var cond := s.program.instr(x.state).cond;
      possible == Possible(s, levels, x.conditions, cond, taken) && symbolic == Symbolic(s, levels, x.conditions, cond)
    ensures var follow := possible && (symbolic ==> WithinBound(s, x.jumpis, s.program.instr(x.state).id, taken));
      && follow == Follow(s, x, levels, taken)
      && (possible && !follow) == CutAt(s, x, levels, taken)
      && (CutAt(s, x, levels, taken) ==> symbolic)
  {
    hide Possible, Symbolic, WithinBound;
  }

  lemma BoundCutsBounded<M>(s: Setup<M>, x: Snap<M>, levels: seq<seq<Bl>>, taken: bool, fallen: bool)
    requires s.program.instr(x.state).Branch?
    ensures var news := BoundCuts(s, x, levels, taken, fallen);
      (!taken && !fallen ==> news == []) && forall k | 0 <= k < |news| :: news[k].reason.Bounded?
  {
    hide Direction;
  }

  /** What is followed and what is cut make up the path. */
  lemma JumpiReady<M(!new)>(s: Setup<M>, x: Snap<M>, levels: seq<seq<Bl>>, possibleTrue: bool, possibleFalse: bool,
                            logged: seq<JumpId>)
    requires WfSetup(s) && SnapOk(s, x) && x.pending == [] && Mirrors(s, levels, x.conditions)
    requires s.program.instr(x.state).Branch?
    requires var i := s.program.instr(x.state);
      && RuledOut(s, x.conditions, i.cond, possibleTrue, true) && RuledOut(s, x.conditions, i.cond, possibleFalse, false)
      && possibleTrue == Possible(s, levels, x.conditions, i.cond, true)
      && possibleFalse == Possible(s, levels, x.conditions, i.cond, false)
      && (CutAt(s, x, levels, true) || CutAt(s, x, levels, false) ==> i.id in logged)
    ensures var news := BoundCuts(s, x, levels, CutAt(s, x, levels, true), CutAt(s, x, levels, false));
      && AllCutOk(s, logged, news)
      && Divides(s, x.conditions, s.program.instr(x.state).cond,
                 Follow(s, x, levels, true), Follow(s, x, levels, false), news)
  {
    hide SnapOk, Mirrors, WfSetup, Possible, Symbolic, WithinBound, AllCutOk, Divides, BoundCuts, Explored, Model,
         EvalB, WfB, Direction;
    JumpiDivides(s, x, levels, possibleTrue, possibleFalse, Follow(s, x, levels, true), Follow(s, x, levels, false));
    BoundCutsOk(s, x, levels, CutAt(s, x, levels, true), CutAt(s, x, levels, false), logged);
  }

  /** Impossible directions stand for no valuation, the others are followed or cut. */
  lemma JumpiDivides<M(!new)>(s: Setup<M>, x: Snap<M>, levels: seq<seq<Bl>>, possibleTrue: bool, possibleFalse: bool,
                              taken: bool, fallen: bool)
    requires WfSetup(s) && SnapOk(s, x) && s.program.instr(x.state).Branch?
    requires (taken ==> possibleTrue) && (fallen ==> possibleFalse)
    requires var cond := s.program.instr(x.state).cond;
      RuledOut(s, x.conditions, cond, possibleTrue, true) && RuledOut(s, x.conditions, cond, possibleFalse, false)
    ensures Divides(s, x.conditions, s.program.instr(x.state).cond, taken, fallen,
                    BoundCuts(s, x, levels, possibleTrue && !taken, possibleFalse && !fallen))
  {
    hide Tracks, Counted, WfB, Trusted, Direction, Explored, Model, Execute, EvalB, CutCount, BoundCuts;
    var i := s.program.instr(x.state);
    assert WfInstr(s.program, i);
    var cutTrue, cutFalse := possibleTrue && !taken, possibleFalse && !fallen;
    forall v: Val | Explored(s, v)
      ensures Weight(x.conditions, v) ==
              (if taken then Weight(x.conditions + [Direction(s, i.cond, true)], v) else 0) +
              (if fallen then Weight(x.conditions + [Direction(s, i.cond, false)], v) else 0) +
              CutCount(BoundCuts(s, x, levels, cutTrue, cutFalse), v)
    {
      DirectionMeans(s, i.cond, true, x.conditions, v);
      DirectionMeans(s, i.cond, false, x.conditions, v);
      BoundCutsCount(s, x, levels, cutTrue, cutFalse, v);
    }
  }

  lemma BoundCutsCount<M>(s: Setup<M>, x: Snap<M>, levels: seq<seq<Bl>>, taken: bool, fallen: bool, v: Val)
    requires s.program.instr(x.state).Branch?
    ensures var cond := s.program.instr(x.state).cond;
      CutCount(BoundCuts(s, x, levels, taken, fallen), v) ==
      (if taken then Weight(x.conditions + [Direction(s, cond, true)], v) else 0) +
      (if fallen then Weight(x.conditions + [Direction(s, cond, false)], v) else 0)
  {
    hide Weight, Direction;
    var a, b := BoundCut(s, x, levels, true), BoundCut(s, x, levels, false);
    CutAppend(if taken then [a] else [], if fallen then [b] else [], v);
    CutSnoc([], a, v);
    CutSnoc([], b, v);
    assert [] + [a] == [a] && [] + [b] == [b];
  }

  // ---- the paths after a JUMPI ----

  /** A new path that waits to follow one direction. */
  function Waiting<M>(s: Setup<M>, x: Snap<M>, scope: nat, taken: bool, symbolic: bool): Snap<M>
    requires s.program.instr(x.state).Branch?
  {
    var i := s.program.instr(x.state);
    Snap(if taken then i.taken else i.fallen,
         NextJumpis(x.jumpis, i.id, taken, symbolic), NextTrail(x.trail, i.id, taken, symbolic),
         scope, x.conditions, [Direction(s, i.cond, taken)])
  }

  /** The path itself, after following one direction. */
  function Followed<M>(s: Setup<M>, x: Snap<M>, taken: bool, symbolic: bool): Snap<M>
    requires s.program.instr(x.state).Branch?
  {
    var i := s.program.instr(x.state);
    Snap(if taken then i.past else i.fallen,
         NextJumpis(x.jumpis, i.id, taken, symbolic), NextTrail(x.trail, i.id, taken, symbolic),
         x.scope, Appended(s.smt, x.conditions, Direction(s, i.cond, taken)), [])
  }

  /** The paths that go on; one that jumps to an invalid destination does not. */
  function Followers<M>(s: Setup<M>, x: Snap<M>, scope: nat, taken: bool, fallen: bool, symbolic: bool): seq<Snap<M>>
    requires s.program.instr(x.state).Branch?
  {
    if taken && BadTarget(s, x) then (if fallen then [Waiting(s, x, scope, false, symbolic)] else [])
    else if taken && fallen then [Waiting(s, x, scope, true, symbolic), Followed(s, x, false, symbolic)]
    else if taken || fallen then [Followed(s, x, taken, symbolic)]
    else []
  }

  predicate BadTarget<M>(s: Setup<M>, x: Snap<M>)
    requires s.program.instr(x.state).Branch?
  {
    s.program.instr(x.state).target !in s.program.instr(x.state).valid
  }

  /** The direction is followed: the unrolling bound does not apply to decided branches. */
  predicate Follow<M>(s: Setup<M>, x: Snap<M>, levels: seq<seq<Bl>>, taken: bool)
    requires s.program.instr(x.state).Branch?
  {
    var i := s.program.instr(x.state);
    && Possible(s, levels, x.conditions, i.cond, taken)
    && (Symbolic(s, levels, x.conditions, i.cond) ==> WithinBound(s, x.jumpis, i.id, taken))
  }

  /** The path ends at the invalid destination. */
  function BadEnd<M>(s: Setup<M>, x: Snap<M>): Finished<M>
    requires s.program.instr(x.state).Branch?
  {
    Finished(x.state, Appended(s.smt, x.conditions, Direction(s, s.program.instr(x.state).cond, true)), Ended(BadJump))
  }

  // ---- steps of a JUMPI ----

  lemma OneSteps<M(!new)>(s: Setup<M>, levels: seq<seq<Bl>>, rest: seq<Snap<M>>, x: Snap<M>, taken: bool, symbolic: bool,
                          news: seq<Cut<M>>, finished: seq<Finished<M>>, cuts: seq<Cut<M>>, logged: seq<JumpId>)
    requires WfSetup(s) && Inv(s, levels, rest + [x], finished, cuts, logged) && SnapOk(s, x) && x.pending == []
    requires s.program.instr(x.state).Branch? && AllCutOk(s, logged, news)
    requires var i := s.program.instr(x.state);
      && WfB(i.cond) && (taken ==> i.target in i.valid) && (symbolic ==> WithinBound(s, x.jumpis, i.id, taken))
      && Divides(s, x.conditions, i.cond, taken, !taken, news)
    requires levels != [] && WfLevels(Extended(levels, Followed(s, x, taken, symbolic).conditions[|x.conditions|..]))
    ensures Inv(s, Extended(levels, Followed(s, x, taken, symbolic).conditions[|x.conditions|..]),
                rest + [Followed(s, x, taken, symbolic)], finished, cuts + news, logged)
  {
    hide Inv, SnapOk, Divides, CutOk, WfSetup, WithinBound, Follows, WfB, Appended, Extended, WfLevels, Followed;
    var y := Followed(s, x, taken, symbolic);
    MakesFollow(s, x, taken, symbolic, y);
    OneInv(s, levels, rest, x, s.program.instr(x.state).cond, taken, y, news, finished, cuts, logged, logged);
  }

  lemma BothSteps<M(!new)>(s: Setup<M>, levels: seq<seq<Bl>>, rest: seq<Snap<M>>, x: Snap<M>, symbolic: bool,
                           news: seq<Cut<M>>, finished: seq<Finished<M>>, cuts: seq<Cut<M>>, logged: seq<JumpId>)
    requires WfSetup(s) && Inv(s, levels, rest + [x], finished, cuts, logged) && SnapOk(s, x) && x.pending == []
    requires s.program.instr(x.state).Branch? && AllCutOk(s, logged, news)
    requires var i := s.program.instr(x.state);
      && WfB(i.cond) && i.target in i.valid
      && (symbolic ==> WithinBound(s, x.jumpis, i.id, true) && WithinBound(s, x.jumpis, i.id, false))
      && Divides(s, x.conditions, i.cond, true, true, news)
    requires levels != [] && WfLevels(Extended(levels + [[]], Followed(s, x, false, symbolic).conditions[|x.conditions|..]))
    ensures Inv(s, Extended(levels + [[]], Followed(s, x, false, symbolic).conditions[|x.conditions|..]),
                rest + [Waiting(s, x, |levels| - 1, true, symbolic), Followed(s, x, false, symbolic)],
                finished, cuts + news, logged)
  {
    hide Inv, SnapOk, Divides, CutOk, WfSetup, WithinBound, Follows, WaitsFor, WfB, Appended, Extended, WfLevels, Followed,
         Waiting;
    var child, y := Waiting(s, x, |levels| - 1, true, symbolic), Followed(s, x, false, symbolic);
    MakesChild(s, levels, x, true, symbolic, child);
    MakesFollow(s, x, false, symbolic, y);
    BothInv(s, levels, rest, x, s.program.instr(x.state).cond, child, y, news, finished, cuts, logged, logged);
  }

  lemma BadJumpSteps<M(!new)>(s: Setup<M>, levels: seq<seq<Bl>>, rest: seq<Snap<M>>, x: Snap<M>, fallen: bool, symbolic: bool,
                              news: seq<Cut<M>>, finished: seq<Finished<M>>, cuts: seq<Cut<M>>, logged: seq<JumpId>)
    requires WfSetup(s) && Inv(s, levels, rest + [x], finished, cuts, logged) && SnapOk(s, x) && x.pending == []
    requires s.program.instr(x.state).Branch? && AllCutOk(s, logged, news)
    requires var i := s.program.instr(x.state);
      && WfB(i.cond) && i.target !in i.valid && (fallen && symbolic ==> WithinBound(s, x.jumpis, i.id, false))
      && Divides(s, x.conditions, i.cond, true, fallen, news)
    requires levels != [] && WfLevels(Extended(Pushed(levels, fallen), BadEnd(s, x).conditions[|x.conditions|..]))
    ensures Inv(s, Extended(Pushed(levels, fallen), BadEnd(s, x).conditions[|x.conditions|..]),
                rest + (if fallen then [Waiting(s, x, |levels| - 1, false, symbolic)] else []),
                finished + [BadEnd(s, x)], cuts + news, logged)
  {
    hide Inv, SnapOk, Divides, CutOk, WfSetup, WithinBound, Follows, WaitsFor, WfB, Appended, Extended, WfLevels, Waiting,
         FinishedOk;
    var i := s.program.instr(x.state);
    var y := x.(conditions := BadEnd(s, x).conditions);
    MakesBadJump(s, x, y);
    if fallen {
      var child := Waiting(s, x, |levels| - 1, false, symbolic);
      MakesChild(s, levels, x, false, symbolic, child);
      BadJumpBranchInv(s, levels, rest, x, i.cond, child, y, news, finished, cuts, logged, logged);
    } else {
      BadJumpInv(s, levels, rest, x, i.cond, y, news, finished, cuts, logged, logged);
      assert rest + [] == rest;
    }
  }

  function Pushed(levels: seq<seq<Bl>>, pushed: bool): seq<seq<Bl>> {
    if pushed then levels + [[]] else levels
  }

  /** What has been yielded, what is not followed, and the bounded loops. */
  datatype Record<M> = Record(finished: seq<Finished<M>>, cuts: seq<Cut<M>>, logged: seq<JumpId>)

  /** All that a JUMPI does: the paths that go on, the one that ends, and the directions that are cut. */
  ghost predicate Jumped<M(!new)>(s: Setup<M>, x: Snap<M>, levels: seq<seq<Bl>>, rest: seq<Snap<M>>, was: Record<M>,
                                  live: seq<Snap<M>>, now: Record<M>)
    requires s.program.instr(x.state).Branch? && levels != []
  {
    var i := s.program.instr(x.state);
    var taken, fallen := Follow(s, x, levels, true), Follow(s, x, levels, false);
    var cutTrue, cutFalse := CutAt(s, x, levels, true), CutAt(s, x, levels, false);
    && live == rest + Followers(s, x, |levels| - 1, taken, fallen, Symbolic(s, levels, x.conditions, i.cond))
    && now.finished == was.finished + (if taken && BadTarget(s, x) then [BadEnd(s, x)] else [])
    && now.cuts == was.cuts + BoundCuts(s, x, levels, cutTrue, cutFalse)
    && now.logged == was.logged + if cutTrue || cutFalse then [i.id] else []
  }

  lemma JumpedBy<M(!new)>(s: Setup<M>, x: Snap<M>, levels: seq<seq<Bl>>, rest: seq<Snap<M>>, was: Record<M>,
                          taken: bool, fallen: bool, symbolic: bool, live: seq<Snap<M>>, now: Record<M>)
    requires s.program.instr(x.state).Branch? && levels != []
    requires taken == Follow(s, x, levels, true) && fallen == Follow(s, x, levels, false)
    requires symbolic == Symbolic(s, levels, x.conditions, s.program.instr(x.state).cond)
    requires live == rest + Followers(s, x, |levels| - 1, taken, fallen, symbolic)
    requires now.finished == was.finished + if taken && BadTarget(s, x) then [BadEnd(s, x)] else []
    requires now.cuts == was.cuts + BoundCuts(s, x, levels, CutAt(s, x, levels, true), CutAt(s, x, levels, false))
    requires now.logged == was.logged +
               if CutAt(s, x, levels, true) || CutAt(s, x, levels, false) then [s.program.instr(x.state).id] else []
    ensures Jumped(s, x, levels, rest, was, live, now)
  {
  }

  /** A decided branch goes on in that direction alone, uncounted and uncut, whatever the counters are. */
  lemma DecidedFollows<M>(s: Setup<M>, x: Snap<M>, levels: seq<seq<Bl>>, taken: bool)
    requires s.program.instr(x.state).Branch?
    requires Decided(s, levels, x.conditions, s.program.instr(x.state).cond, taken)
    ensures var i := s.program.instr(x.state); var scope := |levels|;
      && Follow(s, x, levels, taken) && !Follow(s, x, levels, !taken)
      && !Symbolic(s, levels, x.conditions, i.cond)
      && BoundCuts(s, x, levels, CutAt(s, x, levels, true), CutAt(s, x, levels, false)) == []
      && Followers(s, x, scope, Follow(s, x, levels, true), Follow(s, x, levels, false), false) ==
         if taken && BadTarget(s, x) then []
         else [Snap(if taken then i.past else i.fallen, x.jumpis, x.trail, x.scope,
                    Appended(s.smt, x.conditions, Direction(s, i.cond, taken)), [])]
  {
    hide AnswerOf, Direction, Appended;
  }

  /** The direction is possible, but not followed. */
  predicate CutAt<M>(s: Setup<M>, x: Snap<M>, levels: seq<seq<Bl>>, taken: bool)
    requires s.program.instr(x.state).Branch?
  {
    Possible(s, levels, x.conditions, s.program.instr(x.state).cond, taken) && !Follow(s, x, levels, taken)
  }

  /** Where a branch is not decided, a possible direction is followed and counted exactly if its counter is below the bound. */
  lemma SymbolicFollows<M>(s: Setup<M>, x: Snap<M>, levels: seq<seq<Bl>>, taken: bool)
    requires s.program.instr(x.state).Branch?
    requires var cond := s.program.instr(x.state).cond;
      Symbolic(s, levels, x.conditions, cond) && Possible(s, levels, x.conditions, cond, taken)
    ensures var id := s.program.instr(x.state).id; var visits := VisitsOf(x.jumpis, id);
      && (Follow(s, x, levels, taken) <==> (if taken then visits.taken else visits.fallen) < s.loop)
      && (CutAt(s, x, levels, taken) <==> s.loop <= if taken then visits.taken else visits.fallen)
      && VisitsOf(Followed(s, x, taken, true).jumpis, id) ==
         Visits(visits.taken + (if taken then 1 else 0), visits.fallen + if taken then 0 else 1)
      && (forall scope: nat :: Waiting(s, x, scope, taken, true).jumpis == Followed(s, x, taken, true).jumpis)
      && (forall other: JumpId | other != id ::
            VisitsOf(Followed(s, x, taken, true).jumpis, other) == VisitsOf(x.jumpis, other))
  {
    hide AnswerOf, Direction, Appended;
  }

  // ---- the outcomes of a symbolic JUMP ----

  function JumpsTo(dst: Bv, target: nat): Bl {
    Rel(Eq, dst, Num(WORD, target))
  }

  /** The jump goes to none of the targets. */
  function Elsewhere(dst: Bv, targets: seq<nat>): seq<Bl> {
    seq(|targets|, i requires 0 <= i < |targets| => Not(JumpsTo(dst, targets[i])))
  }

  lemma JumpsToMeans(dst: Bv, target: nat, v: Val)
    requires Wf(dst) && dst.w == WORD && target < Pow2(WORD)
    ensures WfB(JumpsTo(dst, target)) && (EvalB(JumpsTo(dst, target), v) <==> Eval(dst, v) == target)
    ensures WfB(Not(JumpsTo(dst, target))) && (EvalB(Not(JumpsTo(dst, target)), v) <==> Eval(dst, v) != target)
  {
    hide Pow2;
    assert Wf(Num(WORD, target)) && Eval(Num(WORD, target), v) == target;
    assert WfB(JumpsTo(dst, target));
  }

  lemma ElsewhereMeans(dst: Bv, targets: seq<nat>, v: Val)
    requires Wf(dst) && dst.w == WORD && forall i | 0 <= i < |targets| :: targets[i] < Pow2(WORD)
    ensures WfBAll(Elsewhere(dst, targets))
    ensures Model(Elsewhere(dst, targets), v) <==> Eval(dst, v) !in targets
  {
    hide Pow2, Wf, Eval, EvalB, WfB, JumpsTo;
    forall i | 0 <= i < |targets|
      ensures WfB(Elsewhere(dst, targets)[i])
      ensures EvalB(Elsewhere(dst, targets)[i], v) <==> Eval(dst, v) != targets[i]
    {
      JumpsToMeans(dst, targets[i], v);
    }
  }

  /** One child for each target. */
  ghost predicate JumpChildren<M>(x: Snap<M>, dst: Bv, targets: seq<nat>, children: seq<Snap<M>>) {
    && |children| == |targets|
    && forall i | 0 <= i < |targets| ::
         children[i].conditions == x.conditions && children[i].pending == [JumpsTo(dst, targets[i])]
  }

  lemma ElsewhereWeight(conditions: seq<Bl>, dst: Bv, targets: seq<nat>, v: Val)
    requires WfBAll(conditions) && Wf(dst) && dst.w == WORD
    requires forall i | 0 <= i < |targets| :: targets[i] < Pow2(WORD)
    ensures WfBAll(conditions + Elsewhere(dst, targets))
    ensures Model(conditions + Elsewhere(dst, targets), v) <==> Model(conditions, v) && Eval(dst, v) !in targets
  {
    hide Pow2, Wf, Eval, EvalB, WfB, JumpsTo, Elsewhere;
    ElsewhereMeans(dst, targets, v);
    ModelAppend(conditions, Elsewhere(dst, targets), v);
  }

  lemma JumpWeight(conditions: seq<Bl>, dst: Bv, target: nat, v: Val)
    requires WfBAll(conditions) && Wf(dst) && dst.w == WORD && target < Pow2(WORD)
    ensures WfBAll(conditions + [JumpsTo(dst, target)])
    ensures Model(conditions + [JumpsTo(dst, target)], v) <==> Model(conditions, v) && Eval(dst, v) == target
  {
    hide Pow2, Wf, Eval, EvalB, WfB, JumpsTo;
    JumpsToMeans(dst, target, v);
    ModelOne(JumpsTo(dst, target), v);
    ModelAppend(conditions, [JumpsTo(dst, target)], v);
  }

  /** The children and the jumps elsewhere share the valuations of the path. */
  lemma {:induction false} JumpSplits<M>(x: Snap<M>, dst: Bv, targets: seq<nat>, children: seq<Snap<M>>, v: Val)
    requires WfBAll(x.conditions) && Wf(dst) && dst.w == WORD
    requires forall i | 0 <= i < |targets| :: targets[i] < Pow2(WORD)
    requires forall i, j | 0 <= i < j < |targets| :: targets[i] != targets[j]
    requires JumpChildren(x, dst, targets, children)
    ensures LiveCount(children, v) + Weight(x.conditions + Elsewhere(dst, targets), v) == Weight(x.conditions, v)
    decreases |targets|
  {
    hide Pow2, Wf, Eval, EvalB, WfB, JumpsTo, Elsewhere, WfBAll, Model;
    ElsewhereWeight(x.conditions, dst, targets, v);
    if targets != [] {
      var n := |targets| - 1;
      JumpSplits(x, dst, targets[..n], children[..n], v);
      ElsewhereWeight(x.conditions, dst, targets[..n], v);
      JumpWeight(x.conditions, dst, targets[n], v);
      assert targets == targets[..n] + [targets[n]];
      assert targets[n] !in targets[..n];
    }
  }

  lemma IndexOfUnique(s: seq<nat>, i: nat)
    requires i < |s| && forall j, k | 0 <= j < k < |s| :: s[j] != s[k]
    ensures IndexOf(s, s[i]) == i
  {
  }

  /** A path that waits to jump to a valid destination will be there. */
  lemma JumpTracks<M(!new)>(s: Setup<M>, m: M, conditions: seq<Bl>, k: nat)
    requires WfSetup(s) && Tracks(s, m, conditions) && s.program.instr(m).Goto?
    requires k < |s.program.instr(m).dests| && k < |s.program.instr(m).landed|
    ensures var i := s.program.instr(m); var cs := conditions + [JumpsTo(i.dst, i.dests[k])];
      WfB(JumpsTo(i.dst, i.dests[k])) && WfBAll(cs) && Tracks(s, i.landed[k], cs)
  {
    hide Pow2, Wf, Eval, WfB, Explored, Reaches, Trusted, EvalB, JumpsTo;
    var i := s.program.instr(m);
    assert WfInstr(s.program, i);
    var cond := JumpsTo(i.dst, i.dests[k]);
    JumpsToMeans(i.dst, i.dests[k], Val(imap[], imap[], iset{}));
    forall v: Val
      ensures WfBAll(conditions + [cond])
      ensures Explored(s, v) && Model(conditions + [cond], v) ==> Reaches(s, v, i.landed[k])
    {
      JumpsToMeans(i.dst, i.dests[k], v);
      ModelOne(cond, v);
      ModelAppend(conditions, [cond], v);
      if Explored(s, v) && Model(conditions + [cond], v) {
        IndexOfUnique(i.dests, k);
        ReachesNext(s, v, m, i.landed[k]);
      }
    }
    assert WfBAll(conditions + [cond]) by {
      ModelOne(cond, Val(imap[], imap[], iset{}));
      ModelAppend(conditions, [cond], Val(imap[], imap[], iset{}));
    }
  }

  /** No destination fits: the jump is invalid. */
  lemma NoDestination<M(!new)>(s: Setup<M>, m: M, v: Val)
    requires WfSetup(s) && s.program.instr(m).Goto?
    requires var i := s.program.instr(m); Wf(i.dst) && Eval(i.dst, v) !in i.dests
    ensures Execute(s.program, m, v) == Ends(BadJump)
  {
    hide Pow2, Eval, Trusted;
    var i := s.program.instr(m);
    assert WfInstr(s.program, i);
  }

  /** The chosen destinations, in order; all others are impossible. */
  ghost predicate Destinations<M(!new)>(s: Setup<M>, x: Snap<M>, ks: seq<nat>)
    requires WfSetup(s) && s.program.instr(x.state).Goto? && WfBAll(x.conditions)
  {
    var i := s.program.instr(x.state);
    && (forall j | 0 <= j < |ks| :: ks[j] < |i.dests|)
    && (forall j, k | 0 <= j < k < |ks| :: ks[j] < ks[k])
    && Wf(i.dst)
    && (forall v: Val | Explored(s, v) && Model(x.conditions, v) ::
          forall k | 0 <= k < |i.dests| && k !in ks :: Eval(i.dst, v) != i.dests[k])
  }

  /** The solver does not exclude the destination. */
  predicate MayJump<M>(s: Setup<M>, levels: seq<seq<Bl>>, conditions: seq<Bl>, i: Instr<M>, k: nat)
    requires i.Goto? && k < |i.dests|
  {
    AnswerOf(s, levels, conditions, JumpsTo(i.dst, i.dests[k])) != Unsat
  }

  /** Exactly these destinations, in order. */
  predicate AreTargets<M>(s: Setup<M>, levels: seq<seq<Bl>>, conditions: seq<Bl>, i: Instr<M>, ks: seq<nat>)
    requires i.Goto?
  {
    && (forall j | 0 <= j < |ks| :: ks[j] < |i.dests|)
    && (forall j, k | 0 <= j < k < |ks| :: ks[j] < ks[k])
    && (forall k | 0 <= k < |i.dests| :: k in ks <==> MayJump(s, levels, conditions, i, k))
  }

  /** The same for the first n destinations, and the others of these are impossible. */
  ghost predicate TargetsUpTo<M(!new)>(s: Setup<M>, levels: seq<seq<Bl>>, conditions: seq<Bl>, i: Instr<M>,
                                       ks: seq<nat>, n: nat)
    requires WfSetup(s) && i.Goto? && n <= |i.dests| && WfBAll(conditions) && Wf(i.dst)
  {
    && (forall j | 0 <= j < |ks| :: ks[j] < n)
    && (forall j, k | 0 <= j < k < |ks| :: ks[j] < ks[k])
    && (forall k | 0 <= k < n :: k in ks <==> MayJump(s, levels, conditions, i, k))
    && (forall v: Val | Explored(s, v) && Model(conditions, v) ::
          forall k | 0 <= k < n && k !in ks :: Eval(i.dst, v) != i.dests[k])
  }

  lemma TargetsNext<M(!new)>(s: Setup<M>, levels: seq<seq<Bl>>, conditions: seq<Bl>, i: Instr<M>, ks: seq<nat>, n: nat)
    requires WfSetup(s) && i.Goto? && n < |i.dests| && WfBAll(conditions) && Wf(i.dst) && i.dst.w == WORD
    requires i.dests[n] < Pow2(WORD) && TargetsUpTo(s, levels, conditions, i, ks, n) && WfB(JumpsTo(i.dst, i.dests[n]))
    requires !MayJump(s, levels, conditions, i, n) ==>
               forall v: Val | Explored(s, v) && Model(conditions, v) :: !EvalB(JumpsTo(i.dst, i.dests[n]), v)
    ensures TargetsUpTo(s, levels, conditions, i, if MayJump(s, levels, conditions, i, n) then ks + [n] else ks, n + 1)
  {
    hide Explored, Model, Eval, EvalB, Wf, WfB, Pow2, MayJump, JumpsTo;
    var more := if MayJump(s, levels, conditions, i, n) then ks + [n] else ks;
    assert forall k :: k in more <==> k in ks || (k in [n] && MayJump(s, levels, conditions, i, n));
    forall v: Val | Explored(s, v) && Model(conditions, v)
      ensures forall k | 0 <= k < n + 1 && k !in more :: Eval(i.dst, v) != i.dests[k]
    {
      JumpsToMeans(i.dst, i.dests[n], v);
    }
  }

  lemma TargetsAll<M(!new)>(s: Setup<M>, levels: seq<seq<Bl>>, x: Snap<M>, ks: seq<nat>)
    requires WfSetup(s) && s.program.instr(x.state).Goto? && WfBAll(x.conditions) && Wf(s.program.instr(x.state).dst)
    requires var i := s.program.instr(x.state); TargetsUpTo(s, levels, x.conditions, i, ks, |i.dests|)
    ensures AreTargets(s, levels, x.conditions, s.program.instr(x.state), ks) && Destinations(s, x, ks)
  {
    hide Explored, Model, Eval, EvalB, Wf, WfB, WfSetup, MayJump;
  }

  /** All that a symbolic JUMP does: one path for each destination that the solver does not exclude, if there are any. */
  ghost predicate JumpedTo<M(!new)>(s: Setup<M>, x: Snap<M>, levels: seq<seq<Bl>>, rest: seq<Snap<M>>, was: Record<M>,
                                    live: seq<Snap<M>>, now: Record<M>)
    requires s.program.instr(x.state).Goto?
  {
    var i := s.program.instr(x.state);
    if !s.symbolicJump then
      live == rest && now.cuts == was.cuts && now.finished == was.finished + [Finished(x.state, x.conditions, Stuck)]
    else exists ks ::
      && AreTargets(s, levels, x.conditions, i, ks)
      && if ks == [] then
           && live == rest && now.cuts == was.cuts
           && now.finished == was.finished + [Finished(x.state, x.conditions, Ended(BadJump))]
         else
           now.finished == was.finished && Branched(rest, live, x, i, ks) && now.cuts == was.cuts + [JumpsElsewhere(x, i, ks)]
  }

  function At(dests: seq<nat>, ks: seq<nat>): (ts: seq<nat>)
    requires forall j | 0 <= j < |ks| :: ks[j] < |dests|
    ensures |ts| == |ks|
  {
    seq(|ks|, j requires 0 <= j < |ks| => dests[ks[j]])
  }

  /** The path that waits to jump to one destination. */
  ghost predicate JumpsChild<M>(x: Snap<M>, i: Instr<M>, k: nat, child: Snap<M>)
    requires i.Goto? && k < |i.dests| && k < |i.landed|
  {
    && child.state == i.landed[k]
    && child.jumpis == x.jumpis
    && child.trail == x.trail
    && child.conditions == x.conditions
    && child.pending == [JumpsTo(i.dst, i.dests[k])]
  }

  lemma JumpChildOk<M(!new)>(s: Setup<M>, x: Snap<M>, k: nat, child: Snap<M>)
    requires WfSetup(s) && SnapOk(s, x) && x.pending == [] && s.program.instr(x.state).Goto?
    requires var i := s.program.instr(x.state); k < |i.dests| && k < |i.landed| && JumpsChild(x, i, k, child)
    ensures SnapOk(s, child)
  {
    hide Tracks, Counted, WfB, Trusted, Explored, Model, JumpsTo;
    assert x.conditions + x.pending == x.conditions;
    JumpTracks(s, x.state, x.conditions, k);
    assert child.pending[0] == JumpsTo(s.program.instr(x.state).dst, s.program.instr(x.state).dests[k]);
  }

  /** What is lost of a path that jumps to one of the followed destinations. */
  function JumpsElsewhere<M>(x: Snap<M>, i: Instr<M>, ks: seq<nat>): Cut<M>
    requires i.Goto? && forall j | 0 <= j < |ks| :: ks[j] < |i.dests|
  {
    Cut(x.state, x.conditions + Elsewhere(i.dst, At(i.dests, ks)), LostJump)
  }

  lemma LostOk<M(!new)>(s: Setup<M>, x: Snap<M>, ks: seq<nat>, logged: seq<JumpId>)
    requires WfSetup(s) && SnapOk(s, x) && x.pending == [] && s.symbolicJump
    requires s.program.instr(x.state).Goto? && WfInstr(s.program, s.program.instr(x.state))
    requires Destinations(s, x, ks)
    ensures CutOk(s, logged, JumpsElsewhere(x, s.program.instr(x.state), ks))
  {
    hide Counted, WfB, Trusted, Explored, Model, JumpsTo, Elsewhere, Reaches, Execute, Wf, Eval, Pow2;
    var i := s.program.instr(x.state);
    var cs := x.conditions + Elsewhere(i.dst, At(i.dests, ks));
    assert x.conditions + x.pending == x.conditions;
    ElsewhereWeight(x.conditions, i.dst, At(i.dests, ks), Val(imap[], imap[], iset{}));
    forall v: Val | Explored(s, v) && Model(cs, v)
      ensures Model(x.conditions, v) && Execute(s.program, x.state, v) == Ends(BadJump)
    {
      ElsewhereWeight(x.conditions, i.dst, At(i.dests, ks), v);
      forall k | 0 <= k < |i.dests|
        ensures Eval(i.dst, v) != i.dests[k]
      {
        if k in ks {
          var j :| 0 <= j < |ks| && ks[j] == k;
          assert At(i.dests, ks)[j] == i.dests[k];
        }
      }
      NoDestination(s, x.state, v);
    }
  }

  lemma AtUnique<M(!new)>(p: Program<M>, i: Instr<M>, ks: seq<nat>)
    requires i.Goto? && WfInstr(p, i)
    requires forall j | 0 <= j < |ks| :: ks[j] < |i.dests|
    requires forall j, k | 0 <= j < k < |ks| :: ks[j] < ks[k]
    ensures var ts := At(i.dests, ks);
      && (forall j | 0 <= j < |ts| :: ts[j] < Pow2(WORD))
      && (forall j, k | 0 <= j < k < |ts| :: ts[j] != ts[k])
  {
    hide Pow2, Wf;
    var ts := At(i.dests, ks);
    forall j, k | 0 <= j < k < |ts|
      ensures ts[j] != ts[k]
    {
      assert i.dests[ks[j]] != i.dests[ks[k]];
    }
  }

  /** One path waits for each of the destinations. */
  ghost predicate Branched<M(!new)>(before: seq<Snap<M>>, after: seq<Snap<M>>, x: Snap<M>, i: Instr<M>, ks: seq<nat>)
    requires i.Goto? && forall j | 0 <= j < |ks| :: ks[j] < |i.dests|
  {
    && |after| == |before| + |ks|
    && before <= after
    && forall j | 0 <= j < |ks| :: ks[j] < |i.landed| && JumpsChild(x, i, ks[j], after[|before| + j])
  }

  /** A symbolic jump: one path for each destination, and the invalid jumps are lost. */
  lemma JumpedInv<M(!new)>(s: Setup<M>, levels: seq<seq<Bl>>, levels': seq<seq<Bl>>, rest: seq<Snap<M>>, x: Snap<M>,
                           ks: seq<nat>, children: seq<Snap<M>>,
                           finished: seq<Finished<M>>, cuts: seq<Cut<M>>, logged: seq<JumpId>)
    requires Inv(s, levels, rest + [x], finished, cuts, logged) && x.pending == [] && WfBAll(x.conditions)
    requires s.symbolicJump && s.program.instr(x.state).Goto? && WfInstr(s.program, s.program.instr(x.state))
    requires Destinations(s, x, ks) && |children| == |ks|
    requires forall j | 0 <= j < |ks| :: JumpsChild(x, s.program.instr(x.state), ks[j], children[j])
    requires Stacked(s, levels', (rest + children) + [x])
    ensures Inv(s, levels', rest + children, finished,
                cuts + [JumpsElsewhere(x, s.program.instr(x.state), ks)], logged)
  {
    hide Stacked, FinishedOk, CutOk, SnapOk, WfB, Trusted, Model, Explored, Weight, Elsewhere, JumpsTo, Wf, Eval,
         Pow2, At, JumpsElsewhere, JumpsChild;
    var i := s.program.instr(x.state);
    var lost := JumpsElsewhere(x, i, ks);
    assert (rest + [x])[|rest|] == x && SnapOk(s, x);
    StackedDrop(s, levels', rest + children, x);
    LostOk(s, x, ks, logged);
    forall j | 0 <= j < |children|
      ensures SnapOk(s, children[j])
    {
      JumpChildOk(s, x, ks[j], children[j]);
    }
    forall v: Val | Explored(s, v)
      ensures Weight(x.conditions + x.pending, v) == LiveCount(children, v) + CutCount([lost], v)
    {
      JumpedCount(s, x, ks, children, v);
    }
    assert finished + [] == finished;
    Replaced(s, levels, levels', rest, x, children, finished, [], cuts, [lost], logged, logged);
  }

  lemma JumpedCount<M(!new)>(s: Setup<M>, x: Snap<M>, ks: seq<nat>, children: seq<Snap<M>>, v: Val)
    requires WfSetup(s) && x.pending == [] && WfBAll(x.conditions)
    requires s.program.instr(x.state).Goto? && WfInstr(s.program, s.program.instr(x.state))
    requires Destinations(s, x, ks) && |children| == |ks|
    requires forall j | 0 <= j < |ks| :: JumpsChild(x, s.program.instr(x.state), ks[j], children[j])
    ensures Weight(x.conditions + x.pending, v) ==
            LiveCount(children, v) + CutCount([JumpsElsewhere(x, s.program.instr(x.state), ks)], v)
  {
    hide WfB, Trusted, Model, Explored, Weight, Elsewhere, JumpsTo, Wf, Eval, Pow2, At;
    var i := s.program.instr(x.state);
    assert x.conditions + x.pending == x.conditions;
    AtUnique(s.program, i, ks);
    assert JumpChildren(x, i.dst, At(i.dests, ks), children) by {
      AreJumpChildren(x, i, ks, children);
    }
    JumpSplits(x, i.dst, At(i.dests, ks), children, v);
    var lost := JumpsElsewhere(x, i, ks);
    CutSnoc([], lost, v);
    assert [] + [lost] == [lost];
  }

  lemma AreJumpChildren<M>(x: Snap<M>, i: Instr<M>, ks: seq<nat>, children: seq<Snap<M>>)
    requires i.Goto? && |children| == |ks| && |i.landed| == |i.dests|
    requires forall j | 0 <= j < |ks| :: ks[j] < |i.dests| && JumpsChild(x, i, ks[j], children[j])
    ensures JumpChildren(x, i.dst, At(i.dests, ks), children)
  {
  }

  // ---- what a finished exploration means ----

  lemma {:induction false} FinishedFound<M>(xs: seq<Finished<M>>, v: Val)
    ensures FinishedCount(xs, v) > 0 <==> exists i :: 0 <= i < |xs| && Weight(xs[i].conditions, v) > 0
    ensures FinishedCount(xs, v) <= 1 ==>
              forall i, j | 0 <= i < j < |xs| :: Weight(xs[i].conditions, v) == 0 || Weight(xs[j].conditions, v) == 0
  {
    hide Weight;
    if xs != [] {
      var n := |xs| - 1;
      FinishedFound(xs[..n], v);
      assert forall i | 0 <= i < n :: xs[..n][i] == xs[i];
      if FinishedCount(xs[..n], v) > 0 {
        var i :| 0 <= i < n && Weight(xs[..n][i].conditions, v) > 0;
        assert Weight(xs[i].conditions, v) > 0;
      }
    }
  }

  lemma {:induction false} CutFound<M>(xs: seq<Cut<M>>, v: Val)
    ensures CutCount(xs, v) > 0 <==> exists i :: 0 <= i < |xs| && Weight(xs[i].conditions, v) > 0
    ensures CutCount(xs, v) <= 1 ==>
              forall i, j | 0 <= i < j < |xs| :: Weight(xs[i].conditions, v) == 0 || Weight(xs[j].conditions, v) == 0
  {
    hide Weight;
    if xs != [] {
      var n := |xs| - 1;
      CutFound(xs[..n], v);
      assert forall i | 0 <= i < n :: xs[..n][i] == xs[i];
      if CutCount(xs[..n], v) > 0 {
        var i :| 0 <= i < n && Weight(xs[..n][i].conditions, v) > 0;
        assert Weight(xs[i].conditions, v) > 0;
      }
    }
  }

  /** The execution under v runs to m and ends there. */
  ghost predicate RunsTo<M(!new)>(s: Setup<M>, v: Val, m: M, ending: Ending)
    requires WfSetup(s)
  {
    Reaches(s, v, m) && Execute(s.program, m, v) == Ends(ending)
  }

  /**
   * When no path is left, every explored valuation satisfies the conditions of exactly one
   * finished or cut path, whose state its execution reaches; a finished path has its ending.
   */
  lemma Coverage<M(!new)>(s: Setup<M>, levels: seq<seq<Bl>>, finished: seq<Finished<M>>, cuts: seq<Cut<M>>,
                          logged: seq<JumpId>, v: Val)
    requires Inv(s, levels, [], finished, cuts, logged) && Explored(s, v)
    ensures (exists i :: 0 <= i < |finished| && Weight(finished[i].conditions, v) == 1) !=
            (exists i :: 0 <= i < |cuts| && Weight(cuts[i].conditions, v) == 1)
    ensures forall i, j | 0 <= i < j < |finished| ::
              Weight(finished[i].conditions, v) == 0 || Weight(finished[j].conditions, v) == 0
    ensures forall i, j | 0 <= i < j < |cuts| ::
              Weight(cuts[i].conditions, v) == 0 || Weight(cuts[j].conditions, v) == 0
    ensures forall i | 0 <= i < |finished| && Weight(finished[i].conditions, v) == 1 && finished[i].final.Ended? ::
              RunsTo(s, v, finished[i].state, finished[i].final.ending)
    ensures forall i | 0 <= i < |cuts| && Weight(cuts[i].conditions, v) == 1 :: Reaches(s, v, cuts[i].state)
  {
    hide Stacked, Model, Explored, Reaches, Execute, WfB;
    FinishedFound(finished, v);
    CutFound(cuts, v);
    assert LiveCount<M>([], v) == 0;
    forall i | 0 <= i < |finished| && Weight(finished[i].conditions, v) == 1 && finished[i].final.Ended?
      ensures RunsTo(s, v, finished[i].state, finished[i].final.ending)
    {
      assert FinishedOk(s, finished[i]);
    }
    forall i | 0 <= i < |cuts| && Weight(cuts[i].conditions, v) == 1
      ensures Reaches(s, v, cuts[i].state)
    {
      assert CutOk(s, logged, cuts[i]);
    }
  }

  /** Without a step bound and symbolic jumps, only logged loops are cut, at their bound and an undecided branch. */
  lemma OnlyBoundedLoopsAreCut<M(!new)>(s: Setup<M>, levels: seq<seq<Bl>>, live: seq<Snap<M>>, finished: seq<Finished<M>>,
                                        cuts: seq<Cut<M>>, logged: seq<JumpId>)
    requires Inv(s, levels, live, finished, cuts, logged) && s.depth == 0 && !s.symbolicJump
    ensures forall i | 0 <= i < |cuts| :: var r := cuts[i].reason;
      r.Bounded? && r.id in logged && AtBound(s, r.at, r.levels, r.taken) && s.program.instr(r.at.state).id == r.id
  {
    hide Stacked, Model, Explored, WfSetup, WfB, Tracks, AtBound;
    forall i | 0 <= i < |cuts|
      ensures var r := cuts[i].reason;
        r.Bounded? && r.id in logged && AtBound(s, r.at, r.levels, r.taken) && s.program.instr(r.at.state).id == r.id
    {
      assert CutOk(s, logged, cuts[i]);
    }
  }
}
