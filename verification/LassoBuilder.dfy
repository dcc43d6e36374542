// Building a lasso program from the paths of a loop body.
module LassoBuilder {
  import opened Options
  import opened Bits
  import opened BvTerms
  import opened Symbols
  import opened IntTerms
  import opened IntFacts
  import opened Prover
  import opened Encoding
  import opened EncodingFacts
  import opened NodeMeanings
  import opened Exactness
  import opened Scopes
  import opened Translation
  import opened Lasso
  import opened LassoFacts
  import opened LassoProofs

  /** No condition or output along the path has an opaque part. */
  predicate ExactBody(loop: Loop, b: BodyPath, m: Mode) {
    && (loop.guard.Some? ==> ExactB(loop.guard.value, m))
    && ExactAllB(b.conditions, m)
    && ExactTerms(b.outputs, m)
  }

  /** Nor has the stem, including the shared constants. */
  predicate ExactStem(loop: Loop, m: Mode, invs: seq<Bv>) {
    ExactAllB(loop.stem, m) && ExactTerms(loop.initial, m) && BareSymbols(invs)
  }

  /** What a translation may use: a prover with the given assumptions, unless all numbers can be expressed. */
  function ModeFor(smt: Smt, small: bool, conditions: seq<Bl>): Mode {
    if small then Limited(smt, conditions) else Unlimited
  }

  function PathMode(loop: Loop, smt: Smt, small: bool, previous: bool, k: nat): Mode
    requires WfLoop(loop) && k < |loop.bodies| && (previous ==> AllWords(loop.bodies))
  {
    ModeFor(smt, small, BodyConditions(loop, small, previous, k))
  }

  function StemMode(loop: Loop, smt: Smt, small: bool): Mode {
    ModeFor(smt, small, StemConditions(loop, small))
  }

  predicate ExactLoop(loop: Loop, smt: Smt, small: bool, previous: bool)
    requires WfLoop(loop) && (previous ==> AllWords(loop.bodies))
  {
    && (forall k | 0 <= k < |loop.bodies| :: ExactBody(loop, loop.bodies[k], PathMode(loop, smt, small, previous, k)))
    && ExactAllB(loop.stem, StemMode(loop, smt, small))
    && ExactTerms(loop.initial, StemMode(loop, smt, small))
  }

  predicate IsBare(t: Term) {
    t.Word? && t.bv.Var?
  }

  predicate NamedTerms(es: seq<Term>, names: map<Bv, Name>) {
    forall i | 0 <= i < |es| :: Named(VarNamesTerm(es[i]), names)
  }

  method TranslateTerms(tr: Translator, es: seq<Term>, ghost sure: bool) returns (ts: seq<It>)
    requires sure ==> ExactTerms(es, tr.Mode())
    requires tr.Ready() && forall i | 0 <= i < |es| :: WfTerm(es[i])
    modifies tr, tr.reg, tr.prover
    ensures tr.Ready() && Extends(old(tr.View(sure)), tr.View(sure))
    ensures old(tr.reg.approximate) ==> tr.reg.approximate
    ensures DenotesTerms(tr.View(sure), ts, es)
    ensures ExactTerms(es, tr.Mode()) ==>
              StaysExact(old(tr.reg.approximate), old(tr.reg.invariants), tr.reg.approximate, tr.reg.invariants)
    ensures !tr.stem && NamedTerms(es, tr.names) ==> tr.symbols == old(tr.symbols)
    ensures es == [] ==> ts == [] && tr.Untouched()
    ensures |es| == 1 && IsBare(es[0]) && es[0].bv !in old(tr.memo) && tr.Simple(es[0].bv, old(tr.reg.invariants)) ==>
              |ts| == 1 && tr.TookSymbol(es[0].bv, ts[0])
  {
    hide Translator.View, Translator.Ctx, Seen, EvalI, Holds, EvalB, Eval, Wf, WfB, World, Intended, Agrees,
         Witnessed, MemoOk, Rem, Pow2, Sound, Formed, Denotes, Extends, TermMeaning, ExactTerm, BareSymbols, Named,
         VarNamesTerm, RangeOf;
    ts := [];
    ghost var c := tr.View(sure);
    ExtendsReflexive(c);
    for i := 0 to |es|
      invariant tr.Ready() && Extends(c, tr.View(sure))
      invariant old(tr.reg.approximate) ==> tr.reg.approximate
      invariant DenotesTerms(tr.View(sure), ts, es[..i])
      invariant !tr.stem && NamedTerms(es, tr.names) ==> tr.symbols == old(tr.symbols)
      invariant i == 0 ==> ts == [] && tr.Untouched()
      invariant |es| == i == 1 && IsBare(es[0]) && es[0].bv !in old(tr.memo) && tr.Simple(es[0].bv, old(tr.reg.invariants)) ==>
                  |ts| == 1 && tr.TookSymbol(es[0].bv, ts[0])
      invariant ExactTerms(es, tr.Mode()) ==>
                  StaysExact(old(tr.reg.approximate), old(tr.reg.invariants), tr.reg.approximate, tr.reg.invariants)
    {
      ghost var d := tr.View(sure);
      var t := tr.TranslateTerm(es[i], sure);
      ExtendsDenotesTerms(d, tr.View(sure), ts, es[..i]);
      ExtendsTransitive(c, d, tr.View(sure));
      ts := ts + [t];
      assert es[..i + 1] == es[..i] + [es[i]];
    }
    assert es[..|es|] == es;
  }

  /** What a translation leaves of the surroundings and the registry. */
  lemma Grows(c: Context, d: Context)
    requires Extends(c, d)
    ensures c.conditions == d.conditions && c.small == d.small && c.stem == d.stem && c.names == d.names
    ensures c.invariants <= d.invariants && (c.stem ==> c.invariants == d.invariants) && c.constants <= d.constants
    ensures c.approximate ==> d.approximate
  {
  }

  method MakeProver(smt: Smt, small: bool, conditions: seq<Bl>) returns (prover: WrapProver?)
    requires Trusted(smt) && WfBAll(conditions)
    ensures (prover != null) == small
    ensures prover != null ==> fresh(prover) && prover.Valid() && prover.smt == smt && prover.conditions == conditions
  {
    if small {
      prover := new WrapProver(smt, conditions);
    } else {
      prover := null;
    }
  }

  /** One disjunct of the loop transition. */
  method TranslateBody(reg: Registry, loop: Loop, b: BodyPath, small: bool, previous: seq<Bl>, smt: Smt)
    returns (d: Ib, aux: seq<nat>, ghost c: Context)
    requires WfLoop(loop) && WfBody(b, loop.vars) && WfBAll(previous) && Trusted(smt)
    requires RegistryOk(reg.invariants, reg.bigConstants)
    modifies reg
    ensures DisjunctOk(loop, b, if small then b.context + previous else [], small, c, d)
    ensures c.invariants == reg.invariants && c.constants == reg.bigConstants
    ensures c.approximate ==> reg.approximate && !ExactBody(loop, b, ModeFor(smt, small, b.context + previous))
    ensures old(reg.invariants) <= reg.invariants && old(reg.bigConstants) <= reg.bigConstants
    ensures old(reg.approximate) ==> reg.approximate
    ensures ExactBody(loop, b, ModeFor(smt, small, b.context + previous)) ==>
              StaysExact(old(reg.approximate), old(reg.invariants), reg.approximate, reg.invariants)
    ensures IdleBody(loop, b) ==>
              d == IdleStep() && reg.invariants == old(reg.invariants) && reg.bigConstants == old(reg.bigConstants)
  {
    hide Translator.View, Translator.Ctx, Seen, World, Intended, Agrees, Witnessed, MemoOk, Sound, Formed, Conj,
         DisjunctParts, DisjunctOk, DenotesEachB, DenotesTerms, Trusted, WfB, ExactBody, BareSymbols, IdleStep,
         Extends;
    var prover := MakeProver(smt, small, b.context + previous);
    LoopNamesWf(loop.vars);
    var tr := new Translator(reg, LoopNames(loop.vars), false, prover);
    ghost var sure := ExactBody(loop, b, ModeFor(smt, small, b.context + previous));
    assert tr.Mode() == ModeFor(smt, small, b.context + previous);
    ghost var c0 := tr.View(sure);
    tr.ViewFields(sure);
    var gs, fs, ts := TranslatePath(tr, loop, b, sure);
    c := tr.View(sure);
    Grows(c0, c);
    d := Conj(DisjunctParts(gs, fs, ts) + tr.constraints);
    aux := tr.aux;
    if IdleBody(loop, b) {
      IdleParts();
    }
    tr.ViewSound(sure);
    tr.ViewFields(sure);
    DisjunctMeaning(loop, b, if small then b.context + previous else [], c, gs, fs, ts);
  }

  /** The guard, the conditions and the outputs of a body path. */
  method TranslatePath(tr: Translator, loop: Loop, b: BodyPath, ghost sure: bool) returns (gs: seq<Ib>, fs: seq<Ib>, ts: seq<It>)
    requires WfLoop(loop) && WfBody(b, loop.vars) && tr.Ready() && !tr.stem && tr.names == LoopNames(loop.vars)
    requires tr.symbols == map[] && tr.memo == map[] && tr.constraints == []
    requires sure ==> ExactBody(loop, b, tr.Mode())
    modifies tr, tr.reg, tr.prover
    ensures tr.Ready() && Extends(old(tr.View(sure)), tr.View(sure))
    ensures old(tr.reg.approximate) ==> tr.reg.approximate
    ensures if loop.guard.Some? then DenotesEachB(tr.View(sure), gs, [loop.guard.value]) else gs == []
    ensures DenotesEachB(tr.View(sure), fs, b.conditions) && DenotesTerms(tr.View(sure), ts, b.outputs)
    ensures tr.symbols == map[]
    ensures ExactBody(loop, b, tr.Mode()) ==>
              StaysExact(old(tr.reg.approximate), old(tr.reg.invariants), tr.reg.approximate, tr.reg.invariants)
    ensures IdleBody(loop, b) ==>
              && gs == [] && fs == [] && ts == [IntVar(Input(0))] && tr.constraints == []
              && tr.reg.invariants == old(tr.reg.invariants) && tr.reg.bigConstants == old(tr.reg.bigConstants)
  {
    hide Translator.View, Translator.Ctx, Seen, World, Intended, Agrees, Witnessed, MemoOk, Sound, Formed,
         DenotesEachB, DenotesTerms, WfB, ExactB, BareSymbols, Named, VarNamesB, VarNamesTerm, RangeOf, Extends;
    BodyNamed(loop, b);
    ghost var c0 := tr.View(sure);
    tr.ViewFields(sure);
    ExtendsReflexive(c0);
    gs := TranslateGuard(tr, loop.guard, sure);
    ghost var c1 := tr.View(sure);
    fs := tr.TranslateAllB(b.conditions, sure);
    ghost var c2 := tr.View(sure);
    if IdleBody(loop, b) {
      IdleName(loop.vars[0]);
      assert loop.vars == [loop.vars[0]];
    }
    ts := TranslateTerms(tr, b.outputs, sure);
    ExtendsTransitive(c0, c1, c2);
    ExtendsTransitive(c0, c2, tr.View(sure));
    LaterDenotes(loop.guard, c1, c2, gs);
    LaterDenotes(loop.guard, c2, tr.View(sure), gs);
    ExtendsDenotesEachB(c2, tr.View(sure), fs, b.conditions);
  }

  method TranslateGuard(tr: Translator, guard: Option<Bl>, ghost sure: bool) returns (gs: seq<Ib>)
    requires tr.Ready() && (guard.Some? ==> WfBAll([guard.value]))
    requires sure && guard.Some? ==> ExactB(guard.value, tr.Mode())
    modifies tr, tr.reg, tr.prover
    ensures tr.Ready() && Extends(old(tr.View(sure)), tr.View(sure))
    ensures old(tr.reg.approximate) ==> tr.reg.approximate
    ensures if guard.Some? then DenotesEachB(tr.View(sure), gs, [guard.value]) else gs == []
    ensures !tr.stem && (guard.Some? ==> Named(VarNamesBAll([guard.value]), tr.names)) ==> tr.symbols == old(tr.symbols)
    ensures (guard.Some? ==> ExactB(guard.value, tr.Mode())) ==>
              StaysExact(old(tr.reg.approximate), old(tr.reg.invariants), tr.reg.approximate, tr.reg.invariants)
    ensures guard.None? ==> gs == [] && tr.Untouched()
  {
    hide Translator.View, Translator.Ctx, Seen, World, Intended, Agrees, Witnessed, MemoOk, Sound, Formed,
         DenotesEachB, WfB, ExactB, BareSymbols, Named, VarNamesB, Extends;
    ExtendsReflexive(tr.View(sure));
    gs := [];
    if guard.Some? {
      gs := tr.TranslateAllB([guard.value], sure);
    }
  }

  /** The loop variable keeps its value for ever. */
  predicate IdleBody(loop: Loop, b: BodyPath) {
    && |loop.vars| == 1
    && loop.guard == None
    && b.conditions == []
    && b.outputs == [Word(Var(WORD, loop.vars[0]))]
  }

  function IdleStep(): Ib {
    Same(IntVar(Output(0)), IntVar(Input(0)))
  }

  lemma IdleParts()
    ensures Conj(DisjunctParts([], [], [IntVar(Input(0))]) + []) == IdleStep()
  {
    assert DisjunctParts([], [], [IntVar(Input(0))]) == [IdleStep()];
    assert [IdleStep()] + [] == [IdleStep()] && [IdleStep()][1..] == [];
    assert WithoutTrue([IdleStep()]) == [IdleStep()] + WithoutTrue([]);
  }

  lemma IdleName(x: string)
    ensures Var(WORD, x) in LoopNames([x]) && LoopNames([x])[Var(WORD, x)] == Input(0)
  {
    assert x in [x] && Find([x], x) == 0;
    LoopVarIsNamed([x], x);
    NameOfVar([x], Var(WORD, x));
  }

  /** The terms of a body path mention no loop variable without a name. */
  lemma BodyNamed(loop: Loop, b: BodyPath)
    requires WfLoop(loop) && WfBody(b, loop.vars)
    ensures loop.guard.Some? ==> Named(VarNamesBAll([loop.guard.value]), LoopNames(loop.vars))
    ensures Named(VarNamesBAll(b.conditions), LoopNames(loop.vars))
    ensures NamedTerms(b.outputs, LoopNames(loop.vars))
  {
    hide VarNamesB, VarNames, Wf, WfB;
    ScopedIsNamed(VarNamesBAll(b.conditions), loop.vars);
    if loop.guard.Some? {
      assert [loop.guard.value][1..] == [];
      assert VarNamesBAll([loop.guard.value]) == VarNamesB(loop.guard.value);
      ScopedIsNamed(VarNamesB(loop.guard.value), loop.vars);
    }
    forall i | 0 <= i < |b.outputs|
      ensures Named(VarNamesTerm(b.outputs[i]), LoopNames(loop.vars))
    {
      ScopedIsNamed(VarNamesTerm(b.outputs[i]), loop.vars);
    }
  }

  lemma ScopedIsNamed(xs: set<string>, vars: seq<string>)
    requires Scoped(xs, vars)
    ensures Named(xs, LoopNames(vars))
  {
    forall x | x in xs && LOOP_VAR_PREFIX <= x
      ensures Var(WORD, x) in LoopNames(vars)
    {
      LoopVarIsNamed(vars, x);
    }
  }

  lemma LoopNamesWf(vars: seq<string>)
    ensures forall v | v in LoopNames(vars) :: Wf(v)
  {
    hide Pow2;
  }

  lemma LaterDenotes(guard: Option<Bl>, c: Context, d: Context, gs: seq<Ib>)
    requires Extends(c, d)
    requires if guard.Some? then DenotesEachB(c, gs, [guard.value]) else gs == []
    ensures if guard.Some? then DenotesEachB(d, gs, [guard.value]) else gs == []
  {
    hide Formed, Extends, DenotesEachB;
    if guard.Some? {
      ExtendsDenotesEachB(c, d, gs, [guard.value]);
    }
  }

  /** The loop variable starts with some input, without further conditions. */
  predicate IdleStem(loop: Loop) {
    loop.stem == [] && |loop.initial| == 1 && IsBare(loop.initial[0])
  }

  function IdleEntry(m: nat, small: bool): seq<Ib> {
    StemParts([], [IntVar(Aux(m))], []) + RangeOf(Aux(m), WORD, small)
  }

  /** The conditions, initial values and invariants of the stem. */
  method TranslateStem(reg: Registry, loop: Loop, small: bool, smt: Smt)
    returns (parts: seq<Ib>, aux: seq<nat>, ghost c: Context)
    requires WfLoop(loop) && Trusted(smt) && RegistryOk(reg.invariants, reg.bigConstants)
    modifies reg
    ensures StemOk(loop, small, c, parts)
    ensures c.invariants == reg.invariants == old(reg.invariants)
    ensures c.constants == reg.bigConstants
    ensures c.approximate ==> reg.approximate && !ExactStem(loop, StemMode(loop, smt, small), reg.invariants)
    ensures old(reg.bigConstants) <= reg.bigConstants
    ensures old(reg.approximate) ==> reg.approximate
    ensures ExactStem(loop, StemMode(loop, smt, small), old(reg.invariants)) ==> reg.approximate == old(reg.approximate)
    ensures IdleStem(loop) && old(reg.invariants) == [] ==>
              reg.bigConstants == old(reg.bigConstants) && exists m :: parts == IdleEntry(m, small)
  {
    hide Translator.View, Translator.Ctx, Seen, World, Intended, Agrees, Witnessed, MemoOk, Sound, Formed, StemParts,
         StemOk, DenotesEachB, DenotesTerms, Trusted, WfB, WfBody, ExactStem, BareSymbols, Extends, RangeOf;
    var prover := MakeProver(smt, small, if loop.stemContext != [] then loop.stemContext else loop.stem);
    var tr := new Translator(reg, map[], true, prover);
    ghost var sure := ExactStem(loop, StemMode(loop, smt, small), reg.invariants);
    assert tr.Mode() == StemMode(loop, smt, small);
    ghost var c0 := tr.View(sure);
    tr.ViewFields(sure);
    var fs, ts, us := TranslateEntry(tr, loop, sure);
    c := tr.View(sure);
    tr.ViewFields(sure);
    Grows(c0, c);
    parts := StemParts(fs, ts, us) + tr.constraints;
    if IdleStem(loop) && reg.invariants == [] {
      assert parts == IdleEntry(ts[0].name.i, small);
    }
    aux := tr.aux;
    tr.ViewSound(sure);
    StemMeaning(loop, c, fs, ts, us);
  }

  /** The stem conditions, the initial values and the invariants. */
  method TranslateEntry(tr: Translator, loop: Loop, ghost sure: bool) returns (fs: seq<Ib>, ts: seq<It>, us: seq<It>)
    requires sure ==> ExactStem(loop, tr.Mode(), tr.reg.invariants)
    requires WfLoop(loop) && tr.Ready() && tr.stem && tr.names == map[] && tr.memo == map[] && tr.constraints == []
    modifies tr, tr.reg, tr.prover
    ensures tr.Ready() && Extends(old(tr.View(sure)), tr.View(sure))
    ensures old(tr.reg.approximate) ==> tr.reg.approximate
    ensures DenotesEachB(tr.View(sure), fs, loop.stem) && DenotesTerms(tr.View(sure), ts, loop.initial)
    ensures DenotesTerms(tr.View(sure), us, AsTerms(tr.reg.invariants))
    ensures ExactStem(loop, tr.Mode(), old(tr.reg.invariants)) ==> tr.reg.approximate == old(tr.reg.approximate)
    ensures IdleStem(loop) && old(tr.reg.invariants) == [] ==>
              && tr.reg.bigConstants == old(tr.reg.bigConstants) && fs == [] && us == []
              && exists m :: ts == [IntVar(Aux(m))] && tr.constraints == RangeOf(Aux(m), WORD, tr.Small())
  {
    hide Translator.View, Translator.Ctx, Seen, World, Intended, Agrees, Witnessed, MemoOk, Sound, Formed,
         DenotesEachB, DenotesTerms, WfB, WfBody, BareSymbols, ExactTerms, ExactAllB, Extends, RangeOf, Named,
         VarNamesTerm;
    ghost var c0 := tr.View(sure);
    tr.ViewFields(sure);
    fs := tr.TranslateAllB(loop.stem, sure);
    ghost var c1 := tr.View(sure);
    Grows(c0, c1);
    assert forall i | 0 <= i < |loop.initial| :: WfTerm(loop.initial[i]);
    ts := TranslateTerms(tr, loop.initial, sure);
    ghost var c2 := tr.View(sure);
    Grows(c1, c2);
    tr.ViewFields(sure);
    if IdleStem(loop) && old(tr.reg.invariants) == [] {
      assert ts == [IntVar(Aux(tr.reg.auxCounter))] && tr.constraints == RangeOf(Aux(tr.reg.auxCounter), WORD, tr.Small());
    }
    var invs := tr.reg.invariants;
    SharedWf(tr, invs);
    SharedExact(invs, tr.Mode());
    us := TranslateTerms(tr, AsTerms(invs), sure);
    ghost var c := tr.View(sure);
    Grows(c2, c);
    tr.ViewFields(sure);
    ExtendsTransitive(c0, c1, c2);
    ExtendsTransitive(c0, c2, c);
    ExtendsDenotesEachB(c1, c2, fs, loop.stem);
    ExtendsDenotesEachB(c2, c, fs, loop.stem);
    ExtendsDenotesTerms(c2, c, ts, loop.initial);
  }

  lemma SharedWf(tr: Translator, invs: seq<Bv>)
    requires tr.Inv() && tr.reg.invariants == invs
    ensures forall i | 0 <= i < |invs| :: WfTerm(AsTerms(invs)[i])
  {
    hide Wf, MemoOk, Sound;
  }

  lemma SharedExact(invs: seq<Bv>, m: Mode)
    ensures BareSymbols(invs) ==> ExactTerms(AsTerms(invs), m)
  {
  }

  /** Where a body path was approximated, the flag is set and the path has a part that can be. */
  ghost predicate BodiesFlagged(loop: Loop, smt: Smt, q: LoopParts, flag: bool)
    requires WfLoop(loop) && (q.previous ==> AllWords(loop.bodies))
  {
    forall k | 0 <= k < |q.contexts| && k < |loop.bodies| ::
      q.contexts[k].approximate ==> flag && !ExactBody(loop, loop.bodies[k], PathMode(loop, smt, q.small, q.previous, k))
  }

  /** The flag is set where something was approximated, and never for paths and stems without such parts. */
  ghost predicate Flagged(loop: Loop, smt: Smt, o: Origin, approximate: bool)
    requires PartsOk(loop, o.paths)
  {
    var q := o.paths;
    && BodiesFlagged(loop, smt, q, approximate)
    && (o.stem.approximate ==> approximate && !ExactStem(loop, StemMode(loop, smt, q.small), q.invariants))
    && (ExactLoop(loop, smt, q.small, q.previous) ==> !approximate)
  }

  /** One disjunct per body path, in the order of the paths. */
  method TranslateBodies(reg: Registry, loop: Loop, small: bool, complete: bool, smt: Smt)
    returns (disjuncts: seq<Ib>, aux: seq<nat>, ghost q: LoopParts)
    requires WfLoop(loop) && Trusted(smt) && (small && complete ==> AllWords(loop.bodies))
    requires reg.invariants == [] && reg.bigConstants == [] && !reg.approximate
    modifies reg
    ensures PartsOk(loop, q) && q.small == small && q.previous == (small && complete) && q.disjuncts == disjuncts
    ensures q.invariants == reg.invariants && q.constants == reg.bigConstants
    ensures BodiesFlagged(loop, smt, q, reg.approximate)
    ensures ExactLoop(loop, smt, small, small && complete) ==> !reg.approximate && BareSymbols(reg.invariants)
    ensures |loop.bodies| == 1 && IdleBody(loop, loop.bodies[0]) ==>
              disjuncts == [IdleStep()] && reg.invariants == [] && reg.bigConstants == []
  {
    hide Pow2, DisjunctOk, PartOk, Wf, WfB, WfBody, Trusted, PreviousFacts, RegistryOk, ExactBody, ExactAllB,
         ExactTerms, IdleStep;
    var previous: seq<Bl> := [];
    if small && complete {
      PreviousFactsWf(loop);
      previous := PreviousFacts(loop);
    }
    disjuncts, aux, q := [], [], LoopParts(small, small && complete, [], [], [], []);
    EmptyRegistry();
    for k := 0 to |loop.bodies|
      invariant q.small == small && q.previous == (small && complete) && q.disjuncts == disjuncts
      invariant q.invariants == reg.invariants && q.constants == reg.bigConstants
      invariant RegistryOk(reg.invariants, reg.bigConstants)
      invariant |q.contexts| == |q.disjuncts| == k
      invariant forall j | 0 <= j < k :: PartOk(loop, q, j)
      invariant BodiesFlagged(loop, smt, q, reg.approximate)
      invariant ExactLoop(loop, smt, small, small && complete) ==> !reg.approximate && BareSymbols(reg.invariants)
      invariant |loop.bodies| == 1 && IdleBody(loop, loop.bodies[0]) ==>
                  disjuncts == (if k == 0 then [] else [IdleStep()]) && reg.invariants == [] && reg.bigConstants == []
    {
      ConditionsOf(loop, small, small && complete, k, previous);
      var d, bodyAux; ghost var c;
      d, bodyAux, c := TranslateBody(reg, loop, loop.bodies[k], small, previous, smt);
      q := AddPart(loop, q, previous, c, d);
      disjuncts := disjuncts + [d];
      aux := aux + bodyAux;
    }
  }

  lemma ConditionsOf(loop: Loop, small: bool, previous: bool, k: nat, facts: seq<Bl>)
    requires WfLoop(loop) && k < |loop.bodies| && (previous ==> small && AllWords(loop.bodies))
    requires facts == if previous then PreviousFacts(loop) else []
    ensures small ==> BodyConditions(loop, small, previous, k) == loop.bodies[k].context + facts
  {
    hide WfBody, WfB, PreviousFacts;
  }

  lemma EmptyRegistry()
    ensures RegistryOk([], [])
  {
  }

  ghost function WithPart(q: LoopParts, c: Context, d: Ib): LoopParts {
    LoopParts(q.small, q.previous, c.invariants, c.constants, q.contexts + [c], q.disjuncts + [d])
  }

  /** Adding a disjunct keeps what is known of the earlier ones. */
  lemma AddPart(loop: Loop, q: LoopParts, previous: seq<Bl>, c: Context, d: Ib) returns (r: LoopParts)
    requires WfLoop(loop) && (q.previous ==> AllWords(loop.bodies))
    requires |q.contexts| == |q.disjuncts| < |loop.bodies|
    requires forall j | 0 <= j < |q.contexts| :: PartOk(loop, q, j)
    requires previous == if q.previous then PreviousFacts(loop) else []
    requires var k := |q.contexts|;
      DisjunctOk(loop, loop.bodies[k], if q.small then loop.bodies[k].context + previous else [], q.small, c, d)
    requires q.invariants <= c.invariants && q.constants <= c.constants
    ensures r == WithPart(q, c, d)
    ensures forall j | 0 <= j < |r.contexts| :: PartOk(loop, r, j)
    ensures RegistryOk(c.invariants, c.constants)
  {
    hide PreviousFacts, PartOk, WfBody, WfB, Pow2;
    r := WithPart(q, c, d);
    var k := |q.contexts|;
    forall j | 0 <= j < |r.contexts|
      ensures PartOk(loop, r, j)
    {
      if j < k {
        assert PartOk(loop, q, j);
        PartGrows(loop, q, r, j);
      } else {
        LastPart(loop, q, previous, c, d);
      }
    }
  }

  lemma LastPart(loop: Loop, q: LoopParts, previous: seq<Bl>, c: Context, d: Ib)
    requires WfLoop(loop) && (q.previous ==> AllWords(loop.bodies))
    requires |q.contexts| == |q.disjuncts| < |loop.bodies|
    requires previous == if q.previous then PreviousFacts(loop) else []
    requires var k := |q.contexts|;
      DisjunctOk(loop, loop.bodies[k], if q.small then loop.bodies[k].context + previous else [], q.small, c, d)
    ensures PartOk(loop, WithPart(q, c, d), |q.contexts|)
  {
    hide PreviousFacts, DisjunctOk, WfBody, WfB, Pow2;
  }

  /** The constants that the stem adds do not disturb the loop transition. */
  lemma PartsGrow(loop: Loop, q: LoopParts, consts: seq<nat>)
    requires PartsOk(loop, q) && q.constants <= consts && RegistryOk(q.invariants, consts)
    ensures PartsOk(loop, q.(constants := consts))
  {
    hide PartOk, WfLoop, RegistryOk;
    forall k | 0 <= k < |loop.bodies|
      ensures PartOk(loop, q.(constants := consts), k)
    {
      assert PartOk(loop, q, k);
      PartGrows(loop, q, q.(constants := consts), k);
    }
  }

  predicate IdleLoop(loop: Loop) {
    IdleStem(loop) && |loop.bodies| == 1 && IdleBody(loop, loop.bodies[0])
  }

  /** The lasso that keeps one variable, which starts with any value that its auxiliary variable may have. */
  ghost predicate IdleLasso(loop: Loop, l: LassoProgram, q: LoopParts) {
    && q.invariants == [] && q.constants == []
    && q.disjuncts == [IdleStep()]
    && exists m :: l.stem == StemFormula(1, [], [], q.small, IdleEntry(m, q.small))
  }

  /**
   * The lasso of a loop and whether it over-approximates. There is no lasso exactly when a fact
   * about the previous iteration would compare a word with a boolean, which the terms do not allow.
   */
  method BuildLasso(loop: Loop, exactConstants: bool, complete: bool, smt: Smt)
    returns (approximate: bool, result: Option<LassoProgram>, ghost o: Origin)
    requires WfLoop(loop) && Trusted(smt)
    ensures result.None? <==> !exactConstants && complete && !AllWords(loop.bodies)
    ensures result.Some? ==>
              && Built(loop, result.value, o)
              && o.paths.small == !exactConstants && o.paths.previous == (!exactConstants && complete)
    ensures result.Some? ==>
              Simulates(loop, exactConstants, !exactConstants && complete, result.value, o.paths.invariants, o.paths.constants)
    ensures result.Some? && exactConstants && Forced(o) ==> Reflects(loop, result.value, o.paths.invariants)
    ensures result.Some? ==> Flagged(loop, smt, o, approximate) && (!approximate ==> Forced(o))
    ensures result.Some? && IdleLoop(loop) ==> IdleLasso(loop, result.value, o.paths)
    ensures result.Some? && !exactConstants ==> SmallF(result.value.stem) && SmallF(result.value.loop)
  {
    hide Pow2, PartsOk, StemOk, Wf, WfB, WfBody, WfLoop, Trusted, Simulates, Reflects, Transition, StemFormula, SmallF,
         ExactLoop, ExactBody, ExactStem, BareSymbols, IdleStep, IdleEntry, BodiesFlagged;
    o := Origin(LoopParts(false, false, [], [], [], []), Context([], false, true, map[], false, [], [], 0, map[], map[], []), []);
    if !exactConstants && complete && !AllWords(loop.bodies) {
      return false, None, o;
    }
    var reg := new Registry();
    var disjuncts, loopAux, parts, stemAux; ghost var q, c;
    disjuncts, loopAux, q := TranslateBodies(reg, loop, !exactConstants, complete, smt);
    PartsRegistry(loop, q);
    ghost var marked := reg.approximate;
    if ExactLoop(loop, smt, !exactConstants, !exactConstants && complete) {
      ExactLoopStem(loop, smt, !exactConstants, !exactConstants && complete, reg.invariants);
    }
    parts, stemAux, c := TranslateStem(reg, loop, !exactConstants, smt);
    StemRegistry(loop, c, !exactConstants, parts);
    PartsGrow(loop, q, reg.bigConstants);
    PartsCount(loop, q);
    FlagsGrow(loop, smt, q, reg.bigConstants, marked, reg.approximate);
    o := Origin(q.(constants := reg.bigConstants), c, parts);
    approximate := reg.approximate;
    var n := |loop.vars|;
    var l := LassoProgram(n, |reg.invariants|, |reg.bigConstants|,
                          StemFormula(n, reg.invariants, reg.bigConstants, !exactConstants, parts),
                          Transition(n, reg.invariants, reg.bigConstants, !exactConstants, disjuncts),
                          stemAux, loopAux);
    BuiltHolds(loop, l, o);
    result := Some(l);
  }

  /** What every such lasso is to its loop. */
  lemma BuiltHolds(loop: Loop, l: LassoProgram, o: Origin)
    requires Built(loop, l, o)
    ensures Simulates(loop, !o.paths.small, o.paths.previous, l, o.paths.invariants, o.paths.constants)
    ensures !o.paths.small && Forced(o) ==> Reflects(loop, l, o.paths.invariants)
    ensures o.paths.small ==> SmallF(l.stem) && SmallF(l.loop)
  {
    hide Built, Simulates, Reflects, SmallF, Forced;
    LassoIsSimulation(loop, l, o);
    if o.paths.small {
      LassoIsSmall(loop, l, o);
    } else if Forced(o) {
      LassoIsReflection(loop, l, o);
    }
  }

  lemma ExactLoopStem(loop: Loop, smt: Smt, small: bool, previous: bool, invs: seq<Bv>)
    requires WfLoop(loop) && (previous ==> AllWords(loop.bodies))
    requires ExactLoop(loop, smt, small, previous) && BareSymbols(invs)
    ensures ExactStem(loop, StemMode(loop, smt, small), invs)
  {
    hide ExactBody, ExactAllB, ExactTerms, WfLoop;
  }

  lemma FlagsGrow(loop: Loop, smt: Smt, q: LoopParts, consts: seq<nat>, flag: bool, flag': bool)
    requires PartsOk(loop, q) && BodiesFlagged(loop, smt, q, flag) && (flag ==> flag')
    ensures BodiesFlagged(loop, smt, q.(constants := consts), flag')
    ensures !flag ==> forall k | 0 <= k < |q.contexts| :: !q.contexts[k].approximate
  {
    hide WfLoop, PartOk, ExactBody, PathMode;
  }

  lemma PartsCount(loop: Loop, q: LoopParts)
    requires PartsOk(loop, q)
    ensures |q.contexts| == |loop.bodies|
  {
  }

  lemma PartsRegistry(loop: Loop, q: LoopParts)
    requires PartsOk(loop, q)
    ensures RegistryOk(q.invariants, q.constants)
  {
  }

  lemma StemRegistry(loop: Loop, c: Context, small: bool, parts: seq<Ib>)
    requires StemOk(loop, small, c, parts)
    ensures RegistryOk(c.invariants, c.constants)
  {
  }
}
