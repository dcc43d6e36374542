// Refinement of queries that abstract EXP and keccak.
module Refinement {
  import opened Options
  import opened Bits
  import opened BvTerms
  import opened Exponent
  import P = Prover

  // ---- interpretations and queries ----

  /** An interpretation of the symbols and of the abstracted functions. */
  datatype World = World(
    symbols: imap<string, nat>,
    exp: imap<(nat, nat), nat>,
    sha3: imap<(nat, nat), nat>,  // by size and value
    realArithmetic: bool)         // multiplication and division have their EVM meaning

  ghost function ExpOf(w: World, b: nat, e: nat): (r: nat)
    ensures r < Modulus()
  {
    Mod2(if (b, e) in w.exp then w.exp[(b, e)] else 0, WORD)
  }

  ghost function Sha3Of(w: World, size: nat, value: nat): nat {
    if (size, value) in w.sha3 then w.sha3[(size, value)] else 0
  }

  /** An application of EXP on the path; the operands may be constants. */
  datatype ExpApp = ExpApp(
    base: imap<World, nat>,
    exponent: imap<World, nat>,
    baseValue: Option<nat>,
    exponentValue: Option<nat>)

  ghost function Operand(m: imap<World, nat>, w: World): (v: nat)
    ensures v < Modulus()
  {
    Mod2(if w in m then m[w] else 0, WORD)
  }

  ghost predicate WfApp(app: ExpApp) {
    && (app.baseValue.Some? ==> forall w: World :: Operand(app.base, w) == app.baseValue.value)
    && (app.exponentValue.Some? ==> forall w: World :: Operand(app.exponent, w) == app.exponentValue.value)
  }

  ghost predicate AllWf(apps: seq<ExpApp>) {
    forall i | 0 <= i < |apps| :: WfApp(apps[i])
  }

  datatype ExpApps = ExpApps(apps: seq<ExpApp>, complete: bool)

  const PCEX_EXP_REFINEMENT_ROUNDS: nat := 3

  function MaxExpandedExponent(): nat {
    Pow2(64)
  }

  /** The keccak256 function, and the range that is assumed of hash values. */
  type Keccak = (nat, nat) -> nat

  predicate HasFact(keccak: Keccak, size: nat, value: nat) {
    0 < keccak(size, value) <= Pow2(256) - Pow2(64)
  }

  /** All functions are the real ones. */
  ghost predicate Real(keccak: Keccak, w: World) {
    && w.realArithmetic
    && (forall b, e :: ExpOf(w, b, e) == PowMod(b, e))
    && (forall size, value :: Sha3Of(w, size, value) == keccak(size, value))
  }

  // ---- the facts of a query ----

  /** The facts added to a query. */
  datatype Facts = Facts(refined: bool, exact: seq<Fact>, points: set<(nat, nat)>, keccaks: set<(nat, nat)>)

  /** The result of an application is the power, wherever the exact facts define it. */
  ghost predicate IsExact(app: ExpApp, w: World) {
    var b, e := Operand(app.base, w), Operand(app.exponent, w);
    DefinedAt(app, e) ==> ExpOf(w, b, e) == PowMod(b, e)
  }

  /** A constant base is tabulated; otherwise a constant exponent is expanded. */
  predicate DefinedAt(app: ExpApp, e: nat) {
    if app.baseValue.Some?
    then app.baseValue.value % 2 == 0 || Mod2(app.baseValue.value, WORD) == 1 || e < TABLE_SIZE
    else Expanded(app)
  }

  predicate Expanded(app: ExpApp) {
    app.baseValue.None? && app.exponentValue.Some? && app.exponentValue.value < MaxExpandedExponent()
  }

  /** The names that a query gives to the operands and the result of the i-th application. */
  ghost predicate Named(apps: seq<ExpApp>, i: nat, w: World, env: Env)
    requires i < |apps|
  {
    var b, e := Operand(apps[i].base, w), Operand(apps[i].exponent, w);
    && Look(env, BaseSym(i)) == b
    && Look(env, ExponentSym(i)) == e
    && Look(env, ResultSym(i)) == ExpOf(w, b, e)
  }

  ghost predicate Declares(apps: seq<ExpApp>, w: World, env: Env) {
    forall i | 0 <= i < |apps| :: Named(apps, i, w, env)
  }

  /** The operands and results in w. */
  ghost function EnvOf(apps: seq<ExpApp>, w: World): Env {
    imap x: Name :: OperandOf(apps, w, x)
  }

  ghost function OperandOf(apps: seq<ExpApp>, w: World, x: Name): nat {
    if x.i >= |apps| then 0 else
    var b, e := Operand(apps[x.i].base, w), Operand(apps[x.i].exponent, w);
    match x
    case BaseSym(_) => b
    case ExponentSym(_) => e
    case ResultSym(_) => ExpOf(w, b, e)
    case _ => 0
  }

  /** All products and squares have the values that they are meant to have. */
  ghost function IntendedAll(apps: seq<ExpApp>, env: Env): Env {
    imap x: Name :: IntendedOf(apps, env, x)
  }

  ghost function IntendedOf(apps: seq<ExpApp>, env: Env, x: Name): (v: nat)
    ensures v < Modulus()
  {
    if x.i >= |apps| || !Expanded(apps[x.i]) then Look(env, x) else
    match x
    case ProductSym(i, bit) => PowMod(Look(env, BaseSym(i)), Low(apps[i].exponentValue.value, bit + 1))
    case SquareSym(i, bit) => PowMod(Look(env, BaseSym(i)), Pow2(bit))
    case _ => Look(env, x)
  }

  lemma EnvDeclares(apps: seq<ExpApp>, w: World)
    ensures Declares(apps, w, EnvOf(apps, w))
  {
    hide Pow2, Rem;
    forall i | 0 <= i < |apps|
      ensures Named(apps, i, w, EnvOf(apps, w))
    {
      var b, e := Operand(apps[i].base, w), Operand(apps[i].exponent, w);
      AlreadyReduced(b);
      AlreadyReduced(e);
      AlreadyReduced(ExpOf(w, b, e));
    }
  }

  lemma AlreadyReduced(a: nat)
    requires a < Modulus()
    ensures Mod2(a, WORD) == a
  {
    hide Pow2;
  }

  /** The intended values do not touch the operands and results. */
  lemma IntendedDeclares(apps: seq<ExpApp>, w: World, env: Env)
    requires Declares(apps, w, env)
    ensures Declares(apps, w, IntendedAll(apps, env))
  {
    hide Pow2, Rem, Look, Operand, ExpOf;
    forall i | 0 <= i < |apps|
      ensures Named(apps, i, w, IntendedAll(apps, env))
    {
      assert Named(apps, i, w, env);
      IntendedLook(apps, env, BaseSym(i));
      IntendedLook(apps, env, ExponentSym(i));
      IntendedLook(apps, env, ResultSym(i));
    }
  }

  lemma IntendedLook(apps: seq<ExpApp>, env: Env, x: Name)
    requires x.BaseSym? || x.ExponentSym? || x.ResultSym?
    ensures Look(IntendedAll(apps, env), x) == Look(env, x)
  {
    hide Pow2, Rem;
    AlreadyReduced(Look(env, x));
  }

  /** They are the intended values of each application. */
  lemma IntendedEach(apps: seq<ExpApp>, env: Env, i: nat)
    requires i < |apps| && Expanded(apps[i])
    ensures var all := IntendedAll(apps, env); Intended(all, i, apps[i].exponentValue.value) == all
  {
    hide Pow2, Look, PowMod, Low;
    var all := IntendedAll(apps, env);
    IntendedLook(apps, env, BaseSym(i));
    forall x: Name
      ensures Look(all, x) == all[x]
    {
      IntendedReduced(apps, env, x);
    }
  }

  lemma IntendedReduced(apps: seq<ExpApp>, env: Env, x: Name)
    ensures Look(IntendedAll(apps, env), x) == IntendedAll(apps, env)[x]
  {
    hide Pow2, PowMod, Low, Rem, IntendedOf;
    AlreadyReduced(IntendedOf(apps, env, x));
  }

  /** The facts about the first k applications say that these are exact, for suitable products and squares. */
  ghost predicate Encodes(apps: seq<ExpApp>, k: nat, facts: seq<Fact>)
    requires k <= |apps|
  {
    && (forall w, env: Env | Declares(apps, w, env) && Satisfies(env, facts) ::
          forall i | 0 <= i < k :: IsExact(apps[i], w))
    && (forall w, env: Env | Declares(apps, w, env) && (forall i | 0 <= i < k :: IsExact(apps[i], w)) ::
          Satisfies(IntendedAll(apps, env), facts))
  }

  /** The facts about one application. */
  ghost predicate EncodesOne(apps: seq<ExpApp>, i: nat, facts: seq<Fact>)
    requires i < |apps|
  {
    && (forall w, env: Env | Declares(apps, w, env) && Satisfies(env, facts) :: IsExact(apps[i], w))
    && (forall w, env: Env | Declares(apps, w, env) && IsExact(apps[i], w) ::
          Satisfies(IntendedAll(apps, env), facts))
  }

  lemma SatisfiesBoth(env: Env, facts: seq<Fact>, more: seq<Fact>)
    ensures Satisfies(env, facts + more) <==> Satisfies(env, facts) && Satisfies(env, more)
  {
    hide Look, ValueOf;
    assert forall k | 0 <= k < |facts| :: (facts + more)[k] == facts[k];
    assert forall k | 0 <= k < |more| :: (facts + more)[|facts| + k] == more[k];
  }

  lemma EncodesNext(apps: seq<ExpApp>, k: nat, facts: seq<Fact>, more: seq<Fact>)
    requires k < |apps| && Encodes(apps, k, facts) && EncodesOne(apps, k, more)
    ensures Encodes(apps, k + 1, facts + more)
  {
    hide Satisfies, Declares, IsExact, IntendedAll;
    forall w, env: Env | Declares(apps, w, env)
      ensures Satisfies(env, facts + more) ==> forall i | 0 <= i < k + 1 :: IsExact(apps[i], w)
      ensures (forall i | 0 <= i < k + 1 :: IsExact(apps[i], w)) ==> Satisfies(IntendedAll(apps, env), facts + more)
    {
      SatisfiesBoth(env, facts, more);
      SatisfiesBoth(IntendedAll(apps, env), facts, more);
    }
  }

  /** The definition of a result by the table of its base. */
  lemma TableEncodes(apps: seq<ExpApp>, i: nat, table: Expr)
    requires i < |apps| && WfApp(apps[i]) && apps[i].baseValue.Some?
    requires forall env: Env :: ValueOf(table, env) ==
               TableValue(apps[i].baseValue.value, Look(env, ExponentSym(i)), Look(env, ResultSym(i)))
    ensures EncodesOne(apps, i, [Fact(ResultSym(i), table)])
  {
    hide Pow2, PowMod, Look, Operand, ExpOf, ValueOf, IntendedAll, Rem;
    var f, c := Fact(ResultSym(i), table), apps[i].baseValue.value;
    forall w, env: Env | Declares(apps, w, env)
      ensures Satisfies(env, [f]) <==> IsExact(apps[i], w)
      ensures Satisfies(IntendedAll(apps, env), [f]) <==> IsExact(apps[i], w)
    {
      assert Operand(apps[i].base, w) == c;
      IntendedDeclares(apps, w, env);
      assert Named(apps, i, w, env) && Named(apps, i, w, IntendedAll(apps, env));
      assert [f][0] == f;
    }
  }

  /** What the table of a base holds, or the value itself. */
  ghost function TableValue(c: nat, e: nat, otherwise: nat): nat {
    if c % 2 == 0 || Mod2(c, WORD) == 1 || e < TABLE_SIZE then PowMod(c, e) else otherwise
  }

  /** The definition of a result by squares and products. */
  lemma PowerEncodes(apps: seq<ExpApp>, i: nat, facts: seq<Fact>)
    requires i < |apps| && WfApp(apps[i]) && Expanded(apps[i])
    requires DefinesPower(facts, i, apps[i].exponentValue.value)
    ensures EncodesOne(apps, i, facts)
  {
    hide Pow2, PowMod, Look, Operand, ExpOf, Satisfies, Intended, IntendedAll, Rem;
    var e := apps[i].exponentValue.value;
    forall w, env: Env | Declares(apps, w, env)
      ensures Satisfies(env, facts) ==> IsExact(apps[i], w)
      ensures IsExact(apps[i], w) ==> Satisfies(IntendedAll(apps, env), facts)
    {
      assert Operand(apps[i].exponent, w) == e;
      IntendedDeclares(apps, w, env);
      assert Named(apps, i, w, env) && Named(apps, i, w, IntendedAll(apps, env));
      IntendedEach(apps, env, i);
    }
  }

  lemma NothingEncodes(apps: seq<ExpApp>, i: nat)
    requires i < |apps| && apps[i].baseValue.None? && !Expanded(apps[i])
    ensures EncodesOne(apps, i, [])
  {
    hide Pow2, PowMod, Operand, ExpOf;
  }

  /** What is asserted of one application: a table of its base, an expansion of its exponent, or nothing. */
  method ExactFact(apps: seq<ExpApp>, i: nat) returns (facts: seq<Fact>)
    requires i < |apps| && WfApp(apps[i])
    ensures EncodesOne(apps, i, facts)
    ensures facts != [] <==> apps[i].baseValue.Some? || Expanded(apps[i])
  {
    hide EncodesOne, WfApp, DefinesPower, ValueOf, Look, PowMod, Pow2, Rem;
    var app := apps[i];
    if app.baseValue.Some? {
      var table := ExpTable(app.baseValue.value, Sym(ExponentSym(i)), Sym(ResultSym(i)));
      forall env: Env
        ensures ValueOf(table, env) == TableValue(app.baseValue.value, Look(env, ExponentSym(i)), Look(env, ResultSym(i)))
      {
        SymbolValue(ExponentSym(i), env);
        SymbolValue(ResultSym(i), env);
      }
      TableEncodes(apps, i, table);
      return [Fact(ResultSym(i), table)];
    }
    if app.exponentValue.Some? && app.exponentValue.value < MaxExpandedExponent() {
      facts := SquareAndMultiply(i, app.exponentValue.value);
      PowerEncodes(apps, i, facts);
      return;
    }
    NothingEncodes(apps, i);
    facts := [];
  }

  lemma SymbolValue(x: Name, env: Env)
    ensures ValueOf(Sym(x), env) == Look(env, x)
  {
  }

  /**
   * The exact definitions of all applications: their models are those in which the results are the
   * powers wherever there is a definition.
   */
  method ExactFacts(apps: seq<ExpApp>) returns (facts: seq<Fact>)
    requires AllWf(apps)
    ensures Encodes(apps, |apps|, facts)
    ensures facts != [] <==> exists i :: 0 <= i < |apps| && (apps[i].baseValue.Some? || Expanded(apps[i]))
  {
    hide Encodes, EncodesOne, WfApp, MaxExpandedExponent;
    facts := [];
    NoFactsEncode(apps);
    for i := 0 to |apps|
      invariant Encodes(apps, i, facts)
      invariant facts != [] <==> exists j :: 0 <= j < i && (apps[j].baseValue.Some? || Expanded(apps[j]))
    {
      var more := ExactFact(apps, i);
      EncodesNext(apps, i, facts, more);
      facts := facts + more;
    }
  }

  lemma NoFactsEncode(apps: seq<ExpApp>)
    ensures Encodes(apps, 0, [])
  {
    hide Declares, IntendedAll;
  }

  /** All that a query asserts beside the path conditions. */
  ghost predicate Satisfied(keccak: Keccak, apps: seq<ExpApp>, facts: Facts, w: World, env: Env) {
    && (facts.refined ==> w.realArithmetic)
    && Declares(apps, w, env)
    && Satisfies(env, facts.exact)
    && (forall b, e | (b, e) in facts.points :: ExpOf(w, b, e) == PowMod(b, e))
    && (forall size, value | (size, value) in facts.keccaks :: Sha3Of(w, size, value) == keccak(size, value))
  }

  /** The real functions satisfy every fact, with the intended products and squares. */
  lemma RealSatisfies(keccak: Keccak, apps: seq<ExpApp>, facts: Facts, w: World)
    requires Real(keccak, w) && (facts.exact == [] || Encodes(apps, |apps|, facts.exact))
    ensures Satisfied(keccak, apps, facts, w, IntendedAll(apps, EnvOf(apps, w)))
  {
    hide Pow2, PowMod, Satisfies, Declares, IntendedAll, EnvOf, Operand, ExpOf;
    EnvDeclares(apps, w);
    IntendedDeclares(apps, w, EnvOf(apps, w));
    assert Satisfies(IntendedAll(apps, EnvOf(apps, w)), []) by {
      NothingToSatisfy(IntendedAll(apps, EnvOf(apps, w)));
    }
    forall i | 0 <= i < |apps|
      ensures IsExact(apps[i], w)
    {
    }
  }

  lemma NothingToSatisfy(env: Env)
    ensures Satisfies(env, [])
  {
  }

  // ---- the solver ----

  /** What the solver reports of one application. */
  datatype Reported = Reported(b: Option<nat>, e: Option<nat>, r: Option<nat>)

  datatype Output = Output(
    result: P.Answer,
    hasModel: bool,
    valid: bool,                    // of the model
    readable: bool,                 // the solver's output can be read
    values: seq<Reported>,          // one for each application
    others: bool,                   // other abstractions occur in the model
    hashes: seq<(nat, nat)>,        // the arguments of hashes in the model
    core: Option<seq<string>>,      // names of conditions that cannot hold together
    reason: bool)                   // an explanation of why the model may be invalid

  datatype Setting = Setting(
    base: iset<World>,              // the worlds that satisfy the path conditions
    names: seq<string>,             // of the path conditions
    conditions: imap<string, iset<World>>,
    refinable: bool,                // there are abstractions of multiplication or division
    apps: ExpApps,
    keccak: Keccak,
    useKeccak: bool,
    keccakRounds: nat,
    solve: (nat, Facts) -> Output)  // the k-th call of the solver

  /** Only unsat is relied upon: for the path conditions, and for those that the core names. */
  ghost predicate Trusted(s: Setting) {
    && (forall i | 0 <= i < |s.apps.apps| :: WfApp(s.apps.apps[i]))
    && (forall a | a in s.names && a in s.conditions :: s.base <= s.conditions[a])
    && (forall k, facts | s.solve(k, facts).result == P.Unsat ::
          forall w, env: Env | w in s.base :: !Satisfied(s.keccak, s.apps.apps, facts, w, env))
    && (forall k, facts | s.solve(k, facts).core.Some? ::
          forall w, env: Env | Satisfied(s.keccak, s.apps.apps, facts, w, env) ::
            Violates(s.conditions, s.solve(k, facts).core.value, w))
  }

  /** One of the named conditions does not hold. */
  ghost predicate Violates(conditions: imap<string, iset<World>>, core: seq<string>, w: World) {
    exists j :: 0 <= j < |core| && core[j] in conditions && w !in conditions[core[j]]
  }

  /** The named conditions cannot hold together with the real functions. */
  ghost predicate IsCore(keccak: Keccak, conditions: imap<string, iset<World>>, core: seq<string>) {
    forall w: World | Real(keccak, w) :: Violates(conditions, core, w)
  }

  ghost predicate CoreOk(s: Setting, out: Output) {
    out.core.Some? ==> IsCore(s.keccak, s.conditions, out.core.value)
  }

  /** There is a model of the path conditions with the real functions. */
  ghost predicate HasCounterexample(s: Setting) {
    exists w :: w in s.base && Real(s.keccak, w)
  }

  lemma UnsatExcludes(s: Setting, k: nat, facts: Facts)
    requires Trusted(s) && s.solve(k, facts).result == P.Unsat
    requires facts.exact == [] || Encodes(s.apps.apps, |s.apps.apps|, facts.exact)
    ensures !HasCounterexample(s)
  {
    hide Satisfied, Real, WfApp, Encodes, IntendedAll, EnvOf, Violates;
    forall w | w in s.base
      ensures !Real(s.keccak, w)
    {
      assert !Satisfied(s.keccak, s.apps.apps, facts, w, IntendedAll(s.apps.apps, EnvOf(s.apps.apps, w)));
      if Real(s.keccak, w) {
        RealSatisfies(s.keccak, s.apps.apps, facts, w);
      }
    }
  }

  /** The core of any query that the solver is asked, with whatever facts, excludes the real functions. */
  lemma SolverCore(s: Setting, k: nat, facts: Facts)
    requires Trusted(s) && (facts.exact == [] || Encodes(s.apps.apps, |s.apps.apps|, facts.exact))
    ensures CoreOk(s, s.solve(k, facts))
  {
    hide Satisfied, Real, WfApp, Encodes, IntendedAll, EnvOf, Violates;
    if s.solve(k, facts).core.Some? {
      forall w | Real(s.keccak, w)
        ensures Violates(s.conditions, s.solve(k, facts).core.value, w)
      {
        RealSatisfies(s.keccak, s.apps.apps, facts, w);
        assert Satisfied(s.keccak, s.apps.apps, facts, w, IntendedAll(s.apps.apps, EnvOf(s.apps.apps, w)));
      }
    }
  }

  // ---- the first query ----

  predicate AllIn(core: seq<string>, assertions: seq<string>) {
    forall j | 0 <= j < |core| :: core[j] in assertions
  }

  /** Whether the query contains a known unsatisfiable core. */
  method CheckUnsatCores(assertions: seq<string>, cores: seq<seq<string>>) returns (found: bool)
    ensures found <==> exists i :: 0 <= i < |cores| && AllIn(cores[i], assertions)
  {
    for i := 0 to |cores|
      invariant forall k | 0 <= k < i :: !AllIn(cores[k], assertions)
    {
      var all := true;
      for j := 0 to |cores[i]|
        invariant all <==> forall k | 0 <= k < j :: cores[i][k] in assertions
      {
        all := all && cores[i][j] in assertions;
      }
      if all {
        assert AllIn(cores[i], assertions);
        return true;
      }
    }
    found := false;
  }

  /** A query that contains a core has no counterexample. */
  lemma CoreExcludes(s: Setting, core: seq<string>)
    requires Trusted(s) && IsCore(s.keccak, s.conditions, core) && AllIn(core, s.names)
    ensures !HasCounterexample(s)
  {
    hide Real, Satisfied, WfApp;
    forall w: World | Real(s.keccak, w)
      ensures w !in s.base
    {
      assert Violates(s.conditions, core, w);
      var j :| 0 <= j < |core| && core[j] in s.conditions && w !in s.conditions[core[j]];
      assert core[j] in s.names;
    }
  }

  /** No call if a core is contained; a second one, with real arithmetic, exactly if the first finds an invalid model. */
  ghost predicate FirstRun(s: Setting, cores: seq<seq<string>>, isRefined: bool, out: Output, calls: nat) {
    var answer := s.solve(0, Facts(isRefined, [], {}, {}));
    if exists i :: 0 <= i < |cores| && AllIn(cores[i], s.names) then calls == 0 && out.result == P.Unsat && out.core.None?
    else if answer.result == P.Sat && !answer.valid && !isRefined && s.refinable then
      calls == 2 && out == s.solve(1, Facts(true, [], {}, {}))
    else calls == 1 && out == answer
  }

  /** Zero, one or two calls: the second with the definitions of multiplication and division. */
  method SolveEndToEnd(s: Setting, cores: seq<seq<string>>, isRefined: bool) returns (out: Output, calls: nat)
    requires Trusted(s)
    requires forall i | 0 <= i < |cores| :: IsCore(s.keccak, s.conditions, cores[i])
    ensures out.result == P.Unsat ==> !HasCounterexample(s)
    ensures CoreOk(s, out)
    ensures FirstRun(s, cores, isRefined, out, calls)
  {
    hide Trusted, HasCounterexample, IsCore;
    var known := CheckUnsatCores(s.names, cores);
    if known {
      ghost var i :| 0 <= i < |cores| && AllIn(cores[i], s.names);
      CoreExcludes(s, cores[i]);
      return Output(P.Unsat, false, false, false, [], false, [], None, false), 0;
    }
    out := s.solve(0, Facts(isRefined, [], {}, {}));
    calls := 1;
    SolverCore(s, 0, Facts(isRefined, [], {}, {}));
    if out.result == P.Unsat {
      UnsatExcludes(s, 0, Facts(isRefined, [], {}, {}));
    }
    if out.result == P.Sat && !out.valid && !isRefined && s.refinable {
      out := s.solve(1, Facts(true, [], {}, {}));
      calls := 2;
      SolverCore(s, 1, Facts(true, [], {}, {}));
      if out.result == P.Unsat {
        UnsatExcludes(s, 1, Facts(true, [], {}, {}));
      }
    }
  }

  // ---- refinement of EXP ----

  function ValueAt(values: seq<Reported>, i: nat): Reported {
    if i < |values| then values[i] else Reported(None, None, None)
  }

  predicate IsComplete(v: Reported) {
    v.b.Some? && v.e.Some? && v.r.Some?
  }

  predicate Agrees(v: Reported) {
    IsComplete(v) && PowMod(v.b.value, v.e.value) == v.r.value
  }

  predicate Disagrees(v: Reported) {
    IsComplete(v) && !Agrees(v)
  }

  /** A confirmed counterexample: every application and every hash is the real one. */
  ghost predicate Confirmed(s: Setting, out: Output, pinned: set<(nat, nat)>) {
    && s.apps.complete
    && !out.others
    && (forall i | 0 <= i < |s.apps.apps| :: Agrees(ValueAt(out.values, i)))
    && (s.useKeccak ==> forall k | 0 <= k < |out.hashes| && out.hashes[k].0 % 8 == 0 :: out.hashes[k] in pinned)
  }

  /** The applications that the model gives another value than the real one, or none. */
  method Compare(apps: ExpApps, values: seq<Reported>) returns (disagree: seq<nat>, missing: seq<nat>)
    ensures disagree == [] && missing == [] <==> forall i | 0 <= i < |apps.apps| :: Agrees(ValueAt(values, i))
    ensures forall i: nat :: i in disagree <==> i < |apps.apps| && Disagrees(ValueAt(values, i))
    ensures forall i: nat :: i in missing <==> i < |apps.apps| && !IsComplete(ValueAt(values, i))
  {
    hide PowMod;
    disagree, missing := [], [];
    for i := 0 to |apps.apps|
      invariant disagree == [] && missing == [] <==> forall j | 0 <= j < i :: Agrees(ValueAt(values, j))
      invariant forall j: nat :: j in disagree <==> j < i && Disagrees(ValueAt(values, j))
      invariant forall j: nat :: j in missing <==> j < i && !IsComplete(ValueAt(values, j))
    {
      var v := ValueAt(values, i);
      if !IsComplete(v) {
        missing := missing + [i];
      } else if PowMod(v.b.value, v.e.value) != v.r.value {
        disagree := disagree + [i];
      }
    }
  }

  /** The real hash is in the assumed range, and not yet a fact. */
  predicate IsNew(keccak: Keccak, x: (nat, nat), known: set<(nat, nat)>) {
    x.0 % 8 == 0 && HasFact(keccak, x.0, x.1) && x !in known
  }

  /** Hash arguments that no fact covers yet; a hash outside the assumed range has no fact. */
  method NewHashes(keccak: Keccak, hashes: seq<(nat, nat)>, known: set<(nat, nat)>)
    returns (news: set<(nat, nat)>, consistent: bool)
    ensures news == {} && consistent <==> forall k | 0 <= k < |hashes| && hashes[k].0 % 8 == 0 :: hashes[k] in known
    ensures forall x :: x in news <==> x in hashes && IsNew(keccak, x, known)
  {
    hide HasFact;
    news, consistent := {}, true;
    for k := 0 to |hashes|
      invariant news == {} && consistent <==> forall j | 0 <= j < k && hashes[j].0 % 8 == 0 :: hashes[j] in known
      invariant forall x :: x in news <==> x in hashes[..k] && IsNew(keccak, x, known)
    {
      var x := hashes[k];
      if x.0 % 8 == 0 && x !in known {
        if HasFact(keccak, x.0, x.1) {
          news := news + {x};
        } else {
          consistent := false;
        }
      }
    }
  }

  /** The operands of the applications that disagree. */
  method AddPoints(values: seq<Reported>, disagree: seq<nat>, points: set<(nat, nat)>) returns (more: set<(nat, nat)>)
    requires AllComplete(values, disagree)
    ensures WithPoints(points, values, disagree, more)
  {
    more := points;
    for k := 0 to |disagree|
      invariant WithPoints(points, values, disagree[..k], more)
    {
      var v := ValueAt(values, disagree[k]);
      more := more + {(v.b.value, v.e.value)};
    }
  }

  predicate WithPoints(points: set<(nat, nat)>, values: seq<Reported>, disagree: seq<nat>, more: set<(nat, nat)>) {
    && points <= more
    && (forall k | 0 <= k < |disagree| :: PointOf(ValueAt(values, disagree[k])).Some? ==>
          PointOf(ValueAt(values, disagree[k])).value in more)
    && (forall key | key in more && key !in points ::
          exists k :: 0 <= k < |disagree| && PointOf(ValueAt(values, disagree[k])) == Some(key))
  }

  function PointOf(v: Reported): Option<(nat, nat)> {
    if v.b.Some? && v.e.Some? then Some((v.b.value, v.e.value)) else None
  }

  /** The exact definitions, once, and the real powers at the operands that the model disagrees on. */
  method AddFacts(apps: seq<ExpApp>, values: seq<Reported>, disagree: seq<nat>, missing: seq<nat>,
                  exact: Option<seq<Fact>>, points: set<(nat, nat)>)
    returns (definitions: Option<seq<Fact>>, more: set<(nat, nat)>, added: bool)
    requires AllWf(apps) && (exact.Some? ==> Encodes(apps, |apps|, exact.value))
    requires AllComplete(values, disagree)
    ensures definitions.Some? ==> Encodes(apps, |apps|, definitions.value)
    ensures definitions.Some? <==> exact.Some? || disagree != [] || missing != []
    ensures exact.Some? ==> definitions == exact
    ensures WithPoints(points, values, disagree, more)
    ensures added <==> more != points || (exact.None? && definitions.Some? && definitions.value != [])
  {
    hide Encodes, AllWf, AllComplete, WithPoints;
    definitions, added := exact, false;
    if exact.None? && (disagree != [] || missing != []) {
      var facts := ExactFacts(apps);
      definitions := Some(facts);
      added := facts != [];
    }
    more := AddPoints(values, disagree, points);
    added := added || more != points;
  }

  function MaxRounds(s: Setting): nat {
    PCEX_EXP_REFINEMENT_ROUNDS + if s.useKeccak then s.keccakRounds else 0
  }

  /** The facts so far, as of the next query. */
  function FactsOf(exact: Option<seq<Fact>>, points: set<(nat, nat)>, keccaks: set<(nat, nat)>): Facts {
    Facts(true, if exact.Some? then exact.value else [], points, keccaks)
  }

  /** Whether the model is a confirmed counterexample, and what in it is not. */
  method CheckModel(s: Setting, out: Output, known: set<(nat, nat)>)
    returns (agrees: bool, disagree: seq<nat>, missing: seq<nat>, news: set<(nat, nat)>)
    ensures agrees <==> Confirmed(s, out.(valid := true), known)
    ensures forall i: nat :: i in disagree <==> i < |s.apps.apps| && Disagrees(ValueAt(out.values, i))
    ensures forall i: nat :: i in missing <==> i < |s.apps.apps| && !IsComplete(ValueAt(out.values, i))
    ensures forall x :: x in news <==> s.useKeccak && x in out.hashes && IsNew(s.keccak, x, known)
  {
    hide PowMod, HasFact, Agrees, IsComplete;
    disagree, missing := Compare(s.apps, out.values);
    var consistent := true;
    news := {};
    if s.useKeccak {
      news, consistent := NewHashes(s.keccak, out.hashes, known);
    }
    agrees := s.apps.complete && disagree == [] && missing == [] && !out.others && news == {} && consistent;
  }

  predicate AllComplete(values: seq<Reported>, disagree: seq<nat>) {
    forall k | 0 <= k < |disagree| :: IsComplete(ValueAt(values, disagree[k]))
  }

  // ---- runs of the refinement ----

  /** The answer before the k-th further query; an earlier core is not one of the facts alone. */
  function AnswerAt(s: Setting, first: Output, asked: seq<Facts>, k: nat): Output
    requires k <= |asked|
  {
    if k == 0 then first else s.solve(k - 1, asked[k - 1]).(core := None)
  }

  /** What was added before the k-th further query. */
  function FactsAt(asked: seq<Facts>, k: nat): Facts
    requires k <= |asked|
  {
    if k == 0 then Facts(false, [], {}, {}) else asked[k - 1]
  }

  /** All that the model has wrong is asserted: definitions, powers at its operands, and hashes. */
  ghost predicate Covers(s: Setting, out: Output, facts: Facts) {
    var n := |s.apps.apps|;
    && ((exists i: nat :: i < n && !Agrees(ValueAt(out.values, i))) ==> Encodes(s.apps.apps, n, facts.exact))
    && (forall i: nat | i < n && Disagrees(ValueAt(out.values, i)) ::
          (ValueAt(out.values, i).b.value, ValueAt(out.values, i).e.value) in facts.points)
    && (s.useKeccak ==> CoversHashes(s, out, facts.keccaks))
  }

  ghost predicate CoversHashes(s: Setting, out: Output, keccaks: set<(nat, nat)>) {
    forall x | x in out.hashes && x.0 % 8 == 0 && HasFact(s.keccak, x.0, x.1) :: x in keccaks
  }

  predicate Within(f: Facts, g: Facts) {
    (f.exact == [] || f.exact == g.exact) && f.points <= g.points && f.keccaks <= g.keccaks
  }

  /** The k-th further query was asked because of the model before it, and asserts all that this model has wrong. */
  ghost predicate Pursued(s: Setting, first: Output, asked: seq<Facts>, k: nat)
    requires k < |asked|
  {
    var out, f, g := AnswerAt(s, first, asked, k), FactsAt(asked, k), asked[k];
    && out.result == P.Sat && out.hasModel && out.readable
    && !Confirmed(s, out, f.keccaks)
    && g.refined && Within(f, g) && Covers(s, out, g)
    && (f.(refined := true) != g || (k == 0 && out.others))
  }

  ghost predicate AllPursued(s: Setting, first: Output, asked: seq<Facts>) {
    forall k: nat | k < |asked| :: Pursued(s, first, asked, k)
  }

  /** Nothing can be added: all that the model has wrong is asserted already. */
  ghost predicate Exhausted(s: Setting, out: Output, asked: seq<Facts>) {
    Covers(s, out, FactsAt(asked, |asked|)) && (asked == [] ==> !out.others)
  }

  /** The result is that of the last answer; a model that is not confirmed is given up only for one of these reasons. */
  ghost predicate ExpResult(s: Setting, first: Output, asked: seq<Facts>, out: Output) {
    var last := AnswerAt(s, first, asked, |asked|);
    if last.result == P.Unsat then out == last
    else if last.result != P.Sat || !last.hasModel then
      out == if asked == [] then first else AnswerAt(s, first, asked, |asked| - 1).(valid := false, reason := true)
    else if last.readable && Confirmed(s, last, FactsAt(asked, |asked|).keccaks) then out == last.(valid := true)
    else
      && out == last.(valid := false, reason := true)
      && (|asked| == MaxRounds(s) || !s.apps.complete || !last.readable || Exhausted(s, last, asked))
  }

  /** A whole run: the queries that were asked, and its result. */
  ghost predicate ExpRun(s: Setting, first: Output, asked: seq<Facts>, out: Output) {
    && |asked| <= MaxRounds(s)
    && AllPursued(s, first, asked)
    && ExpResult(s, first, asked, out)
  }

  /** A counterexample is not lost, and marked valid only if it is confirmed. */
  ghost predicate ExpSound(s: Setting, first: Output, asked: seq<Facts>, out: Output) {
    && (first.result == P.Sat && first.hasModel ==> out.result == P.Unsat || (out.result == P.Sat && out.hasModel))
    && (out.result == P.Sat && out.hasModel && out.valid ==> Confirmed(s, out, FactsAt(asked, |asked|).keccaks))
    && (out.result == P.Sat && out.hasModel && !out.valid ==> out.reason)
  }

  lemma ExpRunSound(s: Setting, first: Output, asked: seq<Facts>, out: Output)
    requires ExpRun(s, first, asked, out)
    ensures ExpSound(s, first, asked, out)
  {
    hide Covers, Agrees, Within, MaxRounds;
    var n := |asked|;
    if n > 0 {
      assert Pursued(s, first, asked, n - 1);
    }
  }

  /** Once a query of the run has no model, neither has the whole. */
  lemma ExpRunUnsat(s: Setting, first: Output, asked: seq<Facts>, out: Output, k: nat)
    requires ExpRun(s, first, asked, out) && k <= |asked| && AnswerAt(s, first, asked, k).result == P.Unsat
    ensures k == |asked| && out.result == P.Unsat
  {
    hide Covers, Confirmed, Within, MaxRounds;
    assert k < |asked| ==> Pursued(s, first, asked, k);
  }

  lemma DisagreeComplete(apps: seq<ExpApp>, values: seq<Reported>, disagree: seq<nat>)
    requires forall i: nat :: i in disagree <==> i < |apps| && Disagrees(ValueAt(values, i))
    ensures AllComplete(values, disagree)
  {
    hide IsComplete, Agrees;
    forall k | 0 <= k < |disagree| ensures IsComplete(ValueAt(values, disagree[k])) {
      assert disagree[k] in disagree;
    }
  }

  lemma ConfirmedValid(s: Setting, out: Output, known: set<(nat, nat)>)
    ensures Confirmed(s, out.(valid := true), known) <==> Confirmed(s, out, known)
  {
  }

  lemma NewCovers(s: Setting, out: Output, known: set<(nat, nat)>, news: set<(nat, nat)>)
    requires forall x :: x in news <==> s.useKeccak && x in out.hashes && IsNew(s.keccak, x, known)
    ensures s.useKeccak ==> CoversHashes(s, out, known + news)
  {
    hide HasFact;
  }

  lemma CoversAlso(s: Setting, out: Output, facts: Facts, refined: bool)
    requires Covers(s, out, facts)
    ensures Covers(s, out, facts.(refined := refined))
  {
    hide Encodes, Agrees, Disagrees, CoversHashes;
  }

  lemma PursuedNow(s: Setting, first: Output, asked: seq<Facts>, f: Facts, g: Facts)
    requires FactsAt(asked, |asked|) == f.(refined := asked != []) && f.refined && g.refined
    requires var out := AnswerAt(s, first, asked, |asked|);
      && out.result == P.Sat && out.hasModel && out.readable
      && !Confirmed(s, out, f.keccaks)
      && Covers(s, out, g) && (f != g || (asked == [] && out.others))
    requires Within(f, g) && AllPursued(s, first, asked)
    ensures AllPursued(s, first, asked + [g])
  {
    hide Confirmed, Covers, AllPursued;
    var n, all := |asked|, asked + [g];
    assert AnswerAt(s, first, all, n) == AnswerAt(s, first, asked, n);
    assert FactsAt(all, n) == FactsAt(asked, n);
    PursuedSnoc(s, first, asked, g);
  }

  lemma PursuedSnoc(s: Setting, first: Output, asked: seq<Facts>, g: Facts)
    requires AllPursued(s, first, asked) && Pursued(s, first, asked + [g], |asked|)
    ensures AllPursued(s, first, asked + [g])
  {
    hide Confirmed, Covers, Within;
    forall k: nat | k < |asked| ensures Pursued(s, first, asked + [g], k) {
      assert Pursued(s, first, asked, k);
    }
  }

  /** The ways in which a run ends. */
  lemma Decided(s: Setting, first: Output, asked: seq<Facts>)
    requires AllPursued(s, first, asked) && |asked| <= MaxRounds(s)
    ensures var last := AnswerAt(s, first, asked, |asked|);
      var agrees := last.hasModel && last.readable && Confirmed(s, last, FactsAt(asked, |asked|).keccaks);
      && (last.result == P.Unsat ==> ExpRun(s, first, asked, last))
      && (last.result == P.Sat && agrees ==> ExpRun(s, first, asked, last.(valid := true)))
  {
    hide Confirmed, AllPursued, MaxRounds;
  }

  lemma Undecided(s: Setting, first: Output, asked: seq<Facts>)
    requires AllPursued(s, first, asked) && |asked| <= MaxRounds(s)
    requires var last := AnswerAt(s, first, asked, |asked|);
      last.result != P.Unsat && (last.result != P.Sat || !last.hasModel)
    ensures ExpRun(s, first, asked, if asked == [] then first
      else AnswerAt(s, first, asked, |asked| - 1).(valid := false, reason := true))
  {
    hide AllPursued, MaxRounds;
  }

  lemma GivenUp(s: Setting, first: Output, asked: seq<Facts>)
    requires AllPursued(s, first, asked) && |asked| <= MaxRounds(s)
    requires var last := AnswerAt(s, first, asked, |asked|);
      && last.result == P.Sat && last.hasModel
      && (!last.readable || !Confirmed(s, last, FactsAt(asked, |asked|).keccaks))
      && (|asked| == MaxRounds(s) || !s.apps.complete || !last.readable || Exhausted(s, last, asked))
    ensures ExpRun(s, first, asked, AnswerAt(s, first, asked, |asked|).(valid := false, reason := true))
  {
    hide AllPursued, MaxRounds, Confirmed, Exhausted;
  }

  /** What is added covers all that the model has wrong, and it is more than before exactly if something was missing. */
  lemma AddedCovers(s: Setting, out: Output, disagree: seq<nat>, missing: seq<nat>, exact: Option<seq<Fact>>,
                    points: set<(nat, nat)>, keccaks: set<(nat, nat)>, definitions: Option<seq<Fact>>,
                    more: set<(nat, nat)>, news: set<(nat, nat)>)
    requires forall i: nat :: i in disagree <==> i < |s.apps.apps| && Disagrees(ValueAt(out.values, i))
    requires forall i: nat :: i in missing <==> i < |s.apps.apps| && !IsComplete(ValueAt(out.values, i))
    requires s.useKeccak ==> CoversHashes(s, out, keccaks + news)
    requires definitions.Some? ==> Encodes(s.apps.apps, |s.apps.apps|, definitions.value)
    requires definitions.Some? <==> exact.Some? || disagree != [] || missing != []
    requires exact.Some? ==> definitions == exact
    requires WithPoints(points, out.values, disagree, more)
    ensures Covers(s, out, FactsOf(definitions, more, keccaks + news))
    ensures Within(FactsOf(exact, points, keccaks), FactsOf(definitions, more, keccaks + news))
  {
    hide Agrees, Encodes, CoversHashes;
    if i: nat :| i < |s.apps.apps| && !Agrees(ValueAt(out.values, i)) {
      assert i in disagree || i in missing;
    }
    forall i: nat | i < |s.apps.apps| && Disagrees(ValueAt(out.values, i))
      ensures (ValueAt(out.values, i).b.value, ValueAt(out.values, i).e.value) in more
    {
      var k :| 0 <= k < |disagree| && disagree[k] == i;
      assert PointOf(ValueAt(out.values, disagree[k])).Some?;
    }
  }

  /**
   * Solves again with facts about the real EXP and keccak until the model agrees with them, nothing can be added, or
   * the rounds are used up.
   */
  method RefineExp(s: Setting, first: Output) returns (out: Output, calls: nat, ghost asked: seq<Facts>)
    requires Trusted(s) && (first.result == P.Unsat ==> !HasCounterexample(s)) && CoreOk(s, first)
    ensures out.result == P.Unsat ==> !HasCounterexample(s)
    ensures calls == |asked| && ExpRun(s, first, asked, out)
    ensures ExpSound(s, first, asked, out)
    ensures CoreOk(s, out) && (calls > 0 && out.result == P.Unsat ==> out.core.None?)
  {
    hide Trusted, HasCounterexample, Confirmed, Encodes, WithPoints, AllWf, MaxRounds, Covers, CoversHashes, ExpSound;
    hide AllComplete, Agrees, IsComplete, Disagrees, HasFact, Pursued, AllPursued, Within, ExpRun;
    TrustedWf(s);
    forall asked, out | ExpRun(s, first, asked, out)
      ensures ExpSound(s, first, asked, out)
    {
      ExpRunSound(s, first, asked, out);
    }
    var rounds := MaxRounds(s);
    var exact: Option<seq<Fact>>, points: set<(nat, nat)>, keccaks: set<(nat, nat)> := None, {}, {};
    var solvedRefined, current, lastSat: Option<Output> := false, first, None;
    calls, asked := 0, [];
    assert AllPursued(s, first, []) by {
      NoneAsked(s, first);
    }
    for round := 0 to rounds + 1
      invariant calls == round == |asked| <= rounds && solvedRefined == (round > 0)
      invariant FactsAt(asked, round) == FactsOf(exact, points, keccaks).(refined := solvedRefined)
      invariant current == AnswerAt(s, first, asked, round) && AllPursued(s, first, asked)
      invariant lastSat == if round == 0 then None else Some(AnswerAt(s, first, asked, round - 1))
      invariant current.result == P.Unsat ==> !HasCounterexample(s)
      invariant CoreOk(s, current) && (lastSat.Some? ==> CoreOk(s, lastSat.value) && lastSat.value.result == P.Sat)
      invariant exact.Some? ==> Encodes(s.apps.apps, |s.apps.apps|, exact.value)
    {
      Decided(s, first, asked);
      if current.result == P.Unsat {
        return current, calls, asked;
      }
      if current.result != P.Sat || !current.hasModel {
        Undecided(s, first, asked);
        if lastSat.None? {
          return current, calls, asked;
        }
        break;
      }
      lastSat := Some(current);
      if !current.readable {
        GivenUp(s, first, asked);
        break;
      }
      var agrees, disagree, missing, newKeccaks := CheckModel(s, current, keccaks);
      ConfirmedValid(s, current, keccaks);
      if agrees {
        return current.(valid := true), calls, asked;
      }
      if round == rounds || !s.apps.complete {
        GivenUp(s, first, asked);
        break;
      }
      NewCovers(s, current, keccaks, newKeccaks);
      DisagreeComplete(s.apps.apps, current.values, disagree);
      ghost var before, known := FactsOf(exact, points, keccaks), exact;
      var added, more;
      exact, more, added := AddFacts(s.apps.apps, current.values, disagree, missing, exact, points);
      added := added || newKeccaks != {};
      AddedCovers(s, current, disagree, missing, known, points, keccaks, exact, more, newKeccaks);
      points, keccaks := more, keccaks + newKeccaks;
      ghost var facts := FactsOf(exact, points, keccaks);
      if !added && (solvedRefined || !current.others) {
        assert facts == before;
        CoversAlso(s, current, facts, solvedRefined);
        GivenUp(s, first, asked);
        break;
      }
      PursuedNow(s, first, asked, before, facts);
      asked := asked + [facts];
      current := s.solve(calls, FactsOf(exact, points, keccaks));
      if current.result == P.Unsat {
        UnsatFacts(s, calls, exact, points, keccaks);
      }
      current := current.(core := None);
      calls := calls + 1;
      solvedRefined := true;
    }
    out := lastSat.value.(valid := false, reason := true);
  }

  lemma NoneAsked(s: Setting, first: Output)
    ensures AllPursued(s, first, [])
  {
  }

  lemma TrustedWf(s: Setting)
    requires Trusted(s)
    ensures AllWf(s.apps.apps)
  {
    hide WfApp, Satisfied;
  }

  lemma UnsatFacts(s: Setting, k: nat, exact: Option<seq<Fact>>, points: set<(nat, nat)>, keccaks: set<(nat, nat)>)
    requires Trusted(s) && s.solve(k, FactsOf(exact, points, keccaks)).result == P.Unsat
    requires exact.Some? ==> Encodes(s.apps.apps, |s.apps.apps|, exact.value)
    ensures !HasCounterexample(s)
  {
    hide Trusted, HasCounterexample, Encodes;
    UnsatExcludes(s, k, FactsOf(exact, points, keccaks));
  }

  // ---- refinement of keccak ----

  ghost predicate AllPinned(out: Output, keccaks: set<(nat, nat)>) {
    forall k | 0 <= k < |out.hashes| && out.hashes[k].0 % 8 == 0 :: out.hashes[k] in keccaks
  }

  /** The k-th further query adds the real hashes of all arguments in the model before it. */
  ghost predicate PursuedHashes(s: Setting, first: Output, asked: seq<Facts>, k: nat)
    requires k < |asked|
  {
    var out, f, g := AnswerAt(s, first, asked, k), FactsAt(asked, k), asked[k];
    && out.result == P.Sat && out.hasModel && out.valid && out.readable
    && g == f.(keccaks := g.keccaks) && f.keccaks < g.keccaks && CoversHashes(s, out, g.keccaks)
  }

  ghost predicate KeccakResult(s: Setting, first: Output, asked: seq<Facts>, out: Output) {
    var last, facts := AnswerAt(s, first, asked, |asked|), FactsAt(asked, |asked|);
    if last.result != P.Sat && last.result != P.Unsat then
      out == if asked == [] then first else AnswerAt(s, first, asked, |asked| - 1).(valid := false, reason := true)
    else if last.result == P.Unsat || !last.hasModel || !last.valid || !last.readable then out == last
    else if AllPinned(last, facts.keccaks) then out == last
    else
      && out == last.(valid := false, reason := true)
      && (|asked| == s.keccakRounds || CoversHashes(s, last, facts.keccaks))
  }

  /** A whole run: the queries that were asked, and its result. */
  ghost predicate KeccakRun(s: Setting, first: Output, asked: seq<Facts>, out: Output) {
    && |asked| <= s.keccakRounds
    && (forall k: nat | k < |asked| :: PursuedHashes(s, first, asked, k))
    && KeccakResult(s, first, asked, out)
  }

  lemma PursuedHashesSnoc(s: Setting, first: Output, asked: seq<Facts>, g: Facts)
    requires forall k: nat | k < |asked| :: PursuedHashes(s, first, asked, k)
    requires var out, f := AnswerAt(s, first, asked, |asked|), FactsAt(asked, |asked|);
      && out.result == P.Sat && out.hasModel && out.valid && out.readable
      && g == f.(keccaks := g.keccaks) && f.keccaks < g.keccaks && CoversHashes(s, out, g.keccaks)
    ensures forall k: nat | k < |asked + [g]| :: PursuedHashes(s, first, asked + [g], k)
  {
    hide CoversHashes;
    forall k: nat | k <= |asked| ensures PursuedHashes(s, first, asked + [g], k) {
      assert k < |asked| ==> PursuedHashes(s, first, asked, k);
    }
  }

  /** Solves again with the real hashes of the arguments in the model. */
  method RefineKeccak(s: Setting, first: Output) returns (out: Output, calls: nat, ghost asked: seq<Facts>)
    requires Trusted(s) && (first.result == P.Unsat ==> !HasCounterexample(s)) && CoreOk(s, first)
    ensures out.result == P.Unsat ==> !HasCounterexample(s)
    ensures calls == |asked| && KeccakRun(s, first, asked, out)
    ensures first.result == P.Sat ==> out.result == P.Sat || out.result == P.Unsat
    ensures out.result == P.Sat && out.hasModel && out.valid && out.readable ==>
              AllPinned(out, FactsAt(asked, calls).keccaks)
    ensures CoreOk(s, out) && (calls > 0 && out.result == P.Unsat ==> out.core.None?)
  {
    hide Trusted, HasCounterexample, HasFact, PursuedHashes, CoversHashes;
    var facts: set<(nat, nat)> := {};
    out, calls, asked := first, 0, [];
    for round := 0 to s.keccakRounds + 1
      invariant calls == round == |asked| <= s.keccakRounds
      invariant FactsAt(asked, round) == Facts(false, [], {}, facts) && out == AnswerAt(s, first, asked, round)
      invariant forall k: nat | k < round :: PursuedHashes(s, first, asked, k)
      invariant out.result == P.Unsat ==> !HasCounterexample(s)
      invariant CoreOk(s, out)
      invariant round > 0 ==> out.result == P.Sat || out.result == P.Unsat
    {
      if out.result != P.Sat || !out.hasModel || !out.valid {
        return;
      }
      if !out.readable {
        return;
      }
      var news, consistent := NewHashes(s.keccak, out.hashes, facts);
      HashesCovered(s, out, facts, news);
      if news == {} {
        if consistent {
          return;
        }
        assert facts + news == facts;
        break;
      }
      if round == s.keccakRounds {
        break;
      }
      ghost var before := facts;
      facts := facts + news;
      assert before < facts;
      PursuedHashesSnoc(s, first, asked, Facts(false, [], {}, facts));
      asked := asked + [Facts(false, [], {}, facts)];
      var last := out;
      out := s.solve(calls, Facts(false, [], {}, facts));
      if out.result == P.Unsat {
        UnsatExcludes(s, calls, Facts(false, [], {}, facts));
      }
      out := out.(core := None);
      calls := calls + 1;
      // undecided: what was found before stands
      if out.result != P.Sat && out.result != P.Unsat {
        out := last;
        break;
      }
    }
    out := out.(valid := false, reason := true);
  }

  lemma HashesCovered(s: Setting, out: Output, known: set<(nat, nat)>, news: set<(nat, nat)>)
    requires forall x :: x in news <==> x in out.hashes && IsNew(s.keccak, x, known)
    ensures CoversHashes(s, out, known + news)
    ensures news != {} ==> known < known + news
    ensures news != {} ==> !AllPinned(out, known)
  {
    hide HasFact;
    if x :| x in news {
      assert x in known + news;
    }
  }

  // ---- all queries of a function ----

  /** A query is picked up by a thread, or its result is reported. */
  datatype Event = Start(i: nat) | Finish(i: nat)

  /** What the threads share: the cores of the queries so far. */
  class SolvingContext {
    const keccak: Keccak
    const conditions: imap<string, iset<World>>
    var unsatCores: seq<seq<string>>

    ghost predicate Valid()
      reads this
    {
      forall i | 0 <= i < |unsatCores| :: IsCore(keccak, conditions, unsatCores[i])
    }

    ghost predicate Serves(s: Setting) {
      Trusted(s) && s.keccak == keccak && s.conditions == conditions
    }

    constructor (keccak: Keccak, conditions: imap<string, iset<World>>)
      ensures Valid() && unsatCores == [] && this.keccak == keccak && this.conditions == conditions
    {
      this.keccak, this.conditions, unsatCores := keccak, conditions, [];
    }

    /** A query with its refinements, given the cores that are known when it starts. */
    method Solve(s: Setting) returns (out: Output, ghost first: Output, ghost asked: seq<Facts>)
      requires Valid() && Serves(s)
      ensures out.result == P.Unsat ==> !HasCounterexample(s)
      ensures CoreOk(s, out)
      ensures exists calls :: FirstRun(s, unsatCores, false, first, calls)
      ensures if s.apps.apps != [] then ExpRun(s, first, asked, out)
        else if s.useKeccak then KeccakRun(s, first, asked, out)
        else out == first
    {
      hide Trusted, HasCounterexample, IsCore, FirstRun, ExpRun, KeccakRun;
      var calls;
      out, calls := SolveEndToEnd(s, unsatCores, false);
      first, asked := out, [];
      if s.apps.apps != [] {
        out, calls, asked := RefineExp(s, out);
      } else if s.useKeccak {
        out, calls, asked := RefineKeccak(s, out);
      }
    }

    /** The core of an unsatisfiable query is kept, unless it is missing or empty. */
    method Report(s: Setting, out: Output)
      requires Valid() && Serves(s) && CoreOk(s, out)
      modifies this`unsatCores
      ensures Valid()
      ensures unsatCores == old(unsatCores) +
                if out.result == P.Unsat && out.core.Some? && out.core.value != [] then [out.core.value] else []
    {
      hide Trusted, IsCore;
      if out.result == P.Unsat && out.core.Some? && out.core.value != [] {
        unsatCores := unsatCores + [out.core.value];
      }
    }

    /** However the threads interleave, no query that ends unsatisfiable has a counterexample with the real functions. */
    method SolveAll(queries: seq<Setting>, events: seq<Event>) returns (outs: seq<Option<Output>>)
      requires Valid() && forall i | 0 <= i < |queries| :: Serves(queries[i])
      modifies this`unsatCores
      ensures Valid() && old(unsatCores) <= unsatCores && |outs| == |queries|
      ensures forall i | 0 <= i < |outs| && outs[i].Some? ::
                outs[i].value.result == P.Unsat ==> !HasCounterexample(queries[i])
    {
      hide Trusted, HasCounterexample, IsCore, Serves;
      outs := seq(|queries|, i => None);
      for k := 0 to |events|
        invariant Valid() && old(unsatCores) <= unsatCores && |outs| == |queries|
        invariant forall i | 0 <= i < |outs| && outs[i].Some? ::
                    && CoreOk(queries[i], outs[i].value)
                    && (outs[i].value.result == P.Unsat ==> !HasCounterexample(queries[i]))
      {
        match events[k]
        case Start(i) =>
          if i < |queries| {
            var out, _, _ := Solve(queries[i]);
            outs := outs[i := Some(out)];
          }
        case Finish(i) =>
          if i < |queries| && outs[i].Some? {
            Report(queries[i], outs[i].value);
          }
      }
    }
  }
}
