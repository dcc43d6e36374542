// The proofs behind the elementary steps of the translator, on contexts: adding an auxiliary
// variable with its witness, adding constraints that hold for the witnesses, and building terms
// from terms that are encoded already.
module EncodingFacts {
  import opened Bits
  import opened BvTerms
  import opened BvFacts
  import opened IntTerms
  import opened IntFacts
  import opened Prover
  import opened Exactness
  import opened Encoding

  // ---- meanings of auxiliary variables ----

  ghost function RemMeaning(m: Meaning, width: nat): (r: Meaning)
    ensures forall rho: Val :: At(r, rho) == Mod2(At(m, rho), width)
  {
    imap rho: Val :: Mod2(At(m, rho), width)
  }

  /** The values lie in the multiples kMin to kMax of 2^width. */
  ghost predicate InMultiples(m: Meaning, width: nat, kMin: int, kMax: int) {
    forall rho: Val :: Pow2(width) * kMin <= At(m, rho) < Pow2(width) * (kMax + 1)
  }

  /** Where the condition holds, there is no wrap-around. */
  ghost predicate RulesOut(noWrap: Bl, m: Meaning, width: nat) {
    WfB(noWrap) && forall rho: Val | EvalB(noWrap, rho) :: 0 <= At(m, rho) < Pow2(width)
  }

  /** The second meaning is the first one modulo 2^width. */
  ghost predicate Reduces(m: Meaning, width: nat, n: Meaning) {
    forall rho: Val :: Mod2(At(m, rho), width) == At(n, rho)
  }

  /** The number of times that 2^width is subtracted by a wrap-around. */
  ghost function WrapMeaning(m: Meaning, width: nat): (r: Meaning)
    ensures forall rho: Val :: At(m, rho) == Pow2(width) * At(r, rho) + Mod2(At(m, rho), width)
  {
    assert forall rho: Val ::
        At(m, rho) == Pow2(width) * (At(m, rho) / Pow2(width)) + Mod2(At(m, rho), width) by {
      forall rho: Val
        ensures At(m, rho) == Pow2(width) * (At(m, rho) / Pow2(width)) + Mod2(At(m, rho), width)
      {
        RemainderIsMod(At(m, rho), Pow2(width));
      }
    }
    imap rho: Val :: At(m, rho) / Pow2(width)
  }

  ghost predicate NonNegative(m: Meaning) {
    forall rho: Val :: At(m, rho) >= 0
  }

  ghost function QuotMeaning(m: Meaning, c: nat): (r: Meaning)
    requires c > 0 && NonNegative(m)
    ensures forall rho: Val :: At(m, rho) >= 0 && At(r, rho) == Quot(At(m, rho), c)
  {
    imap rho: Val :: Quot(At(m, rho), c)
  }

  ghost function ConditionMeaning(p: Bl): (r: Meaning)
    requires WfB(p)
    ensures forall rho: Val :: At(r, rho) == if EvalB(p, rho) then 1 else 0
  {
    imap rho: Val :: if EvalB(p, rho) then 1 else 0
  }

  lemma WitnessValue(c: Context, n: nat)
    requires Formed(c) && n in c.witnesses
    ensures forall rho, sigma | Intended(c, rho, sigma) :: Look(sigma, Aux(n)) == At(c.witnesses[n], rho)
    ensures c.approximate ==>
              forall rho, sigma | World(c, rho, sigma) :: Look(sigma, Aux(n)) == At(c.witnesses[n], rho)
  {
  }

  // ---- memo tables ----

  /** The constraints force the values of memoised terms without opaque parts, whatever else was approximated. */
  ghost predicate MemoOk(c: Context, m: Mode, memo: map<Bv, It>, memoB: map<Bl, Ib>) {
    && (forall e | e in memo :: Wf(e) && Denotes(Seen(c, Exact(e, m)), memo[e], MeaningOf(e)))
    && (forall p | p in memoB :: DenotesB(Seen(c, ExactB(p, m)), memoB[p], p))
  }

  lemma MemoDenotes(c: Context, m: Mode, memo: map<Bv, It>, memoB: map<Bl, Ib>, e: Bv)
    requires MemoOk(c, m, memo, memoB) && e in memo && Wf(e)
    ensures Denotes(Seen(c, Exact(e, m)), memo[e], MeaningOf(e))
  {
    hide Denotes, DenotesB, Seen, Exact, ExactB, Eval;
  }

  lemma MemoDenotesB(c: Context, m: Mode, memo: map<Bv, It>, memoB: map<Bl, Ib>, p: Bl)
    requires MemoOk(c, m, memo, memoB) && p in memoB
    ensures DenotesB(Seen(c, ExactB(p, m)), memoB[p], p)
  {
    hide Denotes, DenotesB, Seen, Exact, ExactB, Eval;
  }

  lemma AddMemo(c: Context, m: Mode, memo: map<Bv, It>, memoB: map<Bl, Ib>, e: Bv, t: It)
    requires MemoOk(c, m, memo, memoB) && Wf(e) && Denotes(Seen(c, Exact(e, m)), t, MeaningOf(e))
    ensures MemoOk(c, m, memo[e := t], memoB)
  {
    hide Denotes, DenotesB, Seen, Exact, ExactB, Eval;
  }

  lemma AddMemoB(c: Context, m: Mode, memo: map<Bv, It>, memoB: map<Bl, Ib>, p: Bl, f: Ib)
    requires MemoOk(c, m, memo, memoB) && DenotesB(Seen(c, ExactB(p, m)), f, p)
    ensures MemoOk(c, m, memo, memoB[p := f])
  {
    hide Denotes, DenotesB, Seen, Exact, ExactB, Eval;
  }

  lemma BorrowSmall(t: It, expr: It)
    requires t.IntVar?
    ensures SmallT(expr) ==> SmallF(BorrowCases(t, expr))
  {
  }

  lemma KeepMemo(c: Context, d: Context, m: Mode, memo: map<Bv, It>, memoB: map<Bl, Ib>)
    requires Extends(c, d) && MemoOk(c, m, memo, memoB)
    ensures MemoOk(d, m, memo, memoB)
  {
    hide Denotes, DenotesB, Seen, Exact, ExactB, Eval, Wf;
    forall e | e in memo
      ensures Wf(e) && Denotes(Seen(d, Exact(e, m)), memo[e], MeaningOf(e))
    {
      SeenSound(c, Exact(e, m));
      SeenExtends(c, d, Exact(e, m));
      ExtendsDenotes(Seen(c, Exact(e, m)), Seen(d, Exact(e, m)), memo[e], MeaningOf(e));
    }
    forall p | p in memoB
      ensures DenotesB(Seen(d, ExactB(p, m)), memoB[p], p)
    {
      SeenSound(c, ExactB(p, m));
      SeenExtends(c, d, ExactB(p, m));
      ExtendsDenotesB(Seen(c, ExactB(p, m)), Seen(d, ExactB(p, m)), memoB[p], p);
    }
  }

  lemma RangedAuxIsSound(c: Context, m: Meaning, width: nat)
    requires Sound(c)
    requires forall rho: Val :: 0 <= At(m, rho) < Pow2(width)
    ensures var x := Aux(c.counter + 1);
      var d := WithConstraints(WithAux(c, m), RangeOf(x, width, c.small));
      && Sound(d) && Extends(c, d) && Ranged(d, x, width)
  {
    hide Pow2, SymbolOk, Eval, EvalB, Holds, Extends;
    var x := Aux(c.counter + 1);
    AuxIsSound(c, m);
    RangeHolds(x, width, c.small);
    WitnessValue(WithAux(c, m), c.counter + 1);
    var fs := RangeOf(x, width, c.small);
    ConstraintsAreSound(WithAux(c, m), fs);
    var d := WithConstraints(WithAux(c, m), fs);
    ExtendsTransitive(c, WithAux(c, m), d);
    forall sigma: Sigma | AllHold(d.constraints, sigma)
      ensures AllHold(fs, sigma)
    {
      assert forall i | 0 <= i < |fs| :: d.constraints[|c.constraints| + i] == fs[i];
    }
  }

  /** The constraints confine a variable to a range; the small encoding drops large bounds. */
  ghost predicate Ranged(c: Context, x: Name, width: nat) {
    forall sigma: Sigma | AllHold(c.constraints, sigma) ::
      Look(sigma, x) >= 0
      && (!c.small || Pow2(width) <= MAX_SMALL_CONSTANT ==> Look(sigma, x) < Pow2(width))
  }

  /** The term has the given value under every intended assignment. */
  ghost predicate Means(c: Context, t: It, m: Meaning) {
    forall rho, sigma | Intended(c, rho, sigma) :: EvalI(t, sigma) == At(m, rho)
  }

  lemma WitnessDenotes(c: Context, n: nat)
    requires Sound(c) && n in c.witnesses
    ensures Means(c, IntVar(Aux(n)), c.witnesses[n])
    ensures c.approximate ==> Denotes(c, IntVar(Aux(n)), c.witnesses[n])
    ensures forall t: It, m: Meaning | Denotes(c, t, m) :: Means(c, t, m)
  {
    WitnessValue(c, n);
    IntendedIsWorld(c);
  }

  lemma ProvenWrap(c: Context, expr: It, width: nat, noWrap: Bl, m: Meaning)
    requires Formed(c) && RulesOut(noWrap, m, width) && Entails(c.conditions, noWrap) && Denotes(c, expr, m)
    ensures Denotes(c, expr, RemMeaning(m, width))
  {
  }

  lemma WrapDownHolds(c: Context, t: It, expr: It, m: Meaning, width: nat, kMin: nat, kMax: int)
    requires Means(c, t, RemMeaning(m, width)) && Means(c, expr, m)
    requires InMultiples(m, width, kMin, kMax)
    ensures forall rho, sigma | Intended(c, rho, sigma) :: Holds(Cmp(CmpLe, t, expr), sigma)
  {
    forall rho, sigma | Intended(c, rho, sigma)
      ensures Holds(Cmp(CmpLe, t, expr), sigma)
    {
      MulStep(Pow2(width), kMin);
      QuotientIsDiv(At(m, rho), Pow2(width));
      MulStep(Pow2(width), Quot(At(m, rho), Pow2(width)));
    }
  }

  lemma WrapUpHolds(c: Context, t: It, expr: It, m: Meaning, width: nat, kMin: int, kMax: int)
    requires Means(c, t, RemMeaning(m, width)) && Means(c, expr, m)
    requires kMax <= 0 && InMultiples(m, width, kMin, kMax)
    ensures forall rho, sigma | Intended(c, rho, sigma) :: Holds(BorrowCases(t, expr), sigma)
  {
    MulStep(Pow2(width), kMax);
    var same := AllOf([Cmp(CmpLe, IntLit(0), expr), Same(t, expr)]);
    var below := Cmp(CmpLt, expr, IntLit(0));
    forall rho, sigma | Intended(c, rho, sigma)
      ensures Holds(BorrowCases(t, expr), sigma)
    {
      assert Holds([same, below][0], sigma) || Holds([same, below][1], sigma);
    }
  }

  lemma ExactWrapStart(c: Context, d: Context, expr: It, n: nat, m: Meaning, width: nat)
    requires Extends(c, d) && Sound(d) && !d.small && Denotes(c, expr, m)
    requires n in d.witnesses && d.witnesses[n] == RemMeaning(m, width)
    requires Ranged(d, Aux(n), width)
    ensures Denotes(d, expr, m) && Means(d, IntVar(Aux(n)), RemMeaning(m, width))
    ensures forall rho, sigma | World(d, rho, sigma) :: 0 <= EvalI(IntVar(Aux(n)), sigma) < Pow2(width)
  {
    ExtendsDenotes(c, d, expr, m);
    WitnessDenotes(d, n);
  }

  lemma WrapCasesHold(c: Context, t: It, expr: It, m: Meaning, width: nat, kMin: int, kMax: int, cases: seq<Ib>)
    requires Sound(c) && Means(c, t, RemMeaning(m, width)) && Denotes(c, expr, m) && InMultiples(m, width, kMin, kMax)
    requires |cases| == if kMin <= kMax then kMax + 1 - kMin else 0
    requires forall i | 0 <= i < |cases| :: cases[i] == WrapCase(t, expr, Pow2(width), kMin + i)
    ensures forall rho, sigma | Intended(c, rho, sigma) :: Holds(AnyOf(cases), sigma)
  {
    IntendedIsWorld(c);
    forall rho, sigma | Intended(c, rho, sigma)
      ensures Holds(AnyOf(cases), sigma)
    {
      SomeCaseHolds(t, expr, At(m, rho), width, kMin, kMax, cases, sigma);
    }
  }

  lemma WrapCasesForce(c: Context, d: Context, t: It, expr: It, m: Meaning, width: nat, kMin: int, cases: seq<Ib>)
    requires !c.small && Extends(c, d) && Denotes(c, expr, m)
    requires forall i | 0 <= i < |cases| :: cases[i] == WrapCase(t, expr, Pow2(width), kMin + i)
    requires forall rho, sigma | World(d, rho, sigma) :: Holds(AnyOf(cases), sigma)
    ensures Denotes(d, t, RemMeaning(m, width))
  {
    ExtendsDenotes(c, d, expr, m);
    forall rho, sigma | World(d, rho, sigma)
      ensures EvalI(t, sigma) == Mod2(At(m, rho), width)
    {
      CaseForces(t, expr, width, kMin, cases, sigma);
    }
  }

  lemma WrapEquationHolds(c: Context, d: Context, t: It, expr: It, n: nat, m: Meaning, width: nat)
    requires Extends(c, d) && Sound(d) && Denotes(c, expr, m)
    requires Means(c, t, RemMeaning(m, width))
    requires n in d.witnesses && d.witnesses[n] == WrapMeaning(m, width)
    ensures forall rho, sigma | Intended(d, rho, sigma) ::
              Holds(Same(t, Minus(expr, Scaled(Pow2(width), IntVar(Aux(n))))), sigma)
  {
    var k := IntVar(Aux(n));
    ExtendsDenotes(c, d, expr, m);
    ExtendsWorld(c, d);
    WitnessDenotes(d, n);
    forall rho, sigma | Intended(d, rho, sigma)
      ensures Holds(Same(t, Minus(expr, Scaled(Pow2(width), k))), sigma)
    {
      EquationMeaning(t, expr, Pow2(width), k, sigma);
    }
  }

  lemma WrapEquationForces(c: Context, d: Context, e: Context, t: It, expr: It, k: It, m: Meaning, width: nat)
    requires !c.small && Extends(c, d) && Extends(d, e) && Denotes(c, expr, m)
    requires forall rho, sigma | World(c, rho, sigma) :: 0 <= EvalI(t, sigma) < Pow2(width)
    requires forall rho, sigma | World(e, rho, sigma) ::
               Holds(Same(t, Minus(expr, Scaled(Pow2(width), k))), sigma)
    ensures Denotes(e, t, RemMeaning(m, width))
  {
    ExtendsTransitive(c, d, e);
    ExtendsWorld(c, e);
    forall rho, sigma | World(e, rho, sigma)
      ensures EvalI(t, sigma) == Mod2(At(m, rho), width)
    {
      assert World(c, rho, sigma);
      EquationMeaning(t, expr, Pow2(width), k, sigma);
      RemOf(At(m, rho), Pow2(width), EvalI(k, sigma), EvalI(t, sigma));
    }
  }

  // ---- if-then-else ----

  ghost function IteMeaning(p: Bl, a: Meaning, b: Meaning): (r: Meaning)
    requires WfB(p)
    ensures forall rho: Val :: At(r, rho) == if EvalB(p, rho) then At(a, rho) else At(b, rho)
  {
    imap rho: Val :: if EvalB(p, rho) then At(a, rho) else At(b, rho)
  }

  lemma IteHolds(c: Context, d: Context, cond: Ib, a: It, b: It, n: nat, p: Bl, ma: Meaning, mb: Meaning)
    requires Extends(c, d) && Sound(d)
    requires DenotesB(c, cond, p) && Denotes(c, a, ma) && Denotes(c, b, mb)
    requires n in d.witnesses && d.witnesses[n] == IteMeaning(p, ma, mb)
    ensures forall rho, sigma | Intended(d, rho, sigma) :: Holds(IteCases(cond, IntVar(Aux(n)), a, b), sigma)
    ensures d.small ==> SmallF(IteCases(cond, IntVar(Aux(n)), a, b))
  {
    hide EvalI, Holds, EvalB, Wf, Eval;
    ExtendsDenotes(c, d, a, ma);
    ExtendsDenotes(c, d, b, mb);
    ExtendsDenotesB(c, d, cond, p);
    IntendedIsWorld(d);
    WitnessDenotes(d, n);
    forall rho, sigma | Intended(d, rho, sigma)
      ensures Holds(IteCases(cond, IntVar(Aux(n)), a, b), sigma)
    {
      IteCasesMeaning(cond, IntVar(Aux(n)), a, b, sigma);
    }
    SmallIte(cond, IntVar(Aux(n)), a, b);
  }

  lemma IteForces(c: Context, d: Context, e: Context, cond: Ib, t: It, a: It, b: It, p: Bl, ma: Meaning, mb: Meaning)
    requires Extends(c, d) && Extends(d, e)
    requires DenotesB(c, cond, p) && Denotes(c, a, ma) && Denotes(c, b, mb) && t.IntVar?
    requires forall rho, sigma | World(e, rho, sigma) :: Holds(IteCases(cond, t, a, b), sigma)
    ensures Denotes(e, t, IteMeaning(p, ma, mb))
  {
    hide EvalI, Holds, EvalB, Wf, Eval;
    ExtendsTransitive(c, d, e);
    ExtendsDenotes(c, e, a, ma);
    ExtendsDenotes(c, e, b, mb);
    ExtendsDenotesB(c, e, cond, p);
    forall rho, sigma | World(e, rho, sigma)
      ensures EvalI(t, sigma) == At(IteMeaning(p, ma, mb), rho)
    {
      IteCasesMeaning(cond, t, a, b, sigma);
    }
  }

  // ---- division by a constant ----

  lemma QuotientBoundsHold(c: Context, d: Context, a: It, n: nat, m: Meaning, k: nat)
    requires k > 0 && NonNegative(m)
    requires Extends(c, d) && Sound(d) && Denotes(c, a, m)
    requires n in d.witnesses && d.witnesses[n] == QuotMeaning(m, k)
    ensures forall rho, sigma | Intended(d, rho, sigma) :: AllHold(QuotientBounds(IntVar(Aux(n)), a, k), sigma)
    ensures forall rho, sigma | Intended(d, rho, sigma) :: AllHold(LooseQuotient(IntVar(Aux(n)), a), sigma)
  {
    hide EvalI, Holds, EvalB, Wf, Eval;
    ExtendsDenotes(c, d, a, m);
    IntendedIsWorld(d);
    WitnessDenotes(d, n);
    forall rho, sigma | Intended(d, rho, sigma)
      ensures AllHold(QuotientBounds(IntVar(Aux(n)), a, k), sigma)
      ensures AllHold(LooseQuotient(IntVar(Aux(n)), a), sigma)
    {
      QuotientIsDiv(At(m, rho), k);
      QuotientBoundsMeaning(IntVar(Aux(n)), a, k, sigma);
    }
  }

  lemma QuotOne(c: Context, a: It, m: Meaning)
    requires NonNegative(m) && Denotes(c, a, m)
    ensures Denotes(c, a, QuotMeaning(m, 1))
  {
    forall rho: Val
      ensures Quot(At(m, rho), 1) == At(m, rho)
    {
      RemOf(At(m, rho), 1, At(m, rho), 0);
    }
  }

  lemma QuotientBoundsForce(c: Context, d: Context, e: Context, q: It, a: It, m: Meaning, k: nat)
    requires k > 0 && NonNegative(m)
    requires Extends(c, d) && Extends(d, e) && Denotes(c, a, m) && q.IntVar?
    requires forall rho, sigma | World(e, rho, sigma) :: AllHold(QuotientBounds(q, a, k), sigma)
    ensures Denotes(e, q, QuotMeaning(m, k))
  {
    hide EvalI, Holds, EvalB, Wf, Eval;
    ExtendsTransitive(c, d, e);
    ExtendsDenotes(c, e, a, m);
    forall rho, sigma | World(e, rho, sigma)
      ensures EvalI(q, sigma) == Quot(At(m, rho), k)
    {
      QuotientBoundsMeaning(q, a, k, sigma);
      RemOf(At(m, rho), k, EvalI(q, sigma), At(m, rho) - k * EvalI(q, sigma));
    }
  }

  ghost function RemainderMeaning(m: Meaning, k: nat): (r: Meaning)
    requires k > 0
    ensures forall rho: Val :: At(r, rho) == Rem(At(m, rho), k)
  {
    imap rho: Val :: Rem(At(m, rho), k)
  }

  lemma RemainderBoundsHold(c: Context, d: Context, a: It, n: nat, m: Meaning, k: nat)
    requires k > 0 && NonNegative(m)
    requires Extends(c, d) && Sound(d) && Denotes(c, a, m)
    requires n in d.witnesses && d.witnesses[n] == RemainderMeaning(m, k)
    ensures forall rho, sigma | Intended(d, rho, sigma) :: AllHold(LooseQuotient(IntVar(Aux(n)), a), sigma)
  {
    hide EvalI, Holds, EvalB, Wf, Eval;
    ExtendsDenotes(c, d, a, m);
    IntendedIsWorld(d);
    WitnessDenotes(d, n);
    forall rho, sigma | Intended(d, rho, sigma)
      ensures AllHold(LooseQuotient(IntVar(Aux(n)), a), sigma)
    {
      QuotientIsDiv(At(m, rho), k);
      MulStep(k, Quot(At(m, rho), k));
      LooseQuotientMeaning(IntVar(Aux(n)), a, sigma);
    }
  }

  lemma RemainderDenotes(c: Context, d: Context, a: It, q: It, m: Meaning, k: nat)
    requires k > 0 && NonNegative(m)
    requires Extends(c, d) && Denotes(c, a, m) && Denotes(d, q, QuotMeaning(m, k))
    requires d.small ==> k <= MAX_SMALL_CONSTANT
    ensures Denotes(d, Minus(a, Scaled(k, q)), RemainderMeaning(m, k))
  {
    hide EvalI, EvalB, Wf, Eval;
    ExtendsDenotes(c, d, a, m);
    assert d.small ==> SmallT(Scaled(k, q));
    forall rho, sigma | World(d, rho, sigma)
      ensures EvalI(Minus(a, Scaled(k, q)), sigma) == Rem(At(m, rho), k)
    {
      EvalScaled(k, q, sigma);
      EvalMinus(a, Scaled(k, q), sigma);
      QuotientIsDiv(At(m, rho), k);
    }
  }

  // ---- opaque terms ----

  lemma SymbolDenotes(c: Context, v: Bv, n: nat)
    requires Formed(c) && v in c.symbols && c.symbols[v] == n
    ensures Wf(v) && Denotes(c, IntVar(Aux(n)), MeaningOf(v))
  {
    hide Pow2, Holds, EvalB, SmallF, Eval, Wf;
    forall rho, sigma | World(c, rho, sigma)
      ensures EvalI(IntVar(Aux(n)), sigma) == Eval(v, rho)
    {
    }
  }

  lemma SymbolIsSound(c: Context, v: Bv, n: nat)
    requires Sound(c) && v.Var? && Wf(v) && v !in c.symbols && v !in c.names
    requires if c.stem then v !in c.invariants else LOOP_VAR_PREFIX <= v.name
    requires n in c.witnesses && c.witnesses[n] == MeaningOf(v) && Ranged(c, Aux(n), v.w)
    ensures var d := c.(symbols := c.symbols[v := n]);
      Sound(d) && Extends(c, d) && Denotes(d, IntVar(Aux(n)), MeaningOf(v))
  {
    hide Pow2, Holds, EvalB, SmallF, Eval, Wf;
    var d := c.(symbols := c.symbols[v := n]);
    ExtendsWorld(c, d);
    forall w | w in d.symbols
      ensures SymbolOk(d, w, d.symbols[w])
    {
      if w != v {
        ExtendsSymbolOk(c, d, w, c.symbols[w]);
      }
    }
    SymbolDenotes(d, v, n);
  }

  lemma InvariantIsSound(c: Context, e: Bv, i: nat)
    requires Sound(c) && Wf(e) && (e.Var? || c.approximate) && (c.stem ==> e in c.invariants)
    ensures var d := c.(invariants := if e in c.invariants then c.invariants else c.invariants + [e]);
      && Sound(d) && Extends(c, d)
      && (i < |d.invariants| && d.invariants[i] == e ==> Denotes(d, IntVar(Invariant(i, d.stem)), MeaningOf(e)))
  {
    hide Pow2, Holds, EvalB, SmallF, SymbolOk, Eval;
    var d := c.(invariants := if e in c.invariants then c.invariants else c.invariants + [e]);
    KeepSymbols(c, d);
    ExtendsWorld(c, d);
    if i < |d.invariants| && d.invariants[i] == e {
      forall rho, sigma | World(d, rho, sigma)
        ensures EvalI(IntVar(Invariant(i, d.stem)), sigma) == Eval(e, rho)
      {
        assert d.invariants[i].Var? || Witnessed(d, rho, sigma);
      }
    }
  }

  // ---- terms built from encoded terms ----

  lemma SameMeaning(c: Context, t: It, m: Meaning, n: Meaning)
    requires Denotes(c, t, m)
    requires forall rho: Val :: At(m, rho) == At(n, rho)
    ensures Denotes(c, t, n)
  {
    hide World;
  }

  lemma DenotesSmall(c: Context, t: It, m: Meaning)
    requires Denotes(c, t, m)
    ensures c.small ==> SmallT(t)
  {
    hide World, SmallT;
  }

  lemma ReducedMeaning(c: Context, t: It, m: Meaning, width: nat, n: Meaning)
    requires Denotes(c, t, RemMeaning(m, width)) && Reduces(m, width, n)
    ensures Denotes(c, t, n)
  {
    hide Denotes, Pow2, Rem;
    SameMeaning(c, t, RemMeaning(m, width), n);
  }

  ghost function DiffMeaning(a: Meaning, b: Meaning): (r: Meaning)
    ensures forall rho: Val :: At(r, rho) == At(a, rho) - At(b, rho)
  {
    imap rho: Val :: At(a, rho) - At(b, rho)
  }

  lemma DenotesMinus(c: Context, s: It, t: It, a: Meaning, b: Meaning)
    requires Denotes(c, s, a) && Denotes(c, t, b)
    ensures Denotes(c, Minus(s, t), DiffMeaning(a, b))
  {
    hide World;
    forall rho, sigma | World(c, rho, sigma)
      ensures EvalI(Minus(s, t), sigma) == At(a, rho) - At(b, rho)
    {
      EvalMinus(s, t, sigma);
    }
  }

  ghost function SumMeaning(es: seq<Bv>): (r: Meaning)
    requires WfEach(es)
    ensures forall rho: Val :: At(r, rho) == Sum(Values(es, rho))
  {
    imap rho: Val :: Sum(Values(es, rho))
  }

  lemma {:induction false} SumsAgree(c: Context, ts: seq<It>, es: seq<Bv>, rho: Val, sigma: Sigma)
    requires WfEach(es) && DenotesAll(c, ts, es) && World(c, rho, sigma)
    ensures SumI(ts, sigma) == Sum(Values(es, rho))
  {
    hide World, Eval, EvalI, Wf;
    if es != [] {
      ValuesTail(es, rho);
      assert DenotesAll(c, ts[1..], es[1..]);
      SumsAgree(c, ts[1..], es[1..], rho, sigma);
      assert Denotes(c, ts[0], MeaningOf(es[0]));
    }
  }

  lemma DenotesPlus(c: Context, ts: seq<It>, es: seq<Bv>)
    requires WfEach(es) && DenotesAll(c, ts, es)
    ensures Denotes(c, Plus(ts), SumMeaning(es))
  {
    hide World, Eval, Wf;
    forall rho, sigma | World(c, rho, sigma)
      ensures EvalI(Plus(ts), sigma) == Sum(Values(es, rho))
    {
      SumsAgree(c, ts, es, rho, sigma);
    }
    assert c.small ==> forall i | 0 <= i < |ts| :: SmallT(ts[i]) by {
      forall i | 0 <= i < |ts| && c.small
        ensures SmallT(ts[i])
      {
        assert Denotes(c, ts[i], MeaningOf(es[i]));
      }
    }
  }

  ghost function MultipleMeaning(k: int, m: Meaning): (r: Meaning)
    ensures forall rho: Val :: At(r, rho) == Prod(k, At(m, rho))
  {
    imap rho: Val :: Prod(k, At(m, rho))
  }

  lemma DenotesScaled(c: Context, k: int, t: It, m: Meaning)
    requires Denotes(c, t, m) && (c.small ==> k <= MAX_SMALL_CONSTANT)
    ensures Denotes(c, Scaled(k, t), MultipleMeaning(k, m))
  {
    hide World, Prod;
    forall rho, sigma | World(c, rho, sigma)
      ensures EvalI(Scaled(k, t), sigma) == Prod(k, At(m, rho))
    {
      EvalScaled(k, t, sigma);
    }
  }

  lemma ExtendsDenotesAll(c: Context, d: Context, ts: seq<It>, es: seq<Bv>)
    requires Extends(c, d) && WfEach(es) && DenotesAll(c, ts, es)
    ensures DenotesAll(d, ts, es)
  {
    hide Denotes, Formed, Extends;
    forall i | 0 <= i < |es|
      ensures Denotes(d, ts[i], MeaningOf(es[i]))
    {
      ExtendsDenotes(c, d, ts[i], MeaningOf(es[i]));
    }
  }

  // ---- formulas built from encoded terms and formulas ----

  ghost predicate DenotesEachB(c: Context, fs: seq<Ib>, ps: seq<Bl>) {
    |fs| == |ps| && forall i | 0 <= i < |ps| :: DenotesB(c, fs[i], ps[i])
  }

  lemma ExtendsDenotesEachB(c: Context, d: Context, fs: seq<Ib>, ps: seq<Bl>)
    requires Extends(c, d) && DenotesEachB(c, fs, ps)
    ensures DenotesEachB(d, fs, ps)
  {
    hide DenotesB, Formed, Extends;
    forall i | 0 <= i < |ps|
      ensures DenotesB(d, fs[i], ps[i])
    {
      ExtendsDenotesB(c, d, fs[i], ps[i]);
    }
  }

  lemma DenotesJunction(c: Context, conj: bool, fs: seq<Ib>, ps: seq<Bl>)
    requires DenotesEachB(c, fs, ps)
    ensures DenotesB(c, if conj then AllOf(fs) else AnyOf(fs), Junction(conj, ps))
  {
    hide World;
    var f := if conj then AllOf(fs) else AnyOf(fs);
    assert forall i | 0 <= i < |ps| :: DenotesB(c, fs[i], ps[i]);
    assert WfB(Junction(conj, ps));
    forall rho, sigma | World(c, rho, sigma)
      ensures Holds(f, sigma) == EvalB(Junction(conj, ps), rho)
    {
      assert forall i | 0 <= i < |ps| :: Holds(fs[i], sigma) == EvalB(ps[i], rho);
      if conj {
        assert Holds(f, sigma) == forall i | 0 <= i < |fs| :: Holds(fs[i], sigma);
      } else {
        assert Holds(f, sigma) == exists i :: 0 <= i < |fs| && Holds(fs[i], sigma);
        assert EvalB(Junction(conj, ps), rho) == exists i :: 0 <= i < |ps| && EvalB(ps[i], rho);
      }
    }
    if c.small {
      assert forall i | 0 <= i < |fs| :: SmallF(fs[i]);
    }
  }

  lemma DenotesNot(c: Context, f: Ib, p: Bl)
    requires DenotesB(c, f, p)
    ensures DenotesB(c, NotI(f), Not(p))
  {
    hide World;
  }

  /** The connectives, written with and, or and not. */
  function ConnI(conn: Connective, f: Ib, g: Ib): Ib {
    match conn
    case Implies => AnyOf([NotI(f), g])
    case Iff => AnyOf([AllOf([f, g]), AllOf([NotI(f), NotI(g)])])
    case Xor => AnyOf([AllOf([f, NotI(g)]), AllOf([NotI(f), g])])
  }

  lemma NotHolds(f: Ib, sigma: Sigma)
    ensures Holds(NotI(f), sigma) == !Holds(f, sigma)
  {
  }

  lemma ConnMeaning(conn: Connective, f: Ib, g: Ib, sigma: Sigma)
    ensures Holds(ConnI(conn, f, g), sigma) == ConnValue(conn, Holds(f, sigma), Holds(g, sigma))
  {
    hide Holds;
    NotHolds(f, sigma);
    NotHolds(g, sigma);
    match conn
    case Implies => PairHolds(NotI(f), g, sigma);
    case Iff =>
      PairHolds(f, g, sigma);
      PairHolds(NotI(f), NotI(g), sigma);
      PairHolds(AllOf([f, g]), AllOf([NotI(f), NotI(g)]), sigma);
    case Xor =>
      PairHolds(f, NotI(g), sigma);
      PairHolds(NotI(f), g, sigma);
      PairHolds(AllOf([f, NotI(g)]), AllOf([NotI(f), g]), sigma);
  }

  lemma SmallPair(f: Ib, g: Ib)
    requires SmallF(f) && SmallF(g)
    ensures SmallF(AllOf([f, g])) && SmallF(AnyOf([f, g]))
  {
  }

  lemma SmallConn(conn: Connective, f: Ib, g: Ib)
    requires SmallF(f) && SmallF(g)
    ensures SmallF(ConnI(conn, f, g))
  {
    SmallNot(f);
    SmallNot(g);
    hide SmallF;
    SmallPair(f, g);
    SmallPair(NotI(f), NotI(g));
    SmallPair(f, NotI(g));
    SmallPair(NotI(f), g);
    SmallPair(AllOf([f, g]), AllOf([NotI(f), NotI(g)]));
    SmallPair(AllOf([f, NotI(g)]), AllOf([NotI(f), g]));
  }

  lemma SmallNot(f: Ib)
    requires SmallF(f)
    ensures SmallF(NotI(f))
  {
  }

  lemma EvalConn(conn: Connective, p: Bl, q: Bl, rho: Val)
    requires WfB(p) && WfB(q)
    ensures WfB(Conn(conn, p, q))
    ensures EvalB(Conn(conn, p, q), rho) == ConnValue(conn, EvalB(p, rho), EvalB(q, rho))
  {
    hide ConnValue;
  }

  lemma DenotesConn(c: Context, conn: Connective, f: Ib, g: Ib, p: Bl, q: Bl)
    requires DenotesB(c, f, p) && DenotesB(c, g, q)
    ensures DenotesB(c, ConnI(conn, f, g), Conn(conn, p, q))
  {
    hide World, Holds, ConnI, ConnValue, SmallF, EvalB;
    assert WfB(Conn(conn, p, q));
    hide Wf, WfB;
    forall rho, sigma | World(c, rho, sigma)
      ensures Holds(ConnI(conn, f, g), sigma) == EvalB(Conn(conn, p, q), rho)
    {
      ConnMeaning(conn, f, g, sigma);
      EvalConn(conn, p, q, rho);
    }
    if c.small {
      SmallConn(conn, f, g);
    }
  }

  /** (c and a) or (not c and b) */
  function IteI(f: Ib, g: Ib, h: Ib): Ib {
    AnyOf([AllOf([f, g]), AllOf([NotI(f), h])])
  }

  lemma EvalIteB(p: Bl, q: Bl, r: Bl, rho: Val)
    requires WfB(p) && WfB(q) && WfB(r)
    ensures WfB(IteB(p, q, r))
    ensures EvalB(IteB(p, q, r), rho) == if EvalB(p, rho) then EvalB(q, rho) else EvalB(r, rho)
  {
  }

  lemma SmallIteI(f: Ib, g: Ib, h: Ib)
    requires SmallF(f) && SmallF(g) && SmallF(h)
    ensures SmallF(IteI(f, g, h))
  {
    SmallNot(f);
    hide SmallF;
    SmallPair(f, g);
    SmallPair(NotI(f), h);
    SmallPair(AllOf([f, g]), AllOf([NotI(f), h]));
  }

  lemma IteIMeaning(f: Ib, g: Ib, h: Ib, sigma: Sigma)
    ensures Holds(IteI(f, g, h), sigma) == if Holds(f, sigma) then Holds(g, sigma) else Holds(h, sigma)
  {
    hide Holds;
    NotHolds(f, sigma);
    PairHolds(f, g, sigma);
    PairHolds(NotI(f), h, sigma);
    PairHolds(AllOf([f, g]), AllOf([NotI(f), h]), sigma);
  }

  lemma DenotesIteB(c: Context, f: Ib, g: Ib, h: Ib, p: Bl, q: Bl, r: Bl)
    requires DenotesB(c, f, p) && DenotesB(c, g, q) && DenotesB(c, h, r)
    ensures DenotesB(c, IteI(f, g, h), IteB(p, q, r))
  {
    hide World, Holds, IteI, SmallF, EvalB;
    assert WfB(IteB(p, q, r));
    hide Wf, WfB;
    forall rho, sigma | World(c, rho, sigma)
      ensures Holds(IteI(f, g, h), sigma) == EvalB(IteB(p, q, r), rho)
    {
      IteIMeaning(f, g, h, sigma);
      EvalIteB(p, q, r, rho);
    }
    if c.small {
      SmallIteI(f, g, h);
    }
  }

  /** Equalities and unsigned comparisons are those of the integers. */
  function RelI(rel: Relation, s: It, t: It): Ib
    requires !rel.Signed?
  {
    match rel
    case Eq => Same(s, t)
    case Distinct => NotI(Same(s, t))
    case Unsigned(op) => Cmp(op, s, t)
  }

  lemma RelMeaning(rel: Relation, s: It, t: It, sigma: Sigma, w: nat)
    requires !rel.Signed? && w > 0
    ensures Holds(RelI(rel, s, t), sigma) == RelValueInt(rel, EvalI(s, sigma), EvalI(t, sigma))
  {
    hide EvalI;
  }

  predicate RelValueInt(rel: Relation, a: int, b: int)
    requires !rel.Signed?
  {
    match rel
    case Eq => a == b
    case Distinct => a != b
    case Unsigned(op) => op.Holds(a, b)
  }

  lemma SmallRel(rel: Relation, s: It, t: It)
    requires !rel.Signed?
    ensures SmallT(s) && SmallT(t) ==> SmallF(RelI(rel, s, t))
  {
    if SmallT(s) && SmallT(t) {
      assert SmallF(Same(s, t));
    }
  }

  lemma DenotesRel(c: Context, rel: Relation, s: It, t: It, x: Bv, y: Bv)
    requires !rel.Signed? && WfB(Rel(rel, x, y))
    requires Denotes(c, s, MeaningOf(x)) && Denotes(c, t, MeaningOf(y))
    ensures DenotesB(c, RelI(rel, s, t), Rel(rel, x, y))
  {
    hide World, EvalI, Holds, Eval;
    forall rho, sigma | World(c, rho, sigma)
      ensures Holds(RelI(rel, s, t), sigma) == EvalB(Rel(rel, x, y), rho)
    {
      RelMeaning(rel, s, t, sigma, x.w);
    }
    SmallRel(rel, s, t);
  }

  // ---- the approximation flag and large literals ----

  lemma MarkIsSound(c: Context)
    requires Sound(c)
    ensures var d := c.(approximate := true);
      Sound(d) && Extends(c, d)
  {
    hide Holds, EvalB, SmallF, SymbolOk, Eval;
    var d := c.(approximate := true);
    ExtendsWorld(c, d);
    KeepSymbols(c, d);
  }

  lemma ConstantIsSound(c: Context, value: nat, i: nat, m: Meaning)
    requires Sound(c) && forall rho: Val :: At(m, rho) == value
    ensures var d := c.(approximate := true,
                        constants := if value in c.constants then c.constants else c.constants + [value]);
      && Sound(d) && Extends(c, d)
      && (i < |d.constants| && d.constants[i] == value ==> Denotes(d, IntVar(Constant(i, d.stem)), m))
  {
    hide Holds, EvalB, SmallF, SymbolOk, Eval;
    var d := c.(approximate := true,
                constants := if value in c.constants then c.constants else c.constants + [value]);
    ExtendsWorld(c, d);
    KeepSymbols(c, d);
  }

  lemma LiteralDenotes(c: Context, value: nat, m: Meaning)
    requires forall rho: Val :: At(m, rho) == value
    requires c.small ==> value <= MAX_SMALL_CONSTANT
    ensures Denotes(c, IntLit(value), m)
  {
    hide World;
  }
}
