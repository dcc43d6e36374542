// The translation of bitvector terms to integer terms with auxiliary variables.
module Translation {
  import opened Options
  import opened Bits
  import opened BvTerms
  import opened BvFacts
  import opened Symbols
  import opened IntTerms
  import opened IntFacts
  import opened Prover
  import opened Encoding
  import opened EncodingFacts
  import opened NodeFacts
  import opened NodeMeanings
  import opened Exactness
  import opened Scopes

  /** Up to how many quotients the disjunction of a wrap-around enumerates. */
  const MAX_WRAP_CASES: int := 4

  function Find<T(==)>(s: seq<T>, x: T): (i: nat)
    requires x in s
    ensures i < |s| && s[i] == x
  {
    if s[0] == x then 0 else 1 + Find(s[1..], x)
  }

  predicate Unique<T(==)>(s: seq<T>) {
    forall i, j | 0 <= i < j < |s| :: s[i] != s[j]
  }

  /** Whether a loop variable occurs in a term. */
  predicate DependsOnLoopVars(e: Bv) {
    exists x | x in VarNames(e) :: LOOP_VAR_PREFIX <= x
  }

  ghost predicate RegistryOk(invariants: seq<Bv>, constants: seq<nat>) {
    && WfEach(invariants)
    && Unique(invariants)
    && Unique(constants)
    && forall i | 0 <= i < |invariants| :: !DependsOnLoopVars(invariants[i])
  }

  /** State shared by all the translators of one lasso. */
  class Registry {
    var auxCounter: nat
    var invariants: seq<Bv>       // what k0, k1, ... stand for
    var bigConstants: seq<nat>    // the values of c0, c1, ...
    var approximate: bool

    constructor ()
      ensures auxCounter == 0 && invariants == [] && bigConstants == [] && !approximate
    {
      auxCounter, invariants, bigConstants, approximate := 0, [], [], false;
    }

    method InvariantIndex(e: Bv) returns (i: nat)
      modifies this`invariants
      ensures invariants == if e in old(invariants) then old(invariants) else old(invariants) + [e]
      ensures i < |invariants| && invariants[i] == e
    {
      if e !in invariants {
        invariants := invariants + [e];
      }
      i := Find(invariants, e);
    }

    method BigConstant(value: nat) returns (i: nat)
      requires Unique(bigConstants)
      modifies this`bigConstants
      ensures bigConstants == if value in old(bigConstants) then old(bigConstants) else old(bigConstants) + [value]
      ensures i < |bigConstants| && bigConstants[i] == value
      ensures Unique(bigConstants)
    {
      if value !in bigConstants {
        bigConstants := bigConstants + [value];
      }
      i := Find(bigConstants, value);
    }
  }

  class Translator {
    const reg: Registry
    const names: map<Bv, Name>
    const stem: bool
    const prover: WrapProver?
    var aux: seq<nat>
    var constraints: seq<Ib>
    var memo: map<Bv, It>
    var memoB: map<Bl, Ib>
    // the intended values of the auxiliary variables, and the symbols that they stand for
    ghost var witnesses: map<nat, Meaning>
    ghost var symbols: map<Bv, nat>
    // whether this translator approximated anything
    ghost var marked: bool

    function Small(): bool {
      prover != null
    }

    ghost function Mode(): Mode {
      if prover == null then Unlimited else Limited(prover.smt, prover.conditions)
    }

    ghost function Conditions(): seq<Bl> {
      if prover == null then [] else prover.conditions
    }

    ghost function Ctx(): Context
      reads this, reg
    {
      Context(Conditions(), Small(), stem, names, marked, reg.invariants,
              reg.bigConstants, reg.auxCounter, witnesses, symbols, constraints)
    }

    /** What the constraints are to force: all values for a term that is sure, or as long as nothing was marked. */
    ghost function View(sure: bool): Context
      reads this, reg
    {
      Seen(Ctx(), sure)
    }

    ghost predicate Inv()
      reads this, reg, prover
      ensures Inv() ==> Formed(Ctx()) && Sound(Ctx())
      ensures Inv() && prover != null ==> prover.Valid()
    {
      && Sound(Ctx())
      && (marked ==> reg.approximate)
      && MemoOk(Ctx(), Mode(), memo, memoB)
      && RegistryOk(reg.invariants, reg.bigConstants)
      && (prover != null ==> prover.Valid())
    }

    /** The invariant between two translations: a symbol is translated only once. */
    ghost predicate Ready()
      reads this, reg, prover
    {
      Inv() && symbols.Keys <= memo.Keys
    }

    /** A symbol that is a program variable, or becomes an auxiliary variable of the stem. */
    ghost predicate Simple(e: Bv, shared: seq<Bv>) {
      e in names || (stem && e !in shared)
    }

    /** Such a symbol is represented by that variable, and nothing else is added. */
    twostate predicate TookSymbol(e: Bv, t: It)
      reads this, reg
    {
      && reg.invariants == old(reg.invariants)
      && reg.bigConstants == old(reg.bigConstants)
      && if e in names then t == IntVar(names[e]) && constraints == old(constraints)
         else t == IntVar(Aux(reg.auxCounter))
              && constraints == old(constraints) + RangeOf(Aux(reg.auxCounter), e.w, Small())
    }

    /** The term is the variable that stands for a loop-invariant value in all iterations. */
    ghost predicate Shares(e: Bv, t: It)
      reads this, reg
    {
      exists i: nat :: i < |reg.invariants| && reg.invariants[i] == e && t == IntVar(Invariant(i, stem))
    }

    /** Nothing has been translated. */
    twostate predicate Untouched()
      reads this, reg
    {
      && memo == old(memo)
      && constraints == old(constraints)
      && reg.invariants == old(reg.invariants)
      && reg.bigConstants == old(reg.bigConstants)
    }

    constructor (reg: Registry, names: map<Bv, Name>, stem: bool, prover: WrapProver?)
      requires prover != null ==> prover.Valid()
      requires RegistryOk(reg.invariants, reg.bigConstants) && forall v | v in names :: Wf(v)
      ensures this.reg == reg && this.names == names && this.stem == stem && this.prover == prover
      ensures Ready()
      ensures aux == [] && constraints == [] && symbols == map[] && witnesses == map[] && memo == map[] && !marked
    {
      this.reg, this.names, this.stem, this.prover := reg, names, stem, prover;
      aux, constraints, memo, memoB := [], [], map[], map[];
      witnesses, symbols, marked := map[], map[], false;
    }

    // ---- elementary steps ----

    method FreshAux(width: Option<nat>, ghost m: Meaning, ghost sure: bool) returns (x: Name)
      requires Inv()
      requires width.Some? ==> forall rho: Val :: 0 <= At(m, rho) < Pow2(width.value)
      modifies this`aux, this`constraints, this`witnesses, reg`auxCounter
      ensures Inv() && Extends(old(View(sure)), View(sure))
      ensures (old(marked) ==> marked) && (old(reg.approximate) ==> reg.approximate)
      ensures x == Aux(reg.auxCounter)
      ensures reg.auxCounter in witnesses && witnesses[reg.auxCounter] == m
      ensures width.Some? ==> Ranged(View(sure), x, width.value)
      ensures constraints == old(constraints) + if width.Some? then RangeOf(x, width.value, Small()) else []
    {
      hide EvalI, Holds, EvalB, Wf, World, Intended, Agrees, Witnessed, MemoOk, Rem, Pow2;
      ghost var c := Ctx();
      reg.auxCounter := reg.auxCounter + 1;
      x := Aux(reg.auxCounter);
      aux := aux + [reg.auxCounter];
      witnesses := witnesses[reg.auxCounter := m];
      if width.Some? {
        constraints := constraints + RangeOf(x, width.value, Small());
        RangedAuxIsSound(c, m, width.value);
        assert Ctx() == WithConstraints(WithAux(c, m), RangeOf(x, width.value, Small()));
      } else {
        AuxIsSound(c, m);
        assert Ctx() == WithAux(c, m);
      }
      Grew(c, sure);
    }

    /** The invariant after a step that keeps the context sound. */
    lemma Grew(c: Context, sure: bool)
      requires Sound(c) && Sound(Ctx()) && Extends(c, Ctx()) && MemoOk(c, Mode(), memo, memoB)
      requires RegistryOk(reg.invariants, reg.bigConstants) && (prover != null ==> prover.Valid())
      requires marked ==> reg.approximate
      ensures Inv() && Extends(Seen(c, sure), View(sure))
    {
      hide Sound, Extends, MemoOk, Formed;
      SeenSound(c, sure);
      KeepMemo(c, Ctx(), Mode(), memo, memoB);
      SeenExtends(c, Ctx(), sure);
    }

    lemma ViewSound(sure: bool)
      requires Inv()
      ensures Formed(View(sure)) && Sound(View(sure))
    {
      hide Sound, Formed, MemoOk;
      SeenSound(Ctx(), sure);
    }

    lemma ViewFields(sure: bool)
      ensures View(sure).small == Small() && View(sure).conditions == Conditions() && View(sure).names == names
      ensures View(sure).witnesses == witnesses && View(sure).approximate == (marked && !sure)
      ensures View(sure).invariants == reg.invariants && View(sure).constants == reg.bigConstants
      ensures View(sure).stem == stem && View(sure).symbols == symbols && View(sure).constraints == constraints
    {
    }

    method Constrain(f: Ib, ghost sure: bool)
      requires Inv()
      requires forall rho, sigma | Intended(View(sure), rho, sigma) :: Holds(f, sigma)
      requires Small() ==> SmallF(f)
      modifies this`constraints
      ensures Inv() && Extends(old(View(sure)), View(sure))
      ensures (old(marked) ==> marked) && (old(reg.approximate) ==> reg.approximate)
      ensures forall rho, sigma | World(View(sure), rho, sigma) :: Holds(f, sigma)
      ensures constraints == old(constraints) + [f]
    {
      hide EvalI, Holds, EvalB, World, Intended, Sound, Extends, Formed, MemoOk;
      ghost var c, d := Ctx(), View(sure);
      ViewSound(sure);
      SeenSound(c, sure);
      assert forall rho, sigma | Intended(c, rho, sigma) :: AllHold([f], sigma);
      constraints := constraints + [f];
      assert Ctx() == WithConstraints(c, [f]) && View(sure) == WithConstraints(d, [f]);
      ConstraintsAreSound(c, [f]);
      ConstraintsAreSound(d, [f]);
      assert forall rho, sigma | World(View(sure), rho, sigma) :: Holds([f][0], sigma);
      Grew(c, sure);
    }

    method MarkApproximate(ghost sure: bool)
      requires Inv()
      modifies this`marked, reg`approximate
      ensures Inv() && Extends(old(View(sure)), View(sure))
      ensures (old(marked) ==> marked) && (old(reg.approximate) ==> reg.approximate)
      ensures marked && reg.approximate
    {
      hide EvalI, Holds, EvalB, Wf, Eval, World, Intended, Agrees, Witnessed, MemoOk, Rem, Pow2, Extends, Sound,
           Formed, Denotes;
      ghost var c := Ctx();
      reg.approximate := true;
      marked := true;
      MarkIsSound(c);
      Grew(c, sure);
    }

    /** A literal; in the small encoding a large one becomes a constant variable. */
    method Number(value: nat, ghost m: Meaning, ghost sure: bool) returns (t: It)
      requires Inv() && forall rho: Val :: At(m, rho) == value
      requires sure ==> SmallEnough(Mode(), value)
      modifies this`marked, reg`approximate, reg`bigConstants
      ensures Inv() && Extends(old(View(sure)), View(sure))
      ensures (old(marked) ==> marked) && (old(reg.approximate) ==> reg.approximate)
      ensures Denotes(View(sure), t, m)
      ensures SmallEnough(Mode(), value) ==> reg.approximate == old(reg.approximate)
    {
      hide EvalI, Holds, EvalB, Wf, Eval, World, Intended, Agrees, Witnessed, MemoOk, Rem, Pow2, Extends, Sound,
           Formed, Denotes;
      ghost var c := Ctx();
      if Small() && value > MAX_SMALL_CONSTANT {
        reg.approximate := true;
        marked := true;
        var i := reg.BigConstant(value);
        ConstantIsSound(c, value, i, m);
        Grew(c, sure);
        t := IntVar(Constant(i, stem));
      } else {
        t := IntLit(value);
        LiteralDenotes(View(sure), value, m);
        ExtendsReflexive(View(sure));
      }
    }

    /**
     * `expr` modulo 2^width, where `expr` is within [kMin * 2^width, (kMax + 1) * 2^width).
     * Under `noWrap`, the expression is already in range.
     */
    method Wrap(expr: It, width: nat, kMin: int, kMax: int, noWrap: Option<Bl>, ghost m: Meaning, ghost sure: bool) returns (t: It)
      requires Inv() && Denotes(View(sure), expr, m)
      requires InMultiples(m, width, kMin, kMax)
      requires noWrap.Some? ==> RulesOut(noWrap.value, m, width)
      requires sure ==> SettledBy(Mode(), noWrap)
      modifies this`marked, this`aux, this`constraints, this`witnesses, reg`auxCounter, reg`approximate, prover
      ensures Inv() && Extends(old(View(sure)), View(sure))
      ensures (old(marked) ==> marked) && (old(reg.approximate) ==> reg.approximate)
      ensures Denotes(View(sure), t, RemMeaning(m, width))
      ensures SettledBy(Mode(), noWrap) ==> reg.approximate == old(reg.approximate)
    {
      if Small() {
        t := SmallWrap(expr, width, kMin, kMax, noWrap, m, sure);
      } else {
        t := ExactWrap(expr, width, kMin, kMax, m, sure);
      }
    }

    method SmallWrap(expr: It, width: nat, kMin: int, kMax: int, noWrap: Option<Bl>, ghost m: Meaning, ghost sure: bool) returns (t: It)
      requires Small() && Inv() && Denotes(View(sure), expr, m)
      requires InMultiples(m, width, kMin, kMax)
      requires noWrap.Some? ==> RulesOut(noWrap.value, m, width)
      requires sure ==> SettledBy(Mode(), noWrap)
      modifies this`marked, this`aux, this`constraints, this`witnesses, reg`auxCounter, reg`approximate, prover
      ensures Inv() && Extends(old(View(sure)), View(sure))
      ensures (old(marked) ==> marked) && (old(reg.approximate) ==> reg.approximate)
      ensures Denotes(View(sure), t, RemMeaning(m, width))
      ensures SettledBy(Mode(), noWrap) ==>
                t == expr && constraints == old(constraints) && reg.approximate == old(reg.approximate)
      ensures forall sigma | AllHold(constraints, sigma) :: LooselyBound(t, expr, kMin, kMax, sigma)
    {
      hide EvalI, Holds, EvalB, Wf, World, Intended, Agrees, Witnessed, MemoOk, Rem, Pow2, InMultiples;
      if noWrap.Some? {
        var proven := prover.IsValid(noWrap.value);
        if proven {
          ProvenWrap(View(sure), expr, width, noWrap.value, m);
          return expr;
        }
      }
      t := LooseWrap(expr, width, kMin, kMax, m, sure);
    }

    /** A result without large constants: only an upper bound, or a case for no borrow. */
    method LooseWrap(expr: It, width: nat, kMin: int, kMax: int, ghost m: Meaning, ghost sure: bool) returns (t: It)
      requires Inv() && Denotes(View(sure), expr, m)
      requires InMultiples(m, width, kMin, kMax)
      requires !sure
      modifies this`marked, this`aux, this`constraints, this`witnesses, reg`auxCounter, reg`approximate
      ensures Inv() && Extends(old(View(sure)), View(sure))
      ensures (old(marked) ==> marked) && (old(reg.approximate) ==> reg.approximate)
      ensures Denotes(View(sure), t, RemMeaning(m, width))
      ensures forall sigma | AllHold(constraints, sigma) :: LooselyBound(t, expr, kMin, kMax, sigma)
    {
      hide EvalI, Holds, EvalB, Wf, World, Intended, Agrees, Witnessed, MemoOk, Rem, Pow2, Extends, Sound, Formed,
           Inv, Eval, Denotes, Means, WfB, InMultiples, RulesOut;
      ghost var c := View(sure);
      MarkApproximate(sure);
      ghost var b := View(sure);
      var x := FreshAux(Some(width), RemMeaning(m, width), sure);
      t := IntVar(x);
      ghost var d := View(sure);
      ExtendsTransitive(c, b, d);
      ViewSound(sure);
      WitnessDenotes(d, reg.auxCounter);
      ExtendsDenotes(c, d, expr, m);
      ConstrainLoosely(t, expr, width, kMin, kMax, m, sure);
      ExtendsTransitive(c, d, View(sure));
      ExtendsDenotes(d, View(sure), t, RemMeaning(m, width));
    }

    /** Without a wrap below or above, the remainder is bounded by the term. */
    method ConstrainLoosely(t: It, expr: It, width: nat, kMin: int, kMax: int, ghost m: Meaning, ghost sure: bool)
      requires Inv() && Means(View(sure), t, RemMeaning(m, width)) && Means(View(sure), expr, m) && Denotes(View(sure), expr, m)
      requires InMultiples(m, width, kMin, kMax) && t.IntVar?
      modifies this`constraints
      ensures Inv() && Extends(old(View(sure)), View(sure))
      ensures (old(marked) ==> marked) && (old(reg.approximate) ==> reg.approximate)
      ensures forall sigma | AllHold(constraints, sigma) :: LooselyBound(t, expr, kMin, kMax, sigma)
    {
      hide EvalI, Holds, EvalB, Wf, World, Intended, Agrees, Witnessed, MemoOk, Rem, Pow2, Extends, Sound, Formed,
           Inv, Eval, Denotes, Means, WfB, InMultiples;
      ExtendsReflexive(View(sure));
      DenotesSmall(View(sure), expr, m);
      if kMin >= 0 {
        WrapDownHolds(View(sure), t, expr, m, width, kMin, kMax);
        Constrain(Cmp(CmpLe, t, expr), sure);
      } else if kMax <= 0 {
        WrapUpHolds(View(sure), t, expr, m, width, kMin, kMax);
        BorrowSmall(t, expr);
        Constrain(BorrowCases(t, expr), sure);
      }
      forall sigma | AllHold(constraints, sigma)
        ensures LooselyBound(t, expr, kMin, kMax, sigma)
      {
        AtMostMeaning(t, expr, sigma);
        BorrowCasesMeaning(t, expr, sigma);
        assert constraints != [] ==> Holds(constraints[|constraints| - 1], sigma);
      }
    }

    method ExactWrap(expr: It, width: nat, kMin: int, kMax: int, ghost m: Meaning, ghost sure: bool) returns (t: It)
      requires !Small() && Inv() && Denotes(View(sure), expr, m)
      requires InMultiples(m, width, kMin, kMax)
      modifies this`aux, this`constraints, this`witnesses, reg`auxCounter
      ensures Inv() && Extends(old(View(sure)), View(sure))
      ensures (old(marked) ==> marked) && (old(reg.approximate) ==> reg.approximate)
      ensures Denotes(View(sure), t, RemMeaning(m, width))
    {
      hide View, Seen, Ctx, EvalI, Holds, EvalB, Wf, World, Intended, Agrees, Witnessed, MemoOk, Rem, Pow2, Sound,
           Formed, Inv, InMultiples, RulesOut, Denotes, Means, Extends, Ranged;
      ghost var c := View(sure);
      var x := FreshAux(Some(width), RemMeaning(m, width), sure);
      ghost var d := View(sure);
      t := IntVar(x);
      ViewSound(sure);
      ViewFields(sure);
      ExactWrapStart(c, d, expr, reg.auxCounter, m, width);
      if kMax - kMin < MAX_WRAP_CASES {
        WrapByCases(t, expr, width, kMin, kMax, m, sure);
      } else {
        WrapByEquation(t, expr, width, m, sure);
      }
      ExtendsTransitive(c, d, View(sure));
    }

    method WrapByCases(t: It, expr: It, width: nat, kMin: int, kMax: int, ghost m: Meaning, ghost sure: bool)
      requires !Small() && Inv() && Denotes(View(sure), expr, m)
      requires Means(View(sure), t, RemMeaning(m, width))
      requires InMultiples(m, width, kMin, kMax)
      modifies this`constraints
      ensures Inv() && Extends(old(View(sure)), View(sure))
      ensures (old(marked) ==> marked) && (old(reg.approximate) ==> reg.approximate)
      ensures Denotes(View(sure), t, RemMeaning(m, width))
    {
      hide EvalI, Holds, EvalB, Wf, World, Intended, Agrees, Witnessed, MemoOk, Rem, Pow2, Sound, Formed, Inv,
           InMultiples, RulesOut;
      var cases := [];
      var k := kMin;
      while k < kMax + 1
        invariant |cases| == k - kMin
        invariant k <= kMax + 1 || k == kMin
        invariant forall i | 0 <= i < |cases| :: cases[i] == WrapCase(t, expr, Pow2(width), kMin + i)
      {
        cases := cases + [WrapCase(t, expr, Pow2(width), k)];
        k := k + 1;
      }
      ghost var c := View(sure);
      ViewSound(sure);
      WrapCasesHold(c, t, expr, m, width, kMin, kMax, cases);
      Constrain(AnyOf(cases), sure);
      WrapCasesForce(c, View(sure), t, expr, m, width, kMin, cases);
    }

    method WrapByEquation(t: It, expr: It, width: nat, ghost m: Meaning, ghost sure: bool)
      requires !Small() && Inv() && Denotes(View(sure), expr, m)
      requires Means(View(sure), t, RemMeaning(m, width))
      requires forall rho, sigma | World(View(sure), rho, sigma) :: 0 <= EvalI(t, sigma) < Pow2(width)
      modifies this`aux, this`constraints, this`witnesses, reg`auxCounter
      ensures Inv() && Extends(old(View(sure)), View(sure))
      ensures (old(marked) ==> marked) && (old(reg.approximate) ==> reg.approximate)
      ensures Denotes(View(sure), t, RemMeaning(m, width))
    {
      hide View, Seen, Ctx, EvalI, Holds, EvalB, Wf, World, Intended, Agrees, Witnessed, MemoOk, Rem, Pow2, Sound,
           Formed, Inv;
      ghost var c := View(sure);
      var y := FreshAux(None, WrapMeaning(m, width), sure);
      ghost var d := View(sure);
      var f := Same(t, Minus(expr, Scaled(Pow2(width), IntVar(y))));
      ViewSound(sure);
      ViewFields(sure);
      WrapEquationHolds(c, d, t, expr, reg.auxCounter, m, width);
      Constrain(f, sure);
      WrapEquationForces(c, d, View(sure), t, expr, IntVar(y), m, width);
    }

    // ---- helpers ----

    /** Arithmetic if-then-else: a fresh variable and a case distinction. */
    method IfThenElse(cond: Ib, a: It, b: It, width: Option<nat>, ghost p: Bl, ghost ma: Meaning, ghost mb: Meaning, ghost sure: bool)
      returns (t: It)
      requires Inv() && DenotesB(View(sure), cond, p) && Denotes(View(sure), a, ma) && Denotes(View(sure), b, mb)
      requires width.Some? ==> forall rho: Val :: 0 <= At(IteMeaning(p, ma, mb), rho) < Pow2(width.value)
      modifies this`aux, this`constraints, this`witnesses, reg`auxCounter
      ensures Inv() && Extends(old(View(sure)), View(sure))
      ensures (old(marked) ==> marked) && (old(reg.approximate) ==> reg.approximate)
      ensures Denotes(View(sure), t, IteMeaning(p, ma, mb))
    {
      hide View, Seen, Ctx, EvalI, Holds, EvalB, Wf, World, Intended, Agrees, Witnessed, MemoOk, Rem, Pow2, Sound,
           Formed, Inv;
      ghost var c := View(sure);
      var x := FreshAux(width, IteMeaning(p, ma, mb), sure);
      t := IntVar(x);
      ghost var d := View(sure);
      ViewSound(sure);
      ViewFields(sure);
      IteHolds(c, d, cond, a, b, reg.auxCounter, p, ma, mb);
      Constrain(IteCases(cond, t, a, b), sure);
      IteForces(c, d, View(sure), cond, t, a, b, p, ma, mb);
    }

    /** a div k for a constant k > 0. */
    method DivConst(a: It, k: nat, ghost m: Meaning, ghost sure: bool) returns (t: It)
      requires k > 0 && NonNegative(m) && Inv() && Denotes(View(sure), a, m)
      requires sure ==> SmallEnough(Mode(), k)
      modifies this`marked, this`aux, this`constraints, this`witnesses, reg`auxCounter, reg`approximate
      ensures Inv() && Extends(old(View(sure)), View(sure))
      ensures (old(marked) ==> marked) && (old(reg.approximate) ==> reg.approximate)
      ensures Denotes(View(sure), t, QuotMeaning(m, k))
      ensures SmallEnough(Mode(), k) ==> reg.approximate == old(reg.approximate)
      ensures Small() && k > MAX_SMALL_CONSTANT ==>
                forall sigma | AllHold(constraints, sigma) :: 0 <= EvalI(t, sigma) <= EvalI(a, sigma)
    {
      hide EvalI, Holds, EvalB, Wf, World, Intended, Agrees, Witnessed, MemoOk, Rem, Pow2, Sound, Formed, Inv, Extends,
           QuotMeaning, LooseQuotient, QuotientBounds;
      if k == 1 {
        QuotOne(View(sure), a, m);
        ExtendsReflexive(View(sure));
        return a;
      }
      ghost var c := View(sure);
      var x := FreshAux(None, QuotMeaning(m, k), sure);
      t := IntVar(x);
      ghost var d := View(sure);
      if Small() {
        SmallBounds(t, a, k);
      }
      if Small() && k > MAX_SMALL_CONSTANT {
        MarkApproximate(sure);
        ghost var e := View(sure);
        ExtendsTransitive(c, d, e);
        ViewSound(sure);
        QuotientBoundsHold(c, e, a, reg.auxCounter, m, k);
        LooseQuotientBounds(constraints, t, a);
        ConstrainAll(LooseQuotient(t, a), c, a, m, sure);
        ViewSound(sure);
        WitnessDenotes(View(sure), reg.auxCounter);
      } else {
        ViewSound(sure);
        QuotientBoundsHold(c, d, a, reg.auxCounter, m, k);
        ConstrainAll(QuotientBounds(t, a, k), c, a, m, sure);
        QuotientBoundsForce(c, d, View(sure), t, a, m, k);
      }
    }

    /** Two constraints on an auxiliary variable, over the operand `a`. */
    method ConstrainAll(fs: seq<Ib>, ghost c: Context, ghost a: It, ghost m: Meaning, ghost sure: bool)
      requires Inv() && Extends(c, View(sure)) && Denotes(c, a, m)
      requires forall rho, sigma | Intended(View(sure), rho, sigma) :: AllHold(fs, sigma)
      requires Small() && SmallT(a) ==> forall i | 0 <= i < |fs| :: SmallF(fs[i])
      modifies this`constraints
      ensures Inv() && Extends(old(View(sure)), View(sure)) && Extends(c, View(sure))
      ensures (old(marked) ==> marked) && (old(reg.approximate) ==> reg.approximate)
      ensures forall rho, sigma | World(View(sure), rho, sigma) :: AllHold(fs, sigma)
      ensures constraints == old(constraints) + fs
    {
      hide EvalI, Holds, EvalB, Wf, World, Intended, Agrees, Witnessed, Rem, Pow2, Sound, Formed, MemoOk;
      ghost var b, d := Ctx(), View(sure);
      ViewSound(sure);
      DenotesSmall(c, a, m);
      constraints := constraints + fs;
      assert Ctx() == WithConstraints(b, fs) && View(sure) == WithConstraints(d, fs);
      SeenSound(b, sure);
      ConstraintsAreSound(b, fs);
      ConstraintsAreSound(d, fs);
      Grew(b, sure);
      ExtendsTransitive(c, d, View(sure));
    }

    method RemConst(a: It, k: nat, ghost m: Meaning, ghost sure: bool) returns (t: It)
      requires k > 0 && NonNegative(m) && Inv() && Denotes(View(sure), a, m)
      requires sure ==> SmallEnough(Mode(), k)
      modifies this`marked, this`aux, this`constraints, this`witnesses, reg`auxCounter, reg`approximate
      ensures Inv() && Extends(old(View(sure)), View(sure))
      ensures (old(marked) ==> marked) && (old(reg.approximate) ==> reg.approximate)
      ensures Denotes(View(sure), t, RemainderMeaning(m, k))
      ensures SmallEnough(Mode(), k) ==> reg.approximate == old(reg.approximate)
      ensures Small() && k > MAX_SMALL_CONSTANT ==>
                forall sigma | AllHold(constraints, sigma) :: 0 <= EvalI(t, sigma) <= EvalI(a, sigma)
    {
      hide EvalI, Holds, EvalB, Wf, World, Intended, Agrees, Witnessed, MemoOk, Rem, Pow2, Sound, Formed, Inv;
      ghost var c := View(sure);
      if Small() && k > MAX_SMALL_CONSTANT {
        MarkApproximate(sure);
        ghost var b := View(sure);
        var x := FreshAux(None, RemainderMeaning(m, k), sure);
        t := IntVar(x);
        SmallBounds(t, a, k);
        ExtendsTransitive(c, b, View(sure));
        ViewSound(sure);
        RemainderBoundsHold(c, View(sure), a, reg.auxCounter, m, k);
        LooseQuotientBounds(constraints, t, a);
        ConstrainAll(LooseQuotient(t, a), c, a, m, sure);
        ViewSound(sure);
        WitnessDenotes(View(sure), reg.auxCounter);
      } else {
        var q := DivConst(a, k, m, sure);
        RemainderDenotes(c, View(sure), a, q, m, k);
        t := Minus(a, Scaled(k, q));
      }
    }

    /** `a` modulo 2^width, for a narrower width. */
    method Truncate(aTerm: It, a: Bv, width: nat, ghost sure: bool) returns (t: It)
      requires Wf(a) && width < a.w && Inv() && Denotes(View(sure), aTerm, MeaningOf(a))
      requires sure ==> Settled(Mode(), TruncNoWrap(a, width))
      modifies this`marked, this`aux, this`constraints, this`witnesses, reg`auxCounter, reg`approximate, prover
      ensures Inv() && Extends(old(View(sure)), View(sure))
      ensures (old(marked) ==> marked) && (old(reg.approximate) ==> reg.approximate)
      ensures Denotes(View(sure), t, RemMeaning(MeaningOf(a), width))
      ensures Settled(Mode(), TruncNoWrap(a, width)) ==> reg.approximate == old(reg.approximate)
    {
      hide EvalI, Holds, World, Intended, Agrees, Witnessed, MemoOk, Rem, Sound, Formed, Inv, InMultiples, RulesOut,
           Pow2, Wf, TruncNoWrap, Denotes, Extends, View;
      var upper := Pow2(width);
      TruncateFacts(a, width);
      var noWrap := if upper < Pow2(a.w) then Some(TruncNoWrap(a, width)) else None;
      t := Wrap(aTerm, width, 0, Pow2(a.w - width) - 1, noWrap, MeaningOf(a), sure);
    }

    /** Opaque term: a shared constant if it is loop-invariant, a fresh value otherwise. */
    method Opaque(e: Bv, ghost sure: bool) returns (t: It)
      requires Inv() && Wf(e) && !e.Num? && (e.Var? ==> e !in symbols && e !in names)
      requires sure ==> e.Var?
      modifies this`aux, this`constraints, this`witnesses, this`symbols
      modifies this`marked, reg`auxCounter, reg`approximate, reg`invariants
      ensures Inv() && Extends(old(View(sure)), View(sure))
      ensures (old(marked) ==> marked) && (old(reg.approximate) ==> reg.approximate)
      ensures Denotes(View(sure), t, MeaningOf(e))
      ensures if e.Var? then symbols.Keys <= old(symbols.Keys) + {e} else symbols == old(symbols)
      ensures e.Var? ==>
                StaysExact(old(reg.approximate), old(reg.invariants), reg.approximate, reg.invariants)
      ensures !stem && e.Var? && !(LOOP_VAR_PREFIX <= e.name) ==> symbols == old(symbols)
      ensures e.Var? && Simple(e, old(reg.invariants)) ==> TookSymbol(e, t)
      ensures (if stem then e in old(reg.invariants) else !DependsOnLoopVars(e)) ==> Shares(e, t)
    {
      hide View, Seen, Ctx, EvalI, Holds, EvalB, World, Intended, Agrees, Witnessed, MemoOk, Rem, Pow2, Sound, Formed,
           Inv, RangeOf;
      ghost var c := View(sure);
      if e.Var? {
        LoopVarDepends(e);
      }
      if !e.Var? {
        MarkApproximate(sure);
      }
      ghost var d := View(sure);
      ViewFields(sure);
      if !stem && !DependsOnLoopVars(e) {
        t := OpaqueInvariant(e, sure);
      } else if stem && e in reg.invariants {
        t := OpaqueInvariant(e, sure);
      } else {
        t := FreshOpaque(e, sure);
      }
      ExtendsTransitive(c, d, View(sure));
    }

    method OpaqueInvariant(e: Bv, ghost sure: bool) returns (t: It)
      requires Inv() && Wf(e) && (e.Var? || View(sure).approximate)
      requires if stem then e in reg.invariants else !DependsOnLoopVars(e)
      modifies reg`invariants
      ensures Inv() && Extends(old(View(sure)), View(sure))
      ensures (old(marked) ==> marked) && (old(reg.approximate) ==> reg.approximate)
      ensures Denotes(View(sure), t, MeaningOf(e))
      ensures e.Var? && BareSymbols(old(reg.invariants)) ==> BareSymbols(reg.invariants)
      ensures Shares(e, t)
    {
      hide EvalI, Holds, EvalB, World, Intended, Agrees, Witnessed, MemoOk, Rem, Pow2, Sound, Formed, Extends;
      ghost var c, d := Ctx(), View(sure);
      ViewSound(sure);
      var i := reg.InvariantIndex(e);
      InvariantIsSound(c, e, i);
      InvariantIsSound(d, e, i);
      Grew(c, sure);
      t := IntVar(Invariant(i, stem));
    }

    method FreshOpaque(e: Bv, ghost sure: bool) returns (t: It)
      requires Inv() && Wf(e) && (if e.Var? then e !in symbols && e !in names else View(sure).approximate)
      requires if stem then e !in reg.invariants else DependsOnLoopVars(e)
      modifies this`aux, this`constraints, this`witnesses, this`symbols, reg`auxCounter
      ensures Inv() && Extends(old(View(sure)), View(sure))
      ensures (old(marked) ==> marked) && (old(reg.approximate) ==> reg.approximate)
      ensures Denotes(View(sure), t, MeaningOf(e))
      ensures if e.Var? then symbols.Keys <= old(symbols.Keys) + {e} else symbols == old(symbols)
      ensures t == IntVar(Aux(reg.auxCounter))
      ensures constraints == old(constraints) + RangeOf(Aux(reg.auxCounter), e.w, Small())
    {
      hide EvalI, Holds, EvalB, World, Intended, Agrees, Witnessed, MemoOk, Rem, Pow2, Sound, Formed, Extends;
      ghost var c := View(sure);
      var x := FreshAux(Some(e.w), MeaningOf(e), sure);
      t := IntVar(x);
      ghost var d := View(sure);
      ViewSound(sure);
      WitnessDenotes(d, reg.auxCounter);
      if e.Var? {
        ghost var b := Ctx();
        symbols := symbols[e := reg.auxCounter];
        SymbolIsSound(b, e, reg.auxCounter);
        SymbolIsSound(d, e, reg.auxCounter);
        Grew(b, sure);
        ExtendsTransitive(c, d, View(sure));
      }
    }

    // ---- bitvectors ----

    /** The integer term of a bitvector term; translated at most once. */
    method Translate(e: Bv, ghost sure: bool) returns (t: It)
      requires Wf(e) && Ready()
      requires sure ==> Exact(e, Mode())
      modifies this, reg, prover
      ensures Ready() && Extends(old(View(sure)), View(sure))
      ensures (old(marked) ==> marked) && (old(reg.approximate) ==> reg.approximate)
      ensures Denotes(View(sure), t, MeaningOf(e))
      ensures Exact(e, Mode()) ==>
                StaysExact(old(reg.approximate), old(reg.invariants), reg.approximate, reg.invariants)
      ensures !stem && Named(VarNames(e), names) ==> symbols == old(symbols)
      ensures e.Var? && e !in old(memo) && Simple(e, old(reg.invariants)) ==> TookSymbol(e, t)
      decreases Large(e), Size(e), 4
    {
      hide EvalI, Holds, EvalB, Eval, Wf, World, Intended, Agrees, Witnessed, MemoOk, Seen, Rem, Pow2, Sound, Formed,
           Denotes, WfB, Exact, ExactB, BareSymbols, ExactAll, ExactAllB, Named, VarNames, VarNamesB, VarNamesAll,
           VarNamesBAll, RangeOf;
      ghost var exact := Exact(e, Mode());
      if e in memo {
        MemoDenotes(Ctx(), Mode(), memo, memoB, e);
        SeenDenotes(Ctx(), exact, sure, memo[e], MeaningOf(e));
        ExtendsReflexive(View(sure));
        return memo[e];
      }
      ghost var c := Ctx();
      t := TranslateNode(e, exact);
      SameExtends(c, Ctx(), exact, sure);
      AddMemo(Ctx(), Mode(), memo, memoB, e, t);
      memo := memo[e := t];
      SeenDenotes(Ctx(), exact, sure, t, MeaningOf(e));
    }

    method TranslateAll(es: seq<Bv>, ghost sure: bool) returns (ts: seq<It>)
      requires WfEach(es) && Ready()
      requires sure ==> ExactAll(es, Mode())
      modifies this, reg, prover
      ensures Ready() && Extends(old(View(sure)), View(sure))
      ensures (old(marked) ==> marked) && (old(reg.approximate) ==> reg.approximate)
      ensures DenotesAll(View(sure), ts, es)
      ensures ExactAll(es, Mode()) ==>
                StaysExact(old(reg.approximate), old(reg.invariants), reg.approximate, reg.invariants)
      ensures !stem && Named(VarNamesAll(es), names) ==> symbols == old(symbols)
      decreases LargeAll(es), SizeAll(es), 5
    {
      hide View, Seen, Ctx, EvalI, Holds, EvalB, Eval, World, Intended, Agrees, Witnessed, MemoOk, Rem, Pow2, Sound,
           Formed, Inv, Denotes, Exact, ExactB, BareSymbols, Named, VarNames, VarNamesB, VarNamesAll, VarNamesBAll;
      ts := [];
      ghost var c := View(sure);
      for i := 0 to |es|
        invariant Ready() && Extends(c, View(sure))
        invariant (old(marked) ==> marked) && (old(reg.approximate) ==> reg.approximate)
        invariant DenotesAll(View(sure), ts, es[..i])
        invariant !stem && Named(VarNamesAll(es), names) ==> symbols == old(symbols)
        invariant ExactAll(es, Mode()) ==>
                    StaysExact(old(reg.approximate), old(reg.invariants), reg.approximate, reg.invariants)
      {
        ExactArg(es, i, Mode());
        NamedArg(es, i, names);
        ArgMeasure(es, i);
        ghost var d := View(sure);
        var t := Translate(es[i], sure);
        ExtendsDenotesAll(d, View(sure), ts, es[..i]);
        ExtendsTransitive(c, d, View(sure));
        ts := ts + [t];
        assert es[..i + 1] == es[..i] + [es[i]];
      }
      assert es[..|es|] == es;
    }

    method TranslateNode(e: Bv, ghost sure: bool) returns (t: It)
      requires Wf(e) && Ready() && e !in memo
      requires sure ==> Exact(e, Mode())
      modifies this, reg, prover
      ensures Inv() && symbols.Keys <= memo.Keys + {e} && Extends(old(View(sure)), View(sure))
      ensures (old(marked) ==> marked) && (old(reg.approximate) ==> reg.approximate)
      ensures Denotes(View(sure), t, MeaningOf(e))
      ensures Exact(e, Mode()) ==>
                StaysExact(old(reg.approximate), old(reg.invariants), reg.approximate, reg.invariants)
      ensures !stem && Named(VarNames(e), names) ==> symbols == old(symbols)
      ensures e.Var? && Simple(e, old(reg.invariants)) ==> TookSymbol(e, t)
      decreases Large(e), Size(e), 3
    {
      hide View, Seen, Ctx, EvalI, Holds, EvalB, Eval, World, Intended, Agrees, Witnessed, MemoOk, Rem, Pow2, Sound,
           Inv, Denotes, Extends, Exact, ExactB, BareSymbols, ExactAll, ExactAllB, Named, VarNames, VarNamesB,
           VarNamesAll, VarNamesBAll, RangeOf;
      ExtendsReflexive(View(sure));
      match e
      case Num(_, value) =>
        NumNode(e);
        ExactNum(e, Mode());
        t := Number(value, MeaningOf(e), sure);
      case Var(_, _) =>
        if e in names {
          ViewSound(sure);
          ViewFields(sure);
          NameDenotes(View(sure), e);
          t := IntVar(names[e]);
        } else {
          NamedVar(e, names);
          t := Opaque(e, sure);
        }
      case Nary(_, Add, _) =>
        t := TranslateAdd(e, sure);
      case Nary(_, Mul, _) =>
        t := TranslateMul(e, sure);
      case Nary(_, And, _) =>
        t := TranslateMask(e, sure);
      case Neg(_, _) =>
        t := TranslateNeg(e, sure);
      case Bin(_, _, _, _) =>
        t := TranslateBin(e, sure);
      case Extract(_, _, _) =>
        t := TranslateExtract(e, sure);
      case Concat(_, _) =>
        t := TranslateConcat(e, sure);
      case ZeroExt(_, a) =>
        ExactOperand(e, Mode());
        NamedOperand(e, names);
        t := Translate(a, sure);
        ZeroExtNode(e);
        SameMeaning(View(sure), t, MeaningOf(a), MeaningOf(e));
      case Ite(_, _, _, _) =>
        t := TranslateIte(e, sure);
      case App(_, _, _) =>
        t := TranslateApp(e, sure);
    }

    method TranslateAdd(e: Bv, ghost sure: bool) returns (t: It)
      requires Wf(e) && e.Nary? && e.nop == Add && Ready()
      requires sure ==> Exact(e, Mode())
      modifies this, reg, prover
      ensures Ready() && Extends(old(View(sure)), View(sure))
      ensures (old(marked) ==> marked) && (old(reg.approximate) ==> reg.approximate)
      ensures Denotes(View(sure), t, MeaningOf(e))
      ensures Exact(e, Mode()) ==>
                StaysExact(old(reg.approximate), old(reg.invariants), reg.approximate, reg.invariants)
      ensures !stem && Named(VarNames(e), names) ==> symbols == old(symbols)
      decreases Large(e), Size(e), 2
    {
      hide View, Seen, Ctx, EvalI, Holds, EvalB, Eval, World, Intended, Agrees, Witnessed, MemoOk, Rem, Pow2, Sound,
           Formed, Inv, Denotes, Extends, AddNoWrap, SumMeaning, InMultiples, RulesOut, Reduces, DenotesAll, Borrow,
           Consts, Exact, ExactB, BareSymbols, ExactAll, ExactAllB, Named, VarNames, VarNamesB, VarNamesAll,
           VarNamesBAll;
      NamedArgs(e, names);
      var neg := Borrow(e.args);
      if 0 < neg < Pow2(e.w) && |Consts(e.args)| < |e.args| {
        t := TranslateBorrow(e, sure);
      } else {
        ExactAddends(e, Mode());
        AddPlain(e);
        ghost var c := View(sure);
        var ts := TranslateAll(e.args, sure);
        ghost var d := View(sure);
        DenotesPlus(d, ts, e.args);
        t := Wrap(Plus(ts), e.w, 0, |e.args| - 1, Some(AddNoWrap(e.args, e.w)), SumMeaning(e.args), sure);
        ExtendsTransitive(c, d, View(sure));
        ReducedMeaning(View(sure), t, SumMeaning(e.args), e.w, MeaningOf(e));
      }
    }

    /** Constant addends in the upper half of the range are read as a subtraction. */
    method TranslateBorrow(e: Bv, ghost sure: bool) returns (t: It)
      requires Wf(e) && e.Nary? && e.nop == Add && Ready()
      requires Borrowed(e.w, e.args)
      requires sure ==> Exact(e, Mode())
      modifies this, reg, prover
      ensures Ready() && Extends(old(View(sure)), View(sure))
      ensures (old(marked) ==> marked) && (old(reg.approximate) ==> reg.approximate)
      ensures Denotes(View(sure), t, MeaningOf(e))
      ensures Exact(e, Mode()) ==>
                StaysExact(old(reg.approximate), old(reg.invariants), reg.approximate, reg.invariants)
      ensures !stem && Named(VarNames(e), names) ==> symbols == old(symbols)
      decreases Large(e), Size(e), 1
    {
      hide View, Seen, Ctx, EvalI, Holds, EvalB, Eval, World, Intended, Agrees, Witnessed, MemoOk, Rem, Pow2, Sound,
           Formed, Inv, Denotes, Extends, BorrowNoWrap, RestSum, Borrow, InMultiples, RulesOut, Reduces, Exact,
           ExactB, BareSymbols, ExactAll, ExactAllB, Named, VarNames, VarNamesB, VarNamesAll, VarNamesBAll;
      KeepsRest(e, names, Mode());
      AddBorrow(e);
      ghost var m := DiffMeaning(MeaningOf(RestSum(e.args, e.w)), MeaningOf(Num(e.w, Borrow(e.args))));
      ghost var c := View(sure);
      var x := TranslateDifference(RestSum(e.args, e.w), Borrow(e.args), e, sure);
      ghost var d := View(sure);
      t := Wrap(x, e.w, -1, 0, Some(BorrowNoWrap(e.args, e.w)), m, sure);
      ExtendsTransitive(c, d, View(sure));
      ReducedMeaning(View(sure), t, m, e.w, MeaningOf(e));
    }

    method TranslateDifference(rest: Bv, neg: nat, ghost e: Bv, ghost sure: bool) returns (t: It)
      requires Wf(rest) && Wf(Num(rest.w, neg)) && Ready()
      requires Wf(e) && e.Nary? && rest == RestSum(e.args, e.w) && Borrow(e.args) > 0
      requires sure ==> Exact(rest, Mode()) && SmallEnough(Mode(), neg)
      modifies this, reg, prover
      ensures Ready() && Extends(old(View(sure)), View(sure))
      ensures (old(marked) ==> marked) && (old(reg.approximate) ==> reg.approximate)
      ensures Denotes(View(sure), t, DiffMeaning(MeaningOf(rest), MeaningOf(Num(rest.w, neg))))
      ensures Exact(rest, Mode()) && SmallEnough(Mode(), neg) ==>
                StaysExact(old(reg.approximate), old(reg.invariants), reg.approximate, reg.invariants)
      ensures !stem && Named(VarNames(rest), names) ==> symbols == old(symbols)
      decreases Large(e), Size(e), 0
    {
      hide View, Seen, Ctx, EvalI, Holds, EvalB, Eval, World, Intended, Agrees, Witnessed, MemoOk, Rem, Pow2, Sound,
           Formed, Inv, Denotes, Extends, Exact, ExactB, BareSymbols, ExactAll, ExactAllB, Named, VarNames, VarNamesB,
           VarNamesAll, VarNamesBAll;
      RestSumMeasure(e.args, e.w);
      ghost var ma, mb := MeaningOf(rest), MeaningOf(Num(rest.w, neg));
      ghost var b0 := View(sure);
      var a := Translate(rest, sure);
      ghost var c := View(sure);
      NumNode(Num(rest.w, neg));
      var b := Number(neg, mb, sure);
      ExtendsTransitive(b0, c, View(sure));
      ExtendsDenotes(c, View(sure), a, ma);
      DenotesMinus(View(sure), a, b, ma, mb);
      t := Minus(a, b);
    }

    method TranslateNeg(e: Bv, ghost sure: bool) returns (t: It)
      requires Wf(e) && e.Neg? && Ready()
      requires sure ==> Exact(e, Mode())
      modifies this, reg, prover
      ensures Ready() && Extends(old(View(sure)), View(sure))
      ensures (old(marked) ==> marked) && (old(reg.approximate) ==> reg.approximate)
      ensures Denotes(View(sure), t, MeaningOf(e))
      ensures Exact(e, Mode()) ==>
                StaysExact(old(reg.approximate), old(reg.invariants), reg.approximate, reg.invariants)
      ensures !stem && Named(VarNames(e), names) ==> symbols == old(symbols)
      decreases Large(e), Size(e), 2
    {
      hide View, Seen, Ctx, EvalI, Holds, EvalB, Eval, World, Intended, Agrees, Witnessed, MemoOk, Rem, Pow2, Sound,
           Formed, Inv, Denotes, Extends, NegNoWrap, InMultiples, RulesOut, Reduces, NegMeaning, Exact, ExactB,
           BareSymbols, ExactAll, ExactAllB, Named, VarNames, VarNamesB, VarNamesAll, VarNamesBAll;
      ExactOperand(e, Mode());
      NamedOperand(e, names);
      NegNode(e);
      ghost var c := View(sure);
      var a := Translate(e.a, sure);
      ghost var d := View(sure);
      NegDenotes(d, e, a);
      t := Wrap(Minus(IntLit(0), a), e.w, -1, 0, Some(NegNoWrap(e.a)), NegMeaning(e), sure);
      ExtendsTransitive(c, d, View(sure));
      ReducedMeaning(View(sure), t, NegMeaning(e), e.w, MeaningOf(e));
    }

    method TranslateBin(e: Bv, ghost sure: bool) returns (t: It)
      requires Wf(e) && e.Bin? && Ready() && e !in memo
      requires sure ==> Exact(e, Mode())
      modifies this, reg, prover
      ensures Ready() && Extends(old(View(sure)), View(sure))
      ensures (old(marked) ==> marked) && (old(reg.approximate) ==> reg.approximate)
      ensures Denotes(View(sure), t, MeaningOf(e))
      ensures Exact(e, Mode()) ==>
                StaysExact(old(reg.approximate), old(reg.invariants), reg.approximate, reg.invariants)
      ensures !stem && Named(VarNames(e), names) ==> symbols == old(symbols)
      decreases Large(e), Size(e), 2
    {
      hide View, Seen, Ctx, EvalI, Holds, EvalB, Eval, World, Intended, Agrees, Witnessed, MemoOk, Rem, Pow2, Sound,
           Formed, Inv, Denotes, Extends, Exact, ExactB, BareSymbols, ExactAll, ExactAllB, QuotMeaning,
           RemainderMeaning, ScaledMeaning, StaysExact, Named, VarNames, VarNamesB, VarNamesAll, VarNamesBAll;
      ExactOperand(e, Mode());
      NamedOperand(e, names);
      ExtendsReflexive(View(sure));
      StaysReflexive(reg.approximate, reg.invariants);
      if e.bop == Sub {
        t := TranslateSub(e, sure);
      } else if (e.bop == Shl || e.bop == Lshr) && e.b.Num? {
        t := TranslateShift(e, sure);
      } else if (e.bop == Udiv || e.bop == Urem) && e.b.Num? && e.b.value != 0 {
        t := TranslateDivision(e, sure);
      } else {
        t := OpaqueNode(e, sure);
      }
    }

    /** A shift by a constant. */
    method TranslateShift(e: Bv, ghost sure: bool) returns (t: It)
      requires Wf(e) && e.Bin? && (e.bop == Shl || e.bop == Lshr) && e.b.Num? && Ready()
      requires sure ==> Exact(e, Mode())
      modifies this, reg, prover
      ensures Ready() && Extends(old(View(sure)), View(sure))
      ensures (old(marked) ==> marked) && (old(reg.approximate) ==> reg.approximate)
      ensures Denotes(View(sure), t, MeaningOf(e))
      ensures Exact(e, Mode()) ==>
                StaysExact(old(reg.approximate), old(reg.invariants), reg.approximate, reg.invariants)
      ensures !stem && Named(VarNames(e), names) ==> symbols == old(symbols)
      decreases Large(e), Size(e), 1
    {
      hide View, Seen, Ctx, EvalI, Holds, EvalB, Eval, World, Intended, Agrees, Witnessed, MemoOk, Rem, Pow2, Sound,
           Formed, Inv, Denotes, Extends, Exact, ExactB, BareSymbols, ExactAll, ExactAllB, QuotMeaning,
           RemainderMeaning, ScaledMeaning, StaysExact, Named, VarNames, VarNamesB, VarNamesAll, VarNamesBAll;
      ExactOperand(e, Mode());
      NamedOperand(e, names);
      ExtendsReflexive(View(sure));
      StaysReflexive(reg.approximate, reg.invariants);
      if e.bop == Shl {
        ShlNode(e);
        if e.b.value >= e.w {
          ZeroDenotes(View(sure), MeaningOf(e));
          t := IntLit(0);
        } else {
          t := Scale(e.a, Pow2(e.b.value), sure);
          SameMeaning(View(sure), t, ScaledMeaning(e.a, Pow2(e.b.value)), MeaningOf(e));
        }
      } else {
        ShrNode(e);
        if e.b.value >= e.w {
          ZeroDenotes(View(sure), MeaningOf(e));
          t := IntLit(0);
        } else {
          t := DivideBy(e.a, Pow2(e.b.value), sure);
          SameMeaning(View(sure), t, QuotMeaning(MeaningOf(e.a), Pow2(e.b.value)), MeaningOf(e));
        }
      }
    }

    /** A division by a constant, or its remainder. */
    method TranslateDivision(e: Bv, ghost sure: bool) returns (t: It)
      requires Wf(e) && e.Bin? && (e.bop == Udiv || e.bop == Urem) && e.b.Num? && e.b.value != 0 && Ready()
      requires sure ==> Exact(e, Mode())
      modifies this, reg, prover
      ensures Ready() && Extends(old(View(sure)), View(sure))
      ensures (old(marked) ==> marked) && (old(reg.approximate) ==> reg.approximate)
      ensures Denotes(View(sure), t, MeaningOf(e))
      ensures Exact(e, Mode()) ==>
                StaysExact(old(reg.approximate), old(reg.invariants), reg.approximate, reg.invariants)
      ensures !stem && Named(VarNames(e), names) ==> symbols == old(symbols)
      decreases Large(e), Size(e), 1
    {
      hide View, Seen, Ctx, EvalI, Holds, EvalB, Eval, World, Intended, Agrees, Witnessed, MemoOk, Rem, Pow2, Sound,
           Formed, Inv, Denotes, Extends, Exact, ExactB, BareSymbols, ExactAll, ExactAllB, QuotMeaning,
           RemainderMeaning, ScaledMeaning, StaysExact, Named, VarNames, VarNamesB, VarNamesAll, VarNamesBAll;
      ExactOperand(e, Mode());
      NamedOperand(e, names);
      DivNode(e);
      if e.bop == Udiv {
        t := DivideBy(e.a, e.b.value, sure);
        SameMeaning(View(sure), t, QuotMeaning(MeaningOf(e.a), e.b.value), MeaningOf(e));
      } else {
        t := RemainderBy(e.a, e.b.value, sure);
        SameMeaning(View(sure), t, RemainderMeaning(MeaningOf(e.a), e.b.value), MeaningOf(e));
      }
    }

    method TranslateSub(e: Bv, ghost sure: bool) returns (t: It)
      requires Wf(e) && e.Bin? && e.bop == Sub && Ready()
      requires sure ==> Exact(e, Mode())
      modifies this, reg, prover
      ensures Ready() && Extends(old(View(sure)), View(sure))
      ensures (old(marked) ==> marked) && (old(reg.approximate) ==> reg.approximate)
      ensures Denotes(View(sure), t, MeaningOf(e))
      ensures Exact(e, Mode()) ==>
                StaysExact(old(reg.approximate), old(reg.invariants), reg.approximate, reg.invariants)
      ensures !stem && Named(VarNames(e), names) ==> symbols == old(symbols)
      decreases Large(e), Size(e), 1
    {
      hide View, Seen, Ctx, EvalI, Holds, EvalB, Eval, World, Intended, Agrees, Witnessed, MemoOk, Rem, Pow2, Sound,
           Formed, Inv, Denotes, Extends, SubNoWrap, InMultiples, RulesOut, Reduces, Exact, ExactB, BareSymbols,
           ExactAll, ExactAllB, DiffMeaning, Named, VarNames, VarNamesB, VarNamesAll, VarNamesBAll;
      ExactOperand(e, Mode());
      NamedOperand(e, names);
      SubNode(e);
      ghost var ma, mb := MeaningOf(e.a), MeaningOf(e.b);
      ghost var b0 := View(sure);
      var a := Translate(e.a, sure);
      ghost var c := View(sure);
      var b := Translate(e.b, sure);
      ExtendsTransitive(b0, c, View(sure));
      ExtendsDenotes(c, View(sure), a, ma);
      DenotesMinus(View(sure), a, b, ma, mb);
      ghost var d := View(sure);
      t := Wrap(Minus(a, b), e.w, -1, 0, Some(SubNoWrap(e.a, e.b)), DiffMeaning(ma, mb), sure);
      ExtendsTransitive(b0, d, View(sure));
      ReducedMeaning(View(sure), t, DiffMeaning(ma, mb), e.w, MeaningOf(e));
    }

    /** Opaque, for a compound term between two translations. */
    method OpaqueNode(e: Bv, ghost sure: bool) returns (t: It)
      requires Wf(e) && !e.Num? && !e.Var? && Ready()
      requires !sure
      modifies this`aux, this`constraints, this`witnesses, this`symbols
      modifies this`marked, reg`auxCounter, reg`approximate, reg`invariants
      ensures Ready() && Extends(old(View(sure)), View(sure))
      ensures (old(marked) ==> marked) && (old(reg.approximate) ==> reg.approximate)
      ensures Denotes(View(sure), t, MeaningOf(e))
      ensures symbols == old(symbols)
    {
      hide View, Seen, Ctx, EvalI, Holds, EvalB, Eval, World, Intended, Agrees, Witnessed, MemoOk, Rem, Pow2, Sound,
           Formed, Inv, Denotes, Extends;
      t := Opaque(e, sure);
    }

    method DivideBy(a: Bv, k: nat, ghost sure: bool) returns (t: It)
      requires Wf(a) && k > 0 && Ready() && NonNegative(MeaningOf(a))
      requires sure ==> Exact(a, Mode()) && SmallEnough(Mode(), k)
      modifies this, reg, prover
      ensures Ready() && Extends(old(View(sure)), View(sure))
      ensures (old(marked) ==> marked) && (old(reg.approximate) ==> reg.approximate)
      ensures Denotes(View(sure), t, QuotMeaning(MeaningOf(a), k))
      ensures Exact(a, Mode()) && SmallEnough(Mode(), k) ==>
                StaysExact(old(reg.approximate), old(reg.invariants), reg.approximate, reg.invariants)
      ensures !stem && Named(VarNames(a), names) ==> symbols == old(symbols)
      decreases Large(a), Size(a), 5
    {
      hide View, Seen, Ctx, EvalI, Holds, EvalB, Eval, World, Intended, Agrees, Witnessed, MemoOk, Rem, Pow2, Sound,
           Formed, Inv, Denotes, Extends, Exact, ExactB, BareSymbols, ExactAll, ExactAllB, Named, VarNames, VarNamesB,
           VarNamesAll, VarNamesBAll;
      ghost var c := View(sure);
      var x := Translate(a, sure);
      ghost var d := View(sure);
      t := DivConst(x, k, MeaningOf(a), sure);
      ExtendsTransitive(c, d, View(sure));
    }

    method RemainderBy(a: Bv, k: nat, ghost sure: bool) returns (t: It)
      requires Wf(a) && k > 0 && Ready() && NonNegative(MeaningOf(a))
      requires sure ==> Exact(a, Mode()) && SmallEnough(Mode(), k)
      modifies this, reg, prover
      ensures Ready() && Extends(old(View(sure)), View(sure))
      ensures (old(marked) ==> marked) && (old(reg.approximate) ==> reg.approximate)
      ensures Denotes(View(sure), t, RemainderMeaning(MeaningOf(a), k))
      ensures Exact(a, Mode()) && SmallEnough(Mode(), k) ==>
                StaysExact(old(reg.approximate), old(reg.invariants), reg.approximate, reg.invariants)
      ensures !stem && Named(VarNames(a), names) ==> symbols == old(symbols)
      decreases Large(a), Size(a), 5
    {
      hide View, Seen, Ctx, EvalI, Holds, EvalB, Eval, World, Intended, Agrees, Witnessed, MemoOk, Rem, Pow2, Sound,
           Formed, Inv, Denotes, Extends, Exact, ExactB, BareSymbols, ExactAll, ExactAllB, Named, VarNames, VarNamesB,
           VarNamesAll, VarNamesBAll;
      ghost var c := View(sure);
      var x := Translate(a, sure);
      ghost var d := View(sure);
      t := RemConst(x, k, MeaningOf(a), sure);
      ExtendsTransitive(c, d, View(sure));
    }

    /** (coef * x) mod 2^w for a constant coef. */
    method Scale(x: Bv, coef: nat, ghost sure: bool) returns (t: It)
      requires Wf(x) && Ready()
      requires sure ==> Exact(x, Mode()) && ExactScale(x, coef, Mode())
      modifies this, reg, prover
      ensures Ready() && Extends(old(View(sure)), View(sure))
      ensures (old(marked) ==> marked) && (old(reg.approximate) ==> reg.approximate)
      ensures Denotes(View(sure), t, ScaledMeaning(x, coef))
      ensures Exact(x, Mode()) && ExactScale(x, coef, Mode()) ==>
                StaysExact(old(reg.approximate), old(reg.invariants), reg.approximate, reg.invariants)
      ensures !stem && Named(VarNames(x), names) ==> symbols == old(symbols)
      decreases Large(x), Size(x), 6
    {
      hide View, Seen, Ctx, EvalI, Holds, EvalB, Eval, World, Intended, Agrees, Witnessed, MemoOk, Rem, Pow2, Sound,
           Formed, Inv, Denotes, Extends, Exact, ExactB, BareSymbols, ExactAll, ExactAllB, Named, VarNames, VarNamesB,
           VarNamesAll, VarNamesBAll;
      if coef == 0 {
        ScaleTrivial(x, coef);
        ZeroDenotes(View(sure), ScaledMeaning(x, coef));
        ExtendsReflexive(View(sure));
        t := IntLit(0);
      } else if coef == 1 {
        ScaleTrivial(x, coef);
        t := Translate(x, sure);
        SameMeaning(View(sure), t, MeaningOf(x), ScaledMeaning(x, coef));
      } else if Small() && coef > MAX_SMALL_CONSTANT {
        t := LooseScale(x, coef, sure);
      } else {
        t := Multiply(x, coef, sure);
      }
    }

    /** Any word, when the factor is too large for the small encoding. */
    method LooseScale(x: Bv, coef: nat, ghost sure: bool) returns (t: It)
      requires Wf(x) && Ready()
      requires !sure
      modifies this`marked, this`aux, this`constraints, this`witnesses, reg`auxCounter, reg`approximate
      ensures Ready() && Extends(old(View(sure)), View(sure))
      ensures (old(marked) ==> marked) && (old(reg.approximate) ==> reg.approximate)
      ensures Denotes(View(sure), t, ScaledMeaning(x, coef))
    {
      hide View, Seen, Ctx, EvalI, Holds, EvalB, Eval, World, Intended, Agrees, Witnessed, MemoOk, Rem, Pow2, Sound,
           Formed, Inv, Denotes, Extends;
      ghost var c := View(sure);
      MarkApproximate(sure);
      ghost var d := View(sure);
      var y := FreshAux(Some(x.w), ScaledMeaning(x, coef), sure);
      t := IntVar(y);
      ViewSound(sure);
      ViewFields(sure);
      WitnessDenotes(View(sure), reg.auxCounter);
      ExtendsTransitive(c, d, View(sure));
    }

    method Multiply(x: Bv, coef: nat, ghost sure: bool) returns (t: It)
      requires Wf(x) && Ready() && coef > 0 && (Small() ==> coef <= MAX_SMALL_CONSTANT)
      requires sure ==> Exact(x, Mode()) && Settled(Mode(), ScaleNoWrap(x, coef, x.w))
      modifies this, reg, prover
      ensures Ready() && Extends(old(View(sure)), View(sure))
      ensures (old(marked) ==> marked) && (old(reg.approximate) ==> reg.approximate)
      ensures Denotes(View(sure), t, ScaledMeaning(x, coef))
      ensures Exact(x, Mode()) && Settled(Mode(), ScaleNoWrap(x, coef, x.w)) ==>
                StaysExact(old(reg.approximate), old(reg.invariants), reg.approximate, reg.invariants)
      ensures !stem && Named(VarNames(x), names) ==> symbols == old(symbols)
      decreases Large(x), Size(x), 5
    {
      hide View, Seen, Ctx, EvalI, Holds, EvalB, Eval, World, Intended, Agrees, Witnessed, MemoOk, Rem, Pow2, Sound,
           Formed, Inv, Denotes, Extends, InMultiples, RulesOut, Reduces, Exact, ExactB, BareSymbols, ExactAll,
           ExactAllB, MultipleMeaning, ScaledMeaning, ScaleNoWrap, Named, VarNames, VarNamesB, VarNamesAll,
           VarNamesBAll;
      ghost var c := View(sure);
      var a := Translate(x, sure);
      ghost var d := View(sure);
      ScaleNode(x, coef);
      ghost var m := MultipleMeaning(coef, MeaningOf(x));
      var kMax := if coef - 1 > 0 then coef - 1 else 0;
      assert kMax == coef - 1;
      ViewFields(sure);
      DenotesScaled(d, coef, a, MeaningOf(x));
      t := Wrap(Scaled(coef, a), x.w, 0, kMax, Some(ScaleNoWrap(x, coef, x.w)), m, sure);
      ExtendsTransitive(c, d, View(sure));
      ReducedMeaning(View(sure), t, m, x.w, ScaledMeaning(x, coef));
    }

    method TranslateMul(e: Bv, ghost sure: bool) returns (t: It)
      requires Wf(e) && e.Nary? && e.nop == Mul && Ready() && e !in memo
      requires sure ==> Exact(e, Mode())
      modifies this, reg, prover
      ensures Ready() && Extends(old(View(sure)), View(sure))
      ensures (old(marked) ==> marked) && (old(reg.approximate) ==> reg.approximate)
      ensures Denotes(View(sure), t, MeaningOf(e))
      ensures Exact(e, Mode()) ==>
                StaysExact(old(reg.approximate), old(reg.invariants), reg.approximate, reg.invariants)
      ensures !stem && Named(VarNames(e), names) ==> symbols == old(symbols)
      decreases Large(e), Size(e), 2
    {
      hide View, Seen, Ctx, EvalI, Holds, EvalB, Eval, World, Intended, Agrees, Witnessed, MemoOk, Rem, Pow2, Sound,
           Formed, Inv, Denotes, Extends, Exact, ExactB, BareSymbols, ExactAll, ExactAllB, Named, VarNames, VarNamesB,
           VarNamesAll, VarNamesBAll;
      ExactNode(e, Mode());
      NamedArgs(e, names);
      if |Others(e.args)| > 1 {
        t := OpaqueNode(e, sure);
        return;
      }
      var coef := ProductMod(Consts(e.args), e.w);
      MulNode(e, coef);
      if Others(e.args) == [] {
        t := Number(coef, MeaningOf(e), sure);
      } else {
        var x := Others(e.args)[0];
        assert x in e.args;
        ghost var i :| 0 <= i < |e.args| && e.args[i] == x;
                NamedArg(e.args, i, names);
        ArgMeasure(e.args, i);
        t := Scale(x, coef, sure);
        SameMeaning(View(sure), t, ScaledMeaning(x, coef), MeaningOf(e));
      }
    }

    method TranslateMask(e: Bv, ghost sure: bool) returns (t: It)
      requires Wf(e) && e.Nary? && e.nop == And && Ready() && e !in memo
      requires sure ==> Exact(e, Mode())
      modifies this, reg, prover
      ensures Ready() && Extends(old(View(sure)), View(sure))
      ensures (old(marked) ==> marked) && (old(reg.approximate) ==> reg.approximate)
      ensures Denotes(View(sure), t, MeaningOf(e))
      ensures Exact(e, Mode()) ==>
                StaysExact(old(reg.approximate), old(reg.invariants), reg.approximate, reg.invariants)
      ensures !stem && Named(VarNames(e), names) ==> symbols == old(symbols)
      decreases Large(e), Size(e), 2
    {
      hide View, Seen, Ctx, EvalI, Holds, EvalB, Eval, World, Intended, Agrees, Witnessed, MemoOk, Rem, Pow2, Sound,
           Formed, Inv, Denotes, Extends, BitLength, BitAnd, Consts, Others, Exact, ExactB, BareSymbols, ExactAll,
           ExactAllB, Named, VarNames, VarNamesB, VarNamesAll, VarNamesBAll;
      ExactNode(e, Mode());
      NamedArgs(e, names);
      if |Consts(e.args)| == 1 && |Others(e.args)| == 1 {
        var mask := Consts(e.args)[0];
        if BitAnd(mask, mask + 1) == 0 {
          var n := BitLength(mask);
          var x := Others(e.args)[0];
          assert Consts(e.args) == [mask];
          MaskNode(e, mask);
          assert x in e.args;
          ghost var i :| 0 <= i < |e.args| && e.args[i] == x;
                    NamedArg(e.args, i, names);
          ArgMeasure(e.args, i);
          if n >= e.w {
            t := Translate(x, sure);
            SameMeaning(View(sure), t, MeaningOf(x), MeaningOf(e));
            return;
          }
          t := TranslateTruncated(x, n, sure);
          SameMeaning(View(sure), t, RemMeaning(MeaningOf(x), n), MeaningOf(e));
          return;
        }
      }
      t := OpaqueNode(e, sure);
    }

    method TranslateExtract(e: Bv, ghost sure: bool) returns (t: It)
      requires Wf(e) && e.Extract? && Ready()
      requires sure ==> Exact(e, Mode())
      modifies this, reg, prover
      ensures Ready() && Extends(old(View(sure)), View(sure))
      ensures (old(marked) ==> marked) && (old(reg.approximate) ==> reg.approximate)
      ensures Denotes(View(sure), t, MeaningOf(e))
      ensures Exact(e, Mode()) ==>
                StaysExact(old(reg.approximate), old(reg.invariants), reg.approximate, reg.invariants)
      ensures !stem && Named(VarNames(e), names) ==> symbols == old(symbols)
      decreases Large(e), Size(e), 2
    {
      hide View, Seen, Ctx, EvalI, Holds, EvalB, Eval, World, Intended, Agrees, Witnessed, MemoOk, Rem, Pow2, Sound,
           Formed, Inv, Denotes, Extends, Exact, ExactB, BareSymbols, ExactAll, ExactAllB, QuotMeaning, RemMeaning,
           Named, VarNames, VarNamesB, VarNamesAll, VarNamesBAll;
      ExactOperand(e, Mode());
      NamedOperand(e, names);
      ExtractNode(e);
      if e.lo == 0 && e.lo + e.w >= e.a.w {
        t := Translate(e.a, sure);
        SameMeaning(View(sure), t, MeaningOf(e.a), MeaningOf(e));
      } else if e.lo == 0 {
        t := TranslateTruncated(e.a, e.w, sure);
        SameMeaning(View(sure), t, RemMeaning(MeaningOf(e.a), e.w), MeaningOf(e));
      } else {
        ghost var c := View(sure);
        t := DivideBy(e.a, Pow2(e.lo), sure);
        ghost var d := View(sure);
        ghost var mq := QuotMeaning(MeaningOf(e.a), Pow2(e.lo));
        if e.lo + e.w >= e.a.w {
          SameMeaning(d, t, mq, MeaningOf(e));
          return;
        }
        var shifted := ShiftOf(e.a, e.lo);
        SameMeaning(d, t, mq, MeaningOf(shifted));
        t := Truncate(t, shifted, e.w, sure);
        ExtendsTransitive(c, d, View(sure));
        SameMeaning(View(sure), t, RemMeaning(MeaningOf(shifted), e.w), MeaningOf(e));
      }
    }

    method TranslateTruncated(a: Bv, width: nat, ghost sure: bool) returns (t: It)
      requires Wf(a) && width < a.w && Ready()
      requires sure ==> Exact(a, Mode()) && Settled(Mode(), TruncNoWrap(a, width))
      modifies this, reg, prover
      ensures Ready() && Extends(old(View(sure)), View(sure))
      ensures (old(marked) ==> marked) && (old(reg.approximate) ==> reg.approximate)
      ensures Denotes(View(sure), t, RemMeaning(MeaningOf(a), width))
      ensures Exact(a, Mode()) && Settled(Mode(), TruncNoWrap(a, width)) ==>
                StaysExact(old(reg.approximate), old(reg.invariants), reg.approximate, reg.invariants)
      ensures !stem && Named(VarNames(a), names) ==> symbols == old(symbols)
      decreases Large(a), Size(a), 5
    {
      hide View, Seen, Ctx, EvalI, Holds, EvalB, Eval, World, Intended, Agrees, Witnessed, MemoOk, Rem, Pow2, Sound,
           Formed, Inv, Denotes, Extends, Exact, ExactB, BareSymbols, ExactAll, ExactAllB, Named, VarNames, VarNamesB,
           VarNamesAll, VarNamesBAll;
      ghost var c := View(sure);
      var x := Translate(a, sure);
      ghost var d := View(sure);
      t := Truncate(x, a, width, sure);
      ExtendsTransitive(c, d, View(sure));
    }

    method TranslateConcat(e: Bv, ghost sure: bool) returns (t: It)
      requires Wf(e) && e.Concat? && Ready() && e !in memo
      requires sure ==> Exact(e, Mode())
      modifies this, reg, prover
      ensures Ready() && Extends(old(View(sure)), View(sure))
      ensures (old(marked) ==> marked) && (old(reg.approximate) ==> reg.approximate)
      ensures Denotes(View(sure), t, MeaningOf(e))
      ensures Exact(e, Mode()) ==>
                StaysExact(old(reg.approximate), old(reg.invariants), reg.approximate, reg.invariants)
      ensures !stem && Named(VarNames(e), names) ==> symbols == old(symbols)
      decreases Large(e), Size(e), 2
    {
      hide View, Seen, Ctx, EvalI, Holds, EvalB, Eval, World, Intended, Agrees, Witnessed, MemoOk, Rem, Pow2, Sound,
           Formed, Inv, Denotes, Extends, Exact, ExactB, BareSymbols, ExactAll, ExactAllB, ConcatMeaning, Named,
           VarNames, VarNamesB, VarNamesAll, VarNamesBAll;
      ghost var c := View(sure);
      ExtendsReflexive(c);
      ConcatNode(e);
      var args := e.args;
      ExactArgs(e, Mode());
      NamedArgs(e, names);
      ExactArg(args, 0, Mode());
      NamedArg(args, 0, names);
      ArgMeasure(args, 0);
      t := Translate(args[0], sure);
      ConcatNext(args, 0);
      SameMeaning(View(sure), t, MeaningOf(args[0]), ConcatMeaning(args[..1]));
      for i := 1 to |args|
        invariant Ready() && Extends(c, View(sure))
        invariant (old(marked) ==> marked) && (old(reg.approximate) ==> reg.approximate)
        invariant Denotes(View(sure), t, ConcatMeaning(args[..i]))
        invariant !stem && Named(VarNames(e), names) ==> symbols == old(symbols)
        invariant Exact(e, Mode()) ==>
                    StaysExact(old(reg.approximate), old(reg.invariants), reg.approximate, reg.invariants)
      {
        ghost var d := View(sure);
        var done;
        t, done := AppendField(e, i, t, sure);
        ExtendsTransitive(c, d, View(sure));
        if done {
          return;
        }
      }
      assert args[..|args|] == args;
      SameMeaning(View(sure), t, ConcatMeaning(args), MeaningOf(e));
    }

    /** Appends the i-th field to the concatenation, or gives up with an opaque term. */
    method AppendField(e: Bv, i: nat, acc: It, ghost sure: bool) returns (t: It, done: bool)
      requires Wf(e) && e.Concat? && 1 <= i < |e.args| && Ready() && Denotes(View(sure), acc, ConcatMeaning(e.args[..i]))
      requires sure ==> Exact(e, Mode())
      modifies this, reg, prover
      ensures Ready() && Extends(old(View(sure)), View(sure))
      ensures (old(marked) ==> marked) && (old(reg.approximate) ==> reg.approximate)
      ensures Denotes(View(sure), t, if done then MeaningOf(e) else ConcatMeaning(e.args[..i + 1]))
      ensures Exact(e, Mode()) ==>
                StaysExact(old(reg.approximate), old(reg.invariants), reg.approximate, reg.invariants)
      ensures !stem && Named(VarNames(e), names) ==> symbols == old(symbols)
      decreases Large(e), Size(e), 1
    {
      hide View, Seen, Ctx, EvalI, Holds, EvalB, Eval, World, Intended, Agrees, Witnessed, MemoOk, Rem, Pow2, Sound,
           Formed, Inv, Denotes, Extends, Exact, ExactB, BareSymbols, ExactAll, ExactAllB, Named, VarNames, VarNamesB,
           VarNamesAll, VarNamesBAll, ZeroFields;
      ViewFields(sure);
      var args := e.args;
      ghost var c := View(sure);
      ExactField(e, i, Mode());
      NamedArgs(e, names);
      NamedArg(args, i, names);
      ArgMeasure(args, i);
      t := Translate(args[i], sure);
      done := false;
      ghost var d := View(sure);
      DenotesZeroStep(d, t, args, i);
      if Small() && Pow2(args[i].w) > MAX_SMALL_CONSTANT {
        if !ZeroFields(args) {
          t := OpaqueNode(e, sure);
          done := true;
          ExtendsTransitive(c, d, View(sure));
        }
      } else {
        DenotesConcatStep(c, d, acc, t, args, i);
        t := Plus([Scaled(Pow2(args[i].w), acc), t]);
      }
    }

    method TranslateIte(e: Bv, ghost sure: bool) returns (t: It)
      requires Wf(e) && e.Ite? && Ready()
      requires sure ==> Exact(e, Mode())
      modifies this, reg, prover
      ensures Ready() && Extends(old(View(sure)), View(sure))
      ensures (old(marked) ==> marked) && (old(reg.approximate) ==> reg.approximate)
      ensures Denotes(View(sure), t, MeaningOf(e))
      ensures Exact(e, Mode()) ==>
                StaysExact(old(reg.approximate), old(reg.invariants), reg.approximate, reg.invariants)
      ensures !stem && Named(VarNames(e), names) ==> symbols == old(symbols)
      decreases Large(e), Size(e), 2
    {
      hide View, Seen, Ctx, EvalI, Holds, EvalB, Eval, World, Intended, Agrees, Witnessed, MemoOk, Rem, Pow2, Sound,
           Formed, Inv, Denotes, Extends, Exact, ExactB, BareSymbols, ExactAll, ExactAllB, Named, VarNames, VarNamesB,
           VarNamesAll, VarNamesBAll;
      ExactOperand(e, Mode());
      NamedOperand(e, names);
      ghost var c0 := View(sure);
      var cond := TranslateB(e.c, sure);
      ghost var c1 := View(sure);
      var a := Translate(e.a, sure);
      ghost var c2 := View(sure);
      var b := Translate(e.b, sure);
      ghost var c3 := View(sure);
      ExtendsTransitive(c0, c1, c2);
      ExtendsTransitive(c0, c2, c3);
      ExtendsTransitive(c1, c2, c3);
      ExtendsDenotesB(c1, c3, cond, e.c);
      ExtendsDenotes(c2, c3, a, MeaningOf(e.a));
      IteNode(e);
      t := IfThenElse(cond, a, b, Some(e.w), e.c, MeaningOf(e.a), MeaningOf(e.b), sure);
      ExtendsTransitive(c0, c3, View(sure));
      SameMeaning(View(sure), t, IteMeaning(e.c, MeaningOf(e.a), MeaningOf(e.b)), MeaningOf(e));
    }

    method TranslateApp(e: Bv, ghost sure: bool) returns (t: It)
      requires Wf(e) && e.App? && Ready() && e !in memo
      requires sure ==> Exact(e, Mode())
      modifies this, reg, prover
      ensures Ready() && Extends(old(View(sure)), View(sure))
      ensures (old(marked) ==> marked) && (old(reg.approximate) ==> reg.approximate)
      ensures Denotes(View(sure), t, MeaningOf(e))
      ensures Exact(e, Mode()) ==>
                StaysExact(old(reg.approximate), old(reg.invariants), reg.approximate, reg.invariants)
      ensures !stem && Named(VarNames(e), names) ==> symbols == old(symbols)
      decreases Large(e), Size(e), 2
    {
      hide View, Seen, Ctx, EvalI, Holds, EvalB, Eval, World, Intended, Agrees, Witnessed, MemoOk, Rem, Pow2, Sound,
           Formed, Inv, Denotes, Extends, Exact, ExactB, BareSymbols, ExactAll, ExactAllB, Named, VarNames, VarNamesB,
           VarNamesAll, VarNamesBAll;
      ExactArgs(e, Mode());
      NamedArgs(e, names);
      if |e.args| == 2 {
        AppNode(e);
        ExactArg(e.args, 0, Mode());
        NamedArg(e.args, 0, names);
        ExactArg(e.args, 1, Mode());
        NamedArg(e.args, 1, names);
        ArgMeasure(e.args, 0);
        ArgMeasure(e.args, 1);
        var x, y := e.args[0], e.args[1];
        if UDIV_ABSTRACTION <= e.name && y.Num? && y.value != 0 {
          t := DivideBy(x, y.value, sure);
          SameMeaning(View(sure), t, QuotMeaning(MeaningOf(x), y.value), MeaningOf(e));
          return;
        }
        if UREM_ABSTRACTION <= e.name && y.Num? && y.value != 0 {
          t := RemainderBy(x, y.value, sure);
          SameMeaning(View(sure), t, RemainderMeaning(MeaningOf(x), y.value), MeaningOf(e));
          return;
        }
        if MUL_ABSTRACTION <= e.name && (x.Num? || y.Num?) {
          var coef, other := if x.Num? then x.value else y.value, if x.Num? then y else x;
          t := Scale(other, coef, sure);
          SameMeaning(View(sure), t, ScaledMeaning(other, coef), MeaningOf(e));
          return;
        }
      }
      t := OpaqueNode(e, sure);
    }

    // ---- booleans ----

    method TranslateB(p: Bl, ghost sure: bool) returns (f: Ib)
      requires WfB(p) && Ready()
      requires sure ==> ExactB(p, Mode())
      modifies this, reg, prover
      ensures Ready() && Extends(old(View(sure)), View(sure))
      ensures (old(marked) ==> marked) && (old(reg.approximate) ==> reg.approximate)
      ensures DenotesB(View(sure), f, p)
      ensures ExactB(p, Mode()) ==>
                StaysExact(old(reg.approximate), old(reg.invariants), reg.approximate, reg.invariants)
      ensures !stem && Named(VarNamesB(p), names) ==> symbols == old(symbols)
      decreases LargeB(p), SizeB(p), 4
    {
      hide EvalI, Holds, EvalB, Eval, Wf, World, Intended, Agrees, Witnessed, MemoOk, Seen, Rem, Pow2, Sound, Formed,
           Denotes, Exact, ExactB, BareSymbols, ExactAll, ExactAllB, Named, VarNames, VarNamesB, VarNamesAll,
           VarNamesBAll;
      ghost var exact := ExactB(p, Mode());
      if p in memoB {
        MemoDenotesB(Ctx(), Mode(), memo, memoB, p);
        SeenDenotesB(Ctx(), exact, sure, memoB[p], p);
        ExtendsReflexive(View(sure));
        return memoB[p];
      }
      ghost var c := Ctx();
      f := TranslateNodeB(p, exact);
      SameExtends(c, Ctx(), exact, sure);
      AddMemoB(Ctx(), Mode(), memo, memoB, p, f);
      memoB := memoB[p := f];
      SeenDenotesB(Ctx(), exact, sure, f, p);
    }

    method TranslateAllB(ps: seq<Bl>, ghost sure: bool) returns (fs: seq<Ib>)
      requires WfBAll(ps) && Ready()
      requires sure ==> ExactAllB(ps, Mode())
      modifies this, reg, prover
      ensures Ready() && Extends(old(View(sure)), View(sure))
      ensures (old(marked) ==> marked) && (old(reg.approximate) ==> reg.approximate)
      ensures DenotesEachB(View(sure), fs, ps)
      ensures ExactAllB(ps, Mode()) ==>
                StaysExact(old(reg.approximate), old(reg.invariants), reg.approximate, reg.invariants)
      ensures !stem && Named(VarNamesBAll(ps), names) ==> symbols == old(symbols)
      ensures ps == [] ==> fs == [] && Untouched() && reg.approximate == old(reg.approximate)
      decreases LargeBAll(ps), SizeBAll(ps), 5
    {
      hide View, Seen, Ctx, EvalI, Holds, EvalB, Eval, World, Intended, Agrees, Witnessed, MemoOk, Rem, Pow2, Sound,
           Formed, Inv, DenotesB, Extends, Exact, ExactB, BareSymbols, Named, VarNames, VarNamesB, VarNamesAll,
           VarNamesBAll;
      fs := [];
      ghost var c := View(sure);
      ExtendsReflexive(c);
      for i := 0 to |ps|
        invariant Ready() && Extends(c, View(sure))
        invariant (old(marked) ==> marked) && (old(reg.approximate) ==> reg.approximate)
        invariant DenotesEachB(View(sure), fs, ps[..i])
        invariant i == 0 ==> fs == [] && Untouched() && reg.approximate == old(reg.approximate)
        invariant !stem && Named(VarNamesBAll(ps), names) ==> symbols == old(symbols)
        invariant ExactAllB(ps, Mode()) ==>
                    StaysExact(old(reg.approximate), old(reg.invariants), reg.approximate, reg.invariants)
      {
        NamedArgB(ps, i, names);
        ArgMeasureB(ps, i);
        ghost var d := View(sure);
        var f := TranslateB(ps[i], sure);
        ExtendsDenotesEachB(d, View(sure), fs, ps[..i]);
        ExtendsTransitive(c, d, View(sure));
        fs := fs + [f];
        assert ps[..i + 1] == ps[..i] + [ps[i]];
      }
      assert ps[..|ps|] == ps;
    }

    method TranslateNodeB(p: Bl, ghost sure: bool) returns (f: Ib)
      requires WfB(p) && Ready()
      requires sure ==> ExactB(p, Mode())
      modifies this, reg, prover
      ensures Ready() && Extends(old(View(sure)), View(sure))
      ensures (old(marked) ==> marked) && (old(reg.approximate) ==> reg.approximate)
      ensures DenotesB(View(sure), f, p)
      ensures ExactB(p, Mode()) ==>
                StaysExact(old(reg.approximate), old(reg.invariants), reg.approximate, reg.invariants)
      ensures !stem && Named(VarNamesB(p), names) ==> symbols == old(symbols)
      decreases LargeB(p), SizeB(p), 3
    {
      hide View, Seen, Ctx, EvalI, Holds, EvalB, Eval, World, Intended, Agrees, Witnessed, MemoOk, Rem, Pow2, Sound,
           Formed, Inv, Denotes, DenotesB, Extends, Exact, ExactB, BareSymbols, ExactAll, ExactAllB, Named, VarNames,
           VarNamesB, VarNamesAll, VarNamesBAll;
      ExactParts(p, Mode());
      NamedParts(p, names);
      ghost var c := View(sure);
      ExtendsReflexive(c);
      match p
      case Lit(b) =>
        LitDenotes(View(sure), b);
        f := BoolLit(b);
      case Not(q) =>
        var g := TranslateB(q, sure);
        DenotesNot(View(sure), g, q);
        f := NotI(g);
      case Junction(conj, ps) =>
        var fs := TranslateAllB(ps, sure);
        DenotesJunction(View(sure), conj, fs, ps);
        f := if conj then AllOf(fs) else AnyOf(fs);
      case Conn(conn, q, r) =>
        var g := TranslateB(q, sure);
        ghost var d := View(sure);
        var h := TranslateB(r, sure);
        ExtendsTransitive(c, d, View(sure));
        ExtendsDenotesB(d, View(sure), g, q);
        DenotesConn(View(sure), conn, g, h, q, r);
        f := ConnI(conn, g, h);
      case IteB(_, _, _) =>
        f := TranslateIteB(p, sure);
      case Rel(_, _, _) =>
        f := TranslateRel(p, sure);
      case OtherB(_, _) =>
        f := OpaqueB(p, sure);
    }

    method TranslateIteB(p: Bl, ghost sure: bool) returns (f: Ib)
      requires WfB(p) && p.IteB? && Ready()
      requires sure ==> ExactB(p, Mode())
      modifies this, reg, prover
      ensures Ready() && Extends(old(View(sure)), View(sure))
      ensures (old(marked) ==> marked) && (old(reg.approximate) ==> reg.approximate)
      ensures DenotesB(View(sure), f, p)
      ensures ExactB(p, Mode()) ==>
                StaysExact(old(reg.approximate), old(reg.invariants), reg.approximate, reg.invariants)
      ensures !stem && Named(VarNamesB(p), names) ==> symbols == old(symbols)
      decreases LargeB(p), SizeB(p), 2
    {
      hide View, Seen, Ctx, EvalI, Holds, EvalB, Eval, World, Intended, Agrees, Witnessed, MemoOk, Rem, Pow2, Sound,
           Formed, Inv, Denotes, DenotesB, Extends, Exact, ExactB, BareSymbols, ExactAll, ExactAllB, Named, VarNames,
           VarNamesB, VarNamesAll, VarNamesBAll;
      ExactParts(p, Mode());
      NamedParts(p, names);
      ghost var c0 := View(sure);
      var g := TranslateB(p.p, sure);
      ghost var c1 := View(sure);
      var h := TranslateB(p.q, sure);
      ghost var c2 := View(sure);
      var k := TranslateB(p.r, sure);
      ghost var c3 := View(sure);
      ExtendsTransitive(c0, c1, c2);
      ExtendsTransitive(c0, c2, c3);
      ExtendsTransitive(c1, c2, c3);
      ExtendsDenotesB(c1, c3, g, p.p);
      ExtendsDenotesB(c2, c3, h, p.q);
      DenotesIteB(c3, g, h, k, p.p, p.q, p.r);
      f := IteI(g, h, k);
    }

    method TranslateRel(p: Bl, ghost sure: bool) returns (f: Ib)
      requires WfB(p) && p.Rel? && Ready()
      requires sure ==> ExactB(p, Mode())
      modifies this, reg, prover
      ensures Ready() && Extends(old(View(sure)), View(sure))
      ensures (old(marked) ==> marked) && (old(reg.approximate) ==> reg.approximate)
      ensures DenotesB(View(sure), f, p)
      ensures ExactB(p, Mode()) ==>
                StaysExact(old(reg.approximate), old(reg.invariants), reg.approximate, reg.invariants)
      ensures !stem && Named(VarNamesB(p), names) ==> symbols == old(symbols)
      decreases LargeB(p), SizeB(p), 2
    {
      hide View, Seen, Ctx, EvalI, Holds, EvalB, Eval, World, Intended, Agrees, Witnessed, MemoOk, Rem, Pow2, Sound,
           Formed, Inv, Denotes, DenotesB, Extends, Exact, ExactB, BareSymbols, ExactAll, ExactAllB, Named, VarNames,
           VarNamesB, VarNamesAll, VarNamesBAll;
      ExactParts(p, Mode());
      NamedParts(p, names);
      if p.rel.Signed? {
        f := SignedCmp(p, sure);
        return;
      }
      ghost var c0 := View(sure);
      var s := Translate(p.x, sure);
      ghost var c1 := View(sure);
      var t := Translate(p.y, sure);
      ExtendsTransitive(c0, c1, View(sure));
      ExtendsDenotes(c1, View(sure), s, MeaningOf(p.x));
      DenotesRel(View(sure), p.rel, s, t, p.x, p.y);
      f := RelI(p.rel, s, t);
    }

    /** A signed comparison; the small encoding needs a proof that neither operand is negative. */
    method SignedCmp(p: Bl, ghost sure: bool) returns (f: Ib)
      requires WfB(p) && p.Rel? && p.rel.Signed? && Ready()
      requires sure ==> ExactB(p, Mode())
      modifies this, reg, prover
      ensures Ready() && Extends(old(View(sure)), View(sure))
      ensures (old(marked) ==> marked) && (old(reg.approximate) ==> reg.approximate)
      ensures DenotesB(View(sure), f, p)
      ensures ExactB(p, Mode()) ==>
                StaysExact(old(reg.approximate), old(reg.invariants), reg.approximate, reg.invariants)
      ensures !stem && Named(VarNamesB(p), names) ==> symbols == old(symbols)
      decreases LargeB(p), SizeB(p), 1
    {
      hide View, Seen, Ctx, EvalI, Holds, EvalB, Eval, World, Intended, Agrees, Witnessed, MemoOk, Rem, Pow2, Sound,
           Formed, Denotes, DenotesB, Extends, Exact, ExactB, BareSymbols, ExactAll, ExactAllB, Named, VarNames,
           VarNamesB, VarNamesAll, VarNamesBAll;
      ExactParts(p, Mode());
      NamedParts(p, names);
      ghost var c0 := View(sure);
      if Small() {
        BothNonNegativeWf(p.x, p.y);
        var proven := prover.IsValid(BothNonNegative(p.x, p.y));
        if proven {
          var s := Translate(p.x, sure);
          ghost var c1 := View(sure);
          var t := Translate(p.y, sure);
          ExtendsTransitive(c0, c1, View(sure));
          ExtendsDenotes(c1, View(sure), s, MeaningOf(p.x));
          ViewSound(sure);
          ViewFields(sure);
          ProvenSignedCmp(View(sure), p.rel.op, s, t, p.x, p.y);
          f := Cmp(p.rel.op, s, t);
        } else {
          f := OpaqueB(p, sure);
        }
      } else {
        var s := SignedValue(p.x, sure);
        ghost var c1 := View(sure);
        var t := SignedValue(p.y, sure);
        ExtendsTransitive(c0, c1, View(sure));
        ExtendsDenotes(c1, View(sure), s, SignedMeaning(p.x));
        ExactSignedCmp(View(sure), p.rel.op, s, t, p.x, p.y);
        f := Cmp(p.rel.op, s, t);
      }
    }

    method SignedValue(e: Bv, ghost sure: bool) returns (t: It)
      requires Wf(e) && !Small() && Ready()
      requires sure ==> Exact(e, Mode())
      modifies this, reg, prover
      ensures Ready() && Extends(old(View(sure)), View(sure))
      ensures (old(marked) ==> marked) && (old(reg.approximate) ==> reg.approximate)
      ensures Denotes(View(sure), t, SignedMeaning(e))
      ensures Exact(e, Mode()) ==>
                StaysExact(old(reg.approximate), old(reg.invariants), reg.approximate, reg.invariants)
      ensures !stem && Named(VarNames(e), names) ==> symbols == old(symbols)
      decreases Large(e), Size(e), 5
    {
      hide View, Seen, Ctx, EvalI, Holds, EvalB, Eval, World, Intended, Agrees, Witnessed, MemoOk, Rem, Pow2, Sound,
           Formed, Denotes, Extends, Exact, ExactB, BareSymbols, ExactAll, ExactAllB, Named, VarNames, VarNamesB,
           VarNamesAll, VarNamesBAll;
      ghost var c := View(sure);
      var a := Translate(e, sure);
      ghost var d := View(sure);
      ViewFields(sure);
      SignedParts(d, e, a);
      ghost var m := MeaningOf(e);
      ghost var shifted := DiffMeaning(m, ConstMeaning(Pow2(e.w)));
      t := IfThenElse(Cmp(CmpGe, a, IntLit(Pow2(e.w - 1))), Minus(a, IntLit(Pow2(e.w))), a, None,
                      IsNegative(e), shifted, m, sure);
      ExtendsTransitive(c, d, View(sure));
      SameMeaning(View(sure), t, IteMeaning(IsNegative(e), shifted, m), SignedMeaning(e));
    }

    /** An opaque boolean, encoded as an integer in {0, 1}. */
    method OpaqueB(p: Bl, ghost sure: bool) returns (f: Ib)
      requires WfB(p) && Ready()
      requires !sure
      modifies this`marked, this`aux, this`constraints, this`witnesses, reg`auxCounter, reg`approximate
      ensures Ready() && Extends(old(View(sure)), View(sure))
      ensures (old(marked) ==> marked) && (old(reg.approximate) ==> reg.approximate)
      ensures DenotesB(View(sure), f, p)
    {
      hide View, Seen, Ctx, EvalI, Holds, EvalB, Eval, World, Intended, Agrees, Witnessed, MemoOk, Rem, Sound, Formed,
           Inv, Denotes, DenotesB, Extends;
      ghost var c := View(sure);
      MarkApproximate(sure);
      ghost var d := View(sure);
      var x := FreshAux(Some(1), ConditionMeaning(p), sure);
      ExtendsTransitive(c, d, View(sure));
      ViewSound(sure);
      ViewFields(sure);
      WitnessDenotes(View(sure), reg.auxCounter);
      FlagDenotes(View(sure), IntVar(x), p);
      f := Same(IntVar(x), IntLit(1));
    }

    /** An integer for a word or a boolean. */
    method TranslateTerm(e: Term, ghost sure: bool) returns (t: It)
      requires WfTerm(e) && Ready()
      requires sure ==> ExactTerm(e, Mode())
      modifies this, reg, prover
      ensures Ready() && Extends(old(View(sure)), View(sure))
      ensures (old(marked) ==> marked) && (old(reg.approximate) ==> reg.approximate)
      ensures Denotes(View(sure), t, TermMeaning(e))
      ensures ExactTerm(e, Mode()) ==>
                StaysExact(old(reg.approximate), old(reg.invariants), reg.approximate, reg.invariants)
      ensures !stem && Named(VarNamesTerm(e), names) ==> symbols == old(symbols)
      ensures e.Word? && e.bv.Var? && e.bv !in old(memo) && Simple(e.bv, old(reg.invariants)) ==> TookSymbol(e.bv, t)
    {
      hide View, Seen, Ctx, EvalI, Holds, EvalB, Eval, World, Intended, Agrees, Witnessed, MemoOk, Rem, Pow2, Sound,
           Formed, Inv, Denotes, DenotesB, Extends, Exact, ExactB, BareSymbols, ExactAll, ExactAllB, Named, VarNames,
           VarNamesB, VarNamesAll, VarNamesBAll, RangeOf;
      match e
      case Word(b) =>
        t := Translate(b, sure);
        SameMeaning(View(sure), t, MeaningOf(b), TermMeaning(e));
      case Bool(p) =>
        ghost var c := View(sure);
        var f := TranslateB(p, sure);
        ghost var d := View(sure);
        BoolParts(d, p);
        t := IfThenElse(f, IntLit(1), IntLit(0), Some(1), p, ConstMeaning(1), ConstMeaning(0), sure);
        ExtendsTransitive(c, d, View(sure));
        SameMeaning(View(sure), t, IteMeaning(p, ConstMeaning(1), ConstMeaning(0)), TermMeaning(e));
    }
  }

  lemma LoopVarDepends(v: Bv)
    requires v.Var?
    ensures DependsOnLoopVars(v) <==> LOOP_VAR_PREFIX <= v.name
  {
    assert VarNames(v) == {v.name};
  }

  lemma NameDenotes(c: Context, e: Bv)
    requires Formed(c) && e in c.names
    ensures Wf(e) && Denotes(c, IntVar(c.names[e]), MeaningOf(e))
  {
    hide EvalB;
  }

  lemma RestSumMeasure(es: seq<Bv>, w: nat)
    requires w > 0 && WfEach(es) && Borrow(es) > 0
    ensures Large(RestSum(es, w)) < LargeAll(es)
  {
    RestMeasure(es);
    var rest := Rest(es);
    if |rest| == 1 {
      LargeSnoc([], rest[0]);
      assert [] + [rest[0]] == rest;
    } else {
      LargeNestedSum(w, rest);
    }
  }

  /** A sum without its large addends has no new opaque part and no new name. */
  lemma KeepsRest(e: Bv, names: map<Bv, Name>, m: Mode)
    requires Wf(e) && e.Nary? && e.nop == Add && Borrowed(e.w, e.args)
    ensures Exact(e, m) ==> Exact(RestSum(e.args, e.w), m) && SmallEnough(m, Borrow(e.args))
    ensures Exact(e, m) ==> Settled(m, BorrowNoWrap(e.args, e.w))
    ensures Named(VarNames(e), names) ==> Named(VarNames(RestSum(e.args, e.w)), names)
  {
    hide RestSum, Exact, ExactB, ExactAll, ExactAllB, Named, VarNames, VarNamesB, VarNamesAll, VarNamesBAll, Borrow,
         Pow2;
    NamedArgs(e, names);
    if Exact(e, m) {
      ExactNode(e, m);
      ExactRest(e.w, e.args, m);
    }
    if Named(VarNamesAll(e.args), names) {
      NamedRest(e.args, e.w, names);
    }
  }

  /** What is known of a term that is cut to a narrower width. */
  lemma TruncateFacts(a: Bv, width: nat)
    requires Wf(a) && width < a.w
    ensures Pow2(width) < Pow2(a.w) && Pow2(a.w - width) > 0
    ensures InMultiples(MeaningOf(a), width, 0, Pow2(a.w - width) - 1)
    ensures WfB(TruncNoWrap(a, width)) && RulesOut(TruncNoWrap(a, width), MeaningOf(a), width)
  {
    hide Rem, Pow2, Eval, Wf, WfB, EvalB, TruncNoWrap;
    Pow2Less(width, a.w);
    Pow2Add(width, a.w - width);
    NoWrapMeans(a, a, width, Val(imap[], imap[], iset{}));
    forall rho: Val
      ensures EvalB(TruncNoWrap(a, width), rho) ==> Eval(a, rho) < Pow2(width)
    {
      NoWrapMeans(a, a, width, rho);
    }
  }

  /** Loose bounds of a quotient or a remainder. */
  lemma LooseQuotientBounds(before: seq<Ib>, t: It, a: It)
    ensures forall sigma | AllHold(before + LooseQuotient(t, a), sigma) :: 0 <= EvalI(t, sigma) <= EvalI(a, sigma)
  {
    hide EvalI, Holds, LooseQuotient;
    var loose := LooseQuotient(t, a);
    forall sigma | AllHold(before + loose, sigma)
      ensures 0 <= EvalI(t, sigma) <= EvalI(a, sigma)
    {
      assert forall i | 0 <= i < |loose| :: loose[i] == (before + loose)[|before| + i];
      LooseQuotientMeaning(t, a, sigma);
    }
  }
}
