// The facts about bitvector nodes, stated for all valuations at once, in the form in which the
// translator uses them: bounds in multiples of 2^w, conditions without a wrap, and reductions.
module NodeMeanings {
  import opened Bits
  import opened BvTerms
  import opened BvFacts
  import opened NodeFacts
  import opened IntTerms
  import opened IntFacts
  import opened Prover
  import opened Encoding
  import opened EncodingFacts
  import opened Exactness

  lemma AddBorrow(e: Bv)
    requires Wf(e) && e.Nary? && e.nop == Add && Borrow(e.args) < Pow2(e.w)
    ensures WfB(BorrowNoWrap(e.args, e.w)) && Wf(RestSum(e.args, e.w)) && RestSum(e.args, e.w).w == e.w
    ensures Wf(Num(e.w, Borrow(e.args)))
    ensures var m := DiffMeaning(MeaningOf(RestSum(e.args, e.w)), MeaningOf(Num(e.w, Borrow(e.args))));
      && InMultiples(m, e.w, -1, 0)
      && RulesOut(BorrowNoWrap(e.args, e.w), m, e.w)
      && Reduces(m, e.w, MeaningOf(e))
  {
    hide Pow2, Rem, Rest, Borrow, RestSum, Eval, EvalB;
    var rho0 := Val(imap[], imap[], iset{});
    AddBorrowMeaning(e.args, e.w, rho0);
    var r, d := RestSum(e.args, e.w), Num(e.w, Borrow(e.args));
    forall rho: Val
      ensures Eval(d, rho) == Borrow(e.args)
      ensures Pow2(e.w) * -1 <= Eval(r, rho) - Borrow(e.args) < Pow2(e.w) * 1
      ensures Mod2(Eval(r, rho) - Borrow(e.args), e.w) == Eval(e, rho)
      ensures EvalB(BorrowNoWrap(e.args, e.w), rho) ==> 0 <= Eval(r, rho) - Borrow(e.args) < Pow2(e.w)
    {
      AddBorrowMeaning(e.args, e.w, rho);
      NumWf(e.w, Borrow(e.args), rho);
      SubMeaning(e.w, Eval(r, rho), Eval(d, rho));
      CompareMeaning(CmpGe, r, d, rho);
    }
  }

  lemma AddPlain(e: Bv)
    requires Wf(e) && e.Nary? && e.nop == Add
    ensures WfB(AddNoWrap(e.args, e.w))
    ensures var m := SumMeaning(e.args);
      && InMultiples(m, e.w, 0, |e.args| - 1)
      && RulesOut(AddNoWrap(e.args, e.w), m, e.w)
      && Reduces(m, e.w, MeaningOf(e))
  {
    hide Pow2, Rem, AddNoWrap;
    var rho0 := Val(imap[], imap[], iset{});
    AddNoWrapMeaning(e.args, e.w, rho0);
    forall rho: Val
      ensures 0 <= Sum(Values(e.args, rho)) < Pow2(e.w) * |e.args|
      ensures EvalB(AddNoWrap(e.args, e.w), rho) ==> Sum(Values(e.args, rho)) < Pow2(e.w)
      ensures Mod2(Sum(Values(e.args, rho)), e.w) == Eval(e, rho)
    {
      SumBound(e.args, e.w, rho);
      AddNoWrapMeaning(e.args, e.w, rho);
    }
  }

  lemma EvalSub(e: Bv, rho: Val)
    requires Wf(e) && e.Bin? && e.bop == Sub
    ensures Eval(e, rho) == Mod2(Eval(e.a, rho) - Eval(e.b, rho), e.w)
  {
    hide Pow2, Rem;
  }

  lemma SubNode(e: Bv)
    requires Wf(e) && e.Bin? && e.bop == Sub
    ensures WfB(SubNoWrap(e.a, e.b))
    ensures var m := DiffMeaning(MeaningOf(e.a), MeaningOf(e.b));
      && InMultiples(m, e.w, -1, 0)
      && RulesOut(SubNoWrap(e.a, e.b), m, e.w)
      && Reduces(m, e.w, MeaningOf(e))
  {
    hide Pow2, Rem, Eval, EvalB, DiffMeaning;
    var m := DiffMeaning(MeaningOf(e.a), MeaningOf(e.b));
    forall rho: Val
      ensures Pow2(e.w) * -1 <= At(m, rho) < Pow2(e.w) * (0 + 1)
      ensures Mod2(At(m, rho), e.w) == Eval(e, rho)
      ensures EvalB(SubNoWrap(e.a, e.b), rho) ==> 0 <= At(m, rho) < Pow2(e.w)
    {
      EvalSub(e, rho);
      SubMeaning(e.w, Eval(e.a, rho), Eval(e.b, rho));
      CompareMeaning(CmpGe, e.a, e.b, rho);
    }
  }

  ghost function NegMeaning(e: Bv): Meaning
    requires Wf(e) && e.Neg?
  {
    assert Wf(Num(e.w, 0));
    DiffMeaning(MeaningOf(Num(e.w, 0)), MeaningOf(e.a))
  }

  lemma EvalNeg(e: Bv, rho: Val)
    requires Wf(e) && e.Neg?
    ensures Eval(e, rho) == Mod2(0 - Eval(e.a, rho), e.w)
  {
    hide Pow2, Rem;
  }

  lemma NegAt(e: Bv, rho: Val)
    requires Wf(e) && e.Neg?
    ensures At(NegMeaning(e), rho) == 0 - Eval(e.a, rho)
  {
    hide Pow2, Rem, Eval;
    assert Wf(Num(e.w, 0));
    NumValue(Num(e.w, 0), rho);
  }

  lemma NegNode(e: Bv)
    requires Wf(e) && e.Neg?
    ensures WfB(NegNoWrap(e.a))
    ensures var m := NegMeaning(e);
      && InMultiples(m, e.w, -1, 0)
      && RulesOut(NegNoWrap(e.a), m, e.w)
      && Reduces(m, e.w, MeaningOf(e))
  {
    hide Pow2, Rem, NegMeaning, Eval;
    forall rho: Val
      ensures At(NegMeaning(e), rho) == 0 - Eval(e.a, rho)
      ensures Pow2(e.w) * -1 <= 0 - Eval(e.a, rho) < Pow2(e.w) * 1
      ensures Eval(e, rho) == Mod2(0 - Eval(e.a, rho), e.w)
      ensures EvalB(NegNoWrap(e.a), rho) ==> Eval(e.a, rho) == 0
    {
      EvalNeg(e, rho);
      NegAt(e, rho);
      SubMeaning(e.w, 0, Eval(e.a, rho));
      IsZeroTerm(e.a, rho);
    }
  }

  lemma IsZeroTerm(a: Bv, rho: Val)
    requires Wf(a)
    ensures WfB(NegNoWrap(a)) && (EvalB(NegNoWrap(a), rho) <==> Eval(a, rho) == 0)
  {
    hide Pow2;
    assert Wf(Num(a.w, 0));
    NumValue(Num(a.w, 0), rho);
  }

  lemma NegDenotes(c: Context, e: Bv, a: It)
    requires Wf(e) && e.Neg? && Denotes(c, a, MeaningOf(e.a))
    ensures Denotes(c, Minus(IntLit(0), a), NegMeaning(e))
  {
    hide Pow2, Rem, Denotes;
    var zero := Num(e.w, 0);
    assert Wf(zero);
    forall rho: Val
      ensures Eval(zero, rho) == 0
    {
      NumValue(zero, rho);
    }
    ZeroDenotes(c, MeaningOf(zero));
    DenotesMinus(c, IntLit(0), a, MeaningOf(zero), MeaningOf(e.a));
  }

  lemma ScaleNode(x: Bv, coef: nat)
    requires Wf(x) && coef > 0
    ensures WfB(ScaleNoWrap(x, coef, x.w))
    ensures var m := MultipleMeaning(coef, MeaningOf(x));
      && InMultiples(m, x.w, 0, coef - 1)
      && RulesOut(ScaleNoWrap(x, coef, x.w), m, x.w)
      && Reduces(m, x.w, ScaledMeaning(x, coef))
  {
    hide Pow2, Rem, ScaleNoWrap;
    var rho0 := Val(imap[], imap[], iset{});
    ScaleNoWrapMeaning(x, coef, x.w, rho0);
    forall rho: Val
      ensures 0 <= Prod(coef, Eval(x, rho)) < Pow2(x.w) * coef
      ensures EvalB(ScaleNoWrap(x, coef, x.w), rho) ==> Prod(coef, Eval(x, rho)) < Pow2(x.w)
    {
      ScaleBound(Eval(x, rho), coef, Pow2(x.w));
      ScaleNoWrapMeaning(x, coef, x.w, rho);
    }
  }

  /** (coef * x) mod 2^w */
  ghost function ScaledMeaning(x: Bv, coef: nat): (m: Meaning)
    requires Wf(x)
    ensures forall rho: Val :: At(m, rho) == Mod2(Prod(coef, Eval(x, rho)), x.w)
  {
    imap rho: Val :: Mod2(Prod(coef, Eval(x, rho)), x.w)
  }

  lemma ScaleTrivial(x: Bv, coef: nat)
    requires Wf(x) && coef <= 1
    ensures forall rho: Val :: At(ScaledMeaning(x, coef), rho) == if coef == 0 then 0 else Eval(x, rho)
  {
    hide Pow2, Rem, Eval, Wf, Prod, ScaledMeaning;
    forall rho: Val
      ensures At(ScaledMeaning(x, coef), rho) == if coef == 0 then 0 else Eval(x, rho)
    {
      TrivialProduct(coef, Eval(x, rho));
      SmallMod(0, x.w);
      SmallMod(Eval(x, rho), x.w);
    }
  }

  lemma TrivialProduct(coef: nat, v: nat)
    requires coef <= 1
    ensures Prod(coef, v) == if coef == 0 then 0 else v
  {
  }

  lemma MulNode(e: Bv, coef: nat)
    requires Wf(e) && e.Nary? && e.nop == Mul && |Others(e.args)| <= 1
    requires coef == Mod2(Product(Consts(e.args)), e.w)
    ensures WfEach(Others(e.args))
    ensures Others(e.args) == [] ==> forall rho: Val :: Eval(e, rho) == coef
    ensures Others(e.args) != [] ==>
              && Others(e.args)[0].w == e.w
              && forall rho: Val :: Eval(e, rho) == At(ScaledMeaning(Others(e.args)[0], coef), rho)
  {
    hide Pow2, Rem, Eval, Consts, Others, Product;
    var rho0 := Val(imap[], imap[], iset{});
    MulMeaning(e.args, e.w, coef, rho0);
    if Others(e.args) != [] {
      assert Others(e.args)[0] in e.args;
    }
    forall rho: Val
      ensures Eval(e, rho) == if Others(e.args) == [] then coef
                              else Mod2(Prod(coef, Eval(Others(e.args)[0], rho)), e.w)
    {
      MulMeaning(e.args, e.w, coef, rho);
    }
  }

  lemma ShlNode(e: Bv)
    requires Wf(e) && e.Bin? && e.bop == Shl && e.b.Num?
    ensures e.b.value >= e.w ==> forall rho: Val :: Eval(e, rho) == 0
    ensures e.b.value < e.w ==>
              forall rho: Val :: Eval(e, rho) == At(ScaledMeaning(e.a, Pow2(e.b.value)), rho)
  {
    hide Pow2, Rem;
    forall rho: Val
      ensures Eval(e, rho) == if e.b.value >= e.w then 0 else Mod2(Prod(Pow2(e.b.value), Eval(e.a, rho)), e.w)
    {
      assert Times(Eval(e.a, rho), Pow2(e.b.value)) == Prod(Pow2(e.b.value), Eval(e.a, rho));
    }
  }

  lemma ShrNode(e: Bv)
    requires Wf(e) && e.Bin? && e.bop == Lshr && e.b.Num?
    ensures NonNegative(MeaningOf(e.a))
    ensures e.b.value >= e.w ==> forall rho: Val :: Eval(e, rho) == 0
    ensures e.b.value < e.w ==>
              forall rho: Val :: Eval(e, rho) == At(QuotMeaning(MeaningOf(e.a), Pow2(e.b.value)), rho)
  {
    hide Pow2, Quot;
  }

  lemma DivNode(e: Bv)
    requires Wf(e) && e.Bin? && e.b.Num? && e.b.value > 0
    ensures NonNegative(MeaningOf(e.a))
    ensures e.bop == Udiv ==> forall rho: Val :: Eval(e, rho) == At(QuotMeaning(MeaningOf(e.a), e.b.value), rho)
    ensures e.bop == Urem ==> forall rho: Val :: Eval(e, rho) == At(RemainderMeaning(MeaningOf(e.a), e.b.value), rho)
  {
    hide Pow2, Quot, Rem;
  }

  lemma MaskNode(e: Bv, mask: nat)
    requires Wf(e) && e.Nary? && e.nop == And
    requires Consts(e.args) == [mask] && |Others(e.args)| == 1 && BitAnd(mask, mask + 1) == 0
    ensures Wf(Others(e.args)[0]) && Others(e.args)[0].w == e.w
    ensures var x := Others(e.args)[0];
      && (forall rho: Val :: Eval(e, rho) == At(RemMeaning(MeaningOf(x), BitLength(mask)), rho))
      && (BitLength(mask) >= e.w ==> forall rho: Val :: Eval(e, rho) == Eval(x, rho))
  {
    hide Pow2, Rem, Consts, Others, BitAnd, BitLength, Eval;
    var x := Others(e.args)[0];
    var rho0 := Val(imap[], imap[], iset{});
    MaskMeaning(e.args, e.w, mask, rho0);
    forall rho: Val
      ensures Eval(e, rho) == Mod2(Eval(x, rho), BitLength(mask))
      ensures BitLength(mask) >= e.w ==> Eval(e, rho) == Eval(x, rho)
    {
      MaskMeaning(e.args, e.w, mask, rho);
      if BitLength(mask) >= e.w {
        Pow2Mono(e.w, BitLength(mask));
        SmallMod(Eval(x, rho), BitLength(mask));
      }
    }
  }

  lemma ExtractNode(e: Bv)
    requires Wf(e) && e.Extract?
    ensures NonNegative(MeaningOf(e.a))
    ensures e.lo == 0 && e.w >= e.a.w ==> forall rho: Val :: Eval(e, rho) == Eval(e.a, rho)
    ensures e.lo == 0 ==> forall rho: Val :: Eval(e, rho) == At(RemMeaning(MeaningOf(e.a), e.w), rho)
    ensures e.lo + e.w >= e.a.w ==>
              forall rho: Val :: Eval(e, rho) == At(QuotMeaning(MeaningOf(e.a), Pow2(e.lo)), rho)
    ensures Wf(ShiftOf(e.a, e.lo))
    ensures forall rho: Val :: Eval(ShiftOf(e.a, e.lo), rho) == At(QuotMeaning(MeaningOf(e.a), Pow2(e.lo)), rho)
    ensures forall rho: Val :: Eval(e, rho) == At(RemMeaning(MeaningOf(ShiftOf(e.a, e.lo)), e.w), rho)
  {
    hide Pow2, Rem, Quot;
    BelowPow2(e.a.w);
    Pow2Mono(e.lo, e.a.w);
    var rho0 := Val(imap[], imap[], iset{});
    ExtractOfShift(e.a, e.lo, rho0);
    forall rho: Val
      ensures Eval(ShiftOf(e.a, e.lo), rho) == Quot(Eval(e.a, rho), Pow2(e.lo))
      ensures e.lo + e.w >= e.a.w ==> Eval(e, rho) == Quot(Eval(e.a, rho), Pow2(e.lo))
      ensures e.lo == 0 ==> Quot(Eval(e.a, rho), Pow2(e.lo)) == Eval(e.a, rho)
    {
      ExtractOfShift(e.a, e.lo, rho);
      QuotientRange(Eval(e.a, rho), e.a.w, e.lo);
      if e.lo + e.w >= e.a.w {
        SmallMod(Quot(Eval(e.a, rho), Pow2(e.lo)), e.w);
      }
      if e.lo == 0 {
        ShiftByZero(Eval(e.a, rho));
      }
    }
  }

  lemma ShiftByZero(v: nat)
    ensures Quot(v, Pow2(0)) == v
  {
    RemOf(v, 1, v, 0);
  }

  ghost function ConcatMeaning(es: seq<Bv>): (m: Meaning)
    requires WfEach(es)
    ensures forall rho: Val :: At(m, rho) == ConcatValue(Values(es, rho), es)
  {
    imap rho: Val :: ConcatValue(Values(es, rho), es)
  }

  lemma ConcatNode(e: Bv)
    requires Wf(e) && e.Concat?
    ensures forall rho: Val :: At(ConcatMeaning(e.args), rho) == Eval(e, rho)
  {
    hide Pow2, Rem, ConcatValue;
    forall rho: Val
      ensures ConcatValue(Values(e.args, rho), e.args) == Eval(e, rho)
    {
      ConcatRange(e.args, rho);
      SmallMod(ConcatValue(Values(e.args, rho), e.args), e.w);
    }
  }

  lemma ConcatNext(es: seq<Bv>, i: nat)
    requires WfEach(es) && i < |es|
    ensures WfEach(es[..i + 1]) && WfEach(es[..i])
    ensures forall rho: Val ::
              At(ConcatMeaning(es[..i + 1]), rho) ==
              Prod(Pow2(es[i].w), At(ConcatMeaning(es[..i]), rho)) + Eval(es[i], rho)
    ensures (forall k | 0 <= k < i :: es[k].Num? && es[k].value == 0) ==>
              forall rho: Val :: At(ConcatMeaning(es[..i + 1]), rho) == Eval(es[i], rho)
  {
    hide Pow2, Rem, ConcatValue, Eval;
    forall rho: Val
      ensures ConcatValue(Values(es[..i + 1], rho), es[..i + 1]) ==
              Prod(Pow2(es[i].w), ConcatValue(Values(es[..i], rho), es[..i])) + Eval(es[i], rho)
      ensures (forall k | 0 <= k < i :: es[k].Num? && es[k].value == 0) ==>
                ConcatValue(Values(es[..i], rho), es[..i]) == 0
    {
      ConcatStep(es, i, rho);
      if forall k | 0 <= k < i :: es[k].Num? && es[k].value == 0 {
        ConcatZeros(es[..i], rho);
      }
    }
  }

  lemma DenotesConcatStep(c: Context, d: Context, acc: It, term: It, es: seq<Bv>, i: nat)
    requires WfEach(es) && i < |es| && (c.small ==> Pow2(es[i].w) <= MAX_SMALL_CONSTANT)
    requires Extends(c, d)
    requires Denotes(c, acc, ConcatMeaning(es[..i])) && Denotes(d, term, MeaningOf(es[i]))
    ensures WfEach(es[..i + 1])
    ensures Denotes(d, Plus([Scaled(Pow2(es[i].w), acc), term]), ConcatMeaning(es[..i + 1]))
  {
    hide World, Pow2, Rem, Eval, EvalI, SmallT, Prod;
    ConcatNext(es, i);
    ExtendsDenotes(c, d, acc, ConcatMeaning(es[..i]));
    DenotesScaled(d, Pow2(es[i].w), acc, ConcatMeaning(es[..i]));
    var scaled := Scaled(Pow2(es[i].w), acc);
    forall rho, sigma | World(d, rho, sigma)
      ensures EvalI(Plus([scaled, term]), sigma) == At(ConcatMeaning(es[..i + 1]), rho)
    {
      EvalPlusPair(scaled, term, sigma);
    }
    if d.small {
      SmallPlus(scaled, term);
    }
  }

  /** After fields that are zero, a field denotes the concatenation so far. */
  lemma DenotesZeroStep(d: Context, term: It, es: seq<Bv>, i: nat)
    requires WfEach(es) && i < |es| && Denotes(d, term, MeaningOf(es[i]))
    ensures WfEach(es[..i + 1])
    ensures ZeroFields(es) ==> Denotes(d, term, ConcatMeaning(es[..i + 1]))
  {
    hide Pow2, Eval, Denotes;
    ConcatNext(es, i);
    if ZeroFields(es) {
      SameMeaning(d, term, MeaningOf(es[i]), ConcatMeaning(es[..i + 1]));
    }
  }

  lemma SmallPlus(s: It, t: It)
    requires SmallT(s) && SmallT(t)
    ensures SmallT(Plus([s, t]))
  {
  }

  lemma AppNode(e: Bv)
    requires Wf(e) && e.App? && |e.args| == 2
    ensures IsArithmetic(e.name) ==> Wf(e.args[0]) && Wf(e.args[1]) && e.args[0].w == e.w && e.args[1].w == e.w
    ensures UDIV_ABSTRACTION <= e.name && e.args[1].Num? && e.args[1].value > 0 ==>
              NonNegative(MeaningOf(e.args[0])) &&
              forall rho: Val :: Eval(e, rho) == At(QuotMeaning(MeaningOf(e.args[0]), e.args[1].value), rho)
    ensures UREM_ABSTRACTION <= e.name && e.args[1].Num? && e.args[1].value > 0 ==>
              NonNegative(MeaningOf(e.args[0])) &&
              forall rho: Val :: Eval(e, rho) == At(RemainderMeaning(MeaningOf(e.args[0]), e.args[1].value), rho)
    ensures MUL_ABSTRACTION <= e.name && e.args[0].Num? ==>
              forall rho: Val :: Eval(e, rho) == At(ScaledMeaning(e.args[1], e.args[0].value), rho)
    ensures MUL_ABSTRACTION <= e.name && e.args[1].Num? ==>
              forall rho: Val :: Eval(e, rho) == At(ScaledMeaning(e.args[0], e.args[1].value), rho)
  {
    PrefixesDiffer(e.name);
    hide Pow2, Rem, Quot;
    forall rho: Val
      ensures UDIV_ABSTRACTION <= e.name && e.args[1].Num? && e.args[1].value > 0 ==>
                Eval(e, rho) == Quot(Eval(e.args[0], rho), e.args[1].value)
      ensures UREM_ABSTRACTION <= e.name && e.args[1].Num? && e.args[1].value > 0 ==>
                Eval(e, rho) == Rem(Eval(e.args[0], rho), e.args[1].value)
      ensures MUL_ABSTRACTION <= e.name ==>
                Eval(e, rho) == Mod2(Prod(Eval(e.args[0], rho), Eval(e.args[1], rho)), e.w)
    {
      if IsArithmetic(e.name) {
        AppPair(e, rho);
      }
    }
    assert forall a: nat, b: nat :: Prod(a, b) == Prod(b, a);
  }

  lemma PrefixesDiffer(f: string)
    ensures UDIV_ABSTRACTION <= f ==> |f| > 9 && f[8] == 'u' && f[9] == 'd'
    ensures UREM_ABSTRACTION <= f ==> |f| > 9 && f[8] == 'u' && f[9] == 'r'
    ensures MUL_ABSTRACTION <= f ==> |f| > 9 && f[8] == 'm'
  {
    if UDIV_ABSTRACTION <= f {
      assert f[8] == UDIV_ABSTRACTION[8] && f[9] == UDIV_ABSTRACTION[9];
    }
    if UREM_ABSTRACTION <= f {
      assert f[8] == UREM_ABSTRACTION[8] && f[9] == UREM_ABSTRACTION[9];
    }
    if MUL_ABSTRACTION <= f {
      assert f[8] == MUL_ABSTRACTION[8];
    }
  }

  lemma AppPair(e: Bv, rho: Val)
    requires Wf(e) && e.App? && |e.args| == 2 && IsArithmetic(e.name)
    ensures UDIV_ABSTRACTION <= e.name && Eval(e.args[1], rho) > 0 ==>
              Eval(e, rho) == Quot(Eval(e.args[0], rho), Eval(e.args[1], rho))
    ensures UREM_ABSTRACTION <= e.name && Eval(e.args[1], rho) > 0 ==>
              Eval(e, rho) == Rem(Eval(e.args[0], rho), Eval(e.args[1], rho))
    ensures MUL_ABSTRACTION <= e.name ==>
              Eval(e, rho) == Mod2(Prod(Eval(e.args[0], rho), Eval(e.args[1], rho)), e.w)
  {
    PrefixesDiffer(e.name);
    hide Pow2, Rem, Quot;
    var a, b := Eval(e.args[0], rho), Eval(e.args[1], rho);
    assert Values(e.args, rho) == [a, b];
    if b > 0 {
      SmallMod(Quot(a, b), e.w);
      RemAtMost(a, b);
      SmallMod(Rem(a, b), e.w);
    }
  }

  lemma RemAtMost(a: nat, b: nat)
    requires b > 0
    ensures Rem(a, b) <= a
  {
    QuotientIsDiv(a, b);
    MulStep(b, Quot(a, b));
  }

  ghost function SignedMeaning(e: Bv): (m: Meaning)
    requires Wf(e)
    ensures forall rho: Val :: At(m, rho) == ToSigned(Eval(e, rho), e.w)
  {
    imap rho: Val :: ToSigned(Eval(e, rho), e.w)
  }

  ghost function ConstMeaning(n: int): (m: Meaning)
    ensures forall rho: Val :: At(m, rho) == n
  {
    imap rho: Val :: Always(n, rho)
  }

  ghost function Always(n: int, rho: Val): int {
    n
  }

  lemma NumNode(e: Bv)
    requires Wf(e) && e.Num?
    ensures forall rho: Val :: Eval(e, rho) == e.value
  {
  }

  lemma ZeroExtNode(e: Bv)
    requires Wf(e) && e.ZeroExt?
    ensures forall rho: Val :: Eval(e.a, rho) == Eval(e, rho)
  {
  }

  ghost function TermMeaning(e: Term): (m: Meaning)
    requires WfTerm(e)
    ensures forall rho: Val :: At(m, rho) == EvalTerm(e, rho)
  {
    imap rho: Val :: EvalTerm(e, rho)
  }

  lemma ZeroDenotes(c: Context, m: Meaning)
    requires forall rho: Val :: At(m, rho) == 0
    ensures Denotes(c, IntLit(0), m)
  {
    hide World;
  }

  lemma IteNode(e: Bv)
    requires Wf(e) && e.Ite?
    ensures forall rho: Val ::
              At(IteMeaning(e.c, MeaningOf(e.a), MeaningOf(e.b)), rho) == Eval(e, rho) < Pow2(e.w)
  {
    hide Pow2, Rem;
  }

  lemma LitDenotes(c: Context, b: bool)
    ensures DenotesB(c, BoolLit(b), Lit(b))
  {
    hide World;
  }

  lemma BothNonNegativeWf(a: Bv, b: Bv)
    requires Wf(a) && Wf(b)
    ensures WfB(BothNonNegative(a, b))
  {
    BothNonNegativeMeaning(a, b, Val(imap[], imap[], iset{}));
  }

  lemma WorldModel(c: Context, rho: Val, sigma: Sigma)
    requires Formed(c) && World(c, rho, sigma)
    ensures Model(c.conditions, rho)
  {
    hide Pow2, EvalB, Model;
  }

  lemma ProvenSignedCmp(c: Context, op: CmpOp, s: It, t: It, a: Bv, b: Bv)
    requires Formed(c) && Wf(a) && Wf(b) && WfB(Rel(Signed(op), a, b))
    requires WfB(BothNonNegative(a, b)) && Entails(c.conditions, BothNonNegative(a, b))
    requires Denotes(c, s, MeaningOf(a)) && Denotes(c, t, MeaningOf(b))
    ensures DenotesB(c, Cmp(op, s, t), Rel(Signed(op), a, b))
  {
    hide Pow2, Rem, EvalI, Eval, EvalB, Holds, Model, BothNonNegative, World;
    forall rho, sigma | World(c, rho, sigma)
      ensures Holds(Cmp(op, s, t), sigma) == EvalB(Rel(Signed(op), a, b), rho)
    {
      WorldModel(c, rho, sigma);
      assert EvalB(BothNonNegative(a, b), rho);
      BothNonNegativeMeaning(a, b, rho);
      CmpOfNonNegative(op, s, t, a, b, rho, sigma);
    }
  }

  lemma CmpOfNonNegative(op: CmpOp, s: It, t: It, a: Bv, b: Bv, rho: Val, sigma: Sigma)
    requires Wf(a) && Wf(b) && WfB(Rel(Signed(op), a, b))
    requires EvalI(s, sigma) == Eval(a, rho) < Pow2(a.w - 1) && EvalI(t, sigma) == Eval(b, rho) < Pow2(b.w - 1)
    ensures Holds(Cmp(op, s, t), sigma) == EvalB(Rel(Signed(op), a, b), rho)
  {
    hide Pow2, Rem, EvalI, Eval, Wf;
  }

  lemma ExactSignedCmp(c: Context, op: CmpOp, s: It, t: It, a: Bv, b: Bv)
    requires WfB(Rel(Signed(op), a, b))
    requires Denotes(c, s, SignedMeaning(a)) && Denotes(c, t, SignedMeaning(b))
    ensures DenotesB(c, Cmp(op, s, t), Rel(Signed(op), a, b))
  {
    hide Pow2, Rem, EvalI, Eval, World;
    forall rho, sigma | World(c, rho, sigma)
      ensures Holds(Cmp(op, s, t), sigma) == EvalB(Rel(Signed(op), a, b), rho)
    {
    }
  }

  lemma SignedParts(c: Context, e: Bv, a: It)
    requires Wf(e) && !c.small && Denotes(c, a, MeaningOf(e))
    ensures WfB(IsNegative(e))
    ensures DenotesB(c, Cmp(CmpGe, a, IntLit(Pow2(e.w - 1))), IsNegative(e))
    ensures Denotes(c, Minus(a, IntLit(Pow2(e.w))), DiffMeaning(MeaningOf(e), ConstMeaning(Pow2(e.w))))
    ensures forall rho: Val ::
              At(IteMeaning(IsNegative(e), DiffMeaning(MeaningOf(e), ConstMeaning(Pow2(e.w))), MeaningOf(e)), rho)
              == ToSigned(Eval(e, rho), e.w)
  {
    hide Pow2, Rem, EvalI, Eval, World, IsNegative;
    var half, full := Pow2(e.w - 1), Pow2(e.w);
    IsNegativeMeaning(e, Val(imap[], imap[], iset{}));
    forall rho, sigma | World(c, rho, sigma)
      ensures Holds(Cmp(CmpGe, a, IntLit(half)), sigma) == EvalB(IsNegative(e), rho)
      ensures EvalI(Minus(a, IntLit(full)), sigma) == Eval(e, rho) - full
    {
      LiteralValue(half, sigma);
      LiteralValue(full, sigma);
      EvalMinus(a, IntLit(full), sigma);
      IsNegativeMeaning(e, rho);
    }
    forall rho: Val
      ensures EvalB(IsNegative(e), rho) <==> Eval(e, rho) >= half
    {
      IsNegativeMeaning(e, rho);
    }
  }

  lemma FlagDenotes(c: Context, x: It, p: Bl)
    requires WfB(p) && Denotes(c, x, ConditionMeaning(p))
    ensures DenotesB(c, Same(x, IntLit(1)), p)
  {
    hide World, EvalB;
    forall rho, sigma | World(c, rho, sigma)
      ensures Holds(Same(x, IntLit(1)), sigma) == EvalB(p, rho)
    {
      LiteralValue(1, sigma);
    }
  }

  lemma BoolParts(c: Context, p: Bl)
    requires WfB(p)
    ensures Denotes(c, IntLit(1), ConstMeaning(1)) && Denotes(c, IntLit(0), ConstMeaning(0))
    ensures forall rho: Val ::
              At(IteMeaning(p, ConstMeaning(1), ConstMeaning(0)), rho) == EvalTerm(Bool(p), rho) < Pow2(1)
  {
    hide World, EvalB;
  }
}
