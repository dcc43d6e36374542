// Facts about the integer constraints that encode wrap-arounds, quotients, conditional terms and
// ranges: what an assignment that satisfies them says about the values of the terms in them.
module IntFacts {
  import opened Bits
  import opened BvTerms
  import opened IntTerms

  /** r = expr - m * k, with expr in [m * k, m * (k + 1)). */
  function WrapCase(r: It, expr: It, m: nat, k: int): Ib {
    AllOf([Cmp(CmpLe, IntLit(m * k), expr), Cmp(CmpLt, expr, IntLit(m * (k + 1))),
           Same(r, if k == 0 then expr else Minus(expr, IntLit(m * k)))])
  }

  lemma CaseMeaning(t: It, expr: It, m: nat, k: int, sigma: Sigma)
    ensures Holds(WrapCase(t, expr, m, k), sigma) <==>
              && m * k <= EvalI(expr, sigma) < m * (k + 1)
              && EvalI(t, sigma) == EvalI(expr, sigma) - m * k
  {
    var shifted := if k == 0 then expr else Minus(expr, IntLit(m * k));
    BoundsMeaning(t, expr, shifted, m * k, m * (k + 1), sigma);
    assert EvalI(shifted, sigma) == EvalI(expr, sigma) - m * k by {
      if k == 0 {
        assert m * k == 0;
      }
    }
  }

  lemma BoundsMeaning(t: It, expr: It, shifted: It, lo: int, hi: int, sigma: Sigma)
    ensures Holds(AllOf([Cmp(CmpLe, IntLit(lo), expr), Cmp(CmpLt, expr, IntLit(hi)), Same(t, shifted)]), sigma) <==>
              lo <= EvalI(expr, sigma) < hi && EvalI(t, sigma) == EvalI(shifted, sigma)
  {
    hide EvalI;
    LitValue(lo, sigma);
    LitValue(hi, sigma);
    ThreeHold(Cmp(CmpLe, IntLit(lo), expr), Cmp(CmpLt, expr, IntLit(hi)), Same(t, shifted), sigma);
  }

  lemma LitValue(n: int, sigma: Sigma)
    ensures EvalI(IntLit(n), sigma) == n
  {
  }

  lemma ThreeHold(a: Ib, b: Ib, c: Ib, sigma: Sigma)
    ensures Holds(AllOf([a, b, c]), sigma) <==> Holds(a, sigma) && Holds(b, sigma) && Holds(c, sigma)
  {
    hide EvalI;
    var ps := [a, b, c];
    assert ps[0] == a && ps[1] == b && ps[2] == c;
    assert Holds(AllOf(ps), sigma) <==> forall i | 0 <= i < |ps| :: Holds(ps[i], sigma);
  }

  lemma QuotientWithin(v: int, m: nat, q: int, lo: int, hi: int)
    requires m > 0 && m * q <= v < m * (q + 1) && m * lo <= v < m * (hi + 1)
    ensures lo <= q <= hi
  {
    if q < lo {
      Monotone(m, q + 1, lo);
    }
    if q > hi {
      Monotone(m, hi + 1, q);
    }
  }

  lemma Monotone(m: nat, a: int, b: int)
    requires a <= b
    ensures m * a <= m * b
  {
    assert m * b == m * a + m * (b - a);
  }

  lemma SomeCaseHolds(t: It, expr: It, v: int, width: nat, kMin: int, kMax: int, cases: seq<Ib>, sigma: Sigma)
    requires EvalI(expr, sigma) == v && EvalI(t, sigma) == Mod2(v, width)
    requires Pow2(width) * kMin <= v < Pow2(width) * (kMax + 1)
    requires |cases| == if kMin <= kMax then kMax + 1 - kMin else 0
    requires forall i | 0 <= i < |cases| :: cases[i] == WrapCase(t, expr, Pow2(width), kMin + i)
    ensures Holds(AnyOf(cases), sigma)
  {
    var p := Pow2(width);
    var q := RemSplit(v, p);
    assert p * (q + 1) == p * q + p;
    QuotientWithin(v, p, q, kMin, kMax);
    CaseMeaning(t, expr, p, q, sigma);
    assert Holds(cases[q - kMin], sigma);
  }

  lemma WithinOneMultiple(v: int, p: nat, k: int, r: int)
    requires p > 0 && p * k <= v < p * (k + 1) && r == v - p * k
    ensures r == Rem(v, p)
  {
    assert p * (k + 1) == p * k + p;
    RemOf(v, p, k, r);
  }

  lemma CaseForces(t: It, expr: It, width: nat, kMin: int, cases: seq<Ib>, sigma: Sigma)
    requires forall i | 0 <= i < |cases| :: cases[i] == WrapCase(t, expr, Pow2(width), kMin + i)
    requires Holds(AnyOf(cases), sigma)
    ensures EvalI(t, sigma) == Mod2(EvalI(expr, sigma), width)
  {
    hide EvalI, Pow2, Rem, WrapCase;
    var i :| 0 <= i < |cases| && Holds(cases[i], sigma);
    OneCaseForces(t, expr, width, kMin + i, sigma);
  }

  lemma OneCaseForces(t: It, expr: It, width: nat, k: int, sigma: Sigma)
    requires Holds(WrapCase(t, expr, Pow2(width), k), sigma)
    ensures EvalI(t, sigma) == Mod2(EvalI(expr, sigma), width)
  {
    hide EvalI, Pow2, Rem, WrapCase, Holds;
    CaseMeaning(t, expr, Pow2(width), k, sigma);
    WithinOneMultiple(EvalI(expr, sigma), Pow2(width), k, EvalI(t, sigma));
  }

  lemma EvalScaled(c: int, t: It, sigma: Sigma)
    ensures EvalI(Scaled(c, t), sigma) == Prod(c, EvalI(t, sigma))
  {
    hide Prod;
  }

  lemma EvalMinus(s: It, t: It, sigma: Sigma)
    ensures EvalI(Minus(s, t), sigma) == EvalI(s, sigma) - EvalI(t, sigma)
  {
  }

  lemma EquationMeaning(t: It, expr: It, p: nat, k: It, sigma: Sigma)
    ensures Holds(Same(t, Minus(expr, Scaled(p, k))), sigma) <==>
              EvalI(t, sigma) == EvalI(expr, sigma) - Prod(p, EvalI(k, sigma))
  {
    hide EvalI, Prod;
    EvalScaled(p, k, sigma);
    EvalMinus(expr, Scaled(p, k), sigma);
  }

  /** The range of an auxiliary variable; the small encoding drops large upper bounds. */
  function RangeOf(x: Name, width: nat, small: bool): seq<Ib> {
    [Cmp(CmpLe, IntLit(0), IntVar(x))] +
    if !small || Pow2(width) <= MAX_SMALL_CONSTANT
    then [Cmp(CmpLt, IntVar(x), IntLit(Pow2(width)))]
    else []
  }

  lemma RangeHolds(x: Name, width: nat, small: bool)
    ensures forall sigma: Sigma | AllHold(RangeOf(x, width, small), sigma) ::
              Look(sigma, x) >= 0
              && (!small || Pow2(width) <= MAX_SMALL_CONSTANT ==> Look(sigma, x) < Pow2(width))
    ensures forall sigma: Sigma | 0 <= Look(sigma, x) < Pow2(width) :: AllHold(RangeOf(x, width, small), sigma)
    ensures small ==> forall i | 0 <= i < |RangeOf(x, width, small)| :: SmallF(RangeOf(x, width, small)[i])
  {
    var r := RangeOf(x, width, small);
    forall sigma: Sigma | AllHold(r, sigma)
      ensures Look(sigma, x) >= 0
      ensures !small || Pow2(width) <= MAX_SMALL_CONSTANT ==> Look(sigma, x) < Pow2(width)
    {
      assert Holds(r[0], sigma);
      if |r| == 2 {
        assert Holds(r[1], sigma);
      }
    }
  }

  function BorrowCases(t: It, expr: It): Ib {
    AnyOf([AllOf([Cmp(CmpLe, IntLit(0), expr), Same(t, expr)]), Cmp(CmpLt, expr, IntLit(0))])
  }

  /** Without a wrap below, a remainder is at most the term; without one above, it is the term if that is not negative. */
  ghost predicate LooselyBound(t: It, expr: It, kMin: int, kMax: int, sigma: Sigma) {
    && (kMin >= 0 ==> EvalI(t, sigma) <= EvalI(expr, sigma))
    && (kMin < 0 && kMax <= 0 && EvalI(expr, sigma) >= 0 ==> EvalI(t, sigma) == EvalI(expr, sigma))
  }

  lemma AtMostMeaning(t: It, expr: It, sigma: Sigma)
    ensures Holds(Cmp(CmpLe, t, expr), sigma) <==> EvalI(t, sigma) <= EvalI(expr, sigma)
  {
    hide EvalI;
  }

  lemma BorrowCasesMeaning(t: It, expr: It, sigma: Sigma)
    ensures Holds(BorrowCases(t, expr), sigma) <==> EvalI(expr, sigma) < 0 || EvalI(t, sigma) == EvalI(expr, sigma)
  {
    hide EvalI;
    LiteralValue(0, sigma);
    PairHolds(Cmp(CmpLe, IntLit(0), expr), Same(t, expr), sigma);
    PairHolds(AllOf([Cmp(CmpLe, IntLit(0), expr), Same(t, expr)]), Cmp(CmpLt, expr, IntLit(0)), sigma);
  }

  /** (cond and t = a) or (not cond and t = b) */
  function IteCases(cond: Ib, t: It, a: It, b: It): Ib {
    AnyOf([AllOf([cond, Same(t, a)]), AllOf([NotI(cond), Same(t, b)])])
  }

  lemma PairHolds(p: Ib, q: Ib, sigma: Sigma)
    ensures Holds(AllOf([p, q]), sigma) <==> Holds(p, sigma) && Holds(q, sigma)
    ensures Holds(AnyOf([p, q]), sigma) <==> Holds(p, sigma) || Holds(q, sigma)
  {
    hide EvalI;
    assert [p, q][0] == p && [p, q][1] == q;
  }

  lemma IteCasesMeaning(cond: Ib, t: It, a: It, b: It, sigma: Sigma)
    ensures Holds(IteCases(cond, t, a, b), sigma) <==>
              EvalI(t, sigma) == if Holds(cond, sigma) then EvalI(a, sigma) else EvalI(b, sigma)
  {
    hide EvalI;
    PairHolds(cond, Same(t, a), sigma);
    PairHolds(NotI(cond), Same(t, b), sigma);
    PairHolds(AllOf([cond, Same(t, a)]), AllOf([NotI(cond), Same(t, b)]), sigma);
  }

  lemma SmallIte(cond: Ib, t: It, a: It, b: It)
    ensures SmallF(cond) && SmallT(t) && SmallT(a) && SmallT(b) ==> SmallF(IteCases(cond, t, a, b))
  {
    var p, q := AllOf([cond, Same(t, a)]), AllOf([NotI(cond), Same(t, b)]);
    if SmallF(cond) && SmallT(t) && SmallT(a) && SmallT(b) {
      assert SmallF(p) && SmallF(q);
    }
  }

  /** k * q <= a <= k * q + k - 1 */
  function QuotientBounds(q: It, a: It, k: nat): seq<Ib> {
    [Cmp(CmpLe, Scaled(k, q), a), Cmp(CmpLe, a, Plus([Scaled(k, q), IntLit(k - 1)]))]
  }

  /** 0 <= q <= a */
  function LooseQuotient(q: It, a: It): seq<Ib> {
    [Cmp(CmpLe, IntLit(0), q), Cmp(CmpLe, q, a)]
  }

  lemma SmallBounds(q: It, a: It, k: nat)
    requires q.IntVar? && SmallT(a)
    ensures forall i | 0 <= i < |LooseQuotient(q, a)| :: SmallF(LooseQuotient(q, a)[i])
    ensures k <= MAX_SMALL_CONSTANT ==>
              forall i | 0 <= i < |QuotientBounds(q, a, k)| :: SmallF(QuotientBounds(q, a, k)[i])
  {
    if k <= MAX_SMALL_CONSTANT {
      var scaled, last := Scaled(k, q), IntLit(k - 1);
      assert SmallT(scaled) && SmallT(last);
      assert SmallT(Plus([scaled, last]));
      assert SmallF(Cmp(CmpLe, scaled, a)) && SmallF(Cmp(CmpLe, a, Plus([scaled, last])));
    }
  }

  lemma EvalPlusPair(s: It, t: It, sigma: Sigma)
    ensures EvalI(Plus([s, t]), sigma) == EvalI(s, sigma) + EvalI(t, sigma)
  {
    assert [s, t][1..] == [t] && [t][1..] == [];
    assert SumI([t], sigma) == EvalI(t, sigma) + SumI([], sigma);
  }

  lemma BothHold(p: Ib, q: Ib, sigma: Sigma)
    ensures AllHold([p, q], sigma) <==> Holds(p, sigma) && Holds(q, sigma)
  {
    hide Holds;
    assert [p, q][0] == p && [p, q][1] == q;
  }

  lemma LooseQuotientMeaning(q: It, a: It, sigma: Sigma)
    ensures AllHold(LooseQuotient(q, a), sigma) <==> 0 <= EvalI(q, sigma) <= EvalI(a, sigma)
  {
    BothHold(Cmp(CmpLe, IntLit(0), q), Cmp(CmpLe, q, a), sigma);
  }

  lemma QuotientBoundsMeaning(q: It, a: It, k: nat, sigma: Sigma)
    ensures AllHold(QuotientBounds(q, a, k), sigma) <==>
              k * EvalI(q, sigma) <= EvalI(a, sigma) <= k * EvalI(q, sigma) + k - 1
    ensures AllHold(LooseQuotient(q, a), sigma) <==> 0 <= EvalI(q, sigma) <= EvalI(a, sigma)
  {
    hide EvalI;
    LooseQuotientMeaning(q, a, sigma);
    EvalScaled(k, q, sigma);
    EvalPlusPair(Scaled(k, q), IntLit(k - 1), sigma);
    LiteralValue(k - 1, sigma);
    BothHold(Cmp(CmpLe, Scaled(k, q), a), Cmp(CmpLe, a, Plus([Scaled(k, q), IntLit(k - 1)])), sigma);
  }

  lemma LiteralValue(n: int, sigma: Sigma)
    ensures EvalI(IntLit(n), sigma) == n
  {
  }
}
