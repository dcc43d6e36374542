// What each kind of bitvector node means in terms of integer arithmetic on its operands, and the
// conditions under which that arithmetic does not wrap around; stated for one valuation at a time.
module NodeFacts {
  import opened Bits
  import opened BvTerms
  import opened BvFacts

  function Consts(es: seq<Bv>): seq<nat> {
    if es == [] then [] else (if es[0].Num? then [es[0].value] else []) + Consts(es[1..])
  }

  function Others(es: seq<Bv>): (os: seq<Bv>)
    ensures forall o | o in os :: o in es && !o.Num?
  {
    if es == [] then [] else (if es[0].Num? then [] else [es[0]]) + Others(es[1..])
  }

  lemma Wrapped(v: int, w: nat, r: nat, k: int)
    requires r < Pow2(w) && v == r + Pow2(w) * k
    ensures Mod2(v, w) == r
  {
    hide Rem, Pow2;
    RemOf(v, Pow2(w), k, r);
  }

  // ---- sums ----

  lemma {:induction false} SumBound(es: seq<Bv>, w: nat, rho: Val)
    requires WfAll(es, w)
    ensures Sum(Values(es, rho)) <= Prod(Pow2(w), |es|)
    ensures es != [] ==> Sum(Values(es, rho)) < Prod(Pow2(w), |es|)
  {
    hide Pow2;
    if es != [] {
      SumBound(es[1..], w, rho);
      ValuesTail(es, rho);
      assert Prod(Pow2(w), |es|) == Prod(Pow2(w), |es| - 1) + Pow2(w);
    }
  }

  function ZeroExtAll(es: seq<Bv>, w: nat): seq<Bv> {
    seq(|es|, i requires 0 <= i < |es| => ZeroExt(w, es[i]))
  }

  /** The operands summed without wrap-around stay below 2^w. */
  function AddNoWrap(es: seq<Bv>, w: nat): Bl {
    var wide := w + BitLength(|es|);
    Rel(Unsigned(CmpLt), NestedSum(wide, ZeroExtAll(es, wide)), Num(wide, Pow2(w)))
  }

  lemma WideRoom(w: nat, n: nat)
    requires n > 0
    ensures Prod(Pow2(w), n) < Pow2(w + BitLength(n)) && Pow2(w) < Pow2(w + BitLength(n))
  {
    hide Pow2;
    BitLengthBounds(n);
    Pow2Add(w, BitLength(n));
    Pow2Less(w, w + BitLength(n));
    ProductLess(Pow2(w), n, Pow2(BitLength(n)));
  }

  lemma ProductLess(m: nat, a: nat, b: nat)
    requires m > 0 && a < b
    ensures Prod(m, a) < m * b
  {
    MulStep(m, b - a);
    assert m * b == m * a + m * (b - a);
  }

  lemma ZeroExtMeaning(es: seq<Bv>, w: nat, wide: nat, rho: Val)
    requires w > 0 && w <= wide && WfAll(es, w)
    ensures WfAll(ZeroExtAll(es, wide), wide)
    ensures Values(ZeroExtAll(es, wide), rho) == Values(es, rho)
  {
    hide Pow2, Rem;
    assert WfAll(ZeroExtAll(es, wide), wide);
  }

  lemma CompareMeaning(op: CmpOp, x: Bv, y: Bv, rho: Val)
    requires Wf(x) && Wf(y) && x.w == y.w
    ensures WfB(Rel(Unsigned(op), x, y))
    ensures EvalB(Rel(Unsigned(op), x, y), rho) == op.Holds(Eval(x, rho), Eval(y, rho))
  {
    hide Pow2, Rem, Eval;
  }

  lemma NumWf(w: nat, n: nat, rho: Val)
    requires w > 0 && n < Pow2(w)
    ensures Wf(Num(w, n)) && Eval(Num(w, n), rho) == n
  {
    hide Pow2, Rem;
  }

  lemma AddNoWrapMeaning(es: seq<Bv>, w: nat, rho: Val)
    requires w > 0 && es != [] && WfAll(es, w)
    ensures WfB(AddNoWrap(es, w))
    ensures EvalB(AddNoWrap(es, w), rho) <==> Sum(Values(es, rho)) < Pow2(w)
  {
    hide Pow2, Rem, Prod, BitLength, Eval, Wf, EvalB, WfB, Values, ZeroExtAll, NestedSum, Sum;
    var wide := w + BitLength(|es|);
    var wides := ZeroExtAll(es, wide);
    WideRoom(w, |es|);
    SumBound(es, w, rho);
    ZeroExtMeaning(es, w, wide, rho);
    EvalNestedSum(wide, wides, rho);
    SmallMod(Sum(Values(es, rho)), wide);
    NumWf(wide, Pow2(w), rho);
    CompareMeaning(CmpLt, NestedSum(wide, wides), Num(wide, Pow2(w)), rho);
  }

  /** The operands of a sum, without those that are read as a subtraction. */
  function RestSum(es: seq<Bv>, w: nat): Bv {
    if |Rest(es)| == 1 then Rest(es)[0] else NestedSum(w, Rest(es))
  }

  /** Nothing is borrowed when the rest is large enough. */
  function BorrowNoWrap(es: seq<Bv>, w: nat): Bl
    requires WfEach(es)
  {
    Rel(Unsigned(CmpGe), RestSum(es, w), Num(w, Borrow(es)))
  }

  lemma AddBorrowMeaning(es: seq<Bv>, w: nat, rho: Val)
    requires w > 0 && es != [] && WfAll(es, w) && Borrow(es) < Pow2(w)
    ensures Wf(RestSum(es, w)) && RestSum(es, w).w == w
    ensures Mod2(Eval(RestSum(es, w), rho) - Borrow(es), w) == Eval(Nary(w, Add, es), rho)
  {
    hide Pow2, Rem, Rest, Borrow;
    var k := BorrowSplits(es, w, rho);
    var rest := Rest(es);
    var s := Sum(Values(rest, rho));
    if |rest| == 1 {
      assert Values(rest, rho) == [Eval(rest[0], rho)];
      SumOne(Eval(rest[0], rho));
      SmallMod(s, w);
    } else {
      EvalNestedSum(w, rest, rho);
    }
    RemAdd(s, 0 - Borrow(es), Pow2(w));
    RemShift(s - Borrow(es), Pow2(w), k);
  }

  lemma SumOne(v: nat)
    ensures Sum([v]) == v
  {
    assert Sum([v]) == v + Sum([]);
  }

  // ---- differences ----

  function SubNoWrap(a: Bv, b: Bv): Bl {
    Rel(Unsigned(CmpGe), a, b)
  }

  function NegNoWrap(a: Bv): Bl {
    Rel(Eq, a, Num(a.w, 0))
  }

  lemma SubMeaning(w: nat, a: nat, b: nat)
    requires a < Pow2(w) && b < Pow2(w)
    ensures Pow2(w) * -1 <= a - b < Pow2(w) * 1
    ensures a >= b ==> 0 <= a - b < Pow2(w)
  {
  }

  // ---- low bits ----

  /** No bit above the lowest ones is set. */
  function TruncNoWrap(a: Bv, width: nat): Bl {
    Rel(Unsigned(CmpLt), a, Num(a.w, Pow2(width)))
  }

  /** z3's LShR(a, lo) */
  function ShiftOf(a: Bv, lo: nat): Bv {
    Bin(a.w, Lshr, a, Num(a.w, lo))
  }

  /** The conditions say exactly that nothing wraps around, or that no bit is lost. */
  lemma NoWrapMeans(a: Bv, b: Bv, width: nat, rho: Val)
    requires Wf(a) && Wf(b) && a.w == b.w > 0 && width < a.w
    ensures WfB(SubNoWrap(a, b)) && (EvalB(SubNoWrap(a, b), rho) <==> Eval(a, rho) - Eval(b, rho) >= 0)
    ensures WfB(NegNoWrap(a)) && (EvalB(NegNoWrap(a), rho) <==> 0 - Eval(a, rho) >= 0)
    ensures WfB(TruncNoWrap(a, width)) && (EvalB(TruncNoWrap(a, width), rho) <==> Eval(a, rho) < Pow2(width))
  {
    hide Pow2, Eval;
    Pow2Less(width, a.w);
    NumWf(a.w, 0, rho);
    NumWf(a.w, Pow2(width), rho);
  }

  /** The borrowed constants are covered by the other addends. */
  lemma BorrowNoWrapMeans(es: seq<Bv>, w: nat, rho: Val)
    requires w > 0 && es != [] && WfAll(es, w) && Borrow(es) < Pow2(w)
    ensures WfB(BorrowNoWrap(es, w)) && Wf(RestSum(es, w))
    ensures EvalB(BorrowNoWrap(es, w), rho) <==> Eval(RestSum(es, w), rho) - Borrow(es) >= 0
  {
    hide Pow2, Eval, Borrow, RestSum;
    AddBorrowMeaning(es, w, rho);
    NumWf(w, Borrow(es), rho);
  }

  // ---- multiples ----

  function ScaleNoWrap(x: Bv, coef: nat, w: nat): Bl {
    var wide := w + BitLength(coef);
    Rel(Unsigned(CmpLt), Nary(wide, Mul, [ZeroExt(wide, x), Num(wide, coef)]), Num(wide, Pow2(w)))
  }

  lemma ProductPair(a: nat, b: nat)
    ensures Product([a, b]) == Times(a, b)
  {
    assert [a, b][1..] == [b] && [b][1..] == [];
    assert Product([b]) == Times(b, Product([])) == b;
  }

  lemma ScaleBound(x: nat, coef: nat, m: nat)
    requires x < m && coef > 0
    ensures 0 <= coef * x < m * coef
  {
    MulStep(coef, m - x);
    assert m * coef == coef * x + coef * (m - x);
    assert coef * x >= 0 by {
      MulStep(coef, x);
    }
  }

  lemma EvalMulConst(x: Bv, coef: nat, wide: nat, rho: Val)
    requires Wf(x) && x.w <= wide && coef < Pow2(wide)
    ensures Wf(Nary(wide, Mul, [ZeroExt(wide, x), Num(wide, coef)]))
    ensures Eval(Nary(wide, Mul, [ZeroExt(wide, x), Num(wide, coef)]), rho) == Mod2(coef * Eval(x, rho), wide)
  {
    hide Pow2, Rem;
    var args := [ZeroExt(wide, x), Num(wide, coef)];
    assert Wf(args[0]) && Wf(args[1]);
    assert Values(args, rho) == [Eval(x, rho), coef];
    ProductPair(Eval(x, rho), coef);
  }

  lemma ScaleNoWrapMeaning(x: Bv, coef: nat, w: nat, rho: Val)
    requires Wf(x) && x.w == w && coef > 0
    ensures WfB(ScaleNoWrap(x, coef, w))
    ensures EvalB(ScaleNoWrap(x, coef, w), rho) <==> coef * Eval(x, rho) < Pow2(w)
  {
    hide Pow2, Rem, BitLength, Eval, EvalB;
    var wide := w + BitLength(coef);
    WideRoom(w, coef);
    ScaleBound(Eval(x, rho), coef, Pow2(w));
    BitLengthBounds(coef);
    Pow2Mono(BitLength(coef), wide);
    EvalMulConst(x, coef, wide, rho);
    SmallMod(coef * Eval(x, rho), wide);
    NumWf(wide, Pow2(w), rho);
    CompareMeaning(CmpLt, Nary(wide, Mul, [ZeroExt(wide, x), Num(wide, coef)]), Num(wide, Pow2(w)), rho);
  }

  // ---- products with at most one unknown factor ----

  lemma {:induction false} ProductSnoc(vs: seq<nat>, v: nat)
    ensures Product(vs + [v]) == Times(Product(vs), v)
  {
    if vs == [] {
      ProductPair(v, 1);
      assert Product([v]) == Times(v, Product([])) == v;
    } else {
      ProductSnoc(vs[1..], v);
      assert (vs + [v])[1..] == vs[1..] + [v];
      TimesAssoc(vs[0], Product(vs[1..]), v);
    }
  }

  lemma TimesMeans(a: nat, b: nat)
    ensures Times(a, b) == a * b
  {
  }

  lemma TimesAssoc(a: nat, b: nat, c: nat)
    ensures Times(a, Times(b, c)) == Times(Times(a, b), c)
  {
    assert a * (b * c) == (a * b) * c;
  }

  lemma TimesSwap(a: nat, b: nat, c: nat)
    ensures Times(a, Times(b, c)) == Times(b, Times(a, c))
  {
    assert a * (b * c) == b * (a * c);
  }

  lemma {:induction false} ProductSplits(es: seq<Bv>, rho: Val)
    requires WfEach(es)
    ensures WfEach(Others(es))
    ensures Product(Values(es, rho)) == Times(Product(Consts(es)), Product(Values(Others(es), rho)))
  {
    hide Pow2, Rem, Eval, Times;
    if es == [] {
      assert Times(1, 1) == 1 by {
        TimesMeans(1, 1);
      }
    } else {
      ProductSplits(es[1..], rho);
      ValuesTail(es, rho);
      var c, o := Product(Consts(es[1..])), Product(Values(Others(es[1..]), rho));
      var v := Values(es, rho)[0];
      if es[0].Num? {
        NumValue(es[0], rho);
        assert Consts(es) == [v] + Consts(es[1..]);
        assert Others(es) == Others(es[1..]);
        assert Consts(es)[1..] == Consts(es[1..]);
        TimesAssoc(v, c, o);
      } else {
        assert Others(es) == [es[0]] + Others(es[1..]);
        assert Consts(es) == Consts(es[1..]);
        assert Others(es)[1..] == Others(es[1..]);
        ValuesTail(Others(es), rho);
        TimesSwap(v, c, o);
      }
    }
  }

  lemma NumValue(e: Bv, rho: Val)
    requires Wf(e) && e.Num?
    ensures Eval(e, rho) == e.value
  {
  }

  lemma MulMeaning(es: seq<Bv>, w: nat, coef: nat, rho: Val)
    requires w > 0 && es != [] && WfAll(es, w) && |Others(es)| <= 1
    requires coef == Mod2(Product(Consts(es)), w)
    ensures WfEach(Others(es))
    ensures Eval(Nary(w, Mul, es), rho) ==
            if Others(es) == [] then coef else Mod2(coef * Eval(Others(es)[0], rho), w)
  {
    hide Pow2, Rem, Consts, Others, Values, Product;
    ProductSplits(es, rho);
    if Others(es) != [] {
      OneValue(Others(es), rho);
      RemMul(Product(Consts(es)), Eval(Others(es)[0], rho), Pow2(w));
    } else {
      NoValues(rho);
    }
  }

  lemma OneValue(os: seq<Bv>, rho: Val)
    requires |os| == 1 && WfEach(os)
    ensures Values(os, rho) == [Eval(os[0], rho)] && Product(Values(os, rho)) == Eval(os[0], rho)
  {
    hide Eval, Pow2;
    assert os[1..] == [] && Values(os, rho) == [Eval(os[0], rho)];
    ProductSnoc([], Eval(os[0], rho));
    assert [] + [Eval(os[0], rho)] == [Eval(os[0], rho)];
  }

  lemma NoValues(rho: Val)
    ensures Product(Values([], rho)) == 1
  {
  }

  // ---- shifts, divisions and masks by constants ----

  lemma {:induction false} BelowPow2(n: nat)
    ensures n < Pow2(n)
  {
    if n > 0 {
      BelowPow2(n - 1);
    }
  }

  lemma ExtractOfShift(a: Bv, lo: nat, rho: Val)
    requires Wf(a) && lo < a.w
    ensures Wf(Bin(a.w, Lshr, a, Num(a.w, lo)))
    ensures Eval(Bin(a.w, Lshr, a, Num(a.w, lo)), rho) == Quot(Eval(a, rho), Pow2(lo))
  {
    hide Pow2, Quot;
    BelowPow2(a.w);
  }

  /** Shifting right leaves only the high bits. */
  lemma QuotientRange(v: nat, w: nat, lo: nat)
    requires v < Pow2(w) && lo <= w
    ensures Quot(v, Pow2(lo)) < Pow2(w - lo)
  {
    hide Pow2, Quot, Rem;
    Pow2Add(lo, w - lo);
    QuotientIsDiv(v, Pow2(lo));
    var q := Quot(v, Pow2(lo));
    if q >= Pow2(w - lo) {
      assert Pow2(lo) * q == Pow2(lo) * Pow2(w - lo) + Pow2(lo) * (q - Pow2(w - lo));
      MulStep(Pow2(lo), q - Pow2(w - lo));
    }
  }

  lemma {:induction false} ConstsAndOthers(es: seq<Bv>)
    ensures |es| == |Consts(es)| + |Others(es)|
  {
    if es != [] {
      ConstsAndOthers(es[1..]);
    }
  }

  /** The value of a masking `x & (2^n - 1)`. */
  lemma MaskMeaning(es: seq<Bv>, w: nat, mask: nat, rho: Val)
    requires w > 0 && WfAll(es, w) && Consts(es) == [mask] && |Others(es)| == 1
    requires BitAnd(mask, mask + 1) == 0
    ensures Wf(Others(es)[0]) && Others(es)[0].w == w
    ensures Eval(Nary(w, And, es), rho) == Mod2(Eval(Others(es)[0], rho), BitLength(mask))
  {
    hide Pow2, Rem, BitAnd, BitLength;
    ConstsAndOthers(es);
    var x := Others(es)[0];
    assert x in es;
    MaskTest(mask);
    MaskIsRem(Eval(x, rho), BitLength(mask));
    BitAndCommutes(mask, Eval(x, rho));
    BitAndAtMost(Eval(x, rho), mask);
    PairSplits(es, x, mask);
    var vs := Values(es, rho);
    assert vs[1..] == [vs[1]];
    assert Ands(vs) == BitAnd(vs[0], vs[1]);
    assert vs[0] == Eval(es[0], rho) && vs[1] == Eval(es[1], rho);
    SmallMod(BitAnd(Eval(x, rho), mask), w);
  }

  lemma PairSplits(es: seq<Bv>, x: Bv, mask: nat)
    requires |es| == 2 && Consts(es) == [mask] && Others(es) == [x]
    ensures (es[0].Num? && es[0].value == mask && es[1] == x)
         || (es[1].Num? && es[1].value == mask && es[0] == x)
  {
    var tail := es[1..];
    assert tail == [es[1]] && tail[1..] == [];
    assert Consts(tail[1..]) == [] && Others(tail[1..]) == [];
    assert Consts(es) == (if es[0].Num? then [es[0].value] else []) + Consts(tail);
    assert Others(es) == (if es[0].Num? then [] else [es[0]]) + Others(tail);
    assert Consts(tail) == (if es[1].Num? then [es[1].value] else []) + [];
    assert Others(tail) == (if es[1].Num? then [] else [es[1]]) + [];
    if es[0].Num? {
      assert Others(es) == Others(tail);
      assert Consts(es)[0] == es[0].value;
    } else {
      assert Others(es)[0] == es[0];
      assert |Others(es)| == 1 + |Others(tail)|;
      assert Consts(es) == Consts(tail);
      assert Consts(tail)[0] == es[1].value;
    }
  }

  // ---- concatenations ----

  lemma FieldsFit(c: nat, top: nat, v: nat, m: nat)
    requires c < top && v < m
    ensures Prod(m, c) + v < top * m
  {
    assert top * m == m * c + m * (top - c);
    MulStep(m, top - c);
  }

  lemma {:induction false} ConcatRange(es: seq<Bv>, rho: Val)
    requires WfEach(es)
    ensures ConcatValue(Values(es, rho), es) < Pow2(SumWidths(es))
    decreases |es|
  {
    hide Pow2, Rem, Eval;
    if es == [] {
      BelowPow2(0);
    } else {
      var n := |es| - 1;
      ConcatRange(es[..n], rho);
      ConcatStep(es, n, rho);
      var c := ConcatValue(Values(es[..n], rho), es[..n]);
      var m := Pow2(es[n].w);
      Pow2Add(SumWidths(es[..n]), es[n].w);
      FieldsFit(c, Pow2(SumWidths(es[..n])), Eval(es[n], rho), m);
      assert es[..n + 1] == es;
    }
  }

  lemma ConcatStep(es: seq<Bv>, n: nat, rho: Val)
    requires WfEach(es) && n < |es|
    ensures WfEach(es[..n + 1]) && WfEach(es[..n])
    ensures ConcatValue(Values(es[..n + 1], rho), es[..n + 1]) ==
            Prod(Pow2(es[n].w), ConcatValue(Values(es[..n], rho), es[..n])) + Eval(es[n], rho)
  {
    hide Pow2, Rem, Eval;
    var fs := es[..n + 1];
    assert fs[..n] == es[..n];
    assert Values(fs, rho)[..n] == Values(es[..n], rho);
  }

  /** Leading zeros do not change a concatenation. */
  lemma {:induction false} ConcatZeros(es: seq<Bv>, rho: Val)
    requires WfEach(es) && forall i | 0 <= i < |es| :: es[i].Num? && es[i].value == 0
    ensures ConcatValue(Values(es, rho), es) == 0
    decreases |es|
  {
    hide Pow2, Rem, Eval;
    if es != [] {
      var n := |es| - 1;
      ConcatZeros(es[..n], rho);
      ConcatStep(es, n, rho);
      assert es[..n + 1] == es;
      NumValue(es[n], rho);
    }
  }

  // ---- signed values ----

  lemma HalfBelow(w: nat)
    requires w > 0
    ensures Pow2(w) == 2 * Pow2(w - 1) && Pow2(w - 1) < Pow2(w)
  {
  }

  /** The top bit of a word, as an unsigned comparison. */
  function IsNegative(e: Bv): Bl
    requires e.w > 0
  {
    Rel(Unsigned(CmpGe), e, Num(e.w, Pow2(e.w - 1)))
  }

  lemma IsNegativeMeaning(e: Bv, rho: Val)
    requires Wf(e)
    ensures WfB(IsNegative(e))
    ensures EvalB(IsNegative(e), rho) <==> Eval(e, rho) >= Pow2(e.w - 1)
  {
    HalfBelow(e.w);
    hide Pow2, Rem;
    assert Wf(Num(e.w, Pow2(e.w - 1)));
  }

  function BelowHalf(e: Bv): Bl
    requires e.w > 0
  {
    Rel(Unsigned(CmpLt), e, Num(e.w, Pow2(e.w - 1)))
  }

  lemma BelowHalfMeaning(e: Bv, rho: Val)
    requires Wf(e)
    ensures WfB(BelowHalf(e))
    ensures EvalB(BelowHalf(e), rho) <==> Eval(e, rho) < Pow2(e.w - 1)
  {
    HalfBelow(e.w);
    hide Pow2, Rem;
    assert Wf(Num(e.w, Pow2(e.w - 1)));
  }

  /** Both operands are below 2^(w-1). */
  function BothNonNegative(a: Bv, b: Bv): Bl
    requires a.w > 0 && b.w > 0
  {
    Junction(true, [BelowHalf(a), BelowHalf(b)])
  }

  lemma BothNonNegativeMeaning(a: Bv, b: Bv, rho: Val)
    requires Wf(a) && Wf(b)
    ensures WfB(BothNonNegative(a, b))
    ensures EvalB(BothNonNegative(a, b), rho) <==>
              Eval(a, rho) < Pow2(a.w - 1) && Eval(b, rho) < Pow2(b.w - 1)
  {
    hide Pow2, Rem, BelowHalf, Eval, EvalB;
    BelowHalfMeaning(a, rho);
    BelowHalfMeaning(b, rho);
    JunctionPair(BelowHalf(a), BelowHalf(b), rho);
  }

  lemma JunctionPair(p: Bl, q: Bl, rho: Val)
    requires WfB(p) && WfB(q)
    ensures WfB(Junction(true, [p, q]))
    ensures EvalB(Junction(true, [p, q]), rho) <==> EvalB(p, rho) && EvalB(q, rho)
  {
    hide Eval;
    assert [p, q][0] == p && [p, q][1] == q;
  }

  /** The product of some literals, reduced once at the end. */
  method ProductMod(vs: seq<nat>, w: nat) returns (coef: nat)
    ensures coef == Mod2(Product(vs), w)
  {
    var p := 1;
    for i := 0 to |vs|
      invariant p == Product(vs[..i])
    {
      ProductSnoc(vs[..i], vs[i]);
      assert vs[..i + 1] == vs[..i] + [vs[i]];
      p := Times(p, vs[i]);
    }
    assert vs[..|vs|] == vs;
    coef := Mod2(p, w);
  }
}
