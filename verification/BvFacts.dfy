// Facts about bitvector terms that the loop translator relies on: sums rebuilt from their operands,
// large addends read as subtractions, and a measure under which the sums it builds get smaller.
module BvFacts {
  import opened Bits
  import opened BvTerms

  lemma SmallMod(v: nat, w: nat)
    requires v < Pow2(w)
    ensures Mod2(v, w) == v
  {
  }

  lemma ValuesTail(es: seq<Bv>, rho: Val)
    requires es != [] && WfEach(es)
    ensures WfEach(es[1..]) && Values(es, rho)[1..] == Values(es[1..], rho)
  {
  }

  // ---- z3's Sum: a left-nested binary sum that starts at 0 ----

  function NestedSum(w: nat, es: seq<Bv>): Bv
    decreases |es|
  {
    if es == [] then Num(w, 0) else
    Nary(w, Add, [NestedSum(w, es[..|es| - 1]), es[|es| - 1]])
  }

  lemma {:induction false} SumSnoc(vs: seq<nat>, v: nat)
    ensures Sum(vs + [v]) == Sum(vs) + v
  {
    if vs == [] {
      assert Sum([v]) == v + Sum([]);
    } else {
      SumSnoc(vs[1..], v);
      assert (vs + [v])[1..] == vs[1..] + [v];
    }
  }

  lemma SumPair(a: nat, b: nat)
    ensures Sum([a, b]) == a + b
  {
    assert [a, b][1..] == [b] && [b][1..] == [];
    assert Sum([b]) == b + Sum([]);
  }

  lemma EvalAddPair(w: nat, x: Bv, y: Bv, rho: Val)
    requires w > 0 && Wf(x) && Wf(y) && x.w == y.w == w
    ensures Wf(Nary(w, Add, [x, y]))
    ensures Eval(Nary(w, Add, [x, y]), rho) == Mod2(Eval(x, rho) + Eval(y, rho), w)
  {
    assert Values([x, y], rho) == [Eval(x, rho), Eval(y, rho)];
    SumPair(Eval(x, rho), Eval(y, rho));
  }

  lemma {:induction false} EvalNestedSum(w: nat, es: seq<Bv>, rho: Val)
    requires w > 0 && WfAll(es, w)
    ensures Wf(NestedSum(w, es)) && NestedSum(w, es).w == w
    ensures Eval(NestedSum(w, es), rho) == Mod2(Sum(Values(es, rho)), w)
    decreases |es|
  {
    hide Rem, Pow2;
    if es == [] {
      SmallMod(0, w);
    } else {
      var n := |es| - 1;
      var init, last := es[..n], es[n];
      EvalNestedSum(w, init, rho);
      EvalAddPair(w, NestedSum(w, init), last, rho);
      assert Values(es, rho) == Values(init, rho) + [Eval(last, rho)];
      SumSnoc(Values(init, rho), Eval(last, rho));
      RemAdd(Sum(Values(init, rho)), Eval(last, rho), Pow2(w));
    }
  }

  // ---- addends of at least 2^(w-1), such as solc's x + (2^256 - 1) ----

  predicate IsLarge(e: Bv) {
    e.Num? && e.w > 0 && e.value >= Pow2(e.w - 1)
  }

  /** The sum of the distances to 2^w of the large addends. */
  function Borrow(es: seq<Bv>): nat
    requires WfEach(es)
  {
    if es == [] then 0 else
    (if IsLarge(es[0]) then Pow2(es[0].w) - es[0].value else 0) + Borrow(es[1..])
  }

  function Rest(es: seq<Bv>): seq<Bv> {
    if es == [] then [] else
    if IsLarge(es[0]) then Rest(es[1..]) else [es[0]] + Rest(es[1..])
  }

  lemma {:induction false} BorrowSplits(es: seq<Bv>, w: nat, rho: Val) returns (k: nat)
    requires WfAll(es, w)
    ensures WfAll(Rest(es), w)
    ensures Sum(Values(es, rho)) == Sum(Values(Rest(es), rho)) - Borrow(es) + Pow2(w) * k
  {
    if es == [] {
      k := 0;
    } else {
      k := BorrowSplits(es[1..], w, rho);
      ValuesTail(es, rho);
      if IsLarge(es[0]) {
        assert Pow2(w) * (k + 1) == Pow2(w) * k + Pow2(w);
        k := k + 1;
      } else {
        var r := Rest(es);
        assert r == [es[0]] + Rest(es[1..]);
        ValuesTail(r, rho);
        assert r[1..] == Rest(es[1..]);
      }
    }
  }

  // ---- a measure for the recursion over rebuilt sums ----

  /** The number of large literals in a term. */
  function Large(e: Bv): nat
    decreases e
  {
    match e
    case Num(_, _) => if IsLarge(e) then 1 else 0
    case Var(_, _) => 0
    case Neg(_, a) => Large(a)
    case Bin(_, _, a, b) => Large(a) + Large(b)
    case Nary(_, _, args) => LargeAll(args)
    case Extract(_, _, a) => Large(a)
    case Concat(_, args) => LargeAll(args)
    case ZeroExt(_, a) => Large(a)
    case Ite(_, c, a, b) => LargeB(c) + Large(a) + Large(b)
    case App(_, _, args) => LargeAll(args)
  }

  function LargeAll(es: seq<Bv>): nat
    decreases es
  {
    if es == [] then 0 else Large(es[0]) + LargeAll(es[1..])
  }

  function LargeB(p: Bl): nat
    decreases p
  {
    match p
    case Lit(_) => 0
    case Not(q) => LargeB(q)
    case Junction(_, ps) => LargeBAll(ps)
    case Conn(_, q, r) => LargeB(q) + LargeB(r)
    case IteB(q, r, s) => LargeB(q) + LargeB(r) + LargeB(s)
    case Rel(_, a, b) => Large(a) + Large(b)
    case OtherB(_, args) => LargeAll(args)
  }

  function LargeBAll(ps: seq<Bl>): nat
    decreases ps
  {
    if ps == [] then 0 else LargeB(ps[0]) + LargeBAll(ps[1..])
  }

  /** The number of nodes of a term. */
  function Size(e: Bv): nat
    decreases e
  {
    match e
    case Num(_, _) => 1
    case Var(_, _) => 1
    case Neg(_, a) => 1 + Size(a)
    case Bin(_, _, a, b) => 1 + Size(a) + Size(b)
    case Nary(_, _, args) => 1 + SizeAll(args)
    case Extract(_, _, a) => 1 + Size(a)
    case Concat(_, args) => 1 + SizeAll(args)
    case ZeroExt(_, a) => 1 + Size(a)
    case Ite(_, c, a, b) => 1 + SizeB(c) + Size(a) + Size(b)
    case App(_, _, args) => 1 + SizeAll(args)
  }

  function SizeAll(es: seq<Bv>): nat
    decreases es
  {
    if es == [] then 0 else Size(es[0]) + SizeAll(es[1..])
  }

  function SizeB(p: Bl): nat
    decreases p
  {
    match p
    case Lit(_) => 1
    case Not(q) => 1 + SizeB(q)
    case Junction(_, ps) => 1 + SizeBAll(ps)
    case Conn(_, q, r) => 1 + SizeB(q) + SizeB(r)
    case IteB(q, r, s) => 1 + SizeB(q) + SizeB(r) + SizeB(s)
    case Rel(_, a, b) => 1 + Size(a) + Size(b)
    case OtherB(_, args) => 1 + SizeAll(args)
  }

  function SizeBAll(ps: seq<Bl>): nat
    decreases ps
  {
    if ps == [] then 0 else SizeB(ps[0]) + SizeBAll(ps[1..])
  }

  lemma {:induction false} ArgMeasure(es: seq<Bv>, i: nat)
    requires i < |es|
    ensures Large(es[i]) <= LargeAll(es) && Size(es[i]) <= SizeAll(es)
  {
    if i > 0 {
      ArgMeasure(es[1..], i - 1);
    }
  }

  lemma {:induction false} ArgMeasureB(ps: seq<Bl>, i: nat)
    requires i < |ps|
    ensures LargeB(ps[i]) <= LargeBAll(ps) && SizeB(ps[i]) <= SizeBAll(ps)
  {
    if i > 0 {
      ArgMeasureB(ps[1..], i - 1);
    }
  }

  lemma {:induction false} LargeSnoc(es: seq<Bv>, e: Bv)
    ensures LargeAll(es + [e]) == LargeAll(es) + Large(e)
  {
    if es == [] {
      assert LargeAll([e]) == Large(e) + LargeAll([]);
    } else {
      LargeSnoc(es[1..], e);
      assert (es + [e])[1..] == es[1..] + [e];
    }
  }

  lemma {:induction false} LargeNestedSum(w: nat, es: seq<Bv>)
    requires w > 0
    ensures Large(NestedSum(w, es)) == LargeAll(es)
    decreases |es|
  {
    if es != [] {
      var n := |es| - 1;
      LargeNestedSum(w, es[..n]);
      LargeSnoc(es[..n], es[n]);
      assert es[..n] + [es[n]] == es;
      var s := NestedSum(w, es[..n]);
      assert [s, es[n]] == [s] + [es[n]];
      LargeSnoc([s], es[n]);
      LargeSnoc([], s);
      assert [] + [s] == [s];
    }
  }

  /** Dropping the large addends of a sum lowers the measure. */
  lemma {:induction false} RestMeasure(es: seq<Bv>)
    requires WfEach(es)
    ensures LargeAll(Rest(es)) <= LargeAll(es)
    ensures Borrow(es) > 0 ==> LargeAll(Rest(es)) < LargeAll(es)
  {
    if es != [] {
      RestMeasure(es[1..]);
      if !IsLarge(es[0]) {
        assert Rest(es)[1..] == Rest(es[1..]);
        assert LargeAll(Rest(es)) == Large(es[0]) + LargeAll(Rest(es)[1..]);
      } else {
        assert Large(es[0]) == 1;
      }
    }
  }
}
