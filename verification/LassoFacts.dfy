// The formulas of a lasso, and the integer assignments that make them true: conjunctions, ranges,
// the order of the constants, and inputs read back from an assignment.
module LassoFacts {
  import opened Bits
  import opened BvTerms
  import opened IntTerms
  import opened IntFacts
  import opened Encoding
  import opened NodeMeanings
  import opened Translation

  // ---- conjunctions ----

  function WithoutTrue(fs: seq<Ib>): seq<Ib> {
    if fs == [] then [] else
    (if fs[0] == BoolLit(true) then [] else [fs[0]]) + WithoutTrue(fs[1..])
  }

  function Conj(fs: seq<Ib>): Ib {
    var ps := WithoutTrue(fs);
    if ps == [] then BoolLit(true) else if |ps| == 1 then ps[0] else AllOf(ps)
  }

  lemma {:induction false} WithoutTrueHolds(fs: seq<Ib>, sigma: Sigma)
    ensures AllHold(WithoutTrue(fs), sigma) <==> AllHold(fs, sigma)
  {
    hide EvalI;
    if fs != [] {
      WithoutTrueHolds(fs[1..], sigma);
      var rest := WithoutTrue(fs[1..]);
      ConsHolds(fs[0], fs[1..], sigma);
      assert [fs[0]] + fs[1..] == fs;
      if fs[0] != BoolLit(true) {
        ConsHolds(fs[0], rest, sigma);
        assert WithoutTrue(fs) == [fs[0]] + rest;
      } else {
        assert WithoutTrue(fs) == rest;
      }
    }
  }

  lemma ConsHolds(f: Ib, fs: seq<Ib>, sigma: Sigma)
    ensures AllHold([f] + fs, sigma) <==> Holds(f, sigma) && AllHold(fs, sigma)
  {
    hide Holds;
    if AllHold([f] + fs, sigma) {
      assert ([f] + fs)[0] == f;
      assert forall i | 0 <= i < |fs| :: ([f] + fs)[i + 1] == fs[i];
    }
  }

  lemma AppendHolds(fs: seq<Ib>, gs: seq<Ib>, sigma: Sigma)
    ensures AllHold(fs + gs, sigma) <==> AllHold(fs, sigma) && AllHold(gs, sigma)
  {
    hide Holds;
    if AllHold(fs + gs, sigma) {
      assert forall i | 0 <= i < |fs| :: (fs + gs)[i] == fs[i];
      assert forall i | 0 <= i < |gs| :: (fs + gs)[|fs| + i] == gs[i];
    }
  }

  lemma AllOfHolds(fs: seq<Ib>, sigma: Sigma)
    ensures Holds(AllOf(fs), sigma) <==> AllHold(fs, sigma)
  {
    hide EvalI;
  }

  lemma ConjHolds(fs: seq<Ib>, sigma: Sigma)
    ensures Holds(Conj(fs), sigma) <==> AllHold(fs, sigma)
  {
    hide EvalI, Holds;
    WithoutTrueHolds(fs, sigma);
    var ps := WithoutTrue(fs);
    AllOfHolds(ps, sigma);
    assert Holds(BoolLit(true), sigma) by {
      TrueHolds(sigma);
    }
    if |ps| == 1 {
      assert AllHold(ps, sigma) <==> Holds(ps[0], sigma);
    }
  }

  lemma TrueHolds(sigma: Sigma)
    ensures Holds(BoolLit(true), sigma)
  {
  }

  // ---- small formulas ----

  predicate AllSmall(fs: seq<Ib>) {
    forall i | 0 <= i < |fs| :: SmallF(fs[i])
  }

  lemma {:induction false} ConjSmall(fs: seq<Ib>)
    requires AllSmall(fs)
    ensures SmallF(Conj(fs)) && AllSmall(WithoutTrue(fs))
  {
    if fs != [] {
      ConjSmall(fs[1..]);
    }
    AllOfSmall(WithoutTrue(fs));
  }

  lemma AllOfSmall(fs: seq<Ib>)
    requires AllSmall(fs)
    ensures SmallF(AllOf(fs)) && SmallF(AnyOf(fs))
  {
  }

  // ---- ranges ----

  /** A program variable and its width. */
  datatype Typed = Typed(x: Name, w: nat)

  function Ranges(xs: seq<Typed>, small: bool): seq<Ib> {
    if xs == [] then [] else Ranges(xs[..|xs| - 1], small) + RangeOf(xs[|xs| - 1].x, xs[|xs| - 1].w, small)
  }

  ghost predicate WithinRange(x: Typed, small: bool, sigma: Sigma) {
    && Look(sigma, x.x) >= 0
    && (!small || Pow2(x.w) <= MAX_SMALL_CONSTANT ==> Look(sigma, x.x) < Pow2(x.w))
  }

  lemma {:induction false} RangesHold(xs: seq<Typed>, small: bool, sigma: Sigma)
    ensures AllHold(Ranges(xs, small), sigma) <==> forall i | 0 <= i < |xs| :: WithinRange(xs[i], small, sigma)
    decreases |xs|
  {
    hide Holds, Pow2;
    if xs != [] {
      var n := |xs| - 1;
      RangesHold(xs[..n], small, sigma);
      AppendHolds(Ranges(xs[..n], small), RangeOf(xs[n].x, xs[n].w, small), sigma);
      RangeMeans(xs[n], small, sigma);
      assert forall i | 0 <= i < n :: xs[..n][i] == xs[i];
    }
  }

  lemma RangeMeans(x: Typed, small: bool, sigma: Sigma)
    ensures AllHold(RangeOf(x.x, x.w, small), sigma) <==> WithinRange(x, small, sigma)
  {
    hide Pow2;
    var lower, upper := Cmp(CmpLe, IntLit(0), IntVar(x.x)), Cmp(CmpLt, IntVar(x.x), IntLit(Pow2(x.w)));
    assert Holds(lower, sigma) <==> Look(sigma, x.x) >= 0;
    assert Holds(upper, sigma) <==> Look(sigma, x.x) < Pow2(x.w);
    BothHold(lower, upper, sigma);
    ConsHolds(lower, [], sigma);
    assert [lower] + [] == [lower] && [lower] + [upper] == [lower, upper];
  }

  /**
   * The two modes differ on the range of a variable precisely if it is wide and at or above its
   * bound; for every wide variable there is such an assignment.
   */
  lemma SmallRangesAreLoose(x: Typed, sigma: Sigma)
    ensures AllHold(RangeOf(x.x, x.w, false), sigma) <==> 0 <= Look(sigma, x.x) < Pow2(x.w)
    ensures AllHold(RangeOf(x.x, x.w, true), sigma) && !AllHold(RangeOf(x.x, x.w, false), sigma) <==>
              Pow2(x.w) > MAX_SMALL_CONSTANT && Look(sigma, x.x) >= Pow2(x.w)
    ensures (exists loose: Sigma :: AllHold(RangeOf(x.x, x.w, true), loose) && !AllHold(RangeOf(x.x, x.w, false), loose)) <==>
              Pow2(x.w) > MAX_SMALL_CONSTANT
  {
    hide Pow2, Holds, RangeOf;
    RangeMeans(x, true, sigma);
    RangeMeans(x, false, sigma);
    var above: Sigma := sigma[x.x := Pow2(x.w)];
    RangeMeans(x, true, above);
    RangeMeans(x, false, above);
    if loose: Sigma :| AllHold(RangeOf(x.x, x.w, true), loose) && !AllHold(RangeOf(x.x, x.w, false), loose) {
      RangeMeans(x, true, loose);
      RangeMeans(x, false, loose);
    }
    if Pow2(x.w) > MAX_SMALL_CONSTANT {
      assert Look(above, x.x) == Pow2(x.w);
      assert AllHold(RangeOf(x.x, x.w, true), above) && !AllHold(RangeOf(x.x, x.w, false), above);
    }
  }

  lemma {:induction false} RangesSmall(xs: seq<Typed>)
    ensures AllSmall(Ranges(xs, true))
    decreases |xs|
  {
    if xs != [] {
      var n := |xs| - 1;
      RangesSmall(xs[..n]);
      RangeHolds(xs[n].x, xs[n].w, true);
    }
  }

  function LoopVars(n: nat): seq<Typed> {
    if n == 0 then [] else LoopVars(n - 1) + [Typed(Input(n - 1), WORD), Typed(Output(n - 1), WORD)]
  }

  function EntryVars(n: nat): seq<Typed> {
    seq(n, i requires 0 <= i < n => Typed(Entry(i), WORD))
  }

  function InvariantVars(invs: seq<Bv>, stem: bool): seq<Typed> {
    seq(|invs|, j requires 0 <= j < |invs| => Typed(Invariant(j, stem), invs[j].w))
  }

  lemma {:induction false} LoopVarsAt(n: nat, i: nat)
    requires i < n
    ensures |LoopVars(n)| == 2 * n
    ensures LoopVars(n)[2 * i] == Typed(Input(i), WORD) && LoopVars(n)[2 * i + 1] == Typed(Output(i), WORD)
  {
    if n > 1 {
      LoopVarsAt(n - 1, if i < n - 1 then i else 0);
    }
  }

  lemma {:induction false} LoopVarsOnly(n: nat, k: nat)
    requires k < |LoopVars(n)|
    ensures exists i :: 0 <= i < n && (LoopVars(n)[k] == Typed(Input(i), WORD) || LoopVars(n)[k] == Typed(Output(i), WORD))
  {
    if k < |LoopVars(n - 1)| {
      LoopVarsOnly(n - 1, k);
    }
  }

  // ---- the order of the constants ----

  /** The indices of the constants, by increasing value. */
  predicate Increasing(order: seq<nat>, consts: seq<nat>) {
    && (forall k | 0 <= k < |order| :: order[k] < |consts|)
    && (forall k | 0 <= k < |order| - 1 :: consts[order[k]] < consts[order[k + 1]])
  }

  function Insert(order: seq<nat>, consts: seq<nat>, i: nat): (r: seq<nat>)
    requires i < |consts| && forall k | 0 <= k < |order| :: order[k] < |consts|
    ensures |r| == |order| + 1 && multiset(r) == multiset(order) + multiset{i}
    ensures forall k | 0 <= k < |r| :: r[k] < |consts|
  {
    if order == [] || consts[i] < consts[order[0]] then [i] + order else
    assert order == [order[0]] + order[1..];
    [order[0]] + Insert(order[1..], consts, i)
  }

  lemma {:induction false} InsertIncreasing(order: seq<nat>, consts: seq<nat>, i: nat)
    requires i < |consts| && Increasing(order, consts)
    requires forall k | 0 <= k < |order| :: consts[order[k]] != consts[i]
    ensures Increasing(Insert(order, consts, i), consts)
    ensures order != [] && consts[order[0]] < consts[i] ==> Insert(order, consts, i)[0] == order[0]
  {
    if order != [] && consts[i] >= consts[order[0]] {
      var tail := order[1..];
      assert forall k | 0 <= k < |tail| :: tail[k] == order[k + 1];
      InsertIncreasing(tail, consts, i);
      var r := Insert(tail, consts, i);
      assert tail == [] || consts[i] < consts[tail[0]] ==> r[0] == i;
    }
  }

  function SortedBelow(consts: seq<nat>, n: nat): (r: seq<nat>)
    requires n <= |consts|
    ensures |r| == n
    ensures forall k | 0 <= k < |r| :: r[k] < n
  {
    if n == 0 then [] else
    var r := Insert(SortedBelow(consts, n - 1), consts, n - 1);
    assert forall k | 0 <= k < |r| :: r[k] in multiset(r);
    r
  }

  lemma {:induction false} SortedIncreasing(consts: seq<nat>, n: nat)
    requires n <= |consts| && Unique(consts)
    ensures Increasing(SortedBelow(consts, n), consts)
  {
    hide Increasing, SortedBelow, Insert, Unique;
    SortedStep(consts, n);
    if n > 0 {
      SortedIncreasing(consts, n - 1);
      BelowDiffers(consts, SortedBelow(consts, n - 1), n - 1);
      InsertIncreasing(SortedBelow(consts, n - 1), consts, n - 1);
    }
  }

  lemma SortedStep(consts: seq<nat>, n: nat)
    requires n <= |consts|
    ensures n == 0 ==> Increasing(SortedBelow(consts, n), consts)
    ensures n > 0 ==> SortedBelow(consts, n) == Insert(SortedBelow(consts, n - 1), consts, n - 1)
  {
    hide Insert;
  }

  lemma BelowDiffers(consts: seq<nat>, order: seq<nat>, n: nat)
    requires n < |consts| && Unique(consts) && forall k | 0 <= k < |order| :: order[k] < n
    ensures forall k | 0 <= k < |order| :: consts[order[k]] != consts[n]
  {
  }

  /** 0 <= c and the strict order of the constants; nothing without constants. */
  function OrderOf(order: seq<nat>, stem: bool): seq<Ib> {
    if order == [] then [] else
    [Cmp(CmpLe, IntLit(0), IntVar(Constant(order[0], stem)))] +
    seq(|order| - 1, k requires 0 <= k < |order| - 1 =>
          Cmp(CmpLt, IntVar(Constant(order[k], stem)), IntVar(Constant(order[k + 1], stem))))
  }

  lemma OrderHolds(order: seq<nat>, consts: seq<nat>, stem: bool, sigma: Sigma)
    requires Increasing(order, consts)
    requires forall j | 0 <= j < |consts| :: Look(sigma, Constant(j, stem)) == consts[j]
    ensures AllHold(OrderOf(order, stem), sigma)
  {
  }

  lemma {:induction false} SortedHasAll(consts: seq<nat>, n: nat, i: nat)
    requires i < n <= |consts|
    ensures i in SortedBelow(consts, n)
  {
    hide Insert;
    SortedStep(consts, n);
    var order := SortedBelow(consts, n - 1);
    if i < n - 1 {
      SortedHasAll(consts, n - 1, i);
    }
    assert i in multiset(Insert(order, consts, n - 1));
  }

  lemma {:induction false} IncreasingAll(order: seq<nat>, consts: seq<nat>, a: nat, b: nat)
    requires Increasing(order, consts) && a < b < |order|
    ensures consts[order[a]] < consts[order[b]]
    decreases b
  {
    if a < b - 1 {
      IncreasingAll(order, consts, a, b - 1);
    }
    assert consts[order[b - 1]] < consts[order[b - 1 + 1]];
  }

  /** Along the order, the constant variables grow. */
  lemma {:induction false} OrderGrows(order: seq<nat>, stem: bool, sigma: Sigma, a: nat, b: nat)
    requires AllHold(OrderOf(order, stem), sigma) && a <= b < |order|
    ensures 0 <= Look(sigma, Constant(order[b], stem))
    ensures a < b ==> Look(sigma, Constant(order[a], stem)) < Look(sigma, Constant(order[b], stem))
    decreases b
  {
    var facts := OrderOf(order, stem);
    if b == 0 {
      assert Holds(facts[0], sigma);
    } else {
      OrderGrows(order, stem, sigma, if a < b then a else b - 1, b - 1);
      assert facts[b] == Cmp(CmpLt, IntVar(Constant(order[b - 1], stem)), IntVar(Constant(order[b], stem)));
      assert Holds(facts[b], sigma);
    }
  }

  /** The constant variables are not negative, and ordered as their literals. */
  ghost predicate InOrder(consts: seq<nat>, stem: bool, sigma: Sigma) {
    && (forall i | 0 <= i < |consts| :: 0 <= Look(sigma, Constant(i, stem)))
    && (forall i, j | 0 <= i < |consts| && 0 <= j < |consts| && consts[i] < consts[j] ::
          Look(sigma, Constant(i, stem)) < Look(sigma, Constant(j, stem)))
  }

  lemma OrderKnows(consts: seq<nat>, stem: bool, sigma: Sigma, i: nat, j: nat)
    requires Unique(consts) && AllHold(OrderOf(SortedBelow(consts, |consts|), stem), sigma)
    requires i < |consts| && j < |consts|
    ensures 0 <= Look(sigma, Constant(i, stem))
    ensures consts[i] < consts[j] ==> Look(sigma, Constant(i, stem)) < Look(sigma, Constant(j, stem))
  {
    hide SortedBelow, Unique, OrderOf, AllHold, Increasing;
    var order := SortedBelow(consts, |consts|);
    SortedIncreasing(consts, |consts|);
    SortedHasAll(consts, |consts|, i);
    SortedHasAll(consts, |consts|, j);
    var a :| 0 <= a < |order| && order[a] == i;
    var b :| 0 <= b < |order| && order[b] == j;
    OrderGrows(order, stem, sigma, a, a);
    if a < b {
      OrderGrows(order, stem, sigma, a, b);
    } else if b < a {
      IncreasingAll(order, consts, b, a);
    }
  }

  lemma OrderSuffices(order: seq<nat>, consts: seq<nat>, stem: bool, sigma: Sigma)
    requires Increasing(order, consts) && InOrder(consts, stem, sigma)
    ensures AllHold(OrderOf(order, stem), sigma)
  {
    hide InOrder, Look;
    if order != [] {
      InOrderAt(consts, stem, sigma, order[0], order[0]);
    }
    forall k | 0 <= k < |order| - 1
      ensures Look(sigma, Constant(order[k], stem)) < Look(sigma, Constant(order[k + 1], stem))
    {
      InOrderAt(consts, stem, sigma, order[k], order[k + 1]);
    }
  }

  lemma InOrderAt(consts: seq<nat>, stem: bool, sigma: Sigma, i: nat, j: nat)
    requires InOrder(consts, stem, sigma) && i < |consts| && j < |consts|
    ensures 0 <= Look(sigma, Constant(i, stem))
    ensures consts[i] < consts[j] ==> Look(sigma, Constant(i, stem)) < Look(sigma, Constant(j, stem))
  {
  }

  /** This is all that is asserted of them. */
  lemma OrderMeans(consts: seq<nat>, stem: bool, sigma: Sigma)
    requires Unique(consts)
    ensures AllHold(OrderOf(SortedBelow(consts, |consts|), stem), sigma) <==> InOrder(consts, stem, sigma)
  {
    hide SortedBelow, Unique, OrderOf, AllHold, Increasing, InOrder;
    SortedIncreasing(consts, |consts|);
    if InOrder(consts, stem, sigma) {
      OrderSuffices(SortedBelow(consts, |consts|), consts, stem, sigma);
    } else if AllHold(OrderOf(SortedBelow(consts, |consts|), stem), sigma) {
      OrderAll(consts, stem, sigma);
      assert false;
    }
  }

  lemma OrderAll(consts: seq<nat>, stem: bool, sigma: Sigma)
    requires Unique(consts) && AllHold(OrderOf(SortedBelow(consts, |consts|), stem), sigma)
    ensures InOrder(consts, stem, sigma)
  {
    hide SortedBelow, Unique, OrderOf, AllHold;
    forall i, j | 0 <= i < |consts| && 0 <= j < |consts|
      ensures 0 <= Look(sigma, Constant(i, stem))
      ensures consts[i] < consts[j] ==> Look(sigma, Constant(i, stem)) < Look(sigma, Constant(j, stem))
    {
      OrderKnows(consts, stem, sigma, i, j);
    }
  }

  lemma OrderSmall(order: seq<nat>, stem: bool)
    ensures AllSmall(OrderOf(order, stem))
  {
  }

  /** A formula below the order of the constants, if there are any. */
  function Ordered(order: seq<Ib>, f: Ib): Ib {
    if order == [] then f else AllOf(order + [f])
  }

  lemma OrderedHolds(order: seq<Ib>, f: Ib, sigma: Sigma)
    ensures Holds(Ordered(order, f), sigma) <==> AllHold(order, sigma) && Holds(f, sigma)
  {
    hide Holds;
    AllOfHolds(order + [f], sigma);
    AppendHolds(order, [f], sigma);
    ConsHolds(f, [], sigma);
    assert [f] + [] == [f];
  }

  // ---- equations for the new values ----

  ghost predicate DenotesTerms(c: Context, ts: seq<It>, es: seq<Term>) {
    |ts| == |es| && forall i | 0 <= i < |es| :: WfTerm(es[i]) && Denotes(c, ts[i], TermMeaning(es[i]))
  }

  lemma ExtendsDenotesTerms(c: Context, d: Context, ts: seq<It>, es: seq<Term>)
    requires Extends(c, d) && DenotesTerms(c, ts, es)
    ensures DenotesTerms(d, ts, es)
  {
    hide Denotes, Formed, Extends;
    forall i | 0 <= i < |es|
      ensures Denotes(d, ts[i], TermMeaning(es[i]))
    {
      ExtendsDenotes(c, d, ts[i], TermMeaning(es[i]));
    }
  }

  /** (= x_i t_i) for each i */
  function Equations(xs: seq<Name>, ts: seq<It>): seq<Ib>
    requires |xs| == |ts|
  {
    seq(|xs|, i requires 0 <= i < |xs| => Same(IntVar(xs[i]), ts[i]))
  }

  lemma EquationsHold(xs: seq<Name>, ts: seq<It>, sigma: Sigma)
    requires |xs| == |ts|
    ensures AllHold(Equations(xs, ts), sigma) <==>
              forall i | 0 <= i < |xs| :: Look(sigma, xs[i]) == EvalI(ts[i], sigma)
  {
    hide EvalI;
    forall i | 0 <= i < |xs|
      ensures Holds(Equations(xs, ts)[i], sigma) <==> Look(sigma, xs[i]) == EvalI(ts[i], sigma)
    {
      VariableValue(xs[i], sigma);
    }
  }

  lemma VariableValue(x: Name, sigma: Sigma)
    ensures EvalI(IntVar(x), sigma) == Look(sigma, x)
  {
  }

  lemma EquationsSmall(xs: seq<Name>, ts: seq<It>)
    requires |xs| == |ts| && forall i | 0 <= i < |ts| :: SmallT(ts[i])
    ensures AllSmall(Equations(xs, ts))
  {
  }

  /** The equations say that the variables hold the values of the terms. */
  lemma EquationsMean(c: Context, xs: seq<Name>, ts: seq<It>, es: seq<Term>, rho: Val, sigma: Sigma)
    requires |xs| == |ts| && DenotesTerms(c, ts, es) && World(c, rho, sigma)
    ensures AllHold(Equations(xs, ts), sigma) <==>
              forall i | 0 <= i < |xs| :: Look(sigma, xs[i]) == EvalTerm(es[i], rho)
  {
    hide EvalI, Holds, World, Eval, EvalB, Wf, EvalTerm;
    EquationsHold(xs, ts, sigma);
    forall i | 0 <= i < |xs|
      ensures EvalI(ts[i], sigma) == EvalTerm(es[i], rho)
    {
      assert Denotes(c, ts[i], TermMeaning(es[i]));
    }
  }

  // ---- assignments ----

  /** The value of a lasso variable in the intended assignment. */
  ghost function NameValue(c: Context, invs: seq<Bv>, consts: seq<nat>, rho: Val,
                           inputs: seq<int>, outputs: seq<int>, x: Name): int
    requires WfEach(invs)
  {
    match x
    case Input(i) => if i < |inputs| then inputs[i] else 0
    case Entry(i) => if i < |inputs| then inputs[i] else 0
    case Output(i) => if i < |outputs| then outputs[i] else 0
    case Invariant(j, _) => if j < |invs| then Eval(invs[j], rho) else 0
    case Constant(j, _) => if j < |consts| then consts[j] else 0
    case Aux(n) => if n in c.witnesses then At(c.witnesses[n], rho) else 0
  }

  ghost function Assignment(c: Context, invs: seq<Bv>, consts: seq<nat>, rho: Val,
                            inputs: seq<int>, outputs: seq<int>): Sigma
    requires WfEach(invs)
  {
    imap x: Name :: NameValue(c, invs, consts, rho, inputs, outputs, x)
  }

  /** The loop variables are represented by the inputs. */
  ghost predicate NamesOk(names: map<Bv, Name>, rho: Val, inputs: seq<int>) {
    forall v | v in names :: Wf(v) && names[v].Input? && names[v].i < |inputs| && Eval(v, rho) == inputs[names[v].i]
  }

  /** For every valuation allowed by the prover's conditions there is an intended assignment. */
  lemma AssignmentIsIntended(c: Context, invs: seq<Bv>, consts: seq<nat>, rho: Val,
                             inputs: seq<int>, outputs: seq<int>)
    requires Sound(c) && WfEach(invs) && c.invariants <= invs && c.constants <= consts
    requires Model(c.conditions, rho) && NamesOk(c.names, rho, inputs)
    ensures Intended(c, rho, Assignment(c, invs, consts, rho, inputs, outputs))
  {
    hide EvalB, Eval, Wf, Holds, Pow2;
    var sigma := Assignment(c, invs, consts, rho, inputs, outputs);
    forall i | 0 <= i < |c.invariants|
      ensures Look(sigma, Invariant(i, c.stem)) == Eval(c.invariants[i], rho)
    {
      assert invs[i] == c.invariants[i];
    }
    forall i | 0 <= i < |c.constants|
      ensures Look(sigma, Constant(i, c.stem)) == c.constants[i]
    {
      assert consts[i] == c.constants[i];
    }
    forall v | v in c.symbols
      ensures Look(sigma, Aux(c.symbols[v])) == Eval(v, rho)
    {
      assert SymbolOk(c, v, c.symbols[v]);
    }
    assert Witnessed(c, rho, sigma);
    assert Agrees(c, rho, sigma);
  }

  // ---- reading a valuation back from an assignment ----

  /** rho, with the symbols that an auxiliary variable or an invariant stands for read from sigma. */
  ghost function Readback(c: Context, rho: Val, sigma: Sigma): Val {
    rho.(vars := imap k: (string, nat) :: ReadbackValue(c, rho, sigma, Var(k.1, k.0)))
  }

  ghost function ReadbackValue(c: Context, rho: Val, sigma: Sigma, v: Bv): nat
    requires v.Var?
  {
    var x := if v in c.symbols then Look(sigma, Aux(c.symbols[v]))
             else if c.stem && v in c.invariants then Look(sigma, Invariant(Find(c.invariants, v), true))
             else VarValue(rho, v.name, v.w);
    if x >= 0 then x else 0
  }

  lemma SymbolsApart(c: Context)
    requires Sound(c)
    ensures forall v | v in c.symbols :: v !in c.names && (c.stem ==> v !in c.invariants)
  {
    forall v | v in c.symbols
      ensures v !in c.names && (c.stem ==> v !in c.invariants)
    {
      assert SymbolOk(c, v, c.symbols[v]);
    }
  }

  /** An assignment satisfying the constraints agrees with the valuation read back from it. */
  lemma ReadbackAgrees(c: Context, rho: Val, sigma: Sigma)
    requires Sound(c) && Unique(c.invariants) && Model(c.conditions, Readback(c, rho, sigma))
    requires AllHold(c.constraints, sigma)
    requires c.small ==> forall v | v in c.symbols :: Look(sigma, Aux(c.symbols[v])) < Pow2(v.w)
    requires forall v | v in c.names :: v.Var? && v !in c.invariants && Look(sigma, c.names[v]) == Eval(v, rho)
    requires forall i | 0 <= i < |c.invariants| && c.invariants[i].Var? ::
               if c.stem then 0 <= Look(sigma, Invariant(i, true)) < Pow2(c.invariants[i].w)
               else c.invariants[i] !in c.symbols
                    && Look(sigma, Invariant(i, false)) == Eval(c.invariants[i], rho)
    ensures Agrees(c, Readback(c, rho, sigma), sigma)
  {
    hide EvalB, Holds, Pow2, Rem, Readback, Model;
    var tau := Readback(c, rho, sigma);
    SymbolsApart(c);
    forall v | v in c.symbols
      ensures Look(sigma, Aux(c.symbols[v])) == Eval(v, tau)
    {
      assert SymbolOk(c, v, c.symbols[v]);
      ReadbackVar(c, rho, sigma, v);
    }
    forall v | v in c.names
      ensures Look(sigma, c.names[v]) == Eval(v, tau)
    {
      ReadbackVar(c, rho, sigma, v);
    }
    forall i | 0 <= i < |c.invariants| && c.invariants[i].Var?
      ensures Look(sigma, Invariant(i, c.stem)) == Eval(c.invariants[i], tau)
    {
      var v := c.invariants[i];
      ReadbackVar(c, rho, sigma, v);
    }
  }

  lemma ReadbackVar(c: Context, rho: Val, sigma: Sigma, v: Bv)
    requires v.Var? && Wf(v)
    ensures ReadbackValue(c, rho, sigma, v) < Pow2(v.w) ==>
              Eval(v, Readback(c, rho, sigma)) == ReadbackValue(c, rho, sigma, v)
  {
    hide Pow2;
    assert Var(v.w, v.name) == v;
  }
}
