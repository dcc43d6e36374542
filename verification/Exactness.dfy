// Terms that an encoding represents without an opaque part and, with small numbers only, without a
// large literal or a wrap-around that the prover does not rule out: for those the translator never
// sets the approximation flag, and the constants it shares are bare symbols. Which operands of such
// a term are of this kind again.
module Exactness {
  import opened Options
  import opened Bits
  import opened BvTerms
  import opened BvFacts
  import opened IntTerms
  import opened Prover
  import opened NodeFacts

  /** How numbers are encoded: all of them, or small ones only, with what the prover may assume. */
  datatype Mode = Unlimited | Limited(smt: Smt, conditions: seq<Bl>)

  predicate SmallEnough(m: Mode, k: nat) {
    m.Limited? ==> k <= MAX_SMALL_CONSTANT
  }

  /** A wrap-around is expressed, or the prover shows that there is none. */
  predicate Settled(m: Mode, noWrap: Bl) {
    m.Limited? ==> Proves(m.smt, m.conditions, noWrap)
  }

  predicate SettledBy(m: Mode, noWrap: Option<Bl>) {
    m.Limited? ==> noWrap.Some? && Proves(m.smt, m.conditions, noWrap.value)
  }

  /** Every operator in the term has a translation; what remains are literals and bare symbols. */
  predicate Exact(e: Bv, m: Mode) {
    match e
    case Num(_, v) => SmallEnough(m, v)
    case Var(_, _) => true
    case Neg(_, a) => Exact(a, m) && Settled(m, NegNoWrap(a))
    case Bin(_, op, a, b) =>
      Exact(a, m) && if op == Sub then Exact(b, m) && Settled(m, SubNoWrap(a, b)) else ConstOperand(op, a, b, m)
    case Nary(w, op, args) =>
      && ExactNary(w, op, args, m)
      && forall i | 0 <= i < |args| :: Folded(w, op, args, args[i]) || Exact(args[i], m)
    case Extract(w, lo, a) => Exact(a, m) && ExactBits(w, lo, a, m)
    case Concat(_, args) =>
      (ZeroFields(args) || SmallFields(args, m)) && forall i | 0 <= i < |args| :: Exact(args[i], m)
    case ZeroExt(_, a) => Exact(a, m)
    case Ite(_, c, a, b) => ExactB(c, m) && Exact(a, m) && Exact(b, m)
    case App(_, f, args) => ConstApp(f, args, m) && forall i | 0 <= i < |args| :: Exact(args[i], m)
  }

  predicate ExactB(p: Bl, m: Mode) {
    match p
    case Lit(_) => true
    case Not(q) => ExactB(q, m)
    case Junction(_, ps) => forall i | 0 <= i < |ps| :: ExactB(ps[i], m)
    case Conn(_, q, r) => ExactB(q, m) && ExactB(r, m)
    case IteB(q, r, s) => ExactB(q, m) && ExactB(r, m) && ExactB(s, m)
    case Rel(rel, x, y) => Exact(x, m) && Exact(y, m) && (rel.Signed? ==> SignsKnown(x, y, m))
    case OtherB(_, _) => false
  }

  /** A signed comparison is expressed, or is the unsigned one. */
  predicate SignsKnown(x: Bv, y: Bv, m: Mode) {
    x.w > 0 && y.w > 0 && Settled(m, BothNonNegative(x, y))
  }

  /** A multiple is expressed, or does not wrap around. */
  predicate ExactScale(x: Bv, coef: nat, m: Mode) {
    coef <= 1 || (SmallEnough(m, coef) && Settled(m, ScaleNoWrap(x, coef, x.w)))
  }

  /** A shift by a constant, or a division by a constant that is not zero. */
  predicate ConstOperand(op: BinOp, a: Bv, b: Bv, m: Mode) {
    && b.Num?
    && match op
       case Sub => false
       case Shl => b.value >= a.w || ExactScale(a, Pow2(b.value), m)
       case Lshr => b.value >= a.w || SmallEnough(m, Pow2(b.value))
       case Udiv => b.value != 0 && SmallEnough(m, b.value)
       case Urem => b.value != 0 && SmallEnough(m, b.value)
  }

  /** Large constant addends are read as a subtraction. */
  predicate Borrowed(w: nat, args: seq<Bv>)
    requires WfEach(args)
  {
    0 < Borrow(args) < Pow2(w) && |Consts(args)| < |args|
  }

  /** A constant that is not translated by itself. */
  predicate Folded(w: nat, op: NaryOp, args: seq<Bv>, e: Bv) {
    e.Num? && (op == Add ==> WfEach(args) && Borrowed(w, args) && IsLarge(e))
  }

  /** Sums do not wrap around; at most one factor is symbolic; a mask selects low bits of one term. */
  predicate ExactNary(w: nat, op: NaryOp, args: seq<Bv>, m: Mode) {
    match op
    case Add => m.Limited? ==> WfEach(args) && ExactSum(w, args, m)
    case Mul =>
      && |Others(args)| <= 1
      && var coef := Mod2(Product(Consts(args)), w);
         if Others(args) == [] then SmallEnough(m, coef) else ExactScale(Others(args)[0], coef, m)
    case And =>
      && |Consts(args)| == 1 && |Others(args)| == 1 && BitAnd(Consts(args)[0], Consts(args)[0] + 1) == 0
      && (BitLength(Consts(args)[0]) >= w || Settled(m, TruncNoWrap(Others(args)[0], BitLength(Consts(args)[0]))))
  }

  predicate ExactSum(w: nat, args: seq<Bv>, m: Mode)
    requires WfEach(args)
  {
    if Borrowed(w, args) then
      SmallEnough(m, Borrow(args)) && RestSettled(w, Rest(args), m) && Settled(m, BorrowNoWrap(args, w))
    else
      Settled(m, AddNoWrap(args, w))
  }

  /** The sum of the other addends, if there are several, does not wrap around anywhere. */
  predicate RestSettled(w: nat, rest: seq<Bv>, m: Mode) {
    |rest| == 1 || forall k | 0 < k <= |rest| :: NextSettled(w, rest, k, m)
  }

  predicate NextSettled(w: nat, rest: seq<Bv>, k: nat, m: Mode)
    requires 0 < k <= |rest|
  {
    Settled(m, AddNoWrap([NestedSum(w, rest[..k - 1]), rest[k - 1]], w))
  }

  /** Bits of a term: no large divisor, and nothing above is cut off that is not expressed. */
  predicate ExactBits(w: nat, lo: nat, a: Bv, m: Mode) {
    && (lo == 0 || SmallEnough(m, Pow2(lo)))
    && (lo + w >= a.w || Settled(m, TruncNoWrap(if lo == 0 then a else ShiftOf(a, lo), w)))
  }

  predicate ZeroFields(args: seq<Bv>) {
    forall k | 0 <= k < |args| - 1 :: args[k].Num? && args[k].value == 0
  }

  /** Every field but the first is narrow enough to scale what is before it. */
  predicate SmallFields(args: seq<Bv>, m: Mode) {
    forall i | 1 <= i < |args| :: SmallEnough(m, Pow2(args[i].w))
  }

  /** An abstraction with a constant operand. */
  predicate ConstApp(f: string, args: seq<Bv>, m: Mode) {
    && |args| == 2
    && if (UDIV_ABSTRACTION <= f || UREM_ABSTRACTION <= f) && args[1].Num? && args[1].value != 0 then
         SmallEnough(m, args[1].value)
       else
         && MUL_ABSTRACTION <= f
         && (args[0].Num? || args[1].Num?)
         && ExactScale(if args[0].Num? then args[1] else args[0], if args[0].Num? then args[0].value else args[1].value, m)
  }

  predicate ExactAll(es: seq<Bv>, m: Mode) {
    forall i | 0 <= i < |es| :: Exact(es[i], m)
  }

  predicate ExactAllB(ps: seq<Bl>, m: Mode) {
    forall i | 0 <= i < |ps| :: ExactB(ps[i], m)
  }

  predicate ExactTerm(t: Term, m: Mode) {
    match t
    case Word(e) => Exact(e, m)
    case Bool(p) => ExactB(p, m)
  }

  predicate ExactTerms(ts: seq<Term>, m: Mode) {
    forall i | 0 <= i < |ts| :: ExactTerm(ts[i], m)
  }

  predicate BareSymbols(es: seq<Bv>) {
    forall i | 0 <= i < |es| :: es[i].Var?
  }

  /** The flag is as before, and shared constants that are new are bare symbols. */
  predicate StaysExact(flag: bool, shared: seq<Bv>, flag': bool, shared': seq<Bv>) {
    flag' == flag && (BareSymbols(shared) ==> BareSymbols(shared'))
  }

  lemma StaysReflexive(flag: bool, shared: seq<Bv>)
    ensures StaysExact(flag, shared, flag, shared)
  {
  }

  lemma ExactNum(e: Bv, m: Mode)
    requires e.Num?
    ensures Exact(e, m) ==> SmallEnough(m, e.value)
  {
  }

  lemma ExactArgs(e: Bv, m: Mode)
    requires e.Concat? || e.App?
    ensures Exact(e, m) ==> ExactAll(e.args, m)
    ensures Exact(e, m) && e.Concat? ==> ZeroFields(e.args) || SmallFields(e.args, m)
    ensures Exact(e, m) && e.App? ==> ConstApp(e.name, e.args, m)
  {
  }

  /** A field of a concatenation. */
  lemma ExactField(e: Bv, i: nat, m: Mode)
    requires e.Concat? && 1 <= i < |e.args|
    ensures Exact(e, m) ==> Exact(e.args[i], m) && (ZeroFields(e.args) || SmallEnough(m, Pow2(e.args[i].w)))
  {
    hide Pow2;
  }

  /** The operands that are translated by themselves. */
  lemma ExactNode(e: Bv, m: Mode)
    requires e.Nary?
    ensures Exact(e, m) ==> ExactNary(e.w, e.nop, e.args, m)
    ensures Exact(e, m) ==> forall i | 0 <= i < |e.args| && !Folded(e.w, e.nop, e.args, e.args[i]) :: Exact(e.args[i], m)
  {
  }

  lemma ExactAddends(e: Bv, m: Mode)
    requires e.Nary? && e.nop == Add && WfEach(e.args) && !Borrowed(e.w, e.args)
    ensures Exact(e, m) ==> ExactAll(e.args, m) && Settled(m, AddNoWrap(e.args, e.w))
  {
    hide Borrowed, AddNoWrap, Wf;
  }

  lemma ExactArg(es: seq<Bv>, i: nat, m: Mode)
    requires i < |es|
    ensures ExactAll(es, m) ==> Exact(es[i], m)
  {
  }

  lemma ExactOperand(e: Bv, m: Mode)
    requires e.Neg? || e.Extract? || e.ZeroExt? || e.Bin? || e.Ite?
    ensures Exact(e, m) ==> Exact(e.a, m)
    ensures Exact(e, m) && e.Neg? ==> Settled(m, NegNoWrap(e.a))
    ensures Exact(e, m) && e.Extract? ==> ExactBits(e.w, e.lo, e.a, m)
    ensures Exact(e, m) && e.Bin? ==>
              if e.bop == Sub then Exact(e.b, m) && Settled(m, SubNoWrap(e.a, e.b)) else ConstOperand(e.bop, e.a, e.b, m)
    ensures Exact(e, m) && e.Ite? ==> ExactB(e.c, m) && Exact(e.b, m)
  {
  }

  lemma ExactParts(p: Bl, m: Mode)
    ensures ExactB(p, m) ==>
              match p
              case Lit(_) => true
              case Not(q) => ExactB(q, m)
              case Junction(_, ps) => ExactAllB(ps, m)
              case Conn(_, q, r) => ExactB(q, m) && ExactB(r, m)
              case IteB(q, r, s) => ExactB(q, m) && ExactB(r, m) && ExactB(s, m)
              case Rel(rel, x, y) => Exact(x, m) && Exact(y, m) && (rel.Signed? ==> SignsKnown(x, y, m))
              case OtherB(_, _) => false
  {
  }

  /** The sum of the rest, when large addends are read as subtractions. */
  lemma ExactRest(w: nat, es: seq<Bv>, m: Mode)
    requires w > 0 && WfAll(es, w) && Borrowed(w, es) && Exact(Nary(w, Add, es), m)
    ensures Exact(RestSum(es, w), m)
  {
    hide Borrow, Pow2, Consts, NestedSum, Wf, Exact;
    ExactNode(Nary(w, Add, es), m);
    RestExact(w, es, es, m);
    var rest := Rest(es);
    if |rest| == 1 {
      ExactArg(rest, 0, m);
    } else {
      assert m.Limited? ==> RestSettled(w, rest, m);
      RestIsSmall(es);
      RestIsWide(w, es);
      ExactNested(w, rest, |rest|, m);
      assert rest[..|rest|] == rest;
    }
  }

  /** With small numbers only, the next number is expressed exactly if the prover shows that there is one. */
  lemma IncrementExact(x: Bv, m: Mode)
    requires Wf(x) && x.Var? && x.w > 1
    ensures var next := [x, Num(x.w, 1)];
      Exact(Nary(x.w, Add, next), m) <==> m.Unlimited? || Proves(m.smt, m.conditions, AddNoWrap(next, x.w))
  {
    hide AddNoWrap, Proves;
    var one := Num(x.w, 1);
    var next := [x, one];
    Pow2Less(1, x.w);
    assert Wf(one) && Wf(x);
    NothingBorrowed(x.w, x, one);
    assert Exact(next[0], m) && Exact(next[1], m);
    assert !Folded(x.w, Add, next, next[0]) && !Folded(x.w, Add, next, next[1]);
  }

  lemma RestIsWide(w: nat, es: seq<Bv>)
    requires WfAll(es, w)
    ensures WfAll(Rest(es), w)
  {
    var _ := BorrowSplits(es, w, Val(imap[], imap[], iset{}));
  }

  lemma {:induction false} RestExact(w: nat, all: seq<Bv>, es: seq<Bv>, m: Mode)
    requires forall e | e in es :: e in all
    requires forall i | 0 <= i < |all| :: Folded(w, Add, all, all[i]) || Exact(all[i], m)
    ensures ExactAll(Rest(es), m)
  {
    hide Exact, Borrow, Consts, Pow2;
    if es != [] {
      RestExact(w, all, es[1..], m);
      assert es[0] in all;
    }
  }

  lemma {:induction false} RestIsSmall(es: seq<Bv>)
    requires WfEach(es)
    ensures WfEach(Rest(es)) && forall i | 0 <= i < |Rest(es)| :: !IsLarge(Rest(es)[i])
  {
    hide Wf, Pow2;
    if es != [] {
      RestIsSmall(es[1..]);
    }
  }

  lemma {:induction false} ExactNested(w: nat, rest: seq<Bv>, k: nat, m: Mode)
    requires w > 0 && k <= |rest| && WfAll(rest, w) && ExactAll(rest, m)
    requires forall i | 0 <= i < |rest| :: !IsLarge(rest[i])
    requires m.Limited? ==> forall i | 0 < i <= |rest| :: NextSettled(w, rest, i, m)
    ensures Exact(NestedSum(w, rest[..k]), m)
  {
    hide Pow2, AddNoWrap, Wf, Exact, Settled;
    if k > 0 {
      ExactNested(w, rest, k - 1, m);
      assert rest[..k][..k - 1] == rest[..k - 1];
      NextIsExact(w, rest, k, m);
    } else {
      ExactZero(w, m);
    }
  }

  lemma ExactZero(w: nat, m: Mode)
    ensures Exact(NestedSum(w, []), m)
  {
  }

  lemma NextIsExact(w: nat, rest: seq<Bv>, k: nat, m: Mode)
    requires w > 0 && 0 < k <= |rest| && WfAll(rest, w) && Exact(rest[k - 1], m) && !IsLarge(rest[k - 1])
    requires m.Limited? ==> NextSettled(w, rest, k, m)
    requires Exact(NestedSum(w, rest[..k - 1]), m)
    ensures Exact(Nary(w, Add, [NestedSum(w, rest[..k - 1]), rest[k - 1]]), m)
  {
    hide Wf, AddNoWrap, Settled, Pow2;
    var prev := NestedSum(w, rest[..k - 1]);
    var args := [prev, rest[k - 1]];
    EvalNestedSum(w, rest[..k - 1], Val(imap[], imap[], iset{}));
    assert Wf(prev) && Wf(rest[k - 1]);
    NothingBorrowed(w, prev, rest[k - 1]);
    assert ExactNary(w, Add, args, m);
    assert forall i | 0 <= i < |args| :: Exact(args[i], m);
  }

  lemma NothingBorrowed(w: nat, x: Bv, y: Bv)
    requires Wf(x) && Wf(y) && !IsLarge(x) && !IsLarge(y)
    ensures Borrow([x, y]) == 0 && !Borrowed(w, [x, y])
  {
    hide Wf, Pow2;
    assert [x, y][1..] == [y] && [y][1..] == [];
    assert Borrow([y]) == 0;
  }
}
