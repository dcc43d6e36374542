// Bitvector terms and formulas of the symbolic executor, their well-formedness, and their meaning
// under a valuation of the symbols and of the uninterpreted operators.
module BvTerms {
  import opened Bits

  datatype CmpOp = CmpLt | CmpLe | CmpGt | CmpGe {
    predicate Holds(a: int, b: int) {
      match this
      case CmpLt => a < b
      case CmpLe => a <= b
      case CmpGt => a > b
      case CmpGe => a >= b
    }
  }

  datatype BinOp = Sub | Shl | Lshr | Udiv | Urem

  datatype NaryOp = Add | Mul | And

  datatype Relation = Eq | Distinct | Unsigned(op: CmpOp) | Signed(op: CmpOp)

  datatype Connective = Implies | Iff | Xor

  /** Bitvector terms; every node carries its width in bits. */
  datatype Bv =
    | Num(w: nat, value: nat)
    | Var(w: nat, name: string)
    | Neg(w: nat, a: Bv)
    | Bin(w: nat, bop: BinOp, a: Bv, b: Bv)
    | Nary(w: nat, nop: NaryOp, args: seq<Bv>)
    | Extract(w: nat, lo: nat, a: Bv)
    | Concat(w: nat, args: seq<Bv>)
    | ZeroExt(w: nat, a: Bv)
    | Ite(w: nat, c: Bl, a: Bv, b: Bv)
    // an uninterpreted function (such as f_evm_bvudiv_256) or any other operator
    | App(w: nat, name: string, args: seq<Bv>)

  datatype Bl =
    | Lit(b: bool)
    | Not(p: Bl)
    | Junction(conj: bool, ps: seq<Bl>)
    | Conn(conn: Connective, p: Bl, q: Bl)
    | IteB(p: Bl, q: Bl, r: Bl)
    | Rel(rel: Relation, x: Bv, y: Bv)
    // any other boolean term (boolean symbols, opaque predicates)
    | OtherB(name: string, args: seq<Bv>)

  /** A value of the symbolic stack: a word or a boolean. */
  datatype Term = Word(bv: Bv) | Bool(bl: Bl)

  /** An interpretation of the symbols. Uninterpreted operators may mean anything. */
  datatype Val = Val(
    vars: imap<(string, nat), nat>,
    ops: imap<(string, nat, seq<nat>), nat>,
    preds: iset<(string, seq<nat>)>)

  /** Symbols with this prefix are the loop variables; they are 256-bit words. */
  const LOOP_VAR_PREFIX := "lasso_v"

  const WORD: nat := 256

  // ---- well-formed terms ----

  predicate Wf(e: Bv)
    decreases e
  {
    && e.w > 0
    && match e
       case Num(w, v) => v < Pow2(w)
       case Var(w, x) => LOOP_VAR_PREFIX <= x ==> w == WORD
       case Neg(w, a) => Wf(a) && a.w == w
       case Bin(w, _, a, b) => Wf(a) && Wf(b) && a.w == w && b.w == w
       case Nary(w, _, args) => args != [] && forall i | 0 <= i < |args| :: Wf(args[i]) && args[i].w == w
       case Extract(w, lo, a) => Wf(a) && lo + w <= a.w
       case Concat(w, args) => args != [] && (forall i | 0 <= i < |args| :: Wf(args[i])) && w == SumWidths(args)
       case ZeroExt(w, a) => Wf(a) && a.w <= w
       case Ite(w, c, a, b) => WfB(c) && Wf(a) && Wf(b) && a.w == w && b.w == w
       case App(w, f, args) =>
         && args != []
         && (forall i | 0 <= i < |args| :: Wf(args[i]))
         && (|args| == 2 && IsArithmetic(f) ==> args[0].w == w && args[1].w == w)
  }

  predicate WfB(p: Bl)
    decreases p
  {
    match p
    case Lit(_) => true
    case Not(q) => WfB(q)
    case Junction(_, ps) => forall i | 0 <= i < |ps| :: WfB(ps[i])
    case Conn(_, q, r) => WfB(q) && WfB(r)
    case IteB(q, r, s) => WfB(q) && WfB(r) && WfB(s)
    case Rel(_, a, b) => Wf(a) && Wf(b) && a.w == b.w
    case OtherB(_, args) => forall i | 0 <= i < |args| :: Wf(args[i])
  }

  // These three are not part of the recursion above.

  predicate WfEach(es: seq<Bv>) {
    forall i | 0 <= i < |es| :: Wf(es[i])
  }

  predicate WfAll(es: seq<Bv>, w: nat) {
    forall i | 0 <= i < |es| :: Wf(es[i]) && es[i].w == w
  }

  predicate WfBAll(ps: seq<Bl>) {
    forall i | 0 <= i < |ps| :: WfB(ps[i])
  }

  predicate WfTerm(t: Term) {
    match t
    case Word(e) => Wf(e)
    case Bool(p) => WfB(p)
  }

  function SumWidths(es: seq<Bv>): nat {
    if es == [] then 0 else SumWidths(es[..|es| - 1]) + es[|es| - 1].w
  }

  // ---- the abstractions of nonlinear arithmetic ----

  const UDIV_ABSTRACTION := "f_evm_bvudiv"
  const UREM_ABSTRACTION := "f_evm_bvurem"
  const MUL_ABSTRACTION := "f_evm_bvmul"

  /** The abstracted operations whose operands have the width of the result. */
  predicate IsArithmetic(f: string) {
    UDIV_ABSTRACTION <= f || UREM_ABSTRACTION <= f || MUL_ABSTRACTION <= f
  }

  // ---- operations on values ----

  function ToSigned(v: int, w: nat): int
    requires w > 0
  {
    if v >= Pow2(w - 1) then v - Pow2(w) else v
  }

  /** x mod 2^w. */
  function Mod2(x: int, w: nat): (v: nat)
    ensures v < Pow2(w)
  {
    Rem(x, Pow2(w))
  }

  function Times(a: nat, b: nat): nat {
    MulStep(a, b);
    a * b
  }

  /** Operators of the SMT-LIB theory of bitvectors, on two operands below 2^w. */
  function BinValue(op: BinOp, a: nat, b: nat, w: nat): (v: nat)
    requires a < Pow2(w)
    ensures v < Pow2(w)
  {
    match op
    case Sub => Mod2(a - b, w)
    case Shl => if b >= w then 0 else Mod2(Times(a, Pow2(b)), w)
    case Lshr => if b >= w then 0 else Quot(a, Pow2(b))
    case Udiv => if b == 0 then Pow2(w) - 1 else Quot(a, b)
    case Urem => if b == 0 then a else Rem(a, b)
  }

  function Sum(vs: seq<nat>): nat {
    if vs == [] then 0 else vs[0] + Sum(vs[1..])
  }

  function Product(vs: seq<nat>): nat {
    if vs == [] then 1 else Times(vs[0], Product(vs[1..]))
  }

  function Ands(vs: seq<nat>): nat
    requires vs != []
  {
    if |vs| == 1 then vs[0] else BitAnd(vs[0], Ands(vs[1..]))
  }

  function NaryValue(op: NaryOp, vs: seq<nat>, w: nat): (v: nat)
    requires vs != []
    ensures v < Pow2(w)
  {
    match op
    case Add => Mod2(Sum(vs), w)
    case Mul => Mod2(Product(vs), w)
    case And => Mod2(Ands(vs), w)
  }

  /** Big-endian concatenation of fields of the given widths. */
  function ConcatValue(vs: seq<nat>, es: seq<Bv>): nat
    requires |vs| == |es|
  {
    if vs == [] then 0 else
    var n := |vs| - 1;
    Times(Pow2(es[n].w), ConcatValue(vs[..n], es[..n])) + vs[n]
  }

  function RelValue(rel: Relation, a: nat, b: nat, w: nat): bool
    requires w > 0
  {
    match rel
    case Eq => a == b
    case Distinct => a != b
    case Unsigned(op) => op.Holds(a, b)
    case Signed(op) => op.Holds(ToSigned(a, w), ToSigned(b, w))
  }

  predicate ConnValue(conn: Connective, a: bool, b: bool) {
    match conn
    case Implies => a ==> b
    case Iff => a <==> b
    case Xor => a != b
  }

  ghost function VarValue(rho: Val, name: string, w: nat): (v: nat)
    ensures v < Pow2(w)
  {
    Mod2(if (name, w) in rho.vars then rho.vars[(name, w)] else 0, w)
  }

  /** The abstractions are read as the EVM operations, where x / 0 = x % 0 = 0. */
  ghost function AppValue(f: string, vs: seq<nat>, w: nat, rho: Val): (v: nat)
    ensures v < Pow2(w)
  {
    Mod2(if |vs| == 2 && UDIV_ABSTRACTION <= f then
           if vs[1] == 0 then 0 else Quot(vs[0], vs[1])
         else if |vs| == 2 && UREM_ABSTRACTION <= f then
           if vs[1] == 0 then 0 else Rem(vs[0], vs[1])
         else if |vs| == 2 && MUL_ABSTRACTION <= f then
           Times(vs[0], vs[1])
         else if (f, w, vs) in rho.ops then rho.ops[(f, w, vs)] else 0, w)
  }

  // ---- meaning ----

  ghost function Eval(e: Bv, rho: Val): (v: nat)
    requires Wf(e)
    ensures v < Pow2(e.w)
    decreases e
  {
    match e
    case Num(_, v) => v
    case Var(_, x) => VarValue(rho, x, e.w)
    case Neg(_, a) => Mod2(0 - Eval(a, rho), e.w)
    case Bin(_, op, a, b) => BinValue(op, Eval(a, rho), Eval(b, rho), e.w)
    case Nary(_, op, args) => NaryValue(op, Values(args, rho), e.w)
    case Extract(_, lo, a) => Mod2(Quot(Eval(a, rho), Pow2(lo)), e.w)
    case Concat(_, args) => Mod2(ConcatValue(Values(args, rho), args), e.w)
    case ZeroExt(_, a) => Pow2Mono(a.w, e.w); Eval(a, rho)
    case Ite(_, c, a, b) => if EvalB(c, rho) then Eval(a, rho) else Eval(b, rho)
    case App(_, f, args) => AppValue(f, Values(args, rho), e.w, rho)
  }

  ghost predicate EvalB(p: Bl, rho: Val)
    requires WfB(p)
    decreases p
  {
    match p
    case Lit(b) => b
    case Not(q) => !EvalB(q, rho)
    case Junction(true, ps) => forall i | 0 <= i < |ps| :: EvalB(ps[i], rho)
    case Junction(false, ps) => exists i :: 0 <= i < |ps| && EvalB(ps[i], rho)
    case Conn(conn, q, r) => ConnValue(conn, EvalB(q, rho), EvalB(r, rho))
    case IteB(q, r, s) => if EvalB(q, rho) then EvalB(r, rho) else EvalB(s, rho)
    case Rel(rel, a, b) => RelValue(rel, Eval(a, rho), Eval(b, rho), a.w)
    case OtherB(f, args) => (f, Values(args, rho)) in rho.preds
  }

  ghost function Values(es: seq<Bv>, rho: Val): (vs: seq<nat>)
    requires WfEach(es)
    ensures |vs| == |es|
    decreases es
  {
    seq(|es|, i requires 0 <= i < |es| => Eval(es[i], rho))
  }

  /** The number that a term stands for on the integer side: a boolean is 0 or 1. */
  ghost function EvalTerm(t: Term, rho: Val): nat
    requires WfTerm(t)
  {
    match t
    case Word(e) => Eval(e, rho)
    case Bool(p) => if EvalB(p, rho) then 1 else 0
  }

  ghost predicate Model(ps: seq<Bl>, rho: Val)
    requires WfBAll(ps)
  {
    forall i | 0 <= i < |ps| :: EvalB(ps[i], rho)
  }
}
