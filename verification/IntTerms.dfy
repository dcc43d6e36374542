// Linear integer terms and formulas of a lasso, over named integer variables, with their meaning
// under an assignment and the bound on the literals of the small encoding.
module IntTerms {
  import opened Bits
  import opened BvTerms

  /** The variables of a lasso: v0_i, v0_o, v0_s, k0, k0_s, c0, c0_s and aux1, aux2, ... */
  datatype Name =
    | Input(i: nat)
    | Output(i: nat)
    | Entry(i: nat)
    | Invariant(i: nat, stem: bool)
    | Constant(i: nat, stem: bool)
    | Aux(i: nat)

  datatype It =
    | IntLit(n: int)
    | IntVar(name: Name)
    | Plus(ts: seq<It>)
    | Minus(s: It, t: It)
    | Scaled(c: int, t: It)

  datatype Ib =
    | BoolLit(b: bool)
    | NotI(p: Ib)
    | AllOf(ps: seq<Ib>)
    | AnyOf(ps: seq<Ib>)
    | Cmp(op: CmpOp, s: It, t: It)
    | Same(s: It, t: It)

  /** An assignment of the integer variables; unlisted variables are 0. */
  type Sigma = imap<Name, int>

  ghost function Look(sigma: Sigma, x: Name): int {
    if x in sigma then sigma[x] else 0
  }

  ghost function EvalI(t: It, sigma: Sigma): int
    decreases t
  {
    match t
    case IntLit(n) => n
    case IntVar(x) => Look(sigma, x)
    case Plus(ts) => SumI(ts, sigma)
    case Minus(a, b) => EvalI(a, sigma) - EvalI(b, sigma)
    case Scaled(c, a) => Prod(c, EvalI(a, sigma))
  }

  ghost function SumI(ts: seq<It>, sigma: Sigma): int
    decreases ts
  {
    if ts == [] then 0 else EvalI(ts[0], sigma) + SumI(ts[1..], sigma)
  }

  ghost predicate Holds(p: Ib, sigma: Sigma)
    decreases p
  {
    match p
    case BoolLit(b) => b
    case NotI(q) => !Holds(q, sigma)
    case AllOf(ps) => forall i | 0 <= i < |ps| :: Holds(ps[i], sigma)
    case AnyOf(ps) => exists i :: 0 <= i < |ps| && Holds(ps[i], sigma)
    case Cmp(op, s, t) => op.Holds(EvalI(s, sigma), EvalI(t, sigma))
    case Same(s, t) => EvalI(s, sigma) == EvalI(t, sigma)
  }

  ghost predicate AllHold(ps: seq<Ib>, sigma: Sigma) {
    forall i | 0 <= i < |ps| :: Holds(ps[i], sigma)
  }

  // ---- the size of literals ----

  /** Integers up to 2^53 are exact in a double; the encoding stays below 2^52. */
  const MAX_SMALL_CONSTANT: nat := 0x10_0000_0000_0000

  /** No literal exceeds MAX_SMALL_CONSTANT. */
  predicate SmallT(t: It)
    decreases t
  {
    match t
    case IntLit(n) => n <= MAX_SMALL_CONSTANT
    case IntVar(_) => true
    case Plus(ts) => forall i | 0 <= i < |ts| :: SmallT(ts[i])
    case Minus(a, b) => SmallT(a) && SmallT(b)
    case Scaled(c, a) => c <= MAX_SMALL_CONSTANT && SmallT(a)
  }

  predicate SmallF(p: Ib)
    decreases p
  {
    match p
    case BoolLit(_) => true
    case NotI(q) => SmallF(q)
    case AllOf(ps) => forall i | 0 <= i < |ps| :: SmallF(ps[i])
    case AnyOf(ps) => forall i | 0 <= i < |ps| :: SmallF(ps[i])
    case Cmp(_, s, t) => SmallT(s) && SmallT(t)
    case Same(s, t) => SmallT(s) && SmallT(t)
  }
}
