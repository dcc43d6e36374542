// The symbols of bitvector terms: which of them a term depends on, what it keeps when the others
// change, and renaming symbols as a change of the valuation.
module Symbols {
  import opened Bits
  import opened BvTerms

  function VarNames(e: Bv): set<string>
    decreases e
  {
    match e
    case Num(_, _) => {}
    case Var(_, x) => {x}
    case Neg(_, a) => VarNames(a)
    case Bin(_, _, a, b) => VarNames(a) + VarNames(b)
    case Nary(_, _, args) => VarNamesAll(args)
    case Extract(_, _, a) => VarNames(a)
    case Concat(_, args) => VarNamesAll(args)
    case ZeroExt(_, a) => VarNames(a)
    case Ite(_, c, a, b) => VarNamesB(c) + VarNames(a) + VarNames(b)
    case App(_, _, args) => VarNamesAll(args)
  }

  function VarNamesAll(es: seq<Bv>): set<string>
    decreases es
  {
    if es == [] then {} else VarNames(es[0]) + VarNamesAll(es[1..])
  }

  function VarNamesB(p: Bl): set<string>
    decreases p
  {
    match p
    case Lit(_) => {}
    case Not(q) => VarNamesB(q)
    case Junction(_, ps) => VarNamesBAll(ps)
    case Conn(_, q, r) => VarNamesB(q) + VarNamesB(r)
    case IteB(q, r, s) => VarNamesB(q) + VarNamesB(r) + VarNamesB(s)
    case Rel(_, a, b) => VarNames(a) + VarNames(b)
    case OtherB(_, args) => VarNamesAll(args)
  }

  function VarNamesBAll(ps: seq<Bl>): set<string>
    decreases ps
  {
    if ps == [] then {} else VarNamesB(ps[0]) + VarNamesBAll(ps[1..])
  }

  function VarNamesTerm(t: Term): set<string> {
    match t
    case Word(e) => VarNames(e)
    case Bool(p) => VarNamesB(p)
  }

  lemma {:induction false} ArgNames(es: seq<Bv>, i: nat)
    requires i < |es|
    ensures VarNames(es[i]) <= VarNamesAll(es)
  {
    if i > 0 {
      ArgNames(es[1..], i - 1);
    }
  }

  lemma {:induction false} ArgNamesB(ps: seq<Bl>, i: nat)
    requires i < |ps|
    ensures VarNamesB(ps[i]) <= VarNamesBAll(ps)
  {
    if i > 0 {
      ArgNamesB(ps[1..], i - 1);
    }
  }

  // ---- a term only depends on its variables ----

  /** The two valuations agree, except possibly on variables outside `xs`. */
  ghost predicate AgreeOn(xs: set<string>, rho: Val, tau: Val) {
    && rho.ops == tau.ops
    && rho.preds == tau.preds
    && forall x, w | x in xs :: VarValue(rho, x, w) == VarValue(tau, x, w)
  }

  lemma {:induction false} EvalAgree(e: Bv, rho: Val, tau: Val)
    requires Wf(e) && AgreeOn(VarNames(e), rho, tau)
    ensures Eval(e, rho) == Eval(e, tau)
    decreases e
  {
    hide Pow2, Rem;
    match e
    case Num(_, _) =>
    case Var(_, x) =>
    case Neg(_, a) => EvalAgree(a, rho, tau);
    case Bin(_, _, a, b) => EvalAgree(a, rho, tau); EvalAgree(b, rho, tau);
    case Nary(_, _, args) => ValuesAgree(args, rho, tau);
    case Extract(_, _, a) => EvalAgree(a, rho, tau);
    case Concat(_, args) => ValuesAgree(args, rho, tau);
    case ZeroExt(_, a) => EvalAgree(a, rho, tau);
    case Ite(_, c, a, b) => EvalAgreeB(c, rho, tau); EvalAgree(a, rho, tau); EvalAgree(b, rho, tau);
    case App(_, _, args) => ValuesAgree(args, rho, tau);
  }

  lemma {:induction false} ValuesAgree(es: seq<Bv>, rho: Val, tau: Val)
    requires WfEach(es) && AgreeOn(VarNamesAll(es), rho, tau)
    ensures Values(es, rho) == Values(es, tau)
    decreases es
  {
    hide Eval;
    forall i | 0 <= i < |es|
      ensures Eval(es[i], rho) == Eval(es[i], tau)
    {
      ArgNames(es, i);
      EvalAgree(es[i], rho, tau);
    }
  }

  lemma {:induction false} EvalAgreeB(p: Bl, rho: Val, tau: Val)
    requires WfB(p) && AgreeOn(VarNamesB(p), rho, tau)
    ensures EvalB(p, rho) == EvalB(p, tau)
    decreases p
  {
    hide Pow2, Rem, Eval;
    match p
    case Lit(_) =>
    case Not(q) => EvalAgreeB(q, rho, tau);
    case Junction(_, ps) =>
      forall i | 0 <= i < |ps|
        ensures EvalB(ps[i], rho) == EvalB(ps[i], tau)
      {
        ArgNamesB(ps, i);
        EvalAgreeB(ps[i], rho, tau);
      }
    case Conn(_, q, r) => EvalAgreeB(q, rho, tau); EvalAgreeB(r, rho, tau);
    case IteB(q, r, s) => EvalAgreeB(q, rho, tau); EvalAgreeB(r, rho, tau); EvalAgreeB(s, rho, tau);
    case Rel(_, a, b) => EvalAgree(a, rho, tau); EvalAgree(b, rho, tau);
    case OtherB(_, args) => ValuesAgree(args, rho, tau);
  }

  // ---- renaming variables of one width, as z3's substitute ----

  function Rename(e: Bv, width: nat, to: map<string, string>): Bv
    decreases e
  {
    match e
    case Num(_, _) => e
    case Var(w, x) => if w == width && x in to then Var(w, to[x]) else e
    case Neg(w, a) => Neg(w, Rename(a, width, to))
    case Bin(w, op, a, b) => Bin(w, op, Rename(a, width, to), Rename(b, width, to))
    case Nary(w, op, args) => Nary(w, op, RenameAll(args, width, to))
    case Extract(w, lo, a) => Extract(w, lo, Rename(a, width, to))
    case Concat(w, args) => Concat(w, RenameAll(args, width, to))
    case ZeroExt(w, a) => ZeroExt(w, Rename(a, width, to))
    case Ite(w, c, a, b) => Ite(w, RenameB(c, width, to), Rename(a, width, to), Rename(b, width, to))
    case App(w, f, args) => App(w, f, RenameAll(args, width, to))
  }

  function RenameAll(es: seq<Bv>, width: nat, to: map<string, string>): (r: seq<Bv>)
    ensures |r| == |es|
    decreases es
  {
    seq(|es|, i requires 0 <= i < |es| => Rename(es[i], width, to))
  }

  function RenameB(p: Bl, width: nat, to: map<string, string>): Bl
    decreases p
  {
    match p
    case Lit(_) => p
    case Not(q) => Not(RenameB(q, width, to))
    case Junction(conj, ps) =>
      Junction(conj, seq(|ps|, i requires 0 <= i < |ps| => RenameB(ps[i], width, to)))
    case Conn(conn, q, r) => Conn(conn, RenameB(q, width, to), RenameB(r, width, to))
    case IteB(q, r, s) => IteB(RenameB(q, width, to), RenameB(r, width, to), RenameB(s, width, to))
    case Rel(rel, a, b) => Rel(rel, Rename(a, width, to), Rename(b, width, to))
    case OtherB(f, args) => OtherB(f, RenameAll(args, width, to))
  }

  /** tau gives each renamed variable the value that rho gives to its new name. */
  ghost predicate Renamed(width: nat, to: map<string, string>, rho: Val, tau: Val) {
    && rho.ops == tau.ops
    && rho.preds == tau.preds
    && forall x, w :: VarValue(tau, x, w) == VarValue(rho, if w == width && x in to then to[x] else x, w)
  }

  lemma {:induction false} RenameMeans(e: Bv, width: nat, to: map<string, string>, rho: Val, tau: Val)
    requires Wf(e) && width == WORD && Renamed(width, to, rho, tau)
    ensures Wf(Rename(e, width, to)) && Rename(e, width, to).w == e.w
    ensures Eval(Rename(e, width, to), rho) == Eval(e, tau)
    decreases e
  {
    hide Pow2, Rem, SumWidths, BinValue, NaryValue, ConcatValue, AppValue, Quot, Mod2;
    match e
    case Num(_, _) =>
    case Var(_, x) =>
    case Neg(_, a) => RenameMeans(a, width, to, rho, tau);
    case Bin(_, _, a, b) => RenameMeans(a, width, to, rho, tau); RenameMeans(b, width, to, rho, tau);
    case Nary(_, _, args) => RenameMeansAll(args, width, to, rho, tau);
    case Extract(_, _, a) => RenameMeans(a, width, to, rho, tau);
    case Concat(_, args) =>
      RenameMeansAll(args, width, to, rho, tau);
      RenameWidths(args, RenameAll(args, width, to), Values(args, tau));
    case ZeroExt(_, a) => RenameMeans(a, width, to, rho, tau);
    case Ite(_, c, a, b) =>
      RenameMeansB(c, width, to, rho, tau);
      RenameMeans(a, width, to, rho, tau);
      RenameMeans(b, width, to, rho, tau);
    case App(_, f, args) =>
      RenameMeansAll(args, width, to, rho, tau);
      AppSame(f, Values(args, tau), e.w, rho, tau);
  }

  lemma AppSame(f: string, vs: seq<nat>, w: nat, rho: Val, tau: Val)
    requires rho.ops == tau.ops
    ensures AppValue(f, vs, w, rho) == AppValue(f, vs, w, tau)
  {
  }

  lemma {:induction false} RenameWidths(es: seq<Bv>, fs: seq<Bv>, vs: seq<nat>)
    requires |es| == |fs| == |vs| && forall i | 0 <= i < |es| :: es[i].w == fs[i].w
    ensures SumWidths(es) == SumWidths(fs) && ConcatValue(vs, es) == ConcatValue(vs, fs)
    decreases |es|
  {
    hide Pow2, Times;
    if es != [] {
      var n := |es| - 1;
      RenameWidths(es[..n], fs[..n], vs[..n]);
    }
  }

  lemma {:induction false} RenameMeansAll(es: seq<Bv>, width: nat, to: map<string, string>, rho: Val, tau: Val)
    requires WfEach(es) && width == WORD && Renamed(width, to, rho, tau)
    ensures WfEach(RenameAll(es, width, to))
    ensures forall i | 0 <= i < |es| :: RenameAll(es, width, to)[i].w == es[i].w
    ensures Values(RenameAll(es, width, to), rho) == Values(es, tau)
    decreases es
  {
    hide Eval, Wf;
    forall i | 0 <= i < |es|
      ensures Wf(Rename(es[i], width, to)) && Rename(es[i], width, to).w == es[i].w
      ensures Eval(Rename(es[i], width, to), rho) == Eval(es[i], tau)
    {
      RenameMeans(es[i], width, to, rho, tau);
    }
  }

  lemma {:induction false} RenameMeansB(p: Bl, width: nat, to: map<string, string>, rho: Val, tau: Val)
    requires WfB(p) && width == WORD && Renamed(width, to, rho, tau)
    ensures WfB(RenameB(p, width, to))
    ensures EvalB(RenameB(p, width, to), rho) == EvalB(p, tau)
    decreases p
  {
    hide Pow2, Rem, Eval, Rename, RelValue, ConnValue;
    match p
    case Lit(_) =>
    case Not(q) => RenameMeansB(q, width, to, rho, tau);
    case Junction(_, ps) =>
      forall i | 0 <= i < |ps|
        ensures WfB(RenameB(ps[i], width, to))
        ensures EvalB(RenameB(ps[i], width, to), rho) == EvalB(ps[i], tau)
      {
        RenameMeansB(ps[i], width, to, rho, tau);
      }
      var qs := RenameB(p, width, to).ps;
      assert forall i | 0 <= i < |ps| :: qs[i] == RenameB(ps[i], width, to);
    case Conn(_, q, r) => RenameMeansB(q, width, to, rho, tau); RenameMeansB(r, width, to, rho, tau);
    case IteB(q, r, s) =>
      RenameMeansB(q, width, to, rho, tau);
      RenameMeansB(r, width, to, rho, tau);
      RenameMeansB(s, width, to, rho, tau);
    case Rel(_, a, b) => RenameMeans(a, width, to, rho, tau); RenameMeans(b, width, to, rho, tau);
    case OtherB(_, args) => RenameMeansAll(args, width, to, rho, tau);
  }
}
