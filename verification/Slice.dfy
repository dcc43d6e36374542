// Slicing of path conditions by shared symbols.
module Slice {
  import opened Bits
  import opened BvTerms

  /** A free symbol, or an operator without a meaning of its own; equal names of different sorts differ. */
  datatype Sym =
    | WordSym(name: string, w: nat)
    | BoolSym(name: string)
    | WordOp(name: string, w: nat)
    | PredOp(name: string)

  // ---- what a term depends on ----

  function Uses(e: Bv): set<Sym>
    decreases e
  {
    match e
    case Num(_, _) => {}
    case Var(w, x) => {WordSym(x, w)}
    case Neg(_, a) => Uses(a)
    case Bin(_, _, a, b) => Uses(a) + Uses(b)
    case Nary(_, _, args) => UsesAll(args)
    case Extract(_, _, a) => Uses(a)
    case Concat(_, args) => UsesAll(args)
    case ZeroExt(_, a) => Uses(a)
    case Ite(_, c, a, b) => UsesB(c) + Uses(a) + Uses(b)
    case App(w, f, args) => UsesAll(args) + if |args| == 2 && IsArithmetic(f) then {} else {WordOp(f, w)}
  }

  function UsesAll(es: seq<Bv>): set<Sym>
    decreases es
  {
    if es == [] then {} else Uses(es[0]) + UsesAll(es[1..])
  }

  function UsesB(p: Bl): set<Sym>
    decreases p
  {
    match p
    case Lit(_) => {}
    case Not(q) => UsesB(q)
    case Junction(_, ps) => UsesBAll(ps)
    case Conn(_, q, r) => UsesB(q) + UsesB(r)
    case IteB(q, r, s) => UsesB(q) + UsesB(r) + UsesB(s)
    case Rel(_, a, b) => Uses(a) + Uses(b)
    case OtherB(f, args) => if args == [] then {BoolSym(f)} else UsesAll(args) + {PredOp(f)}
  }

  function UsesBAll(ps: seq<Bl>): set<Sym>
    decreases ps
  {
    if ps == [] then {} else UsesB(ps[0]) + UsesBAll(ps[1..])
  }

  function UsesTerm(t: Term): set<Sym> {
    match t
    case Word(e) => Uses(e)
    case Bool(p) => UsesB(p)
  }

  lemma {:induction false} UsesOfArg(es: seq<Bv>, i: nat)
    requires i < |es|
    ensures Uses(es[i]) <= UsesAll(es)
  {
    if i > 0 {
      UsesOfArg(es[1..], i - 1);
    }
  }

  lemma {:induction false} UsesOfArgB(ps: seq<Bl>, i: nat)
    requires i < |ps|
    ensures UsesB(ps[i]) <= UsesBAll(ps)
  {
    if i > 0 {
      UsesOfArgB(ps[1..], i - 1);
    }
  }

  ghost function OpValue(rho: Val, f: string, w: nat, vs: seq<nat>): nat {
    if (f, w, vs) in rho.ops then rho.ops[(f, w, vs)] else 0
  }

  ghost predicate SameAt(x: Sym, rho: Val, tau: Val) {
    match x
    case WordSym(n, w) => VarValue(rho, n, w) == VarValue(tau, n, w)
    case BoolSym(n) => (n, []) in rho.preds <==> (n, []) in tau.preds
    case WordOp(f, w) => forall vs :: OpValue(rho, f, w, vs) == OpValue(tau, f, w, vs)
    case PredOp(f) => forall vs | vs != [] :: (f, vs) in rho.preds <==> (f, vs) in tau.preds
  }

  ghost predicate SameOn(xs: set<Sym>, rho: Val, tau: Val) {
    forall x | x in xs :: SameAt(x, rho, tau)
  }

  lemma {:induction false} SameValue(e: Bv, rho: Val, tau: Val)
    requires Wf(e) && SameOn(Uses(e), rho, tau)
    ensures Eval(e, rho) == Eval(e, tau)
    decreases e
  {
    hide Pow2, Rem, SameAt;
    match e
    case Num(_, _) =>
    case Var(w, x) => SameWord(x, w, rho, tau);
    case Neg(_, a) => SameValue(a, rho, tau);
    case Bin(_, _, a, b) => SameValue(a, rho, tau); SameValue(b, rho, tau);
    case Nary(_, _, args) => SameValues(args, rho, tau);
    case Extract(_, _, a) => SameValue(a, rho, tau);
    case Concat(_, args) => SameValues(args, rho, tau);
    case ZeroExt(_, a) => SameValue(a, rho, tau);
    case Ite(_, c, a, b) => SameTruth(c, rho, tau); SameValue(a, rho, tau); SameValue(b, rho, tau);
    case App(_, f, args) => SameValues(args, rho, tau); SameApp(f, Values(args, rho), e.w, rho, tau);
  }

  lemma SameWord(x: string, w: nat, rho: Val, tau: Val)
    requires SameAt(WordSym(x, w), rho, tau)
    ensures VarValue(rho, x, w) == VarValue(tau, x, w)
  {
  }

  lemma SameApp(f: string, vs: seq<nat>, w: nat, rho: Val, tau: Val)
    requires (|vs| == 2 && IsArithmetic(f)) || SameAt(WordOp(f, w), rho, tau)
    ensures AppValue(f, vs, w, rho) == AppValue(f, vs, w, tau)
  {
    hide Pow2, Rem, Times, Quot;
    if SameAt(WordOp(f, w), rho, tau) {
      assert OpValue(rho, f, w, vs) == OpValue(tau, f, w, vs);
    }
  }

  lemma {:induction false} SameValues(es: seq<Bv>, rho: Val, tau: Val)
    requires WfEach(es) && SameOn(UsesAll(es), rho, tau)
    ensures Values(es, rho) == Values(es, tau)
    decreases es, 0
  {
    hide Eval, Pow2, SameAt;
    forall i | 0 <= i < |es|
      ensures Eval(es[i], rho) == Eval(es[i], tau)
    {
      UsesOfArg(es, i);
      SameValue(es[i], rho, tau);
    }
  }

  lemma {:induction false} SameTruth(p: Bl, rho: Val, tau: Val)
    requires WfB(p) && SameOn(UsesB(p), rho, tau)
    ensures EvalB(p, rho) == EvalB(p, tau)
    decreases p
  {
    hide Pow2, Rem, Eval, SameAt;
    match p
    case Lit(_) =>
    case Not(q) => SameTruth(q, rho, tau);
    case Junction(_, ps) => SameTruths(ps, rho, tau);
    case Conn(_, q, r) => SameTruth(q, rho, tau); SameTruth(r, rho, tau);
    case IteB(q, r, s) => SameTruth(q, rho, tau); SameTruth(r, rho, tau); SameTruth(s, rho, tau);
    case Rel(_, a, b) => SameValue(a, rho, tau); SameValue(b, rho, tau);
    case OtherB(f, args) => SamePredicate(f, args, rho, tau);
  }

  lemma {:induction false} SamePredicate(f: string, args: seq<Bv>, rho: Val, tau: Val)
    requires WfEach(args) && SameOn(UsesB(OtherB(f, args)), rho, tau)
    ensures (f, Values(args, rho)) in rho.preds <==> (f, Values(args, tau)) in tau.preds
    decreases args, 1
  {
    hide Pow2, Eval;
    if args == [] {
      assert SameAt(BoolSym(f), rho, tau);
      assert Values(args, rho) == [] == Values(args, tau);
    } else {
      assert SameAt(PredOp(f), rho, tau);
      SameValues(args, rho, tau);
    }
  }

  lemma {:induction false} SameTruths(ps: seq<Bl>, rho: Val, tau: Val)
    requires WfBAll(ps) && SameOn(UsesBAll(ps), rho, tau)
    ensures forall i | 0 <= i < |ps| :: EvalB(ps[i], rho) == EvalB(ps[i], tau)
    decreases ps
  {
    hide EvalB, Pow2, SameAt;
    forall i | 0 <= i < |ps|
      ensures EvalB(ps[i], rho) == EvalB(ps[i], tau)
    {
      UsesOfArgB(ps, i);
      SameTruth(ps[i], rho, tau);
    }
  }

  lemma SameTerm(t: Term, rho: Val, tau: Val)
    requires WfTerm(t) && SameOn(UsesTerm(t), rho, tau)
    ensures EvalTerm(t, rho) == EvalTerm(t, tau)
  {
    hide Eval, EvalB, SameOn;
    match t
    case Word(e) => SameValue(e, rho, tau);
    case Bool(p) => SameTruth(p, rho, tau);
  }

  // ---- the symbols that slicing sees ----

  predicate IsSymbol(x: Sym) {
    x.WordSym? || x.BoolSym?
  }

  function SymbolsIn(xs: set<Sym>): set<Sym> {
    set x | x in xs && IsSymbol(x)
  }

  function SymsB(p: Bl): set<Sym> {
    SymbolsIn(UsesB(p))
  }

  // ---- the slice ----

  function SeedUses(seeds: seq<Term>): set<Sym> {
    if seeds == [] then {} else UsesTerm(seeds[0]) + SeedUses(seeds[1..])
  }

  function SeedSyms(seeds: seq<Term>): set<Sym> {
    SymbolsIn(SeedUses(seeds))
  }

  /** The symbols of the seeds and of the chosen conditions. */
  function Reached(conditions: seq<Bl>, seeds: seq<Term>, chosen: set<nat>): set<Sym> {
    SeedSyms(seeds) + set i, x | i in chosen && i < |conditions| && x in SymsB(conditions[i]) :: x
  }

  /** No further condition shares a symbol with the seeds or a chosen condition. */
  predicate Closed(conditions: seq<Bl>, seeds: seq<Term>, chosen: set<nat>) {
    forall i: nat | i < |conditions| && i !in chosen ::
      SymsB(conditions[i]) !! Reached(conditions, seeds, chosen)
  }

  /** The least closed set: the conditions that transitively share symbols with the seeds. */
  ghost predicate IsSlice(conditions: seq<Bl>, seeds: seq<Term>, kept: set<nat>) {
    && (forall i | i in kept :: i < |conditions|)
    && Closed(conditions, seeds, kept)
    && forall chosen | Closed(conditions, seeds, chosen) :: kept <= chosen
  }

  function Select(conditions: seq<Bl>, chosen: set<nat>, keep: bool, n: nat): (r: seq<Bl>)
    requires n <= |conditions|
  {
    if n == 0 then [] else
    Select(conditions, chosen, keep, n - 1) + if (n - 1 in chosen) == keep then [conditions[n - 1]] else []
  }

  function Kept(conditions: seq<Bl>, chosen: set<nat>): seq<Bl> {
    Select(conditions, chosen, true, |conditions|)
  }

  function Dropped(conditions: seq<Bl>, chosen: set<nat>): seq<Bl> {
    Select(conditions, chosen, false, |conditions|)
  }

  method SliceConditions(conditions: seq<Bl>, seeds: seq<Term>) returns (slice: seq<Bl>)
    ensures exists kept :: IsSlice(conditions, seeds, kept) && slice == Kept(conditions, kept)
  {
    hide UsesB, SeedUses;
    var chosen: set<nat> := {};
    var wanted := SeedSyms(seeds);
    var changed := true;
    while changed
      invariant forall i | i in chosen :: i < |conditions|
      invariant wanted == Reached(conditions, seeds, chosen)
      invariant !changed ==> Closed(conditions, seeds, chosen)
      invariant forall other | Closed(conditions, seeds, other) :: chosen <= other
      decreases |conditions| - |chosen|, changed
    {
      changed := false;
      ghost var before := chosen;
      for i := 0 to |conditions|
        invariant forall j | j in chosen :: j < |conditions|
        invariant wanted == Reached(conditions, seeds, chosen)
        invariant before <= chosen && (!changed ==> chosen == before)
        invariant changed ==> before < chosen
        invariant !changed ==> forall j: nat | j < i && j !in chosen :: SymsB(conditions[j]) !! wanted
        invariant forall other | Closed(conditions, seeds, other) :: chosen <= other
      {
        if i !in chosen && !(SymsB(conditions[i]) !! wanted) {
          Forced(conditions, seeds, chosen, i);
          chosen := chosen + {i};
          wanted := wanted + SymsB(conditions[i]);
          changed := true;
        }
      }
      ChosenBound(chosen, |conditions|);
      ChosenBound(before, |conditions|);
      if changed {
        SmallerSet(before, chosen);
      }
    }
    assert IsSlice(conditions, seeds, chosen);
    slice := [];
    for i := 0 to |conditions|
      invariant slice == Select(conditions, chosen, true, i)
    {
      if i in chosen {
        slice := slice + [conditions[i]];
      }
    }
  }

  /** A condition that shares a symbol is in every closed set above. */
  lemma Forced(conditions: seq<Bl>, seeds: seq<Term>, chosen: set<nat>, i: nat)
    requires i < |conditions| && i !in chosen
    requires !(SymsB(conditions[i]) !! Reached(conditions, seeds, chosen))
    ensures forall other | Closed(conditions, seeds, other) && chosen <= other :: i in other
  {
    hide UsesB, SeedUses;
    var x :| x in SymsB(conditions[i]) && x in Reached(conditions, seeds, chosen);
    forall other | Closed(conditions, seeds, other) && chosen <= other
      ensures i in other
    {
      assert x in Reached(conditions, seeds, other);
    }
  }

  lemma {:induction false} ChosenBound(chosen: set<nat>, n: nat)
    requires forall i | i in chosen :: i < n
    ensures |chosen| <= n
  {
    if n > 0 {
      ChosenBound(chosen - {n - 1}, n - 1);
      if n - 1 in chosen {
        assert |chosen| == |chosen - {n - 1}| + 1;
      } else {
        assert chosen - {n - 1} == chosen;
      }
    } else {
      assert chosen == {};
    }
  }

  lemma SmallerSet(a: set<nat>, b: set<nat>)
    requires a < b
    ensures |a| < |b|
  {
    var x :| x in b && x !in a;
    assert a <= b - {x};
    SubsetSize(a, b - {x});
  }

  lemma {:induction false} SubsetSize(a: set<nat>, b: set<nat>)
    requires a <= b
    ensures |a| <= |b|
    decreases |a|
  {
    if a != {} {
      var x :| x in a;
      SubsetSize(a - {x}, b - {x});
    }
  }

  // ---- what a slice preserves ----

  lemma {:induction false} SelectModel(conditions: seq<Bl>, chosen: set<nat>, keep: bool, n: nat, rho: Val)
    requires n <= |conditions| && WfBAll(conditions)
    ensures WfBAll(Select(conditions, chosen, keep, n))
    ensures Model(Select(conditions, chosen, keep, n), rho) <==>
              forall i | 0 <= i < n && (i in chosen) == keep :: EvalB(conditions[i], rho)
  {
    hide EvalB, WfB;
    if n > 0 {
      var s := Select(conditions, chosen, keep, n - 1);
      SelectModel(conditions, chosen, keep, n - 1, rho);
      if (n - 1 in chosen) == keep {
        SnocModel(s, conditions[n - 1], rho);
      } else {
        assert Select(conditions, chosen, keep, n) == s;
      }
    }
  }

  lemma SnocModel(ps: seq<Bl>, p: Bl, rho: Val)
    requires WfBAll(ps) && WfB(p)
    ensures WfBAll(ps + [p])
    ensures Model(ps + [p], rho) <==> Model(ps, rho) && EvalB(p, rho)
  {
    hide EvalB, WfB;
    assert forall i | 0 <= i < |ps| :: (ps + [p])[i] == ps[i];
    assert (ps + [p])[|ps|] == p;
  }

  /** rho on the given symbols and operators, tau elsewhere. */
  ghost function Combined(xs: set<Sym>, rho: Val, tau: Val): Val {
    Val(imap k: (string, nat) :: VarValue(if WordSym(k.0, k.1) in xs then rho else tau, k.0, k.1),
        imap k: (string, nat, seq<nat>) :: OpValue(if WordOp(k.0, k.1) in xs then rho else tau, k.0, k.1, k.2),
        iset p: (string, seq<nat>) |
          if (if p.1 == [] then BoolSym(p.0) else PredOp(p.0)) in xs then p in rho.preds else p in tau.preds)
  }

  lemma CombinedAt(xs: set<Sym>, rho: Val, tau: Val, x: Sym)
    ensures SameAt(x, Combined(xs, rho, tau), if x in xs then rho else tau)
  {
    hide Pow2;
    var both := Combined(xs, rho, tau);
    if x.WordSym? {
      assert (x.name, x.w) in both.vars;
      ReducedTwice(if x in xs then rho else tau, x.name, x.w);
    } else if x.WordOp? {
      forall vs
        ensures OpValue(both, x.name, x.w, vs) == OpValue(if x in xs then rho else tau, x.name, x.w, vs)
      {
        assert (x.name, x.w, vs) in both.ops;
      }
    }
  }

  lemma CombinedAgrees(xs: set<Sym>, rho: Val, tau: Val, ys: set<Sym>)
    ensures ys <= xs ==> SameOn(ys, Combined(xs, rho, tau), rho)
    ensures ys !! xs ==> SameOn(ys, Combined(xs, rho, tau), tau)
  {
    hide SameAt, Combined;
    forall x | x in ys
      ensures SameAt(x, Combined(xs, rho, tau), if x in xs then rho else tau)
    {
      CombinedAt(xs, rho, tau, x);
    }
  }

  lemma ReducedTwice(rho: Val, x: string, w: nat)
    ensures Mod2(VarValue(rho, x, w), w) == VarValue(rho, x, w)
  {
    hide Pow2;
  }

  lemma {:induction false} SeedUsesInclude(seeds: seq<Term>, i: nat)
    requires i < |seeds|
    ensures UsesTerm(seeds[i]) <= SeedUses(seeds)
  {
    if i > 0 {
      SeedUsesInclude(seeds[1..], i - 1);
    }
  }

  /** What the kept, or the dropped, conditions depend on. */
  function UsedBy(conditions: seq<Bl>, chosen: set<nat>, keep: bool): set<Sym> {
    set i, x | 0 <= i < |conditions| && (i in chosen) == keep && x in UsesB(conditions[i]) :: x
  }

  function OperatorsIn(xs: set<Sym>): set<Sym> {
    set x | x in xs && !IsSymbol(x)
  }

  /** The operators that occur both on the kept and on the dropped side. */
  function SharedOperators(conditions: seq<Bl>, seeds: seq<Term>, kept: set<nat>): set<Sym> {
    OperatorsIn(SeedUses(seeds) + UsedBy(conditions, kept, true)) * UsedBy(conditions, kept, false)
  }

  /** There are none, so that any two valuations agree on them. */
  predicate OperatorsApart(conditions: seq<Bl>, seeds: seq<Term>, kept: set<nat>) {
    SharedOperators(conditions, seeds, kept) == {}
  }

  /** Nothing else occurs on both sides. */
  lemma SidesShare(conditions: seq<Bl>, seeds: seq<Term>, kept: set<nat>, x: Sym)
    requires (forall i | i in kept :: i < |conditions|) && Closed(conditions, seeds, kept)
    requires x in SeedUses(seeds) + UsedBy(conditions, kept, true) && x in UsedBy(conditions, kept, false)
    ensures x in SharedOperators(conditions, seeds, kept)
  {
    hide UsesB, SeedUses;
    var i :| 0 <= i < |conditions| && i !in kept && x in UsesB(conditions[i]);
    assert IsSymbol(x) ==> x in SymsB(conditions[i]);
    KeptReached(conditions, seeds, kept, x);
  }

  lemma KeptReached(conditions: seq<Bl>, seeds: seq<Term>, kept: set<nat>, x: Sym)
    requires forall i | i in kept :: i < |conditions|
    ensures IsSymbol(x) && x in SeedUses(seeds) + UsedBy(conditions, kept, true) ==> x in Reached(conditions, seeds, kept)
  {
    hide UsesB, SeedUses;
    if IsSymbol(x) && x in UsedBy(conditions, kept, true) {
      var j :| 0 <= j < |conditions| && j in kept && x in UsesB(conditions[j]);
      assert x in SymsB(conditions[j]);
    }
  }

  /** Models of both sides that agree on shared operators give one of all conditions that the seeds cannot tell from the first. */
  lemma SidesCombine(conditions: seq<Bl>, seeds: seq<Term>, kept: set<nat>, rho: Val, tau: Val) returns (both: Val)
    requires WfBAll(conditions)
    requires (forall i | i in kept :: i < |conditions|) && Closed(conditions, seeds, kept)
    requires SameOn(SharedOperators(conditions, seeds, kept), rho, tau)
    requires WfBAll(Kept(conditions, kept)) && Model(Kept(conditions, kept), rho)
    requires WfBAll(Dropped(conditions, kept)) && Model(Dropped(conditions, kept), tau)
    ensures Model(conditions, both) && SameOn(SeedUses(seeds), both, rho)
  {
    hide EvalB, WfB, UsesB, SeedUses, SameOn, Combined, Closed, SharedOperators;
    var xs := SeedUses(seeds) + UsedBy(conditions, kept, true);
    both := Combined(xs, rho, tau);
    SelectModel(conditions, kept, true, |conditions|, rho);
    SelectModel(conditions, kept, false, |conditions|, tau);
    CombinedAgrees(xs, rho, tau, SeedUses(seeds));
    forall i | 0 <= i < |conditions|
      ensures EvalB(conditions[i], both)
    {
      var ys := UsesB(conditions[i]);
      if i in kept {
        assert ys <= UsedBy(conditions, kept, true);
        CombinedAgrees(xs, rho, tau, ys);
        SameTruth(conditions[i], both, rho);
      } else {
        assert ys <= UsedBy(conditions, kept, false);
        CombinedDropped(conditions, seeds, kept, rho, tau, ys);
        SameTruth(conditions[i], both, tau);
      }
    }
    assert Model(conditions, both);
  }

  lemma CombinedDropped(conditions: seq<Bl>, seeds: seq<Term>, kept: set<nat>, rho: Val, tau: Val, ys: set<Sym>)
    requires (forall i | i in kept :: i < |conditions|) && Closed(conditions, seeds, kept)
    requires SameOn(SharedOperators(conditions, seeds, kept), rho, tau) && ys <= UsedBy(conditions, kept, false)
    ensures SameOn(ys, Combined(SeedUses(seeds) + UsedBy(conditions, kept, true), rho, tau), tau)
  {
    hide SameAt, Combined, UsedBy, SeedUses, Closed, SharedOperators;
    var xs := SeedUses(seeds) + UsedBy(conditions, kept, true);
    forall x | x in ys
      ensures SameAt(x, Combined(xs, rho, tau), tau)
    {
      CombinedAt(xs, rho, tau, x);
      if x in xs {
        SidesShare(conditions, seeds, kept, x);
        SameAtTransitive(x, Combined(xs, rho, tau), rho, tau);
      }
    }
  }

  lemma SameAtTransitive(x: Sym, rho: Val, tau: Val, upsilon: Val)
    requires SameAt(x, rho, tau) && SameAt(x, tau, upsilon)
    ensures SameAt(x, rho, upsilon)
  {
    hide VarValue;
  }

  /**
   * A model of the kept conditions and a model of the dropped ones combine to a model of all the
   * conditions that gives the seeds the values of the first, if they agree on the operators that
   * both sides use, which slicing does not look at.
   */
  lemma SliceCombines(conditions: seq<Bl>, seeds: seq<Term>, kept: set<nat>, rho: Val, tau: Val)
    requires WfBAll(conditions) && (forall i | 0 <= i < |seeds| :: WfTerm(seeds[i]))
    requires IsSlice(conditions, seeds, kept) && SameOn(SharedOperators(conditions, seeds, kept), rho, tau)
    requires WfBAll(Kept(conditions, kept)) && Model(Kept(conditions, kept), rho)
    requires WfBAll(Dropped(conditions, kept)) && Model(Dropped(conditions, kept), tau)
    ensures exists both: Val :: Model(conditions, both)
              && forall i | 0 <= i < |seeds| :: EvalTerm(seeds[i], both) == EvalTerm(seeds[i], rho)
  {
    hide EvalB, WfB, UsesTerm, SeedUses, Wf, EvalTerm, SharedOperators, Kept, Dropped, SameAt;
    var both := SidesCombine(conditions, seeds, kept, rho, tau);
    forall i | 0 <= i < |seeds|
      ensures EvalTerm(seeds[i], both) == EvalTerm(seeds[i], rho)
    {
      SeedUsesInclude(seeds, i);
      SameTerm(seeds[i], both, rho);
    }
  }

  /** The conditions have a model exactly if both sides have models that agree on what they share. */
  lemma SliceIsExact(conditions: seq<Bl>, seeds: seq<Term>, kept: set<nat>)
    requires WfBAll(conditions) && (forall i | 0 <= i < |seeds| :: WfTerm(seeds[i])) && IsSlice(conditions, seeds, kept)
    ensures WfBAll(Kept(conditions, kept)) && WfBAll(Dropped(conditions, kept))
    ensures (exists both: Val :: Model(conditions, both)) <==>
              exists rho: Val, tau: Val ::
                && Model(Kept(conditions, kept), rho)
                && Model(Dropped(conditions, kept), tau)
                && SameOn(SharedOperators(conditions, seeds, kept), rho, tau)
  {
    hide EvalB, WfB, UsesTerm, SeedUses, Wf, EvalTerm, SharedOperators, SameAt, IsSlice;
    var nothing := Val(imap[], imap[], iset{});
    SelectModel(conditions, kept, true, |conditions|, nothing);
    SelectModel(conditions, kept, false, |conditions|, nothing);
    if both: Val :| Model(conditions, both) {
      SelectModel(conditions, kept, true, |conditions|, both);
      SelectModel(conditions, kept, false, |conditions|, both);
      SameAsItself(SharedOperators(conditions, seeds, kept), both);
    }
    if rho: Val, tau: Val :|
      && Model(Kept(conditions, kept), rho)
      && Model(Dropped(conditions, kept), tau)
      && SameOn(SharedOperators(conditions, seeds, kept), rho, tau)
    {
      SliceCombines(conditions, seeds, kept, rho, tau);
    }
  }

  lemma SameAsItself(xs: set<Sym>, rho: Val)
    ensures SameOn(xs, rho, rho)
  {
  }

  lemma NothingShared(conditions: seq<Bl>, seeds: seq<Term>, kept: set<nat>, rho: Val, tau: Val)
    requires OperatorsApart(conditions, seeds, kept)
    ensures SameOn(SharedOperators(conditions, seeds, kept), rho, tau)
  {
  }

  // ---- slicing does not see uninterpreted functions ----

  /** f(x) == v for an uninterpreted f. */
  function Applied(x: string, v: nat): Bl {
    Rel(Eq, App(8, "f", [Var(8, x)]), Num(8, v))
  }

  function Pinned(x: string): Bl {
    Rel(Eq, Var(8, x), Num(8, 0))
  }

  function Clash(): seq<Bl> {
    [Applied("x", 0), Pinned("x"), Applied("y", 1), Pinned("y")]
  }

  function ClashSeeds(): seq<Term> {
    [Word(Var(8, "x"))]
  }

  ghost function ClashValue(v: nat): Val {
    Val(imap[], imap[("f", 8, [0]) := v], iset{})
  }

  lemma ClashSyms()
    ensures SymsB(Applied("x", 0)) == SymsB(Pinned("x")) == {WordSym("x", 8)}
    ensures SymsB(Applied("y", 1)) == SymsB(Pinned("y")) == {WordSym("y", 8)}
    ensures SeedSyms(ClashSeeds()) == {WordSym("x", 8)}
    ensures WordOp("f", 8) in UsesB(Applied("x", 0)) && WordOp("f", 8) in UsesB(Applied("y", 1))
  {
    AppliedUses("x", 0);
    AppliedUses("y", 1);
    assert ClashSeeds()[1..] == [];
  }

  lemma AppliedUses(x: string, v: nat)
    ensures UsesB(Applied(x, v)) == {WordSym(x, 8), WordOp("f", 8)}
  {
    assert [Var(8, x)][1..] == [];
    assert UsesAll([Var(8, x)]) == {WordSym(x, 8)};
    assert Uses(App(8, "f", [Var(8, x)])) == {WordSym(x, 8), WordOp("f", 8)};
  }

  lemma ClashSlice()
    ensures IsSlice(Clash(), ClashSeeds(), {0, 1})
    ensures Kept(Clash(), {0, 1}) == Clash()[..2] && Dropped(Clash(), {0, 1}) == Clash()[2..]
  {
    hide SymsB, SeedSyms, Applied, Pinned;
    ClashSyms();
    var x, y := WordSym("x", 8), WordSym("y", 8);
    assert Reached(Clash(), ClashSeeds(), {0, 1}) == {x};
    forall chosen | Closed(Clash(), ClashSeeds(), chosen)
      ensures {0, 1} <= chosen
    {
      assert x in Reached(Clash(), ClashSeeds(), chosen);
      assert x in SymsB(Clash()[0]) && x in SymsB(Clash()[1]);
    }
    ClashSelect(true);
    ClashSelect(false);
  }

  lemma ClashSelect(keep: bool)
    ensures Select(Clash(), {0, 1}, keep, 4) == if keep then Clash()[..2] else Clash()[2..]
  {
    hide Applied, Pinned;
    assert Select(Clash(), {0, 1}, keep, 0) == [];
    assert Select(Clash(), {0, 1}, keep, 1) == if keep then [Clash()[0]] else [];
    assert Select(Clash(), {0, 1}, keep, 2) == if keep then [Clash()[0], Clash()[1]] else [];
    assert Select(Clash(), {0, 1}, keep, 3) == if keep then [Clash()[0], Clash()[1]] else [Clash()[2]];
  }

  lemma ClashMeaning(x: string, v: nat, rho: Val)
    requires v < 2 && |x| == 1
    ensures WfB(Applied(x, v)) && WfB(Pinned(x))
    ensures EvalB(Pinned(x), rho) <==> VarValue(rho, x, 8) == 0
    ensures EvalB(Applied(x, v), rho) <==> AppValue("f", [VarValue(rho, x, 8)], 8, rho) == v
  {
    hide Rem, AppValue, VarValue, Pow2, Eval;
    ClashTerms(x, v, rho);
  }

  lemma ClashTerms(x: string, v: nat, rho: Val)
    requires v < 2 && |x| == 1
    ensures Wf(Var(8, x)) && Wf(App(8, "f", [Var(8, x)])) && Wf(Num(8, v)) && Wf(Num(8, 0))
    ensures Eval(Var(8, x), rho) == VarValue(rho, x, 8) && Eval(Num(8, v), rho) == v && Eval(Num(8, 0), rho) == 0
    ensures Eval(App(8, "f", [Var(8, x)]), rho) == AppValue("f", [VarValue(rho, x, 8)], 8, rho)
  {
    hide Rem, AppValue, VarValue;
    assert Pow2(8) == 256;
    assert Wf(Var(8, x));
    assert Values([Var(8, x)], rho) == [VarValue(rho, x, 8)];
  }

  lemma ClashApp(v: nat)
    requires v < 2
    ensures VarValue(ClashValue(v), "x", 8) == VarValue(ClashValue(v), "y", 8) == 0
    ensures AppValue("f", [0], 8, ClashValue(v)) == v
  {
  }

  lemma ClashShares()
    ensures !OperatorsApart(Clash(), ClashSeeds(), {0, 1})
  {
    hide UsesB, SeedUses, Applied, Pinned;
    ClashSyms();
    var f := WordOp("f", 8);
    assert f in UsesB(Clash()[0]) && f in UsesB(Clash()[2]);
    assert f in UsedBy(Clash(), {0, 1}, true) && f in UsedBy(Clash(), {0, 1}, false);
    assert f in OperatorsIn(SeedUses(ClashSeeds()) + UsedBy(Clash(), {0, 1}, true));
    assert f in SharedOperators(Clash(), ClashSeeds(), {0, 1});
  }

  /**
   * Models of the two sides have to agree on shared operators: the kept and the dropped
   * conditions may each have a model although there is none of all conditions.
   */
  lemma SlicesMayClash()
    ensures WfBAll(Clash()) && IsSlice(Clash(), ClashSeeds(), {0, 1})
    ensures !OperatorsApart(Clash(), ClashSeeds(), {0, 1})
    ensures WfBAll(Kept(Clash(), {0, 1})) && WfBAll(Dropped(Clash(), {0, 1}))
    ensures exists rho: Val :: Model(Kept(Clash(), {0, 1}), rho)
    ensures exists tau: Val :: Model(Dropped(Clash(), {0, 1}), tau)
    ensures !exists both: Val :: Model(Clash(), both)
  {
    hide EvalB, WfB, IsSlice, Kept, Dropped, ClashValue, AppValue, VarValue, Applied, Pinned, OperatorsApart;
    ClashSlice();
    ClashShares();
    ClashApp(0);
    ClashApp(1);
    ClashMeaning("x", 0, ClashValue(0));
    ClashMeaning("y", 1, ClashValue(1));
    assert Model(Clash()[..2], ClashValue(0));
    assert Model(Clash()[2..], ClashValue(1));
    forall both: Val
      ensures !Model(Clash(), both)
    {
      ClashMeaning("x", 0, both);
      ClashMeaning("y", 1, both);
      assert Clash()[0] == Applied("x", 0) && Clash()[1] == Pinned("x");
      assert Clash()[2] == Applied("y", 1) && Clash()[3] == Pinned("y");
    }
  }
}
