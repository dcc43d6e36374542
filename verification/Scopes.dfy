// Terms whose loop variables all have a name in the lasso: a translator of the loop introduces no
// variable for a symbol while it translates them. Which operands of such a term are of this kind.
module Scopes {
  import opened BvTerms
  import opened BvFacts
  import opened Symbols
  import opened IntTerms
  import opened NodeFacts

  /** Every loop variable among the names is represented by a program variable. */
  predicate Named(xs: set<string>, names: map<Bv, Name>) {
    forall x | x in xs && LOOP_VAR_PREFIX <= x :: Var(WORD, x) in names
  }

  lemma NamedArgs(e: Bv, names: map<Bv, Name>)
    requires e.Nary? || e.Concat? || e.App?
    ensures Named(VarNames(e), names) ==> Named(VarNamesAll(e.args), names)
  {
    hide Named;
  }

  lemma NamedArg(es: seq<Bv>, i: nat, names: map<Bv, Name>)
    requires i < |es|
    ensures Named(VarNamesAll(es), names) ==> Named(VarNames(es[i]), names)
  {
    hide VarNames, VarNamesAll;
    ArgNames(es, i);
  }

  lemma NamedArgB(ps: seq<Bl>, i: nat, names: map<Bv, Name>)
    requires i < |ps|
    ensures Named(VarNamesBAll(ps), names) ==> Named(VarNamesB(ps[i]), names)
  {
    hide VarNamesB, VarNamesBAll;
    ArgNamesB(ps, i);
  }

  lemma NamedOperand(e: Bv, names: map<Bv, Name>)
    requires e.Neg? || e.Extract? || e.ZeroExt? || e.Bin? || e.Ite?
    ensures Named(VarNames(e), names) ==> Named(VarNames(e.a), names)
    ensures Named(VarNames(e), names) && (e.Bin? || e.Ite?) ==> Named(VarNames(e.b), names)
    ensures Named(VarNames(e), names) && e.Ite? ==> Named(VarNamesB(e.c), names)
  {
    assert VarNames(e.a) <= VarNames(e);
    assert e.Bin? || e.Ite? ==> VarNames(e.b) <= VarNames(e);
    assert e.Ite? ==> VarNamesB(e.c) <= VarNames(e);
  }

  lemma NamedParts(p: Bl, names: map<Bv, Name>)
    ensures Named(VarNamesB(p), names) ==>
              match p
              case Lit(_) => true
              case Not(q) => Named(VarNamesB(q), names)
              case Junction(_, ps) => Named(VarNamesBAll(ps), names)
              case Conn(_, q, r) => Named(VarNamesB(q), names) && Named(VarNamesB(r), names)
              case IteB(q, r, s) => Named(VarNamesB(q), names) && Named(VarNamesB(r), names) && Named(VarNamesB(s), names)
              case Rel(_, x, y) => Named(VarNames(x), names) && Named(VarNames(y), names)
              case OtherB(_, _) => true
  {
  }

  lemma NamedVar(e: Bv, names: map<Bv, Name>)
    requires Wf(e) && e.Var? && e !in names
    ensures Named(VarNames(e), names) ==> !(LOOP_VAR_PREFIX <= e.name)
  {
    assert e.name in VarNames(e);
  }

  /** The sum of the rest has no other variables. */
  lemma NamedRest(es: seq<Bv>, w: nat, names: map<Bv, Name>)
    requires Named(VarNamesAll(es), names)
    ensures Named(VarNames(RestSum(es, w)), names)
  {
    hide VarNames;
    RestNames(es);
    if |Rest(es)| != 1 {
      NestedNames(w, Rest(es));
    } else {
      ArgNames(Rest(es), 0);
    }
  }

  lemma {:induction false} RestNames(es: seq<Bv>)
    ensures VarNamesAll(Rest(es)) <= VarNamesAll(es)
  {
    hide VarNames;
    if es != [] {
      RestNames(es[1..]);
      var rest := [es[0]] + Rest(es[1..]);
      assert rest[1..] == Rest(es[1..]);
    }
  }

  lemma {:induction false} NestedNames(w: nat, es: seq<Bv>)
    ensures VarNames(NestedSum(w, es)) <= VarNamesAll(es)
    decreases |es|
  {
    if es != [] {
      var n := |es| - 1;
      NestedNames(w, es[..n]);
      PrefixNames(es, n);
      ArgNames(es, n);
      var args := [NestedSum(w, es[..n]), es[n]];
      assert NestedSum(w, es) == Nary(w, Add, args);
      assert args[1..] == [es[n]] && args[1..][1..] == [];
      assert VarNamesAll(args[1..]) == VarNames(es[n]);
    }
  }

  lemma {:induction false} PrefixNames(es: seq<Bv>, n: nat)
    requires n <= |es|
    ensures VarNamesAll(es[..n]) <= VarNamesAll(es)
  {
    hide VarNames;
    if n > 0 {
      PrefixNames(es[1..], n - 1);
      assert es[..n][1..] == es[1..][..n - 1] && es[..n][0] == es[0];
    }
  }
}
