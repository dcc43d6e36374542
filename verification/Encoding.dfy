// What it means for integer terms and constraints to encode bitvector terms.
//
// A context describes the state of one translator. An integer assignment *agrees* with a
// valuation when the variables standing for symbols hold the values of those symbols; it
// is *intended* when, moreover, every auxiliary variable holds the value recorded as its
// witness. A term is encoded correctly if it has the value of the bitvector term
//  - under every intended assignment, so that every behaviour of the loop is kept, and
//  - if it has no opaque part, or nothing was approximated before, under every agreeing
//    assignment that satisfies the constraints, so that no behaviour is added.
module Encoding {
  import opened Bits
  import opened BvTerms
  import opened IntTerms

  /** The value of an expression, as a function of the valuation. */
  type Meaning = imap<Val, int>

  datatype Context = Context(
    conditions: seq<Bl>,        // what the prover may assume
    small: bool,                // the small-constants encoding
    stem: bool,
    names: map<Bv, Name>,       // loop variables
    approximate: bool,
    invariants: seq<Bv>,        // terms represented by k0, k1, ...
    constants: seq<nat>,        // literals represented by c0, c1, ...
    counter: nat,               // auxiliary variables are numbered up to here
    witnesses: map<nat, Meaning>, // the intended values of the auxiliary variables
    symbols: map<Bv, nat>,      // free symbols represented by an auxiliary variable
    constraints: seq<Ib>)

  ghost predicate Formed(c: Context) {
    && WfBAll(c.conditions)
    && WfEach(c.invariants)
    && (forall v | v in c.names :: Wf(v))
    && (forall v | v in c.symbols :: Wf(v))
  }

  ghost function At(m: Meaning, rho: Val): int {
    if rho in m then m[rho] else 0
  }

  ghost predicate Agrees(c: Context, rho: Val, sigma: Sigma) {
    && Formed(c)
    && Model(c.conditions, rho)
    && (forall v | v in c.names :: Look(sigma, c.names[v]) == Eval(v, rho))
    && (forall v | v in c.symbols :: Look(sigma, Aux(c.symbols[v])) == Eval(v, rho))
    && (forall i | 0 <= i < |c.invariants| && c.invariants[i].Var? ::
          Look(sigma, Invariant(i, c.stem)) == Eval(c.invariants[i], rho))
  }

  ghost predicate Witnessed(c: Context, rho: Val, sigma: Sigma) {
    && Formed(c)
    && (forall n | n in c.witnesses :: Look(sigma, Aux(n)) == At(c.witnesses[n], rho))
    && (forall i | 0 <= i < |c.invariants| ::
          Look(sigma, Invariant(i, c.stem)) == Eval(c.invariants[i], rho))
    && (forall i | 0 <= i < |c.constants| :: Look(sigma, Constant(i, c.stem)) == c.constants[i])
  }

  ghost predicate Intended(c: Context, rho: Val, sigma: Sigma) {
    Agrees(c, rho, sigma) && Witnessed(c, rho, sigma)
  }

  /** The assignments under which encoded terms must have the right value. */
  ghost predicate World(c: Context, rho: Val, sigma: Sigma) {
    && Agrees(c, rho, sigma)
    && AllHold(c.constraints, sigma)
    && (c.approximate ==> Witnessed(c, rho, sigma))
  }

  /** A symbol stands for its own value, and its variable is confined to its range. */
  ghost predicate SymbolOk(c: Context, v: Bv, n: nat) {
    && v.Var?
    && Wf(v)
    && v !in c.names
    && (if c.stem then v !in c.invariants else LOOP_VAR_PREFIX <= v.name)
    && n in c.witnesses
    && (forall rho: Val :: At(c.witnesses[n], rho) == Eval(v, rho))
    && (forall sigma: Sigma | AllHold(c.constraints, sigma) ::
          0 <= Look(sigma, Aux(n)) && (!c.small ==> Look(sigma, Aux(n)) < Pow2(v.w)))
  }

  /** The constraints hold for every intended assignment, and no literal is too large. */
  ghost predicate Sound(c: Context) {
    && Formed(c)
    && (forall n | n in c.witnesses :: n <= c.counter)
    && (forall v | v in c.symbols :: SymbolOk(c, v, c.symbols[v]))
    && (forall rho, sigma | Intended(c, rho, sigma) :: AllHold(c.constraints, sigma))
    && (c.small ==> forall i | 0 <= i < |c.constraints| :: SmallF(c.constraints[i]))
  }

  ghost predicate Denotes(c: Context, t: It, m: Meaning) {
    && (forall rho, sigma | World(c, rho, sigma) :: EvalI(t, sigma) == At(m, rho))
    && (c.small ==> SmallT(t))
  }

  ghost predicate DenotesB(c: Context, f: Ib, p: Bl) {
    && WfB(p)
    && (forall rho, sigma | World(c, rho, sigma) :: Holds(f, sigma) == EvalB(p, rho))
    && (c.small ==> SmallF(f))
  }

  ghost function MeaningOf(e: Bv): (m: Meaning)
    requires Wf(e)
    ensures forall rho: Val :: At(m, rho) == Eval(e, rho)
  {
    imap rho: Val :: Eval(e, rho)
  }

  ghost predicate DenotesAll(c: Context, ts: seq<It>, es: seq<Bv>)
    requires WfEach(es)
  {
    |ts| == |es| && forall i | 0 <= i < |es| :: Denotes(c, ts[i], MeaningOf(es[i]))
  }

  // ---- what is asked of a term without opaque parts ----

  /** The context as a term sees it: for one that is sure, the flag does not matter. */
  function Seen(c: Context, sure: bool): Context {
    c.(approximate := c.approximate && !sure)
  }

  lemma SeenIntended(c: Context, sure: bool, rho: Val, sigma: Sigma)
    ensures Intended(c, rho, sigma) <==> Intended(Seen(c, sure), rho, sigma)
  {
    hide Holds, Eval, EvalB, Wf, WfB;
  }

  lemma SeenSound(c: Context, sure: bool)
    ensures Formed(c) ==> Formed(Seen(c, sure))
    ensures Sound(c) ==> Formed(c) && Sound(Seen(c, sure))
    ensures forall rho, sigma | Intended(c, rho, sigma) :: Intended(Seen(c, sure), rho, sigma)
    ensures forall rho, sigma | Intended(Seen(c, sure), rho, sigma) :: Intended(c, rho, sigma)
  {
    hide Holds, Eval, EvalB, Wf, WfB, Intended, SymbolOk;
    forall rho, sigma
      ensures Intended(c, rho, sigma) <==> Intended(Seen(c, sure), rho, sigma)
    {
      SeenIntended(c, sure, rho, sigma);
    }
    forall v: Bv, n: nat | SymbolOk(c, v, n)
      ensures SymbolOk(Seen(c, sure), v, n)
    {
      SeenSymbol(c, sure, v, n);
    }
  }

  lemma SeenSymbol(c: Context, sure: bool, v: Bv, n: nat)
    requires SymbolOk(c, v, n)
    ensures SymbolOk(Seen(c, sure), v, n)
  {
    hide Holds, Eval, Wf, Pow2;
  }

  lemma SeenExtends(c: Context, d: Context, sure: bool)
    requires Extends(c, d)
    ensures Extends(Seen(c, sure), Seen(d, sure))
  {
  }

  lemma SameExtends(c: Context, d: Context, sure: bool, other: bool)
    requires Extends(Seen(c, sure), Seen(d, sure)) && (c.approximate ==> d.approximate)
    ensures Extends(Seen(c, other), Seen(d, other))
  {
  }

  /** What holds whatever the flag holds in particular if the flag is respected. */
  lemma SeenDenotes(c: Context, sure: bool, less: bool, t: It, m: Meaning)
    requires Denotes(Seen(c, sure), t, m) && (less ==> sure)
    ensures Denotes(Seen(c, less), t, m)
  {
    hide Holds, Eval, EvalB, EvalI;
    forall rho, sigma | World(Seen(c, less), rho, sigma)
      ensures World(Seen(c, sure), rho, sigma)
    {
    }
  }

  lemma SeenDenotesB(c: Context, sure: bool, less: bool, f: Ib, p: Bl)
    requires DenotesB(Seen(c, sure), f, p) && (less ==> sure)
    ensures DenotesB(Seen(c, less), f, p)
  {
    hide Holds, Eval, EvalB, EvalI;
    forall rho, sigma | World(Seen(c, less), rho, sigma)
      ensures World(Seen(c, sure), rho, sigma)
    {
    }
  }

  // ---- growing contexts ----

  ghost predicate Extends(c: Context, d: Context) {
    && c.conditions == d.conditions
    && c.small == d.small
    && c.stem == d.stem
    && c.names == d.names
    && (c.approximate ==> d.approximate)
    && c.invariants <= d.invariants
    && (c.stem ==> c.invariants == d.invariants)
    && c.constants <= d.constants
    && c.counter <= d.counter
    && (forall n | n in c.witnesses :: n in d.witnesses && d.witnesses[n] == c.witnesses[n])
    && (forall v | v in c.symbols :: v in d.symbols && d.symbols[v] == c.symbols[v])
    && c.constraints <= d.constraints
  }

  lemma ExtendsReflexive(c: Context)
    ensures Extends(c, c)
  {
  }

  lemma ExtendsTransitive(b: Context, c: Context, d: Context)
    requires Extends(b, c) && Extends(c, d)
    ensures Extends(b, d)
  {
  }

  lemma ExtendsWorld(c: Context, d: Context)
    requires Extends(c, d)
    ensures forall rho, sigma | World(d, rho, sigma) :: World(c, rho, sigma)
    ensures forall rho, sigma | Intended(d, rho, sigma) :: Intended(c, rho, sigma)
  {
    forall rho, sigma | Agrees(d, rho, sigma)
      ensures Agrees(c, rho, sigma)
    {
      assert forall i | 0 <= i < |c.invariants| :: c.invariants[i] == d.invariants[i];
    }
    forall rho, sigma | Witnessed(d, rho, sigma)
      ensures Witnessed(c, rho, sigma)
    {
      assert forall i | 0 <= i < |c.invariants| :: c.invariants[i] == d.invariants[i];
      assert forall i | 0 <= i < |c.constants| :: c.constants[i] == d.constants[i];
    }
    forall rho, sigma | World(d, rho, sigma)
      ensures World(c, rho, sigma)
    {
      assert forall i | 0 <= i < |c.constraints| :: c.constraints[i] == d.constraints[i];
    }
  }

  lemma ExtendsDenotes(c: Context, d: Context, t: It, m: Meaning)
    requires Extends(c, d) && Denotes(c, t, m)
    ensures Denotes(d, t, m)
  {
    ExtendsWorld(c, d);
  }

  lemma ExtendsDenotesB(c: Context, d: Context, f: Ib, p: Bl)
    requires Extends(c, d) && DenotesB(c, f, p)
    ensures DenotesB(d, f, p)
  {
    ExtendsWorld(c, d);
  }

  lemma ExtendsSymbolOk(c: Context, d: Context, v: Bv, n: nat)
    requires Extends(c, d) && SymbolOk(c, v, n)
    ensures SymbolOk(d, v, n)
  {
    hide Holds, Eval, Wf, Pow2;
    forall sigma: Sigma | AllHold(d.constraints, sigma)
      ensures AllHold(c.constraints, sigma)
    {
      assert forall i | 0 <= i < |c.constraints| :: c.constraints[i] == d.constraints[i];
    }
  }

  /** A step that adds no symbol keeps the symbols right. */
  lemma KeepSymbols(c: Context, d: Context)
    requires Extends(c, d) && d.symbols == c.symbols
    requires forall v | v in c.symbols :: SymbolOk(c, v, c.symbols[v])
    ensures forall v | v in d.symbols :: SymbolOk(d, v, d.symbols[v])
  {
    hide SymbolOk, Extends;
    forall v | v in d.symbols
      ensures SymbolOk(d, v, d.symbols[v])
    {
      ExtendsSymbolOk(c, d, v, c.symbols[v]);
    }
  }

  lemma IntendedIsWorld(c: Context)
    requires Sound(c)
    ensures forall rho, sigma | Intended(c, rho, sigma) :: World(c, rho, sigma)
  {
  }

  // ---- the elementary steps of a translator ----

  function WithAux(c: Context, m: Meaning): Context {
    c.(counter := c.counter + 1, witnesses := c.witnesses[c.counter + 1 := m])
  }

  function WithConstraints(c: Context, fs: seq<Ib>): Context {
    c.(constraints := c.constraints + fs)
  }

  lemma AuxIsSound(c: Context, m: Meaning)
    requires Sound(c)
    ensures Sound(WithAux(c, m)) && Extends(c, WithAux(c, m))
  {
    var d := WithAux(c, m);
    hide SymbolOk, Eval, EvalB, Holds;
    assert c.counter + 1 !in c.witnesses;
    ExtendsWorld(c, d);
    KeepSymbols(c, d);
  }

  lemma ConstraintsAreSound(c: Context, fs: seq<Ib>)
    requires Sound(c)
    requires forall rho, sigma | Intended(c, rho, sigma) :: AllHold(fs, sigma)
    requires c.small ==> forall i | 0 <= i < |fs| :: SmallF(fs[i])
    ensures Sound(WithConstraints(c, fs)) && Extends(c, WithConstraints(c, fs))
    ensures forall rho, sigma | World(WithConstraints(c, fs), rho, sigma) :: AllHold(fs, sigma)
  {
    hide Holds, EvalB, SmallF, SymbolOk, Eval;
    var d := WithConstraints(c, fs);
    KeepSymbols(c, d);
    forall rho, sigma | Intended(d, rho, sigma)
      ensures AllHold(d.constraints, sigma)
    {
      assert Intended(c, rho, sigma);
    }
    forall rho, sigma | World(d, rho, sigma)
      ensures AllHold(fs, sigma)
    {
      assert forall i | 0 <= i < |fs| :: d.constraints[|c.constraints| + i] == fs[i];
    }
  }
}
