// Exact definitions of exponentiation for the solver.
module Exponent {
  import opened Options
  import opened Bits
  import opened BvTerms
  import opened WordOps

  // ---- modular powers ----

  function Modulus(): nat {
    Pow2(WORD)
  }

  /** pow(b, e, 2**256) */
  function PowMod(b: nat, e: nat): (r: nat)
    ensures r < Modulus()
  {
    Mod2(Power(b, e), WORD)
  }

  lemma {:induction false} PowerAdd(b: nat, m: nat, n: nat)
    ensures Power(b, m + n) == Times(Power(b, m), Power(b, n))
  {
    hide Times;
    if m == 0 {
      TimesOne(Power(b, n));
    } else {
      PowerAdd(b, m - 1, n);
      TimesAssociates(b, Power(b, m - 1), Power(b, n));
    }
  }

  lemma TimesAssociates(a: nat, b: nat, c: nat)
    ensures Times(Times(a, b), c) == Times(a, Times(b, c))
  {
    Associates(a, b, c);
  }

  lemma Associates(a: nat, b: nat, c: nat)
    ensures (a * b) * c == a * (b * c)
  {
  }

  /** Reduced factors give the same reduced product. */
  lemma ReducedProduct(a: nat, b: nat)
    ensures EvmMul(Mod2(a, WORD), Mod2(b, WORD), WORD) == Mod2(Times(a, b), WORD)
  {
    hide Pow2;
    var m := Pow2(WORD);
    RemMul(a, Rem(b, m), m);
    RemMul(b, a, m);
    TimesCommutes(a, Rem(b, m));
    TimesCommutes(a, b);
  }

  lemma PowModAdd(b: nat, m: nat, n: nat)
    ensures PowMod(b, m + n) == EvmMul(PowMod(b, m), PowMod(b, n), WORD)
  {
    hide Power, Times, Rem;
    PowerAdd(b, m, n);
    ReducedProduct(Power(b, m), Power(b, n));
  }

  lemma PowModStep(b: nat, e: nat)
    ensures PowMod(b, e + 1) == Mod2(Times(PowMod(b, e), b), WORD)
  {
    hide Power, Times, Rem;
    PowerStep(b, e, WORD);
    TimesCommutes(b, PowMod(b, e));
  }

  lemma PowModZero(b: nat)
    ensures PowMod(b, 0) == 1
  {
    assert Pow2(WORD) > 1;
  }

  lemma {:induction false} PowModOne(b: nat, e: nat)
    requires Mod2(b, WORD) == 1
    ensures PowMod(b, e) == 1
  {
    hide Power, Rem, Times;
    if e == 0 {
      PowModZero(b);
    } else {
      PowModOne(b, e - 1);
      PowModStep(b, e - 1);
      TimesOne(b);
    }
  }

  lemma {:induction false} EvenPower(c: nat, e: nat)
    ensures Power(2 * c, e) == Times(Pow2(e), Power(c, e))
  {
    if e == 0 {
    } else {
      EvenPower(c, e - 1);
      Interchange(c, Pow2(e - 1), Power(c, e - 1));
    }
  }

  lemma Interchange(c: nat, p: nat, q: nat)
    ensures (2 * c) * (p * q) == (2 * p) * (c * q)
  {
    assert (2 * c) * (p * q) == 2 * (c * (p * q));
    assert c * (p * q) == p * (c * q);
    assert (2 * p) * (c * q) == 2 * (p * (c * q));
  }

  /** Large powers of even numbers vanish. */
  lemma EvenPowMod(b: nat, e: nat)
    requires b % 2 == 0 && e >= WORD
    ensures PowMod(b, e) == 0
  {
    hide Pow2, Rem, Power;
    var c := b / 2;
    EvenPower(c, e);
    Pow2Add(WORD, e - WORD);
    var m, k := Pow2(WORD), Pow2(e - WORD) * Power(c, e);
    Associates(m, Pow2(e - WORD), Power(c, e));
    assert 2 * c == b;
    RemOf(m * k, m, k, 0);
  }

  // ---- solver terms ----

  datatype Name =
    | BaseSym(i: nat)
    | ExponentSym(i: nat)
    | ResultSym(i: nat)
    | ProductSym(i: nat, bit: nat)
    | SquareSym(i: nat, bit: nat)

  datatype Expr =
    | Const(v: nat)
    | Sym(name: Name)
    | MulE(x: Name, y: Name)
    | IfEq(of: Expr, k: nat, yes: Expr, no: Expr)

  /** name == expr */
  datatype Fact = Fact(name: Name, e: Expr)

  type Env = imap<Name, int>

  ghost function Look(env: Env, x: Name): (v: nat)
    ensures v < Modulus()
  {
    Mod2(if x in env then env[x] else 0, WORD)
  }

  ghost function ValueOf(e: Expr, env: Env): (v: nat)
    ensures v < Modulus()
  {
    match e
    case Const(v) => Mod2(v, WORD)
    case Sym(x) => Look(env, x)
    case MulE(a, b) => EvmMul(Look(env, a), Look(env, b), WORD)
    case IfEq(x, k, a, b) => if ValueOf(x, env) == k then ValueOf(a, env) else ValueOf(b, env)
  }

  ghost predicate Satisfies(env: Env, facts: seq<Fact>) {
    forall k | 0 <= k < |facts| :: Look(env, facts[k].name) == ValueOf(facts[k].e, env)
  }

  // ---- the table of a constant base ----

  const TABLE_SIZE: nat := 256

  /** base ** exponent, exact for an even base, and below 256 for an odd one. */
  method ExpTable(base: nat, exponent: Expr, otherwise: Expr) returns (result: Expr)
    ensures forall env: Env :: ValueOf(result, env) ==
              var e := ValueOf(exponent, env);
              if base % 2 == 0 || Mod2(base, WORD) == 1 || e < TABLE_SIZE then PowMod(base, e) else ValueOf(otherwise, env)
  {
    hide Pow2, Rem, Power, PowMod, Look, Times, Modulus;
    if Mod2(base, WORD) == 1 {
      forall env: Env
        ensures ValueOf(Const(1), env) == PowMod(base, ValueOf(exponent, env))
      {
        PowModOne(base, ValueOf(exponent, env));
        ConstValue(1, env);
      }
      return Const(1);
    }
    var entries: seq<nat> := [];
    var value := 1;
    PowModZero(base);
    for k := 0 to TABLE_SIZE
      invariant |entries| == k && value == PowMod(base, k)
      invariant forall j | 0 <= j < k :: entries[j] == PowMod(base, j)
    {
      entries := entries + [value];
      PowModStep(base, k);
      value := Mod2(Times(value, base), WORD);
    }
    result := otherwise;
    if base % 2 == 0 {
      while entries != [] && entries[|entries| - 1] == 0
        invariant |entries| <= TABLE_SIZE
        invariant forall j | 0 <= j < |entries| :: entries[j] == PowMod(base, j)
        invariant forall j: nat | |entries| <= j < TABLE_SIZE :: PowMod(base, j) == 0
        decreases |entries|
      {
        entries := entries[..|entries| - 1];
      }
      result := Const(0);
    }
    forall env: Env
      ensures ValueOf(result, env) == TableRest(base, ValueOf(exponent, env), |entries|, ValueOf(otherwise, env))
    {
      ConstValue(0, env);
      RestOfTable(base, ValueOf(exponent, env), |entries|, ValueOf(otherwise, env));
    }
    var k := |entries|;
    while k > 0
      invariant k <= |entries|
      invariant forall env: Env :: ValueOf(result, env) ==
                  var e := ValueOf(exponent, env);
                  if k <= e < |entries| then entries[e] else TableRest(base, e, |entries|, ValueOf(otherwise, env))
    {
      k := k - 1;
      ghost var before := result;
      result := IfEq(exponent, k, Const(entries[k]), result);
      forall env: Env
        ensures ValueOf(result, env) ==
                if ValueOf(exponent, env) == k then entries[k] else ValueOf(before, env)
      {
        EntryValue(base, k, env);
      }
      forall env: Env
        ensures ValueOf(exponent, env) == k ==> ValueOf(result, env) == entries[k]
      {
      }
    }
    forall env: Env
      ensures var e := ValueOf(exponent, env);
        ValueOf(result, env) == if base % 2 == 0 || e < TABLE_SIZE then PowMod(base, e) else ValueOf(otherwise, env)
    {
      RestOfTable(base, ValueOf(exponent, env), |entries|, ValueOf(otherwise, env));
    }
  }

  /** The value beyond the first n entries. */
  ghost function TableRest(base: nat, e: nat, n: nat, otherwise: nat): nat {
    if base % 2 == 0 then 0 else otherwise
  }

  lemma RestOfTable(base: nat, e: nat, n: nat, otherwise: nat)
    ensures base % 2 == 0 && e >= TABLE_SIZE ==> TableRest(base, e, n, otherwise) == PowMod(base, e)
  {
    if base % 2 == 0 && e >= TABLE_SIZE {
      EvenPowMod(base, e);
    }
  }

  lemma ConstValue(v: nat, env: Env)
    requires v < 2
    ensures ValueOf(Const(v), env) == v
  {
    assert Pow2(WORD) > 1;
  }

  lemma EntryValue(base: nat, k: nat, env: Env)
    ensures ValueOf(Const(PowMod(base, k)), env) == PowMod(base, k)
  {
    hide Pow2;
  }

  // ---- square and multiply ----

  /** exponent >> bit */
  function High(e: nat, bit: nat): nat {
    if bit == 0 then e else High(e, bit - 1) / 2
  }

  /** The lowest bits of the exponent. */
  function Low(e: nat, bit: nat): nat {
    if bit == 0 then 0 else Low(e, bit - 1) + if High(e, bit - 1) % 2 == 1 then Pow2(bit - 1) else 0
  }

  lemma {:induction false} HighLow(e: nat, bit: nat)
    ensures e == Low(e, bit) + High(e, bit) * Pow2(bit)
    ensures bit > 0 ==> High(e, bit) <= High(e, bit - 1)
  {
    if bit > 0 {
      HighLow(e, bit - 1);
      var h, p := High(e, bit - 1), Pow2(bit - 1);
      assert h == 2 * (h / 2) + h % 2;
      Split(h / 2, h % 2, p);
    }
  }

  lemma Split(q: nat, r: nat, p: nat)
    requires r < 2
    ensures (2 * q + r) * p == (if r == 1 then p else 0) + q * (2 * p)
  {
    assert (2 * q + r) * p == 2 * q * p + r * p;
    assert q * (2 * p) == 2 * q * p;
  }

  /** The symbols of the i-th exponentiation defined as intended. */
  ghost function Intended(env: Env, i: nat, exponent: nat): Env {
    imap x: Name ::
      match x
      case ProductSym(j, bit) => if j == i then PowMod(Look(env, BaseSym(i)), Low(exponent, bit + 1)) else Look(env, x)
      case SquareSym(j, bit) => if j == i then PowMod(Look(env, BaseSym(i)), Pow2(bit)) else Look(env, x)
      case _ => Look(env, x)
  }

  lemma IntendedValue(env: Env, i: nat, exponent: nat, bit: nat)
    ensures var w := Intended(env, i, exponent); var b := Look(env, BaseSym(i));
      && Look(w, ProductSym(i, bit)) == PowMod(b, Low(exponent, bit + 1))
      && Look(w, SquareSym(i, bit)) == PowMod(b, Pow2(bit))
      && Look(w, BaseSym(i)) == b
      && Look(w, ResultSym(i)) == Look(env, ResultSym(i))
  {
    hide Pow2, Power, Low;
    TwiceReduced(Power(Look(env, BaseSym(i)), Low(exponent, bit + 1)));
    TwiceReduced(Power(Look(env, BaseSym(i)), Pow2(bit)));
    TwiceReduced(if BaseSym(i) in env then env[BaseSym(i)] else 0);
    TwiceReduced(if ResultSym(i) in env then env[ResultSym(i)] else 0);
  }

  lemma TwiceReduced(a: int)
    ensures Mod2(Mod2(a, WORD), WORD) == Mod2(a, WORD)
  {
    hide Pow2;
  }

  /** What the facts so far say about the current square and product. */
  ghost predicate Defines(facts: seq<Fact>, i: nat, exponent: nat, bit: nat, square: Name, acc: Option<Name>) {
    && (acc.None? ==> Low(exponent, bit) == 0)
    && (forall env: Env | Satisfies(env, facts) ::
          && Look(env, square) == PowMod(Look(env, BaseSym(i)), Pow2(bit))
          && (acc.Some? ==> Look(env, acc.value) == PowMod(Look(env, BaseSym(i)), Low(exponent, bit))))
    && (forall env: Env ::
          var w := Intended(env, i, exponent);
          && Satisfies(w, facts)
          && Look(w, square) == PowMod(Look(env, BaseSym(i)), Pow2(bit))
          && (acc.Some? ==> Look(w, acc.value) == PowMod(Look(env, BaseSym(i)), Low(exponent, bit))))
  }

  lemma DefinesStart(i: nat, exponent: nat)
    ensures Defines([], i, exponent, 0, BaseSym(i), None)
  {
    hide Power, Rem, Times;
    forall env: Env
      ensures Look(env, BaseSym(i)) == PowMod(Look(env, BaseSym(i)), 1)
      ensures Look(Intended(env, i, exponent), BaseSym(i)) == Look(env, BaseSym(i))
    {
      PowerOne(Look(env, BaseSym(i)), WORD);
      IntendedValue(env, i, exponent, 0);
    }
    assert Pow2(0) == 1;
  }

  lemma SatisfiesSnoc(env: Env, facts: seq<Fact>, f: Fact)
    ensures Satisfies(env, facts + [f]) <==> Satisfies(env, facts) && Look(env, f.name) == ValueOf(f.e, env)
  {
    hide Look, ValueOf;
    assert (facts + [f])[|facts|] == f;
    assert forall k | 0 <= k < |facts| :: (facts + [f])[k] == facts[k];
  }

  /** A set bit multiplies the square into the product. */
  lemma MultiplyStep(facts: seq<Fact>, i: nat, exponent: nat, bit: nat, square: Name, acc: Option<Name>)
    requires Defines(facts, i, exponent, bit, square, acc) && High(exponent, bit) % 2 == 1
    ensures acc.None? ==>
              AheadByOne(facts, i, exponent, bit, square, square)
    ensures acc.Some? ==>
              AheadByOne(facts + [Fact(ProductSym(i, bit), MulE(acc.value, square))], i, exponent, bit, square, ProductSym(i, bit))
  {
    hide Look, Pow2, PowMod, EvmMul, Intended, High, Low, Satisfies;
    LowStep(exponent, bit);
    if acc.Some? {
      var f := Fact(ProductSym(i, bit), MulE(acc.value, square));
      forall env: Env
        ensures Satisfies(env, facts + [f]) ==> Satisfies(env, facts)
        ensures Satisfies(env, facts + [f]) ==> Look(env, f.name) == PowMod(Look(env, BaseSym(i)), Low(exponent, bit + 1))
        ensures Satisfies(Intended(env, i, exponent), facts + [f])
        ensures Look(Intended(env, i, exponent), f.name) == PowMod(Look(env, BaseSym(i)), Low(exponent, bit + 1))
      {
        SatisfiesSnoc(env, facts, f);
        SatisfiesSnoc(Intended(env, i, exponent), facts, f);
        PowModAdd(Look(env, BaseSym(i)), Low(exponent, bit), Pow2(bit));
        IntendedValue(env, i, exponent, bit);
      }
    }
  }

  /** Like Defines, with the product one bit ahead of the square. */
  ghost predicate AheadByOne(facts: seq<Fact>, i: nat, exponent: nat, bit: nat, square: Name, acc: Name) {
    && (forall env: Env | Satisfies(env, facts) ::
          && Look(env, square) == PowMod(Look(env, BaseSym(i)), Pow2(bit))
          && Look(env, acc) == PowMod(Look(env, BaseSym(i)), Low(exponent, bit + 1)))
    && (forall env: Env ::
          var w := Intended(env, i, exponent);
          && Satisfies(w, facts)
          && Look(w, square) == PowMod(Look(env, BaseSym(i)), Pow2(bit))
          && Look(w, acc) == PowMod(Look(env, BaseSym(i)), Low(exponent, bit + 1)))
  }

  lemma LowStep(exponent: nat, bit: nat)
    ensures Low(exponent, bit + 1) == Low(exponent, bit) + if High(exponent, bit) % 2 == 1 then Pow2(bit) else 0
  {
    hide Pow2;
  }

  /** The next square. */
  lemma SquareStep(facts: seq<Fact>, i: nat, exponent: nat, bit: nat, square: Name, acc: Option<Name>)
    requires if acc.Some? then AheadByOne(facts, i, exponent, bit, square, acc.value)
             else Defines(facts, i, exponent, bit, square, acc) && Low(exponent, bit + 1) == 0
    ensures Defines(facts + [Fact(SquareSym(i, bit + 1), MulE(square, square))], i, exponent, bit + 1, SquareSym(i, bit + 1), acc)
  {
    hide Look, Pow2, PowMod, EvmMul, Intended, High, Low;
    var f := Fact(SquareSym(i, bit + 1), MulE(square, square));
    DoubledPower(bit);
    forall env: Env
      ensures Satisfies(env, facts + [f]) ==> Satisfies(env, facts) && Look(env, f.name) == PowMod(Look(env, BaseSym(i)), Pow2(bit + 1))
      ensures Satisfies(Intended(env, i, exponent), facts + [f])
      ensures Look(Intended(env, i, exponent), f.name) == PowMod(Look(env, BaseSym(i)), Pow2(bit + 1))
    {
      SatisfiesSnoc(env, facts, f);
      SatisfiesSnoc(Intended(env, i, exponent), facts, f);
      PowModAdd(Look(env, BaseSym(i)), Pow2(bit), Pow2(bit));
      IntendedValue(env, i, exponent, bit + 1);
    }
  }

  lemma DoubledPower(bit: nat)
    ensures Pow2(bit + 1) == Pow2(bit) + Pow2(bit)
  {
  }

  /** The facts hold exactly when the result is the power, for suitable intermediate values. */
  ghost predicate DefinesPower(facts: seq<Fact>, i: nat, exponent: nat) {
    && (forall env: Env | Satisfies(env, facts) :: Look(env, ResultSym(i)) == PowMod(Look(env, BaseSym(i)), exponent))
    && (forall env: Env | Look(env, ResultSym(i)) == PowMod(Look(env, BaseSym(i)), exponent) ::
          Satisfies(Intended(env, i, exponent), facts))
  }

  lemma ResultStep(facts: seq<Fact>, i: nat, exponent: nat, bit: nat, square: Name, acc: Name)
    requires AheadByOne(facts, i, exponent, bit, square, acc) && Low(exponent, bit + 1) == exponent
    ensures DefinesPower(facts + [Fact(ResultSym(i), Sym(acc))], i, exponent)
  {
    hide Look, Pow2, PowMod, Intended, Low;
    var f := Fact(ResultSym(i), Sym(acc));
    forall env: Env
      ensures Satisfies(env, facts + [f]) ==> Look(env, ResultSym(i)) == PowMod(Look(env, BaseSym(i)), exponent)
      ensures Look(env, ResultSym(i)) == PowMod(Look(env, BaseSym(i)), exponent) ==> Satisfies(Intended(env, i, exponent), facts + [f])
    {
      SatisfiesSnoc(env, facts, f);
      SatisfiesSnoc(Intended(env, i, exponent), facts, f);
      IntendedValue(env, i, exponent, bit);
    }
  }

  /** result_i == base_i ** exponent, with a logarithmic number of multiplications. */
  method SquareAndMultiply(i: nat, exponent: nat) returns (facts: seq<Fact>)
    ensures DefinesPower(facts, i, exponent)
    ensures 0 < |facts| <= 2 * BitLength(exponent) + 1
  {
    hide Pow2, PowMod, Look, Intended, Defines, AheadByOne, DefinesPower, Low, High;
    if exponent == 0 {
      PowerZeroFact(i);
      return [Fact(ResultSym(i), Const(1))];
    }
    facts := [];
    var square, acc, bit := BaseSym(i), None, 0;
    DefinesStart(i, exponent);
    HighStart(exponent);
    while true
      invariant Defines(facts, i, exponent, bit, square, acc) && High(exponent, bit) > 0
      invariant |facts| <= 2 * bit && BitLength(exponent) == bit + BitLength(High(exponent, bit))
      decreases High(exponent, bit)
    {
      LowStep(exponent, bit);
      HighLow(exponent, bit + 1);
      HighNext(exponent, bit);
      if High(exponent, bit) % 2 == 1 {
        MultiplyStep(facts, i, exponent, bit, square, acc);
        if acc.None? {
          acc := Some(square);
        } else {
          facts := facts + [Fact(ProductSym(i, bit), MulE(acc.value, square))];
          acc := Some(ProductSym(i, bit));
        }
      } else {
        ZeroBit(facts, i, exponent, bit, square, acc);
      }
      if High(exponent, bit + 1) == 0 {
        break;
      }
      SquareStep(facts, i, exponent, bit, square, acc);
      bit := bit + 1;
      facts := facts + [Fact(SquareSym(i, bit), MulE(square, square))];
      square := SquareSym(i, bit);
    }
    ResultStep(facts, i, exponent, bit, square, acc.value);
    facts := facts + [Fact(ResultSym(i), Sym(acc.value))];
  }

  lemma PowerZeroFact(i: nat)
    ensures DefinesPower([Fact(ResultSym(i), Const(1))], i, 0)
  {
    hide Pow2, Power, Low, PowMod, Intended, Look;
    var f := Fact(ResultSym(i), Const(1));
    forall env: Env
      ensures ValueOf(Const(1), env) == 1 && PowMod(Look(env, BaseSym(i)), 0) == 1
      ensures Look(Intended(env, i, 0), ResultSym(i)) == Look(env, ResultSym(i))
    {
      ConstValue(1, env);
      PowModZero(Look(env, BaseSym(i)));
      IntendedValue(env, i, 0, 0);
    }
    forall env: Env
      ensures Satisfies(env, [f]) <==> Look(env, ResultSym(i)) == 1
    {
      SatisfiesSnoc(env, [], f);
      assert [] + [f] == [f];
    }
  }

  lemma HighStart(exponent: nat)
    ensures High(exponent, 0) == exponent
  {
  }

  lemma HighNext(exponent: nat, bit: nat)
    ensures High(exponent, bit + 1) == High(exponent, bit) / 2
    ensures High(exponent, bit) > 0 ==> BitLength(High(exponent, bit)) == 1 + BitLength(High(exponent, bit + 1))
    ensures High(exponent, bit) > 0 && High(exponent, bit) % 2 == 0 ==> High(exponent, bit + 1) > 0
  {
    var h := High(exponent, bit);
    assert High(exponent, bit + 1) == h / 2;
  }

  /** A zero bit leaves the product as it is. */
  lemma ZeroBit(facts: seq<Fact>, i: nat, exponent: nat, bit: nat, square: Name, acc: Option<Name>)
    requires Defines(facts, i, exponent, bit, square, acc) && High(exponent, bit) % 2 == 0
    ensures if acc.Some? then AheadByOne(facts, i, exponent, bit, square, acc.value)
            else Defines(facts, i, exponent, bit, square, acc) && Low(exponent, bit + 1) == 0
  {
    hide Look, Pow2, PowMod, Intended, Satisfies, Low, High;
    LowStep(exponent, bit);
  }
}
