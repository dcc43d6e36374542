// EVM word arithmetic: the shortcuts denote the operation.
module WordOps {
  import opened Options
  import opened Bits
  import opened BvTerms
  import opened BvFacts

  // ---- what the operations mean (Yellow Paper, Appendix H.2) ----

  function EvmMul(a: nat, b: nat, w: nat): nat {
    Mod2(Times(a, b), w)
  }

  function EvmDiv(a: nat, b: nat): nat {
    if b == 0 then 0 else Quot(a, b)
  }

  function EvmMod(a: nat, b: nat): nat {
    if b == 0 then 0 else Rem(a, b)
  }

  function EvmShl(a: nat, s: nat, w: nat): nat {
    if s >= w then 0 else Mod2(Times(a, Pow2(s)), w)
  }

  function EvmShr(a: nat, s: nat, w: nat): nat {
    if s >= w then 0 else Quot(a, Pow2(s))
  }

  function Power(a: nat, n: nat): nat {
    if n == 0 then 1 else Times(a, Power(a, n - 1))
  }

  // ---- the operations ----

  predicate IsPowerOfTwo(n: nat) {
    n > 0 && BitAnd(n, n - 1) == 0
  }

  function Word(w: nat, v: int): (e: Bv)
    requires w > 0
    ensures Wf(e) && e.w == w
  {
    Num(w, Mod2(v, w))
  }

  function ShlOp(x: Bv, s: Bv): (r: Bv)
    requires Wf(x) && Wf(s) && s.w == x.w
    ensures Wf(r) && r.w == x.w
  {
    if s.Num? && s.value == 0 then x
    else if s.Num? && s.value >= x.w then Word(x.w, 0)
    else if s.Num? && x.Num? then Word(x.w, Times(x.value, Pow2(s.value)))
    else Bin(x.w, Shl, x, s)
  }

  function ShrOp(x: Bv, s: Bv): (r: Bv)
    requires Wf(x) && Wf(s) && s.w == x.w
    ensures Wf(r) && r.w == x.w
  {
    if s.Num? && s.value == 0 then x
    else if s.Num? && x.Num? then Word(x.w, Quot(x.value, Pow2(s.value)))
    else if s.Num? && s.value >= x.w then Word(x.w, 0)
    else Bin(x.w, Lshr, x, s)
  }

  function Product2(w: nat, x: Bv, y: Bv): (r: Bv)
    requires w > 0 && Wf(x) && Wf(y) && x.w == y.w == w
    ensures Wf(r) && r.w == w
  {
    Nary(w, Mul, [x, y])
  }

  /** An abstraction of an operation on two words, if there is one. */
  function Abstracted(name: string, x: Bv, y: Bv): (r: Bv)
    requires Wf(x) && Wf(y) && x.w == y.w
    ensures Wf(r) && r.w == x.w
  {
    App(x.w, name, [x, y])
  }

  function MulOp(x: Bv, y: Bv, abstraction: bool): (r: Bv)
    requires Wf(x) && Wf(y) && x.w == y.w
    ensures Wf(r) && r.w == x.w
  {
    if x.Num? && y.Num? then Word(x.w, Times(x.value, y.value))
    else if x.Num? then MulConst(x, y)
    else if y.Num? then MulConst(y, x)
    else if abstraction then Abstracted(MUL_ABSTRACTION, x, y)
    else Product2(x.w, x, y)
  }

  /** A product with a constant; powers of two become shifts. */
  function MulConst(c: Bv, y: Bv): (r: Bv)
    requires Wf(c) && Wf(y) && c.Num? && c.w == y.w
    ensures Wf(r) && r.w == y.w
  {
    if c.value == 0 then c
    else if c.value == 1 then y
    else if IsPowerOfTwo(c.value) then ShlOp(y, Word(c.w, BitLength(c.value) - 1))
    else Product2(c.w, c, y)
  }

  function DivOp(x: Bv, y: Bv, abstraction: bool): (r: Bv)
    requires Wf(x) && Wf(y) && x.w == y.w
    ensures Wf(r) && r.w == x.w
  {
    if y.Num? && y.value == 0 then y
    else if y.Num? && y.value == 1 then x
    else if y.Num? && x.Num? then Word(x.w, Quot(x.value, y.value))
    else if y.Num? && IsPowerOfTwo(y.value) then ShrOp(x, Word(x.w, BitLength(y.value) - 1))
    else if abstraction then Abstracted(UDIV_ABSTRACTION, x, y)
    else Bin(x.w, Udiv, x, y)
  }

  function LowBits(x: Bv, k: nat): (r: Bv)
    requires Wf(x) && 1 <= k <= x.w
    ensures Wf(r) && r.w == x.w
  {
    assert Wf(Extract(k, 0, x));
    ZeroExt(x.w, Extract(k, 0, x))
  }

  function ModOp(x: Bv, y: Bv, abstraction: bool): (r: Bv)
    requires Wf(x) && Wf(y) && x.w == y.w
    ensures Wf(r) && r.w == x.w
  {
    if y.Num? && y.value == 0 then y
    else if y.Num? && y.value == 1 then Word(x.w, 0)
    else if y.Num? && x.Num? then Word(x.w, Rem(x.value, y.value))
    else if y.Num? && IsPowerOfTwo(y.value) then
      LogBelow(y.value, x.w);
      LowBits(x, BitLength(y.value) - 1)
    else if abstraction then Abstracted(UREM_ABSTRACTION, x, y)
    else Bin(x.w, Urem, x, y)
  }

  /** A word in another width: extended with zeros or truncated. */
  function Resize(x: Bv, w: nat): (r: Bv)
    requires Wf(x) && w > 0
    ensures Wf(r) && r.w == w
  {
    if x.w == w then x
    else if x.Num? then Word(w, x.value)
    else if x.w < w then ZeroExt(w, x)
    else Extract(w, 0, x)
  }

  function AddOp(x: Bv, y: Bv): (r: Bv)
    requires Wf(x) && Wf(y) && x.w == y.w
    ensures Wf(r) && r.w == x.w
  {
    if x.Num? && y.Num? then Word(x.w, x.value + y.value) else Nary(x.w, Add, [x, y])
  }

  function AddmodOp(x: Bv, y: Bv, m: Bv, abstraction: bool): (r: Bv)
    requires Wf(x) && Wf(y) && Wf(m) && x.w == y.w == m.w
    ensures Wf(r) && r.w == x.w
  {
    if x.Num? && y.Num? && m.Num? then
      if m.value == 0 then Word(x.w, 0) else Word(x.w, Rem(x.value + y.value, m.value))
    else
      var n := x.w + 8;
      Resize(ModOp(AddOp(Resize(x, n), Resize(y, n)), Resize(m, n), abstraction), x.w)
  }

  function MulmodOp(x: Bv, y: Bv, m: Bv, mulAbstraction: bool, modAbstraction: bool): (r: Bv)
    requires Wf(x) && Wf(y) && Wf(m) && x.w == y.w == m.w
    ensures Wf(r) && r.w == x.w
  {
    if x.Num? && y.Num? && m.Num? then
      if m.value == 0 then Word(x.w, 0) else Word(x.w, Rem(Times(x.value, y.value), m.value))
    else
      var n := 2 * x.w;
      Resize(ModOp(MulOp(Resize(x, n), Resize(y, n), mulAbstraction), Resize(m, n), modAbstraction), x.w)
  }

  // ---- powers of two ----

  lemma PowerOfTwo(n: nat)
    requires IsPowerOfTwo(n)
    ensures BitLength(n) > 0 && n == Pow2(BitLength(n) - 1)
  {
    if n == 1 {
      assert BitLength(1) == 1;
    } else {
      BitAndCommutes(n, n - 1);
      MaskTest(n - 1);
      BitLengthUnique(n, BitLength(n - 1));
    }
  }

  lemma LogBelow(n: nat, w: nat)
    requires IsPowerOfTwo(n) && 1 < n < Pow2(w)
    ensures 1 <= BitLength(n) - 1 < w && n == Pow2(BitLength(n) - 1)
  {
    PowerOfTwo(n);
    if BitLength(n) - 1 >= w {
      Pow2Mono(w, BitLength(n) - 1);
    }
  }

  // ---- the meaning of the terms ----

  lemma WordMeans(w: nat, v: nat, rho: Val)
    requires w > 0
    ensures Eval(Word(w, v), rho) == Mod2(v, w)
    ensures v < Pow2(w) ==> Eval(Word(w, v), rho) == v
  {
    hide Pow2;
  }

  lemma TimesOne(a: nat)
    ensures Times(1, a) == a && Times(a, 1) == a && Times(0, a) == 0 && Times(a, 0) == 0
  {
  }

  lemma TimesCommutes(a: nat, b: nat)
    ensures Times(a, b) == Times(b, a)
  {
  }

  lemma QuotOne(a: nat)
    ensures Quot(a, 1) == a && Rem(a, 1) == 0
  {
    RemOf(a, 1, a, 0);
  }

  lemma ProductMeans(w: nat, x: Bv, y: Bv, rho: Val)
    requires w > 0 && Wf(x) && Wf(y) && x.w == y.w == w
    ensures Eval(Product2(w, x, y), rho) == EvmMul(Eval(x, rho), Eval(y, rho), w)
  {
    hide Pow2, Rem, Wf;
    var args := [x, y];
    assert Wf(Nary(w, Mul, args)) by {
      PairWf(w, x, y);
    }
    var vs := Values(args, rho);
    assert vs == [Eval(x, rho), Eval(y, rho)];
    assert vs[1..] == [Eval(y, rho)] && vs[1..][1..] == [];
    TimesOne(Eval(y, rho));
    assert Product(vs[1..]) == Times(Eval(y, rho), Product([]));
    assert Product(vs) == Times(Eval(x, rho), Eval(y, rho));
    NaryMeans(w, args, rho);
  }

  lemma PairWf(w: nat, x: Bv, y: Bv)
    requires w > 0 && Wf(x) && Wf(y) && x.w == y.w == w
    ensures Wf(Nary(w, Mul, [x, y]))
  {
    hide Pow2;
  }

  lemma NaryMeans(w: nat, args: seq<Bv>, rho: Val)
    requires Wf(Nary(w, Mul, args))
    ensures Eval(Nary(w, Mul, args), rho) == Mod2(Product(Values(args, rho)), w)
  {
    hide Pow2, Rem;
  }

  lemma AbstractedMeans(name: string, x: Bv, y: Bv, rho: Val)
    requires Wf(x) && Wf(y) && x.w == y.w
    ensures Eval(Abstracted(name, x, y), rho) == AppValue(name, [Eval(x, rho), Eval(y, rho)], x.w, rho)
  {
    hide Pow2, Rem, AppValue;
    assert Values([x, y], rho) == [Eval(x, rho), Eval(y, rho)];
  }

  lemma ShlMeans(x: Bv, s: Bv, rho: Val)
    requires Wf(x) && Wf(s) && s.w == x.w
    ensures Eval(ShlOp(x, s), rho) == EvmShl(Eval(x, rho), Eval(s, rho), x.w)
  {
    hide Pow2, Rem, Times;
    if s.Num? && s.value == 0 {
      ShiftNone(Eval(x, rho), x.w);
    } else if s.Num? && s.value >= x.w {
      WordMeans(x.w, 0, rho);
    } else if s.Num? && x.Num? {
      WordMeans(x.w, Times(x.value, Pow2(s.value)), rho);
    }
  }

  lemma ShiftNone(a: nat, w: nat)
    requires a < Pow2(w)
    ensures Mod2(Times(a, Pow2(0)), w) == a && Quot(a, Pow2(0)) == a
  {
    TimesOne(a);
    QuotOne(a);
    assert Pow2(0) == 1;
  }

  lemma ShrMeans(x: Bv, s: Bv, rho: Val)
    requires Wf(x) && Wf(s) && s.w == x.w
    ensures Eval(ShrOp(x, s), rho) == EvmShr(Eval(x, rho), Eval(s, rho), x.w)
  {
    hide Pow2, Rem, Quot;
    if s.Num? && s.value == 0 {
      ShiftNone(Eval(x, rho), x.w);
    } else if s.Num? && x.Num? {
      ShrConst(x.value, s.value, x.w, rho);
    } else if s.Num? && s.value >= x.w {
      WordMeans(x.w, 0, rho);
    }
  }

  lemma ShrConst(a: nat, s: nat, w: nat, rho: Val)
    requires w > 0 && a < Pow2(w)
    ensures Eval(Word(w, Quot(a, Pow2(s))), rho) == EvmShr(a, s, w)
  {
    hide Pow2;
    WordMeans(w, Quot(a, Pow2(s)), rho);
    if s >= w {
      Pow2Mono(w, s);
      RemOf(a, Pow2(s), 0, a);
    }
  }

  /** A shift by the logarithm is a product with the power of two. */
  lemma ShiftIsProduct(a: nat, n: nat, w: nat)
    requires IsPowerOfTwo(n) && n < Pow2(w)
    ensures BitLength(n) > 0 && EvmShl(a, BitLength(n) - 1, w) == EvmMul(n, a, w)
    ensures EvmShr(a, BitLength(n) - 1, w) == EvmDiv(a, n)
    ensures BitLength(n) - 1 < Pow2(w)
  {
    hide Rem, Quot;
    PowerOfTwo(n);
    var k := BitLength(n) - 1;
    if k >= w {
      Pow2Mono(w, k);
    }
    TimesCommutes(a, n);
    LogSmall(k, w);
  }

  lemma {:induction false} LogSmall(k: nat, w: nat)
    requires k <= w
    ensures k < Pow2(w)
  {
    if k > 0 {
      LogSmall(k - 1, w - 1);
    }
  }

  lemma MulConstMeans(c: Bv, y: Bv, rho: Val)
    requires Wf(c) && Wf(y) && c.Num? && c.w == y.w
    ensures Eval(MulConst(c, y), rho) == EvmMul(c.value, Eval(y, rho), c.w)
  {
    hide Pow2, Rem, ShlOp, EvmShl, Times, IsPowerOfTwo, BitLength, Word, Product2;
    var w, b := c.w, Eval(y, rho);
    TimesOne(b);
    if c.value == 0 {
      SmallMod(0, w);
    } else if c.value == 1 {
      SmallMod(b, w);
    } else if IsPowerOfTwo(c.value) {
      PowerOfTwo(c.value);
      ShiftByLog(c.value, y, rho);
    } else {
      ProductMeans(w, c, y, rho);
    }
  }

  lemma ShiftByLog(n: nat, y: Bv, rho: Val)
    requires Wf(y) && IsPowerOfTwo(n) && n < Pow2(y.w) && y.w > 0 && BitLength(n) > 0
    ensures Eval(ShlOp(y, Word(y.w, BitLength(n) - 1)), rho) == EvmMul(n, Eval(y, rho), y.w)
  {
    hide Pow2, Rem, ShlOp, EvmShl, EvmMul, IsPowerOfTwo, Word, Eval;
    ShiftIsProduct(Eval(y, rho), n, y.w);
    WordMeans(y.w, BitLength(n) - 1, rho);
    ShlMeans(y, Word(y.w, BitLength(n) - 1), rho);
  }

  // ---- the shortcuts are right ----

  lemma MulMeans(x: Bv, y: Bv, abstraction: bool, rho: Val)
    requires Wf(x) && Wf(y) && x.w == y.w
    ensures Eval(MulOp(x, y, abstraction), rho) == EvmMul(Eval(x, rho), Eval(y, rho), x.w)
  {
    hide Pow2, Rem, Times, MulConst, Product2;
    var a, b := Eval(x, rho), Eval(y, rho);
    TimesCommutes(a, b);
    if x.Num? && y.Num? {
      WordMeans(x.w, Times(a, b), rho);
    } else if x.Num? {
      MulConstMeans(x, y, rho);
    } else if y.Num? {
      MulConstMeans(y, x, rho);
    } else if abstraction {
      MulAbstracted(x, y, rho);
    } else {
      ProductMeans(x.w, x, y, rho);
    }
  }

  lemma MulAbstracted(x: Bv, y: Bv, rho: Val)
    requires Wf(x) && Wf(y) && x.w == y.w
    ensures Eval(Abstracted(MUL_ABSTRACTION, x, y), rho) == EvmMul(Eval(x, rho), Eval(y, rho), x.w)
  {
    hide Pow2, Rem, Times;
    AbstractedMeans(MUL_ABSTRACTION, x, y, rho);
    NamesApart();
  }

  lemma NamesApart()
    ensures !(UDIV_ABSTRACTION <= MUL_ABSTRACTION) && !(UREM_ABSTRACTION <= MUL_ABSTRACTION)
    ensures !(UDIV_ABSTRACTION <= UREM_ABSTRACTION)
  {
    assert UDIV_ABSTRACTION[8] == 'u' && MUL_ABSTRACTION[8] == 'm';
    assert UREM_ABSTRACTION[9] == 'r' && UDIV_ABSTRACTION[9] == 'd';
  }

  lemma DivAbstracted(x: Bv, y: Bv, rho: Val)
    requires Wf(x) && Wf(y) && x.w == y.w
    ensures Eval(Abstracted(UDIV_ABSTRACTION, x, y), rho) == EvmDiv(Eval(x, rho), Eval(y, rho))
    ensures Eval(Abstracted(UREM_ABSTRACTION, x, y), rho) == EvmMod(Eval(x, rho), Eval(y, rho))
  {
    hide Pow2, Quot;
    AbstractedMeans(UDIV_ABSTRACTION, x, y, rho);
    AbstractedMeans(UREM_ABSTRACTION, x, y, rho);
    NamesApart();
    var a, b := Eval(x, rho), Eval(y, rho);
    SmallMod(0, x.w);
    if b > 0 {
      SmallMod(Quot(a, b), x.w);
      RemAtMost(a, b);
      SmallMod(Rem(a, b), x.w);
    }
  }

  lemma RemAtMost(a: nat, b: nat)
    requires b > 0
    ensures Rem(a, b) <= a
  {
    QuotientIsDiv(a, b);
    var q := Quot(a, b);
    if q > 0 {
      MulStep(b, q);
    }
  }

  lemma DivConstMeans(x: Bv, y: Bv, abstraction: bool, rho: Val)
    requires Wf(x) && Wf(y) && x.w == y.w && y.Num?
    ensures Eval(DivOp(x, y, abstraction), rho) == EvmDiv(Eval(x, rho), y.value)
  {
    hide Pow2, Rem, Quot, ShrOp, Abstracted, EvmShr, Word, IsPowerOfTwo, BitLength, Times;
    var a := Eval(x, rho);
    QuotOne(a);
    if y.value > 1 {
      if x.Num? {
        WordMeans(x.w, Quot(a, y.value), rho);
      } else if IsPowerOfTwo(y.value) {
        PowerOfTwo(y.value);
        ShiftRightByLog(y.value, x, rho);
      } else if abstraction {
        DivAbstracted(x, y, rho);
      }
    }
  }

  lemma ShiftRightByLog(n: nat, x: Bv, rho: Val)
    requires Wf(x) && IsPowerOfTwo(n) && n < Pow2(x.w) && x.w > 0 && BitLength(n) > 0
    ensures Eval(ShrOp(x, Word(x.w, BitLength(n) - 1)), rho) == EvmDiv(Eval(x, rho), n)
  {
    hide Pow2, Rem, Quot, ShrOp, EvmShr, EvmDiv, IsPowerOfTwo, Word, Eval;
    ShiftIsProduct(Eval(x, rho), n, x.w);
    WordMeans(x.w, BitLength(n) - 1, rho);
    ShrMeans(x, Word(x.w, BitLength(n) - 1), rho);
  }

  /** Division; without the abstraction, a divisor that is symbolic must not be zero. */
  lemma DivMeans(x: Bv, y: Bv, abstraction: bool, rho: Val)
    requires Wf(x) && Wf(y) && x.w == y.w
    ensures Eval(DivOp(x, y, abstraction), rho) == EvmDiv(Eval(x, rho), Eval(y, rho)) <==>
            (abstraction || y.Num? || Eval(y, rho) != 0)
  {
    hide Pow2, Rem, Quot, ShrOp, Abstracted, EvmShr, Word, IsPowerOfTwo, Times;
    if y.Num? {
      DivConstMeans(x, y, abstraction, rho);
    } else if abstraction {
      DivAbstracted(x, y, rho);
    } else {
      AllOnes(x.w);
    }
  }

  lemma AllOnes(w: nat)
    requires w > 0
    ensures Pow2(w) - 1 > 0
  {
  }

  lemma LowBitsMean(x: Bv, k: nat, rho: Val)
    requires Wf(x) && 1 <= k <= x.w
    ensures Eval(LowBits(x, k), rho) == Rem(Eval(x, rho), Pow2(k))
  {
    hide Pow2, Rem, Quot;
    assert Wf(Extract(k, 0, x));
    ShiftNone(Eval(x, rho), x.w);
    assert Eval(Extract(k, 0, x), rho) == Mod2(Quot(Eval(x, rho), Pow2(0)), k);
  }

  lemma ModConstMeans(x: Bv, y: Bv, abstraction: bool, rho: Val)
    requires Wf(x) && Wf(y) && x.w == y.w && y.Num?
    ensures Eval(ModOp(x, y, abstraction), rho) == EvmMod(Eval(x, rho), y.value)
  {
    hide Pow2, Rem, Quot, LowBits, Abstracted, Word, IsPowerOfTwo, BitLength, Times;
    var a := Eval(x, rho);
    QuotOne(a);
    WordMeans(x.w, 0, rho);
    SmallMod(0, x.w);
    if y.value > 1 {
      if x.Num? {
        WordMeans(x.w, Rem(a, y.value), rho);
        RemAtMost(a, y.value);
      } else if IsPowerOfTwo(y.value) {
        LogBelow(y.value, x.w);
        LowBitsByLog(y.value, x, rho);
      } else if abstraction {
        DivAbstracted(x, y, rho);
      }
    }
  }

  lemma LowBitsByLog(n: nat, x: Bv, rho: Val)
    requires Wf(x) && IsPowerOfTwo(n) && 1 < n < Pow2(x.w) && 1 <= BitLength(n) - 1 <= x.w
    ensures Eval(LowBits(x, BitLength(n) - 1), rho) == EvmMod(Eval(x, rho), n)
  {
    hide Pow2, Rem, Quot, LowBits, IsPowerOfTwo, BitLength, Eval;
    LogBelow(n, x.w);
    LowBitsMean(x, BitLength(n) - 1, rho);
  }

  /** Remainder; without the abstraction, a symbolic divisor must not be zero, or the dividend is. */
  lemma ModMeans(x: Bv, y: Bv, abstraction: bool, rho: Val)
    requires Wf(x) && Wf(y) && x.w == y.w
    ensures Eval(ModOp(x, y, abstraction), rho) == EvmMod(Eval(x, rho), Eval(y, rho)) <==>
            (abstraction || y.Num? || Eval(y, rho) != 0 || Eval(x, rho) == 0)
  {
    hide Pow2, Rem, Quot, LowBits, Abstracted, Word, IsPowerOfTwo, Times;
    if y.Num? {
      ModConstMeans(x, y, abstraction, rho);
    } else if abstraction {
      DivAbstracted(x, y, rho);
    }
  }

  lemma ResizeMeans(x: Bv, w: nat, rho: Val)
    requires Wf(x) && w > 0
    ensures Eval(Resize(x, w), rho) == Mod2(Eval(x, rho), w)
    ensures x.w <= w ==> Eval(Resize(x, w), rho) == Eval(x, rho)
  {
    hide Pow2, Rem, Quot;
    var a := Eval(x, rho);
    if x.w <= w {
      Pow2Mono(x.w, w);
      SmallMod(a, w);
    }
    if x.Num? {
      WordMeans(w, a, rho);
    } else if x.w > w {
      ShiftNone(a, x.w);
      assert Eval(Extract(w, 0, x), rho) == Mod2(Quot(a, Pow2(0)), w);
    }
  }

  lemma AddMeans(x: Bv, y: Bv, rho: Val)
    requires Wf(x) && Wf(y) && x.w == y.w
    ensures Eval(AddOp(x, y), rho) == Mod2(Eval(x, rho) + Eval(y, rho), x.w)
  {
    hide Pow2, Rem;
    if x.Num? && y.Num? {
      WordMeans(x.w, x.value + y.value, rho);
    } else {
      EvalAddPair(x.w, x, y, rho);
    }
  }

  /** Without the abstraction, the modulus is constant or not zero, or the low bits of the dividend are zero. */
  ghost predicate Reduces(abstraction: bool, m: Bv, dividend: nat, w: nat, rho: Val)
    requires Wf(m)
  {
    abstraction || m.Num? || Eval(m, rho) != 0 || Mod2(dividend, w) == 0
  }

  /** A remainder, truncated: without the abstraction a symbolic zero divisor leaves the dividend. */
  lemma TruncatedMod(r: Bv, m: Bv, w: nat, abstraction: bool, rho: Val)
    requires Wf(r) && Wf(m) && r.w == m.w && w > 0 && Eval(m, rho) < Pow2(w)
    ensures Eval(Resize(ModOp(r, m, abstraction), w), rho) == EvmMod(Eval(r, rho), Eval(m, rho)) <==>
            Reduces(abstraction, m, Eval(r, rho), w, rho)
  {
    hide Pow2, Rem, Quot, Resize;
    var a, c := Eval(r, rho), Eval(m, rho);
    ResizeMeans(ModOp(r, m, abstraction), w, rho);
    if abstraction || m.Num? || c != 0 {
      ModMeans(r, m, abstraction, rho);
      Reduced(a, c, w);
    } else {
      assert Eval(ModOp(r, m, false), rho) == a;
    }
  }

  /**
   * (a + b) mod m without overflow; zero for a zero modulus. Without the abstraction, a symbolic
   * modulus must not be zero, or the sum is a multiple of 2^w.
   */
  lemma AddmodMeans(x: Bv, y: Bv, m: Bv, abstraction: bool, rho: Val)
    requires Wf(x) && Wf(y) && Wf(m) && x.w == y.w == m.w
    ensures Eval(AddmodOp(x, y, m, abstraction), rho) == EvmMod(Eval(x, rho) + Eval(y, rho), Eval(m, rho)) <==>
            Reduces(abstraction, m, Eval(x, rho) + Eval(y, rho), x.w, rho)
  {
    hide Pow2, Rem, Quot, ModOp, AddOp, Word, Resize;
    var a, b, c, w := Eval(x, rho), Eval(y, rho), Eval(m, rho), x.w;
    if x.Num? && y.Num? && m.Num? {
      WordMeans(w, if c == 0 then 0 else Rem(a + b, c), rho);
      SmallMod(0, w);
    } else {
      var n := w + 8;
      ResizeMeans(x, n, rho);
      ResizeMeans(y, n, rho);
      ResizeMeans(m, n, rho);
      AddMeans(Resize(x, n), Resize(y, n), rho);
      Pow2Less(w, n);
      SmallMod(a + b, n);
      ResizeConst(m, n);
      TruncatedMod(AddOp(Resize(x, n), Resize(y, n)), Resize(m, n), w, abstraction, rho);
    }
  }

  lemma ResizeConst(x: Bv, w: nat)
    requires Wf(x) && w > 0
    ensures Resize(x, w).Num? <==> x.Num?
  {
    hide Pow2;
  }

  lemma Reduced(a: nat, c: nat, w: nat)
    requires c < Pow2(w)
    ensures Mod2(EvmMod(a, c), w) == EvmMod(a, c)
  {
    hide Pow2;
  }

  /** (a * b) mod m without overflow, likewise. */
  lemma MulmodMeans(x: Bv, y: Bv, m: Bv, mulAbstraction: bool, modAbstraction: bool, rho: Val)
    requires Wf(x) && Wf(y) && Wf(m) && x.w == y.w == m.w
    ensures Eval(MulmodOp(x, y, m, mulAbstraction, modAbstraction), rho) ==
            EvmMod(Times(Eval(x, rho), Eval(y, rho)), Eval(m, rho)) <==>
            Reduces(modAbstraction, m, Times(Eval(x, rho), Eval(y, rho)), x.w, rho)
  {
    hide Pow2, Rem, Quot, ModOp, MulOp, Word, Times, Resize;
    var a, b, c, w := Eval(x, rho), Eval(y, rho), Eval(m, rho), x.w;
    if x.Num? && y.Num? && m.Num? {
      WordMeans(w, if c == 0 then 0 else Rem(Times(a, b), c), rho);
      SmallMod(0, w);
    } else {
      var n := 2 * w;
      ResizeMeans(x, n, rho);
      ResizeMeans(y, n, rho);
      ResizeMeans(m, n, rho);
      MulMeans(Resize(x, n), Resize(y, n), mulAbstraction, rho);
      ProductFits(a, b, w);
      SmallMod(Times(a, b), n);
      ResizeConst(m, n);
      TruncatedMod(MulOp(Resize(x, n), Resize(y, n), mulAbstraction), Resize(m, n), w, modAbstraction, rho);
    }
  }

  lemma ProductFits(a: nat, b: nat, w: nat)
    requires a < Pow2(w) && b < Pow2(w)
    ensures Times(a, b) < Pow2(2 * w)
  {
    Pow2Add(w, w);
    ProductBelow(a, b, Pow2(w));
  }

  lemma ProductBelow(a: nat, b: nat, m: nat)
    requires a < m && b < m
    ensures a * b < m * m
  {
    assert a * b <= a * m;
    assert a * m < m * m;
  }

  // ---- repeated multiplication ----

  /** x ** y for a constant exponent up to a bound, or by the abstraction, if there is one. */
  method ExpOp(x: Bv, y: Bv, expAbstraction: Option<string>, mulAbstraction: bool, byConst: nat) returns (r: Option<Bv>)
    requires Wf(x) && Wf(y) && x.w == y.w
    ensures r.None? ==> expAbstraction.None?
    ensures r.Some? ==> Wf(r.value) && r.value.w == x.w
    ensures y.Num? && (y.value <= 1 || x.Num? || y.value <= byConst) ==>
              r.Some? && forall rho: Val :: Eval(r.value, rho) == Mod2(Power(Eval(x, rho), y.value), x.w)
    ensures !(y.Num? && (y.value <= 1 || x.Num? || y.value <= byConst)) && expAbstraction.Some? ==>
              r == Some(Abstracted(expAbstraction.value, x, y))
  {
    hide Pow2, Rem, Times, MulOp, Word, Eval, Wf, Abstracted;
    PositiveWidth(x);
    if y.Num? {
      if y.value == 0 {
        forall rho: Val ensures Eval(Word(x.w, 1), rho) == Mod2(Power(Eval(x, rho), 0), x.w) {
          WordMeans(x.w, 1, rho);
        }
        return Some(Word(x.w, 1));
      }
      if y.value == 1 {
        forall rho: Val ensures Eval(x, rho) == Mod2(Power(Eval(x, rho), 1), x.w) {
          PowerOne(Eval(x, rho), x.w);
        }
        return Some(x);
      }
      if x.Num? {
        forall rho: Val ensures Eval(Word(x.w, Power(x.value, y.value)), rho) == Mod2(Power(Eval(x, rho), y.value), x.w) {
          ConstPower(x, y.value, rho);
        }
        return Some(Word(x.w, Power(x.value, y.value)));
      }
      if y.value <= byConst {
        var exp := x;
        forall rho: Val ensures Eval(exp, rho) == Mod2(Power(Eval(x, rho), 1), x.w) {
          PowerOne(Eval(x, rho), x.w);
        }
        for k := 0 to y.value - 1
          invariant Wf(exp) && exp.w == x.w
          invariant forall rho: Val :: Eval(exp, rho) == Mod2(Power(Eval(x, rho), k + 1), x.w)
        {
          ghost var before := exp;
          exp := MulOp(x, exp, mulAbstraction);
          forall rho: Val ensures Eval(exp, rho) == Mod2(Power(Eval(x, rho), k + 2), x.w) {
            MulMeans(x, before, mulAbstraction, rho);
            PowerStep(Eval(x, rho), k + 1, x.w);
          }
        }
        return Some(exp);
      }
    }
    if expAbstraction.None? {
      return None;
    }
    r := Some(Abstracted(expAbstraction.value, x, y));
  }

  lemma PositiveWidth(x: Bv)
    requires Wf(x)
    ensures x.w > 0
  {
  }

  lemma PowerOne(a: nat, w: nat)
    requires a < Pow2(w)
    ensures Mod2(Power(a, 1), w) == a
  {
    assert Power(a, 1) == Times(a, Power(a, 0));
    TimesOne(a);
  }

  lemma ConstPower(x: Bv, n: nat, rho: Val)
    requires Wf(x) && x.Num?
    ensures Eval(Word(x.w, Power(x.value, n)), rho) == Mod2(Power(Eval(x, rho), n), x.w)
  {
    hide Pow2, Power;
    WordMeans(x.w, Power(x.value, n), rho);
  }

  /** Multiplying the reduced power is the next reduced power. */
  lemma PowerStep(a: nat, k: nat, w: nat)
    ensures EvmMul(a, Mod2(Power(a, k), w), w) == Mod2(Power(a, k + 1), w)
  {
    hide Pow2;
    var p := Power(a, k);
    RemMul(p, a, Pow2(w));
    TimesCommutes(a, Mod2(p, w));
    TimesCommutes(a, p);
  }
}
