// Counting leading zeros (EIP-7939) by a ladder of eight halving steps.
module Clz {
  import opened Bits
  import opened BvTerms
  import opened BvFacts
  import opened WordOps

  /** The number of zero bits above the highest one, among n bits. */
  function LeadingZeros(v: nat, n: nat): int {
    n - BitLength(v)
  }

  // ---- one step on values ----

  /** The top n bits of a word hold c, and all other bits are zero. */
  ghost predicate Window(cur: nat, c: nat, n: nat) {
    n <= WORD && c < Pow2(n) && cur == Times(c, Pow2(WORD - n))
  }

  lemma WindowIsWord(cur: nat, c: nat, n: nat)
    requires Window(cur, c, n)
    ensures cur < Pow2(WORD) && (c == 0 <==> cur == 0)
  {
    hide Pow2, Rem;
    var p := Pow2(WORD - n);
    Pow2Add(n, WORD - n);
    ProductOrder(c, Pow2(n), p);
  }

  lemma ProductOrder(c: nat, m: nat, p: nat)
    requires c < m && p >= 1
    ensures c * p < m * p && (c == 0 <==> c * p == 0)
  {
    if c > 0 {
      assert c * p >= p by {
        MulStep(p, c);
      }
    }
    assert (m - c) * p >= p by {
      MulStep(p, m - c);
    }
    assert (m - c) * p == m * p - c * p;
  }

  /** Shifting a window of 2s bits right leaves its upper half. */
  lemma TopBits(cur: nat, c: nat, s: nat)
    requires Window(cur, c, 2 * s) && 2 * s <= WORD && s > 0
    ensures Quot(cur, Pow2(WORD - s)) == Quot(c, Pow2(s))
  {
    hide Pow2, Rem, Quot;
    var a, b := Pow2(WORD - 2 * s), Pow2(s);
    Pow2Add(WORD - 2 * s, s);
    assert Pow2(WORD - s) == a * b;
    QuotientIsDiv(c, b);
    var q, r := Quot(c, b), Rem(c, b);
    Regroup(a, b, q, r);
    RemainderFits(a, b, r);
    RemOf(cur, a * b, q, r * a);
  }

  lemma Regroup(a: nat, b: nat, q: nat, r: nat)
    ensures (b * q + r) * a == (a * b) * q + r * a
  {
    assert (b * q + r) * a == (b * q) * a + r * a;
    assert (b * q) * a == (a * b) * q;
  }

  lemma RemainderFits(a: nat, b: nat, r: nat)
    requires r < b && a >= 1
    ensures r * a < a * b
  {
    ProductOrder(r, b, a);
  }

  /** A zero upper half: the window moves to the lower half. */
  lemma LowerHalf(cur: nat, c: nat, s: nat)
    requires Window(cur, c, 2 * s) && 2 * s <= WORD && s > 0 && Quot(c, Pow2(s)) == 0
    ensures Window(EvmShl(cur, s, WORD), c, s)
    ensures LeadingZeros(c, 2 * s) == s + LeadingZeros(c, s)
  {
    hide Pow2, Rem, Quot;
    QuotientIsDiv(c, Pow2(s));
    var a, b := Pow2(WORD - 2 * s), Pow2(s);
    Pow2Add(WORD - 2 * s, s);
    Associate(c, a, b);
    var next := Times(c, Pow2(WORD - s));
    assert Window(next, c, s);
    WindowIsWord(next, c, s);
    SmallMod(next, WORD);
  }

  lemma Associate(c: nat, a: nat, b: nat)
    ensures (c * a) * b == c * (a * b)
  {
  }

  /** A non-zero upper half: the window shrinks to it. */
  lemma UpperHalf(c: nat, s: nat)
    requires c < Pow2(2 * s) && 2 * s <= WORD && s > 0 && Quot(c, Pow2(s)) > 0
    ensures var h := Quot(c, Pow2(s));
      && Window(EvmShl(h, WORD - s, WORD), h, s)
      && LeadingZeros(c, 2 * s) == LeadingZeros(h, s)
  {
    hide Pow2, Rem, Quot;
    var h := Quot(c, Pow2(s));
    UpperFits(c, s);
    var next := Times(h, Pow2(WORD - s));
    assert Window(next, h, s);
    WindowIsWord(next, h, s);
    SmallMod(next, WORD);
    HighPart(c, s);
  }

  lemma UpperFits(c: nat, s: nat)
    requires c < Pow2(2 * s)
    ensures Quot(c, Pow2(s)) < Pow2(s)
  {
    hide Pow2, Rem, Quot;
    Pow2Add(s, s);
    QuotientIsDiv(c, Pow2(s));
    QuotBelow(Quot(c, Pow2(s)), Pow2(s), Rem(c, Pow2(s)));
  }

  lemma QuotBelow(q: nat, m: nat, r: nat)
    requires m >= 1 && m * q + r < m * m
    ensures q < m
  {
    if q >= m {
      ProductGrows(m, q);
    }
  }

  lemma ProductGrows(m: nat, q: nat)
    requires q >= m
    ensures m * q >= m * m
  {
    assert m * (q - m) >= 0;
    assert m * (q - m) == m * q - m * m;
  }

  /** The upper part has s bits less. */
  lemma {:induction false} HighPart(c: nat, s: nat)
    requires Quot(c, Pow2(s)) > 0
    ensures BitLength(c) == BitLength(Quot(c, Pow2(s))) + s
  {
    QuotientIsDiv(c, Pow2(s));
    if s == 0 {
      QuotOne(c);
    } else {
      HalvedQuot(c, s);
      HighPart(c / 2, s - 1);
    }
  }

  lemma HalvedQuot(c: nat, s: nat)
    requires s > 0
    ensures Quot(c, Pow2(s)) == Quot(c / 2, Pow2(s - 1))
  {
    var m := Pow2(s - 1);
    QuotientIsDiv(c / 2, m);
    var q, r := Quot(c / 2, m), Rem(c / 2, m);
    Doubled(m, q);
    assert c == (2 * m) * q + (2 * r + c % 2);
    RemOf(c, 2 * m, q, 2 * r + c % 2);
  }

  lemma Doubled(m: nat, q: nat)
    ensures 2 * (m * q) == (2 * m) * q
  {
  }

  // ---- the ladder ----

  /** What is known of a word and the accumulators when n bits are left. */
  ghost predicate OnLadder(x: nat, acc: nat, cur: nat, n: nat) {
    n <= WORD && acc <= WORD - n
    && exists c: nat :: Window(cur, c, n) && (x > 0 ==> c > 0 && LeadingZeros(x, WORD) == acc + LeadingZeros(c, n))
  }

  lemma LadderStart(x: nat)
    requires x < Pow2(WORD)
    ensures OnLadder(x, 0, x, WORD)
  {
    hide Pow2;
    TimesOne(x);
    assert Pow2(WORD - WORD) == 1 by {
      PowZero();
    }
    assert Window(x, x, WORD);
  }

  lemma PowZero()
    ensures Pow2(0) == 1
  {
  }

  lemma LadderStep(x: nat, acc: nat, cur: nat, s: nat)
    requires s > 0 && OnLadder(x, acc, cur, 2 * s)
    ensures cur < Pow2(WORD)
    ensures var top := Quot(cur, Pow2(WORD - s));
      if top == 0 then OnLadder(x, acc + s, EvmShl(cur, s, WORD), s)
      else OnLadder(x, acc, EvmShl(top, WORD - s, WORD), s)
  {
    hide Pow2, Rem, Quot, Window, EvmShl, LeadingZeros;
    var c: nat :| Window(cur, c, 2 * s) && (x > 0 ==> c > 0 && LeadingZeros(x, WORD) == acc + LeadingZeros(c, 2 * s));
    WindowIsWord(cur, c, 2 * s);
    TopBits(cur, c, s);
    WindowBound(cur, c, 2 * s);
    if Quot(c, Pow2(s)) == 0 {
      LowerHalf(cur, c, s);
    } else {
      UpperHalf(c, s);
    }
  }

  lemma WindowBound(cur: nat, c: nat, n: nat)
    requires Window(cur, c, n)
    ensures c < Pow2(n)
  {
  }

  lemma LadderEnd(x: nat, acc: nat, cur: nat)
    requires OnLadder(x, acc, cur, 1) && x > 0
    ensures acc == LeadingZeros(x, WORD)
  {
    hide Window;
    var c: nat :| Window(cur, c, 1) && c > 0 && LeadingZeros(x, WORD) == acc + LeadingZeros(c, 1);
    WindowBound(cur, c, 1);
    assert Pow2(1) == 2 && BitLength(1) == 1;
  }

  // ---- the symbolic count ----

  const SHIFTS: seq<nat> := [128, 64, 32, 16, 8, 4, 2, 1]

  function IsZero(x: Bv): Bl {
    Rel(Eq, x, Num(WORD, 0))
  }

  function TopTerm(cur: Bv, s: nat): Bv
    requires s <= WORD
  {
    Bin(WORD, Lshr, cur, Num(WORD, WORD - s))
  }

  function NextAcc(acc: Bv, cur: Bv, s: nat): Bv
    requires s <= WORD
  {
    Ite(WORD, IsZero(TopTerm(cur, s)), Nary(WORD, Add, [acc, Num(WORD, s)]), acc)
  }

  function NextCur(cur: Bv, s: nat): Bv
    requires s <= WORD
  {
    Ite(WORD, IsZero(TopTerm(cur, s)), Bin(WORD, Shl, cur, Num(WORD, s)),
        Bin(WORD, Shl, TopTerm(cur, s), Num(WORD, WORD - s)))
  }

  predicate IsWord(x: Bv) {
    Wf(x) && x.w == WORD
  }

  lemma NumberMeans(v: nat, rho: Val)
    requires v <= WORD
    ensures IsWord(Num(WORD, v)) && Eval(Num(WORD, v), rho) == v
  {
    hide Pow2;
    LogSmall(WORD, WORD);
  }

  lemma IsZeroMeans(x: Bv, rho: Val)
    requires IsWord(x)
    ensures WfB(IsZero(x)) && (EvalB(IsZero(x), rho) <==> Eval(x, rho) == 0)
  {
    hide Pow2;
    NumberMeans(0, rho);
  }

  lemma TopMeans(cur: Bv, s: nat, rho: Val)
    requires IsWord(cur) && 0 < s <= WORD
    ensures IsWord(TopTerm(cur, s)) && Eval(TopTerm(cur, s), rho) == Quot(Eval(cur, rho), Pow2(WORD - s))
  {
    hide Pow2, Quot, Rem;
    NumberMeans(WORD - s, rho);
  }

  lemma ShiftMeans(cur: Bv, s: nat, rho: Val)
    requires IsWord(cur) && s <= WORD
    ensures IsWord(Bin(WORD, Shl, cur, Num(WORD, s)))
    ensures Eval(Bin(WORD, Shl, cur, Num(WORD, s)), rho) == EvmShl(Eval(cur, rho), s, WORD)
  {
    hide Pow2, Quot, Rem, Times;
    NumberMeans(s, rho);
  }

  lemma SumMeans(acc: Bv, s: nat, rho: Val)
    requires IsWord(acc) && s <= WORD
    ensures IsWord(Nary(WORD, Add, [acc, Num(WORD, s)]))
    ensures Eval(acc, rho) + s <= WORD ==> Eval(Nary(WORD, Add, [acc, Num(WORD, s)]), rho) == Eval(acc, rho) + s
  {
    hide Pow2, Rem;
    NumberMeans(s, rho);
    EvalAddPair(WORD, acc, Num(WORD, s), rho);
    if Eval(acc, rho) + s <= WORD {
      LogSmall(WORD, WORD);
      SmallMod(Eval(acc, rho) + s, WORD);
    }
  }

  lemma StepMeans(x: Bv, acc: Bv, cur: Bv, s: nat, rho: Val)
    requires Wf(x) && IsWord(acc) && IsWord(cur) && 0 < s && 2 * s <= WORD
    requires OnLadder(Eval(x, rho), Eval(acc, rho), Eval(cur, rho), 2 * s)
    ensures IsWord(NextAcc(acc, cur, s)) && IsWord(NextCur(cur, s))
    ensures OnLadder(Eval(x, rho), Eval(NextAcc(acc, cur, s), rho), Eval(NextCur(cur, s), rho), s)
  {
    hide Pow2, Quot, Rem, EvmShl, TopTerm, IsZero, OnLadder, Times, EvalB, WfB;
    StepWf(acc, cur, s);
    TopMeans(cur, s, rho);
    IsZeroMeans(TopTerm(cur, s), rho);
    LadderStep(Eval(x, rho), Eval(acc, rho), Eval(cur, rho), s);
    ShiftMeans(cur, s, rho);
    ShiftMeans(TopTerm(cur, s), WORD - s, rho);
    SumMeans(acc, s, rho);
    LadderBound(Eval(x, rho), Eval(acc, rho), Eval(cur, rho), 2 * s);
  }

  lemma LadderBound(x: nat, acc: nat, cur: nat, n: nat)
    requires OnLadder(x, acc, cur, n)
    ensures acc <= WORD - n
  {
  }

  lemma StepWf(acc: Bv, cur: Bv, s: nat)
    requires IsWord(acc) && IsWord(cur) && 0 < s <= WORD
    ensures IsWord(NextAcc(acc, cur, s)) && IsWord(NextCur(cur, s))
  {
    hide Pow2, TopTerm, IsZero;
    var rho := Val(imap[], imap[], iset{});
    TopMeans(cur, s, rho);
    IsZeroMeans(TopTerm(cur, s), rho);
    ShiftMeans(cur, s, rho);
    ShiftMeans(TopTerm(cur, s), WORD - s, rho);
    SumMeans(acc, s, rho);
  }

  /** The count as a term; it is the number of leading zeros of every word, also of zero. */
  method CountLeadingZeros(x: Bv) returns (r: Bv)
    requires IsWord(x)
    ensures IsWord(r)
    ensures forall rho: Val :: Eval(r, rho) == LeadingZeros(Eval(x, rho), WORD)
  {
    hide Pow2, Eval, EvalB, LeadingZeros;
    if x.Num? {
      ConcreteCount(x, Val(imap[], imap[], iset{}));
      forall rho: Val
        ensures BitLength(x.value) <= WORD
        ensures IsWord(Num(WORD, WORD - BitLength(x.value)))
        ensures Eval(Num(WORD, WORD - BitLength(x.value)), rho) == LeadingZeros(Eval(x, rho), WORD)
      {
        ConcreteCount(x, rho);
      }
      return Num(WORD, if x.value == 0 then WORD else WORD - BitLength(x.value));
    }
    r := SymbolicCount(x);
  }

  method SymbolicCount(x: Bv) returns (r: Bv)
    requires IsWord(x)
    ensures IsWord(r)
    ensures forall rho: Val :: Eval(r, rho) == LeadingZeros(Eval(x, rho), WORD)
  {
    hide Pow2, Eval, EvalB, OnLadder, NextAcc, NextCur, IsWord, LeadingZeros, IsZero, Wf;
    NumberMeans(0, Val(imap[], imap[], iset{}));
    var acc, cur := Num(WORD, 0), x;
    WordIsWf(x);
    WordIsWf(acc);
    forall rho: Val
      ensures OnLadder(Eval(x, rho), Eval(acc, rho), Eval(cur, rho), WORD)
    {
      NumberMeans(0, rho);
      LadderStart(Eval(x, rho));
    }
    ghost var n := WORD;
    for k := 0 to |SHIFTS|
      invariant IsWord(acc) && IsWord(cur) && Wf(acc) && Wf(cur)
      invariant n == if k < |SHIFTS| then 2 * SHIFTS[k] else 1
      invariant forall rho: Val :: OnLadder(Eval(x, rho), Eval(acc, rho), Eval(cur, rho), n)
    {
      var s := SHIFTS[k];
      ghost var acc', cur' := NextAcc(acc, cur, s), NextCur(cur, s);
      StepWf(acc, cur, s);
      WordIsWf(acc');
      WordIsWf(cur');
      forall rho: Val
        ensures OnLadder(Eval(x, rho), Eval(acc', rho), Eval(cur', rho), s)
      {
        StepMeans(x, acc, cur, s, rho);
      }
      acc, cur := NextAcc(acc, cur, s), NextCur(cur, s);
      n := s;
    }
    r := Ite(WORD, IsZero(x), Num(WORD, WORD), acc);
    ResultWf(x, acc);
    forall rho: Val
      ensures Eval(r, rho) == LeadingZeros(Eval(x, rho), WORD)
    {
      CountMeans(x, acc, cur, rho);
    }
  }

  lemma WordIsWf(x: Bv)
    requires IsWord(x)
    ensures Wf(x) && x.w == WORD
  {
  }

  lemma ResultWf(x: Bv, acc: Bv)
    requires IsWord(x) && IsWord(acc)
    ensures var r := Ite(WORD, IsZero(x), Num(WORD, WORD), acc); IsWord(r) && Wf(r)
  {
    hide Pow2, IsZero;
    NumberMeans(WORD, Val(imap[], imap[], iset{}));
    IsZeroMeans(x, Val(imap[], imap[], iset{}));
  }

  lemma ConcreteCount(x: Bv, rho: Val)
    requires IsWord(x) && x.Num?
    ensures BitLength(x.value) <= WORD
    ensures IsWord(Num(WORD, WORD - BitLength(x.value))) && Wf(x)
    ensures Eval(Num(WORD, WORD - BitLength(x.value)), rho) == LeadingZeros(Eval(x, rho), WORD)
    ensures x.value == 0 ==> BitLength(x.value) == 0
  {
    hide Pow2;
    BitLengthBounds(x.value);
    if BitLength(x.value) > WORD {
      Pow2Mono(WORD, BitLength(x.value) - 1);
    }
    NumberMeans(WORD - BitLength(x.value), rho);
  }

  lemma CountMeans(x: Bv, acc: Bv, cur: Bv, rho: Val)
    requires IsWord(x) && IsWord(acc) && IsWord(cur)
    requires OnLadder(Eval(x, rho), Eval(acc, rho), Eval(cur, rho), 1)
    ensures var r := Ite(WORD, IsZero(x), Num(WORD, WORD), acc);
      IsWord(r) && Eval(r, rho) == LeadingZeros(Eval(x, rho), WORD)
  {
    hide Pow2, IsZero, OnLadder;
    ResultWf(x, acc);
    NumberMeans(WORD, rho);
    IsZeroMeans(x, rho);
    if Eval(x, rho) > 0 {
      LadderEnd(Eval(x, rho), Eval(acc, rho), Eval(cur, rho));
    }
  }
}
