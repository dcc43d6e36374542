// Powers of two, bit lengths, bit masks, division with remainder and congruences: the arithmetic
// that the other modules share, kept free of built-in division where proofs unfold it.
module Bits {

  function Pow2(n: nat): (p: nat)
    ensures p >= 1
  {
    if n == 0 then 1 else 2 * Pow2(n - 1)
  }

  lemma {:induction false} Pow2Add(a: nat, b: nat)
    ensures Pow2(a + b) == Pow2(a) * Pow2(b)
  {
    if a > 0 {
      Pow2Add(a - 1, b);
    }
  }

  lemma {:induction false} Pow2Less(a: nat, b: nat)
    requires a < b
    ensures 2 * Pow2(a) <= Pow2(b)
  {
    if a + 1 < b {
      Pow2Less(a, b - 1);
    }
  }

  lemma Pow2Mono(a: nat, b: nat)
    requires a <= b
    ensures Pow2(a) <= Pow2(b)
  {
    if a < b {
      Pow2Less(a, b);
    }
  }

  /** Python's int.bit_length() on non-negative integers. */
  function BitLength(n: nat): nat {
    if n == 0 then 0 else 1 + BitLength(n / 2)
  }

  lemma {:induction false} BitLengthBounds(n: nat)
    ensures n < Pow2(BitLength(n))
    ensures n > 0 ==> BitLength(n) > 0 && Pow2(BitLength(n) - 1) <= n
  {
    if n > 0 {
      BitLengthBounds(n / 2);
    }
  }

  lemma BitLengthUnique(n: nat, k: nat)
    requires Pow2(k) <= n < Pow2(k + 1)
    ensures BitLength(n) == k + 1
  {
    BitLengthBounds(n);
    if BitLength(n) < k + 1 {
      if BitLength(n) < k {
        Pow2Less(BitLength(n), k);
      }
    } else if BitLength(n) > k + 1 {
      if k + 1 < BitLength(n) - 1 {
        Pow2Less(k + 1, BitLength(n) - 1);
      }
    }
  }

  /** Bitwise conjunction of two non-negative integers. */
  function BitAnd(a: nat, b: nat): nat {
    if a == 0 || b == 0 then 0 else (a % 2) * (b % 2) + 2 * BitAnd(a / 2, b / 2)
  }

  lemma {:induction false} BitAndCommutes(a: nat, b: nat)
    ensures BitAnd(a, b) == BitAnd(b, a)
  {
    if a != 0 && b != 0 {
      BitAndCommutes(a / 2, b / 2);
    }
  }

  lemma {:induction false} BitAndAtMost(a: nat, b: nat)
    ensures BitAnd(a, b) <= a
  {
    if a != 0 && b != 0 {
      BitAndAtMost(a / 2, b / 2);
    }
  }

  lemma RemDouble(a: nat, m: nat)
    requires m > 0
    ensures Rem(a, 2 * m) == a % 2 + 2 * Rem(a / 2, m)
  {
    var q := RemSplit(a / 2, m);
    var r := a % 2 + 2 * Rem(a / 2, m);
    assert a == 2 * (m * q) + r;
    assert (2 * m) * q == 2 * (m * q);
    RemOf(a, 2 * m, q, r);
  }

  /** Masking with 2^n - 1 keeps the value modulo 2^n. */
  lemma {:induction false} MaskIsRem(a: nat, n: nat)
    ensures BitAnd(a, Pow2(n) - 1) == Rem(a, Pow2(n))
  {
    if n == 0 {
      RemOf(a, 1, a, 0);
    } else {
      var m := Pow2(n - 1);
      hide Rem;
      MaskIsRem(a / 2, n - 1);
      RemDouble(a, m);
      assert (2 * m - 1) / 2 == m - 1 && (2 * m - 1) % 2 == 1;
    }
  }

  /** The test `mask & (mask + 1) == 0` recognises exactly the masks 2^n - 1. */
  lemma {:induction false} MaskTest(mask: nat)
    ensures BitAnd(mask, mask + 1) == 0 <==> mask + 1 == Pow2(BitLength(mask))
  {
    if mask != 0 {
      if mask % 2 == 1 {
        assert (mask + 1) / 2 == mask / 2 + 1;
        MaskTest(mask / 2);
      } else {
        assert (mask + 1) / 2 == mask / 2;
        BitAndSelf(mask / 2);
      }
    }
  }

  lemma {:induction false} BitAndSelf(a: nat)
    ensures BitAnd(a, a) == a
  {
    if a != 0 {
      BitAndSelf(a / 2);
    }
  }

  /** A product of two unknowns, kept folded where only its name matters. */
  function Prod(a: int, b: int): int {
    a * b
  }

  // ---- division with remainder ----
  //
  // Remainders by 2^w are unfolded one multiple at a time; RemainderIsMod connects them
  // to the built-in operators.

  /** The representative of x modulo m in [0, m). */
  function Rem(x: int, m: int): (r: nat)
    requires m > 0
    ensures r < m
    decreases if x < 0 then m - x else x
  {
    if x < 0 then Rem(x + m, m) else if x < m then x else Rem(x - m, m)
  }

  /** The quotient of a natural number, rounded down. */
  function Quot(a: nat, c: nat): (q: nat)
    requires c > 0
    ensures q <= a
  {
    if a < c then 0 else 1 + Quot(a - c, c)
  }

  lemma {:induction false} RemainderIsMod(x: int, m: int)
    requires m > 0
    ensures Rem(x, m) == x % m
    decreases if x < 0 then m - x else x
  {
    if x < 0 {
      RemainderIsMod(x + m, m);
      ModShift(x, m, 1);
    } else if x >= m {
      RemainderIsMod(x - m, m);
      ModShift(x, m, -1);
    } else {
      ModOf(x, m, 0, x);
    }
  }

  lemma {:induction false} QuotientIsDiv(a: nat, c: nat)
    requires c > 0
    ensures Quot(a, c) == a / c
    ensures a == c * Quot(a, c) + Rem(a, c)
  {
    RemainderIsMod(a, c);
    if a >= c {
      QuotientIsDiv(a - c, c);
      RemainderIsMod(a - c, c);
      ModOf(a, c, 1 + Quot(a - c, c), Rem(a - c, c));
    } else {
      ModOf(a, c, 0, a);
    }
  }

  /** Division with remainder is unique. */
  lemma RemOf(a: int, m: int, q: int, r: int)
    requires 0 <= r < m && a == m * q + r
    ensures Rem(a, m) == r
    ensures a >= 0 ==> Quot(a, m) == q
  {
    RemainderIsMod(a, m);
    ModOf(a, m, q, r);
    if a >= 0 {
      QuotientIsDiv(a, m);
    }
  }

  lemma RemSplit(a: int, m: int) returns (q: int)
    requires m > 0
    ensures a == m * q + Rem(a, m)
  {
    RemainderIsMod(a, m);
    q := a / m;
  }

  lemma RemShift(a: int, m: int, k: int)
    requires m > 0
    ensures Rem(a + m * k, m) == Rem(a, m)
  {
    var q := RemSplit(a, m);
    assert a + m * k == m * (q + k) + Rem(a, m);
    RemOf(a + m * k, m, q + k, Rem(a, m));
  }

  lemma RemAdd(a: int, b: int, m: int)
    requires m > 0
    ensures Rem(Rem(a, m) + b, m) == Rem(a + b, m)
  {
    var q := RemSplit(a, m);
    RemShift(Rem(a, m) + b, m, q);
  }

  lemma RemMul(a: int, b: int, m: int)
    requires m > 0
    ensures Rem(Rem(a, m) * b, m) == Rem(a * b, m)
  {
    var q := RemSplit(a, m);
    Expand(m, q, Rem(a, m), b);
    RemShift(Rem(a, m) * b, m, q * b);
  }

  lemma Expand(m: int, q: int, r: int, b: int)
    ensures (m * q + r) * b == r * b + m * (q * b)
  {
    assert (m * q + r) * b == (m * q) * b + r * b;
    assert (m * q) * b == m * (q * b);
  }

  lemma ModOf(a: int, m: int, q: int, r: int)
    requires 0 <= r < m && a == m * q + r
    ensures a % m == r && a / m == q
  {
    var d := a / m - q;
    assert m * d == m * (a / m) - m * q;
    assert m * d == r - a % m;
    MulStep(m, d);
  }

  lemma ModShift(a: int, m: int, k: int)
    requires m > 0
    ensures (a + m * k) % m == a % m
  {
    assert a + m * k == m * (a / m + k) + a % m;
    ModOf(a + m * k, m, a / m + k, a % m);
  }

  lemma MulStep(m: int, d: int)
    requires m >= 0
    ensures d >= 1 ==> m * d >= m
    ensures d <= -1 ==> m * d <= -m
  {
    if d >= 1 {
      assert m * d == m + m * (d - 1);
    } else if d <= -1 {
      assert m * d == -m + m * (d + 1);
    }
  }
}
