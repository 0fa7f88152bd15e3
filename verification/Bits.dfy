/** Machine arithmetic shared by every part of the model: bytes, powers of two and the bitwise
    operators of C on unsigned numbers, with the facts that turn masks into arithmetic. */
module Bits {

  type Byte = x: int | 0 <= x < 256

  function Min(a: int, b: int): int { if a > b then b else a }

  function Max(a: int, b: int): int { if a > b then a else b }

  function Pow2(k: nat): (p: nat)
    ensures p > 0
  {
    if k == 0 then 1 else 2 * Pow2(k - 1)
  }

  lemma SmallPowers()
    ensures Pow2(1) == 2 && Pow2(4) == 16 && Pow2(7) == 128 && Pow2(8) == 256
  {
    assert Pow2(4) == 16;
  }

  function BitAnd(a: nat, b: nat): nat {
    if a == 0 || b == 0 then 0
    else (if a % 2 == 1 && b % 2 == 1 then 1 else 0) + 2 * BitAnd(a / 2, b / 2)
  }

  function BitOr(a: nat, b: nat): nat
    decreases a + b
  {
    if a == 0 then b else if b == 0 then a
    else (if a % 2 == 1 || b % 2 == 1 then 1 else 0) + 2 * BitOr(a / 2, b / 2)
  }

  function BitXor(a: nat, b: nat): nat
    decreases a + b
  {
    if a == 0 then b else if b == 0 then a
    else (if a % 2 != b % 2 then 1 else 0) + 2 * BitXor(a / 2, b / 2)
  }

  lemma MulDifference(m: int, a: int, b: int)
    ensures m * a - m * b == m * (a - b)
  {
  }

  lemma MulAtLeast(m: nat, a: int)
    requires a >= 1
    ensures m * a >= m
  {
  }

  lemma Reassociate(a: nat, b: nat)
    ensures (2 * a) * b == a * (2 * b)
  {
  }

  /** Four more doublings. */
  lemma FourMore(k: nat)
    ensures Pow2(k + 4) == 16 * Pow2(k)
  {
    assert Pow2(k + 1) == 2 * Pow2(k) && Pow2(k + 2) == 2 * Pow2(k + 1);
    assert Pow2(k + 3) == 2 * Pow2(k + 2) && Pow2(k + 4) == 2 * Pow2(k + 3);
  }

  lemma {:induction false} PowersGrow(n: nat, m: nat)
    requires n <= m
    ensures Pow2(n) <= Pow2(m)
    decreases m
  {
    if n < m { PowersGrow(n, m - 1); }
  }

  /** Quotient and remainder are unique. */
  lemma DivisionIsUnique(m: int, q: int, r: int, q': int, r': int)
    requires 0 <= r < m && 0 <= r' < m && m * q + r == m * q' + r'
    ensures q == q' && r == r'
  {
    MulDifference(m, q, q');
    if q' > q { MulDifference(m, q', q); MulAtLeast(m, q' - q); }
    if q' < q { MulAtLeast(m, q - q'); }
  }

  lemma ModSmall(x: nat, m: nat)
    requires x < m
    ensures x % m == x
  {
  }

  lemma HalfOfMod(x: nat, p: nat)
    requires p > 0
    ensures x % (2 * p) == x % 2 + 2 * (x / 2 % p)
  {
    var q, r := x / 2 / p, x / 2 % p;
    assert (2 * p) * q == 2 * (p * q);
    DivisionIsUnique(2 * p, x / (2 * p), x % (2 * p), q, x % 2 + 2 * r);
  }

  lemma AndStep(x: nat, p: nat)
    requires p > 0
    ensures BitAnd(x, 2 * p - 1) == x % 2 + 2 * BitAnd(x / 2, p - 1)
  {
    assert (2 * p - 1) / 2 == p - 1 && (2 * p - 1) % 2 == 1;
  }

  /** Masking with 2^k - 1 is the remainder modulo 2^k. */
  lemma {:induction false} MaskIsMod(x: nat, k: nat)
    ensures BitAnd(x, Pow2(k) - 1) == x % Pow2(k)
  {
    if k > 0 {
      AndStep(x, Pow2(k - 1));
      MaskIsMod(x / 2, k - 1);
      HalfOfMod(x, Pow2(k - 1));
    }
  }

  /** XOR with 2^k flips bit k: below 2^(k+1) it moves a number by exactly 2^k. */
  lemma {:induction false} XorFlipsTopBit(x: nat, k: nat)
    requires x < Pow2(k + 1)
    ensures BitXor(x, Pow2(k)) == if x < Pow2(k) then x + Pow2(k) else x - Pow2(k)
  {
    if k == 0 {
      assert Pow2(1) == 2;
    } else if x != 0 {
      XorFlipsTopBit(x / 2, k - 1);
    }
  }

  /** OR of numbers with disjoint bits is their sum. */
  lemma {:induction false} OrIsSum(hi: nat, lo: nat, k: nat)
    requires lo < Pow2(k)
    ensures BitOr(hi * Pow2(k), lo) == hi * Pow2(k) + lo
    ensures BitOr(lo, hi * Pow2(k)) == hi * Pow2(k) + lo
  {
    if k == 0 || hi == 0 || lo == 0 {
    } else {
      var h := hi * Pow2(k - 1);
      assert hi * Pow2(k) == 2 * h;
      assert h > 0 by { assert hi * Pow2(k) > 0; }
      OrIsSum(hi, lo / 2, k - 1);
    }
  }

  lemma FrontAndLast<T>(s: seq<T>)
    requires s != []
    ensures s == s[..|s| - 1] + [s[|s| - 1]]
  {
  }

  lemma SplitsAt<T>(a: seq<T>, b: seq<T>)
    ensures (a + b)[..|a|] == a && (a + b)[|a|..] == b
  {
  }

  lemma ConcatAssoc<T>(a: seq<T>, b: seq<T>, c: seq<T>)
    ensures a + b + c == a + (b + c)
  {
  }
}
