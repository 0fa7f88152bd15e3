/** Words as they travel over JTAG: sequences of bits, least significant bit first, and the numbers
    they stand for. */
module JtagWords {
  import opened Bits

  type Word = seq<bool>

  function Val(b: Word): (n: nat)
    ensures n < Pow2(|b|)
  {
    if b == [] then 0 else (if b[0] then 1 else 0) + 2 * Val(b[1..])
  }

  function ToBits(n: nat, w: nat): (b: Word)
    ensures |b| == w
  {
    if w == 0 then [] else [n % 2 == 1] + ToBits(n / 2, w - 1)
  }

  function Zeros(w: nat): (b: Word)
    ensures |b| == w
  {
    seq(w, _ => false)
  }

  /** Verilog's reduction operators & and |. */
  predicate AllOnes(b: Word) { forall i :: 0 <= i < |b| ==> b[i] }

  predicate AnyOne(b: Word) { exists i :: 0 <= i < |b| && b[i] }

  /** `after` is `before` with `bits` stored from position `at` on; nothing is said about what is behind. */
  ghost predicate Overwrites(after: Word, before: Word, at: nat, bits: Word) {
    && |after| == |before| && at + |bits| <= |before|
    && (forall i :: 0 <= i < at ==> after[i] == before[i])
    && (forall i :: 0 <= i < |bits| ==> after[at + i] == bits[i])
  }

  lemma OneMoreBit(after: Word, before: Word, at: nat, bit: bool, rest: Word)
    requires at < |before| && Overwrites(after, before[at := bit], at + 1, rest)
    ensures Overwrites(after, before, at, [bit] + rest)
  {
    forall i | 0 <= i < |rest| + 1 ensures after[at + i] == ([bit] + rest)[i] {
      if i > 0 { assert after[at + 1 + (i - 1)] == rest[i - 1]; }
    }
  }

  lemma {:induction false} ValOfToBits(n: nat, w: nat)
    requires n < Pow2(w)
    ensures Val(ToBits(n, w)) == n
  {
    if w > 0 {
      ValOfToBits(n / 2, w - 1);
      assert ToBits(n, w)[1..] == ToBits(n / 2, w - 1);
    }
  }

  lemma {:induction false} ToBitsOfVal(b: Word)
    ensures ToBits(Val(b), |b|) == b
  {
    if b != [] {
      ToBitsOfVal(b[1..]);
      assert Val(b) / 2 == Val(b[1..]);
    }
  }

  lemma {:induction false} AnyOneIsPositive(b: Word)
    ensures AnyOne(b) <==> Val(b) > 0
  {
    if b != [] {
      AnyOneIsPositive(b[1..]);
      if AnyOne(b[1..]) {
        var i :| 0 <= i < |b[1..]| && b[1..][i];
        assert b[i + 1];
      }
      if AnyOne(b) && !b[0] {
        var i :| 0 <= i < |b| && b[i];
        assert b[1..][i - 1];
      }
    }
  }

  lemma {:induction false} AllOnesIsMaximal(b: Word)
    ensures AllOnes(b) <==> Val(b) == Pow2(|b|) - 1
  {
    if b != [] {
      AllOnesIsMaximal(b[1..]);
      if AllOnes(b) {
        forall i | 0 <= i < |b[1..]| ensures b[1..][i] { assert b[i + 1]; }
      }
      if b[0] && AllOnes(b[1..]) {
        forall i | 0 <= i < |b| ensures b[i] { if i > 0 { assert b[1..][i - 1]; } }
      }
    }
  }

  lemma {:induction false} ZerosAreZero(w: nat)
    ensures Val(Zeros(w)) == 0 && ToBits(0, w) == Zeros(w)
  {
    if w > 0 {
      ZerosAreZero(w - 1);
      assert Zeros(w)[1..] == Zeros(w - 1);
    }
  }
}
