/** Pointer and level arithmetic of the circular buffer: the two positions run modulo twice the
    size, so that "full" and "empty" are different although both positions name the same slot. */
module CbufLevels {
  import opened Bits

  function Mask(size: nat, p: nat): nat
    requires size > 0
  {
    BitAnd(p, size - 1)
  }

  function PtrAdd(size: nat, a: nat, b: nat): nat
    requires size > 0
  {
    BitAnd(a + b, 2 * size - 1)
  }

  predicate IsEmpty(wr: nat, rd: nat) { wr == rd }

  predicate IsFull(size: nat, wr: nat, rd: nat) { wr == BitXor(rd, size) }

  /** The second half of the level computation: the difference of the masked positions, read as a
      signed number and corrected by the size when it is negative. */
  function MaskedDifference(size: nat, wr: nat, rd: nat): int
    requires size > 0
  {
    var level := Mask(size, wr) - Mask(size, rd);
    if level < 0 then level + size else level
  }

  function FillLevel(size: nat, wr: nat, rd: nat): int
    requires size > 0
  {
    if IsFull(size, wr, rd) then size else MaskedDifference(size, wr, rd)
  }

  function FreeLevel(size: nat, wr: nat, rd: nat): int
    requires size > 0
  {
    size - FillLevel(size, wr, rd)
  }

  // What the arithmetic is for: distances on a circle of 2 * size positions, slots of an array.

  /** How far the write position is ahead of the read position, modulo 2 * size. */
  function Distance(size: nat, rd: nat, wr: nat): nat
    requires rd < 2 * size && wr < 2 * size
  {
    if rd <= wr then wr - rd else wr + 2 * size - rd
  }

  function Advance(size: nat, p: nat, n: nat): nat
    requires p < 2 * size && n <= size
  {
    if p + n < 2 * size then p + n else p + n - 2 * size
  }

  /** The array index of a position. */
  function Slot(size: nat, p: nat): (s: nat)
    requires p < 2 * size
    ensures s < size
  {
    if p < size then p else p - size
  }

  /** The array index `i` bytes after position `p`. */
  function SlotAt(size: nat, p: nat, i: nat): (s: nat)
    requires p < 2 * size && i < size
    ensures s < size
  {
    if Slot(size, p) + i < size then Slot(size, p) + i else Slot(size, p) + i - size
  }

  lemma ModBelowTwice(x: nat, m: nat)
    requires x < 2 * m
    ensures x % m == if x < m then x else x - m
  {
    if x < m { DivisionIsUnique(m, x / m, x % m, 0, x); }
    else { DivisionIsUnique(m, x / m, x % m, 1, x - m); }
  }

  lemma MaskIsSlot(k: nat, p: nat)
    requires p < 2 * Pow2(k)
    ensures Mask(Pow2(k), p) == Slot(Pow2(k), p)
  {
    MaskIsMod(p, k);
    ModBelowTwice(p, Pow2(k));
  }

  /** Adding positions with a mask is moving forward on the circle. */
  lemma PtrAddIsAdvance(k: nat, p: nat, n: nat)
    requires p < 2 * Pow2(k) && n <= Pow2(k)
    ensures PtrAdd(Pow2(k), p, n) == Advance(Pow2(k), p, n) < 2 * Pow2(k)
  {
    MaskIsMod(p + n, k + 1);
    ModBelowTwice(p + n, 2 * Pow2(k));
  }

  /** The level arithmetic is exact: whenever the positions are at most `size` apart the masks, the
      XOR and the signed correction yield the distance on the circle. When they are further apart,
      which no run reaches, the level is short by exactly `size`. */
  lemma LevelsAreExact(k: nat, wr: nat, rd: nat)
    requires wr < 2 * Pow2(k) && rd < 2 * Pow2(k)
    ensures var size, d := Pow2(k), Distance(Pow2(k), rd, wr);
      && (IsEmpty(wr, rd) <==> d == 0)
      && (IsFull(size, wr, rd) <==> d == size)
      && FillLevel(size, wr, rd) == (if d <= size then d else d - size)
      && FreeLevel(size, wr, rd) == size - FillLevel(size, wr, rd)
      && MaskedDifference(size, wr, rd) == (if d < size then d else d - size)
  {
    XorFlipsTopBit(rd, k);
    MaskIsSlot(k, wr);
    MaskIsSlot(k, rd);
  }

  /** Moving the write position forward by `n` lengthens the distance by `n`, moving the read
      position shortens it, as long as neither passes the other. */
  lemma AdvanceMovesDistance(k: nat, rd: nat, wr: nat, n: nat)
    requires rd < 2 * Pow2(k) && wr < 2 * Pow2(k) && Distance(Pow2(k), rd, wr) <= Pow2(k)
    ensures n <= Pow2(k) - Distance(Pow2(k), rd, wr) ==>
      PtrAdd(Pow2(k), wr, n) < 2 * Pow2(k) &&
      Distance(Pow2(k), rd, PtrAdd(Pow2(k), wr, n)) == Distance(Pow2(k), rd, wr) + n
    ensures n <= Distance(Pow2(k), rd, wr) ==>
      PtrAdd(Pow2(k), rd, n) < 2 * Pow2(k) &&
      Distance(Pow2(k), PtrAdd(Pow2(k), rd, n), wr) == Distance(Pow2(k), rd, wr) - n
  {
    if n <= Pow2(k) {
      PtrAddIsAdvance(k, wr, n);
      PtrAddIsAdvance(k, rd, n);
    }
  }

  /** Slots of the free part and of the filled part never coincide: this is what keeps writes away
      from unread bytes. */
  lemma SlotsAreDistinct(size: nat, rd: nat, wr: nat, i: nat, j: nat)
    requires rd < 2 * size && wr < 2 * size
    requires i < Distance(size, rd, wr) && j < size - Distance(size, rd, wr)
    ensures SlotAt(size, rd, i) != SlotAt(size, wr, j)
    ensures SlotAt(size, wr, j) == SlotAt(size, rd, Distance(size, rd, wr) + j)
  {
  }

  lemma SlotAtAdvance(size: nat, p: nat, n: nat, i: nat)
    requires p < 2 * size && n + i < size
    ensures SlotAt(size, Advance(size, p, n), i) == SlotAt(size, p, n + i)
  {
  }

  /** The elements behind the write pointer, counted from the read pointer. */
  lemma SlotsBehind(size: nat, rd: nat, wr: nat)
    requires rd < 2 * size && wr < 2 * size
    ensures forall i :: Distance(size, rd, wr) <= i < size ==>
      SlotAt(size, rd, i) == SlotAt(size, wr, i - Distance(size, rd, wr))
  {
  }
}
