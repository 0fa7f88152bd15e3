/** glip_jtag_fifo: a shift register with a one-hot write pointer. */
module JtagFifo {
  import opened Bits
  import opened JtagWords

  /** The pointer with its single one at position `n`. */
  ghost predicate OneHot(p: seq<bool>, n: nat) {
    n < |p| && forall i :: 0 <= i < |p| ==> (p[i] <==> i == n)
  }

  /** The queue the fifo stands for, one clock later. */
  function NextQueue(q: seq<Word>, length: nat, rst: bool, inFlit: Word, inValid: bool, outReady: bool): (r: seq<Word>)
    requires |q| <= length
    ensures |r| <= length
  {
    if rst then []
    else
      var rest := if q != [] && outReady then q[1..] else q;
      if inValid && |q| < length then rest + [inFlit] else rest
  }

  /** Element `i` of the array after a clock, for a queue of `n` elements in the array `d`. */
  function Shifted(d: seq<Word>, n: nat, push: bool, pop: bool, inFlit: Word, i: nat): Word
    requires i < |d|
  {
    if pop then
      if push && i == n - 1 then inFlit else if i < |d| - 1 then d[i + 1] else d[i]
    else
      if push && i == n then inFlit else d[i]
  }

  /** A number in a register of `width` bits. */
  function Wrapped(n: int, width: nat): nat { n % Pow2(width) }

  lemma WrapsDown(n: int, width: nat)
    ensures Wrapped(Wrapped(n, width) - 1, width) == Wrapped(n - 1, width)
  {
    CountsDown(n, Pow2(width));
  }

  lemma WrapsUp(n: int, width: nat)
    ensures Wrapped(Wrapped(n, width) + 1, width) == Wrapped(n + 1, width)
  {
    CountsUp(n, Pow2(width));
  }

  /** The array after a clock holds the queue after it. */
  lemma QueueShifted(d: seq<Word>, d': seq<Word>, n: nat, inValid: bool, outReady: bool, inFlit: Word)
    requires |d| == |d'| && n <= |d|
    requires var pop, push := n > 0 && outReady, inValid && n < |d|;
      forall i :: 0 <= i < |d| ==> d'[i] == Shifted(d, n, push, pop, inFlit, i)
    ensures var pop, push := n > 0 && outReady, inValid && n < |d|;
      var m := n + (if push then 1 else 0) - (if pop then 1 else 0);
      m <= |d| && d'[..m] == NextQueue(d[..n], |d|, false, inFlit, inValid, outReady)
  {
  }

  lemma FlushedQueue(q: seq<Word>, length: nat, inFlit: Word, inValid: bool, outReady: bool)
    requires |q| <= length
    ensures NextQueue(q, length, true, inFlit, inValid, outReady) == []
  {
  }

  lemma PointerShifted(ptr: seq<bool>, n: nat)
    requires n < |ptr| && OneHot(ptr, n)
    ensures n + 1 < |ptr| ==> OneHot([false] + ptr[..|ptr| - 1], n + 1)
    ensures n > 0 ==> OneHot(ptr[1..] + [false], n - 1)
  {
  }

  lemma PointerCleared(length: nat)
    ensures OneHot(seq(length + 1, i => i == 0), 0)
  {
  }

  class Fifo {
    const length: nat
    const freeSpaceWidth: nat
    const data: array<Word>
    var writePtr: seq<bool>
    var freeSpace: nat
    ghost var count: nat

    ghost predicate Valid()
      reads this, data
    {
      && length >= 1 && data.Length == length
      && |writePtr| == length + 1 && count <= length && OneHot(writePtr, count)
      && freeSpace == Wrapped(length - count, freeSpaceWidth)
    }

    ghost function Queue(): (q: seq<Word>)
      reads this, data
      requires Valid()
      ensures |q| <= length
    {
      data[..count]
    }

    /** After power-up and one clock with rst. */
    constructor (length: nat, freeSpaceWidth: nat)
      requires length >= 1
      ensures Valid() && Queue() == [] && this.length == length && fresh(data)
    {
      this.length, this.freeSpaceWidth := length, freeSpaceWidth;
      data := new Word[length](_ => []);
      writePtr := seq(length + 1, i => i == 0);
      freeSpace := Wrapped(length, freeSpaceWidth);
      count := 0;
    }

    predicate InReady()
      reads this, data
      requires Valid()
      ensures InReady() <==> |Queue()| < length
    {
      !writePtr[length]
    }

    predicate OutValid()
      reads this, data
      requires Valid()
      ensures OutValid() <==> Queue() != []
    {
      !writePtr[0]
    }

    /** out_flit is the head of the queue while out_valid holds. */
    function OutFlit(): (flit: Word)
      reads this, data
      requires Valid()
      ensures OutValid() ==> flit == Queue()[0]
    {
      data[0]
    }

    /** The for loop of the second always block. The assignments are non-blocking; each element is
        computed from elements at and above it, so the ascending loop reads only old values. */
    method ShiftRegister(push: bool, pop: bool, inFlit: Word)
      requires Valid() && (pop ==> count > 0) && (push ==> count < length)
      modifies data
      ensures forall i :: 0 <= i < length ==> data[i] == Shifted(old(data[..]), count, push, pop, inFlit, i)
    {
      for i := 0 to length
        invariant forall j :: i <= j < length ==> data[j] == old(data[j])
        invariant forall j :: 0 <= j < i ==> data[j] == Shifted(old(data[..]), count, push, pop, inFlit, j)
      {
        if pop {
          if push && writePtr[i + 1] { data[i] := inFlit; }
          else if i < length - 1 { data[i] := data[i + 1]; }
        } else if push && writePtr[i] {
          data[i] := inFlit;
        }
      }
    }

    /** The first always block: the write pointer and the count of free places. */
    method MovePointer(rst: bool, push: bool, pop: bool)
      requires Valid() && (pop ==> count > 0) && (push ==> count < length)
      modifies `writePtr, `freeSpace, `count
      ensures Valid()
      ensures count == if rst then 0 else old(count) + (if push then 1 else 0) - (if pop then 1 else 0)
    {
      hide Wrapped, OneHot;
      PointerShifted(writePtr, count);
      if rst {
        writePtr := seq(length + 1, i => i == 0);
        PointerCleared(length);
        freeSpace := Wrapped(length, freeSpaceWidth);
        count := 0;
      } else if push && !pop {
        writePtr := [false] + writePtr[..length];
        freeSpace := Wrapped(freeSpace - 1, freeSpaceWidth);
        WrapsDown(length - count, freeSpaceWidth);
        count := count + 1;
      } else if !push && pop {
        writePtr := writePtr[1..] + [false];
        freeSpace := Wrapped(freeSpace + 1, freeSpaceWidth);
        WrapsUp(length - count, freeSpaceWidth);
        count := count - 1;
      }
    }

    /** One clock edge. */
    method Clock(rst: bool, inFlit: Word, inValid: bool, outReady: bool)
      requires Valid()
      modifies `writePtr, `freeSpace, `count, data
      ensures Valid()
      ensures Queue() == NextQueue(old(Queue()), length, rst, inFlit, inValid, outReady)
    {
      hide Shifted, NextQueue, Wrapped, OneHot;
      ghost var was, n := data[..], count;
      var pop, push := OutValid() && outReady, inValid && InReady();
      ShiftRegister(push, pop, inFlit);
      QueueShifted(was, data[..], n, inValid, outReady, inFlit);
      FlushedQueue(was[..n], length, inFlit, inValid, outReady);
      MovePointer(rst, push, pop);
    }
  }

  lemma CountsDown(n: int, m: nat)
    requires m > 0
    ensures (n % m - 1) % m == (n - 1) % m
  {
    var q, r := n / m, n % m;
    if r == 0 {
      MulDifference(m, q, 1);
      DivisionIsUnique(m, (n - 1) / m, (n - 1) % m, q - 1, m - 1);
      DivisionIsUnique(m, -1 / m, -1 % m, -1, m - 1);
    } else {
      DivisionIsUnique(m, (n - 1) / m, (n - 1) % m, q, r - 1);
      DivisionIsUnique(m, (r - 1) / m, (r - 1) % m, 0, r - 1);
    }
  }

  lemma CountsUp(n: int, m: nat)
    requires m > 0
    ensures (n % m + 1) % m == (n + 1) % m
  {
    CountsDown(n + 1, m);
    var q, r := (n + 1) / m, (n + 1) % m;
    if r == 0 {
      DivisionIsUnique(m, (m - 1 + 1) / m, (m - 1 + 1) % m, 1, 0);
      DivisionIsUnique(m, -1 / m, -1 % m, -1, m - 1);
    } else {
      DivisionIsUnique(m, (r - 1) / m, (r - 1) % m, 0, r - 1);
      DivisionIsUnique(m, r / m, r % m, 0, r);
    }
  }
}
