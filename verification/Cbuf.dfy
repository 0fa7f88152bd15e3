/** The circular buffer itself, in its basic mode (write, read) and its API mode (reserve and
    commit, peek and discard). Every operation is specified on the queue of bytes it stands for. */
module Cbuf {
  import opened Bits
  import opened CbufLevels

  const EINVAL := 22

  /** A pointer handed out in API mode: into the ring at an offset, or one of the temporary buffers. */
  datatype Ptr = Ring(offset: nat) | WriteTmp | ReadTmp

  /** The size of a temporary buffer: the next power of two above the request, at most `sizeMax`. */
  method CalcBufsize(sizeReq: nat, sizeMax: nat) returns (size: nat)
    ensures sizeReq <= sizeMax ==> sizeReq <= size <= sizeMax
    ensures size <= 2 * Max(sizeReq, 1)
    ensures size != sizeMax ==> sizeReq < size && exists k :: size == Pow2(k)
  {
    var log2Size: nat, sizeTmp := 0, sizeReq;
    while true
      invariant Pow2(log2Size) * sizeTmp <= sizeReq < Pow2(log2Size) * (sizeTmp + 1)
      invariant sizeReq > 0 ==> sizeTmp > 0
      invariant sizeReq == 0 ==> log2Size == 0
      decreases sizeTmp
    {
      HalfScales(Pow2(log2Size), sizeTmp);
      if sizeTmp / 2 == 0 { break; }
      sizeTmp := sizeTmp / 2;
      log2Size := log2Size + 1;
    }
    var powTwo := Pow2(log2Size + 1);
    size := if powTwo > sizeMax then sizeMax else powTwo;
  }

  lemma HalfScales(p: nat, s: nat)
    ensures (2 * p) * (s / 2) <= p * s
    ensures p * (s + 1) <= (2 * p) * (s / 2 + 1)
  {
    Reassociate(p, s / 2);
    Reassociate(p, s / 2 + 1);
    MulMonotone(p, 2 * (s / 2), s);
    MulMonotone(p, s + 1, 2 * (s / 2 + 1));
  }

  lemma MulMonotone(p: nat, a: nat, b: nat)
    requires a <= b
    ensures p * a <= p * b
  {
  }

  /** memcpy into an array. */
  method CopyIn(dst: array<Byte>, at: nat, src: seq<Byte>)
    requires at + |src| <= dst.Length
    modifies dst
    ensures forall i :: 0 <= i < dst.Length ==>
      dst[i] == if at <= i < at + |src| then src[i - at] else old(dst[i])
  {
    forall i | 0 <= i < |src| { dst[at + i] := src[i]; }
  }

  class Cbuf {
    ghost const k: nat
    const size: nat
    const data: array<Byte>
    var wrPtr: nat
    var rdPtr: nat
    var hintMaxReadSize: nat
    var readDataTmp: array<Byte>
    var hintMaxWriteSize: nat
    var writeDataTmp: array<Byte>

    /** Every byte ever committed, and how many of them have been taken out again. */
    ghost var written: seq<Byte>
    ghost var consumed: nat

    /** The space handed out by Reserve and not yet committed. */
    ghost var granted: Ptr
    ghost var reserved: nat

    ghost function Repr(): set<object>
      reads this
    {
      {this, data, readDataTmp, writeDataTmp}
    }

    ghost predicate Valid()
      reads this, Repr()
    {
      && size == Pow2(k) == data.Length
      && data != readDataTmp && data != writeDataTmp && readDataTmp != writeDataTmp
      && wrPtr < 2 * size && rdPtr < 2 * size
      && consumed + Distance(size, rdPtr, wrPtr) == |written|
      && Distance(size, rdPtr, wrPtr) <= size
      && (forall i :: 0 <= i < |written| - consumed ==> data[SlotAt(size, rdPtr, i)] == written[consumed + i])
      && (reserved > 0 ==> IsGrant(granted, reserved))
    }

    /** `p` is what Reserve hands out for `n` bytes at the current write position. */
    ghost predicate IsGrant(p: Ptr, n: nat)
      reads this
      requires wrPtr < 2 * size && rdPtr < 2 * size
    {
      && n + Distance(size, rdPtr, wrPtr) <= size
      && match p
         case Ring(offset) => offset == Slot(size, wrPtr) && offset + n <= size
         case WriteTmp => size < Slot(size, wrPtr) + n && n <= writeDataTmp.Length
         case ReadTmp => false
    }

    /** The queue of bytes the buffer holds. */
    ghost function Contents(): (c: seq<Byte>)
      reads this, Repr()
      requires Valid()
      ensures |c| <= size
    {
      written[consumed..]
    }

    ghost predicate InBounds(p: Ptr, n: nat)
      reads this
    {
      match p
      case Ring(offset) => offset + n <= data.Length
      case WriteTmp => n <= writeDataTmp.Length
      case ReadTmp => n <= readDataTmp.Length
    }

    /** The `n` bytes a pointer refers to. */
    function Window(p: Ptr, n: nat): (w: seq<Byte>)
      reads this, Repr()
      requires InBounds(p, n)
      ensures |w| == n
    {
      match p
      case Ring(offset) => data[offset..offset + n]
      case WriteTmp => writeDataTmp[..n]
      case ReadTmp => readDataTmp[..n]
    }

    constructor (ghost k: nat, size: nat)
      requires size == Pow2(k) && k <= 30
      ensures Valid() && fresh(Repr())
      ensures this.size == size && Contents() == [] && written == [] && consumed == 0
    {
      this.k, this.size := k, size;
      data := new Byte[size](_ => 0);
      wrPtr, rdPtr := 0, 0;
      hintMaxReadSize, hintMaxWriteSize := 0, 0;
      readDataTmp, writeDataTmp := new Byte[0], new Byte[0];
      written, consumed := [], 0;
      granted, reserved := WriteTmp, 0;
    }

    method SetHintMaxReadSize(hint: nat)
      requires Valid()
      modifies `hintMaxReadSize
      ensures Valid() && hintMaxReadSize == hint
    {
      hintMaxReadSize := hint;
    }

    method SetHintMaxWriteSize(hint: nat)
      requires Valid()
      modifies `hintMaxWriteSize
      ensures Valid() && hintMaxWriteSize == hint
    {
      hintMaxWriteSize := hint;
    }

    function Fill(): (level: nat)
      reads this, Repr()
      requires Valid()
      ensures level == |Contents()|
    {
      LevelsAreExact(k, wrPtr, rdPtr);
      FillLevel(size, wrPtr, rdPtr)
    }

    function Free(): (level: nat)
      reads this, Repr()
      requires Valid()
      ensures level == size - |Contents()|
    {
      LevelsAreExact(k, wrPtr, rdPtr);
      FreeLevel(size, wrPtr, rdPtr)
    }

    predicate Empty()
      reads this, Repr()
      requires Valid()
      ensures Empty() <==> Contents() == []
    {
      LevelsAreExact(k, wrPtr, rdPtr);
      IsEmpty(wrPtr, rdPtr)
    }

    predicate Full()
      reads this, Repr()
      requires Valid()
      ensures Full() <==> |Contents()| == size
    {
      LevelsAreExact(k, wrPtr, rdPtr);
      IsFull(size, wrPtr, rdPtr)
    }

    /** Publishes bytes that already stand at the write position. */
    method Publish(n: nat, ghost bytes: seq<Byte>)
      requires Valid() && n == |bytes| <= size - |Contents()|
      requires forall i :: 0 <= i < n ==> data[SlotAt(size, wrPtr, i)] == bytes[i]
      modifies `wrPtr, `written, `reserved
      ensures Valid() && reserved == 0 && written == old(written) + bytes
    {
      AdvanceMovesDistance(k, rdPtr, wrPtr, n);
      SlotsBehind(size, rdPtr, wrPtr);
      hide SlotAt, Distance, Pow2;
      wrPtr := PtrAdd(size, wrPtr, n);
      written := written + bytes;
      reserved := 0;
    }

    /** memcpy into the free part of the ring, starting `skip` bytes after the write position. */
    method CopyFree(at: nat, src: seq<Byte>, ghost skip: nat)
      requires Valid() && skip + |src| <= size - |Contents()| && at + |src| <= size
      requires src != [] ==> at == SlotAt(size, wrPtr, skip)
      modifies data
      ensures Valid() && unchanged(this)
      ensures forall j :: 0 <= j < size - |Contents()| ==>
        (data[SlotAt(size, wrPtr, j)] ==
          if skip <= j < skip + |src| then src[j - skip] else old(data[SlotAt(size, wrPtr, j)]))
    {
      CopyIn(data, at, src);
    }

    /** cbuf_write: all of `src`, or nothing and -EINVAL. */
    method Write(src: seq<Byte>) returns (rv: int)
      requires Valid()
      modifies `wrPtr, `written, `reserved, data
      ensures Valid()
      ensures rv == (if |src| <= size - |old(Contents())| then 0 else -EINVAL)
      ensures written == if rv == 0 then old(written) + src else old(written)
      ensures rv == 0 ==> reserved == 0
    {
      var freeLevel := Free();
      if |src| > freeLevel { return -EINVAL; }
      var at := Mask(size, wrPtr);
      MaskIsSlot(k, wrPtr);
      if at + |src| <= size {
        CopyFree(at, src, 0);
      } else {
        var sizeAtEnd := size - at;
        CopyFree(at, src[..sizeAtEnd], 0);
        CopyFree(0, src[sizeAtEnd..], sizeAtEnd);
      }
      Publish(|src|, src);
      rv := 0;
    }

    /** cbuf_reserve: memory for up to `n` bytes that Commit can publish later. */
    method Reserve(n: nat) returns (rv: int, p: Ptr)
      requires Valid()
      modifies `writeDataTmp, `granted, `reserved
      ensures Valid() && fresh(Repr() - old(Repr()))
      ensures rv == (if n <= size - |Contents()| then 0 else -EINVAL)
      ensures rv == 0 ==> granted == p && reserved == n && IsGrant(p, n)
      ensures writeDataTmp == old(writeDataTmp) ||
        (p == WriteTmp && old(writeDataTmp).Length < n
         && (n <= hintMaxWriteSize ==> writeDataTmp.Length == hintMaxWriteSize))
    {
      p := WriteTmp;
      var freeLevel := Free();
      if n > freeLevel { return -EINVAL, p; }
      var at := Mask(size, wrPtr);
      MaskIsSlot(k, wrPtr);
      if at + n <= size {
        p := Ring(at);
      } else if writeDataTmp.Length < n {
        var tmpSize := hintMaxWriteSize;
        if n > hintMaxWriteSize { tmpSize := CalcBufsize(n, size); }
        writeDataTmp := new Byte[tmpSize](_ => 0);
      }
      granted, reserved := p, n;
      rv := 0;
    }

    /** What the third-party API does with reserved memory: it stores `bytes` from its start on. */
    method Store(p: Ptr, bytes: seq<Byte>)
      requires Valid() && p == granted && IsGrant(p, reserved) && |bytes| <= reserved
      modifies data, writeDataTmp
      ensures Valid() && Window(p, |bytes|) == bytes
    {
      if bytes == [] { return; }
      match p
      case Ring(offset) =>
        CopyFree(offset, bytes, 0);
        forall j | 0 <= j < |bytes| ensures data[offset + j] == bytes[j] {
          assert SlotAt(size, wrPtr, j) == offset + j;
        }
      case WriteTmp => CopyIn(writeDataTmp, 0, bytes);
    }

    /** The copies that bring the temporary write buffer to the ring, at its end and its beginning. More
        than `n` bytes may be moved; they stay within the free part. */
    method CopyBack(n: nat)
      requires Valid() && granted == WriteTmp && IsGrant(WriteTmp, reserved) && 0 < n <= reserved
      modifies data
      ensures Valid() && unchanged(this)
      ensures forall i :: 0 <= i < n ==> data[SlotAt(size, wrPtr, i)] == writeDataTmp[i]
    {
      hide BitAnd, BitXor, Pow2;
      var at := Mask(size, wrPtr);
      MaskIsSlot(k, wrPtr);
      var sizeAtEnd := size - at;
      CopyFree(at, writeDataTmp[..sizeAtEnd], 0);
      if n > sizeAtEnd {
        CopyFree(0, writeDataTmp[sizeAtEnd..n], sizeAtEnd);
      }
    }

    /** cbuf_commit: publishes the first `n` of the reserved bytes, whether they stand in the ring
        or must first be copied there from the temporary buffer. */
    method Commit(p: Ptr, n: nat) returns (rv: int)
      requires Valid() && p == granted && IsGrant(p, reserved) && n <= reserved
      modifies `wrPtr, `written, `reserved, data
      ensures Valid() && rv == 0
      ensures written == old(written) + old(Window(p, n))
    {
      hide BitAnd, BitXor, Pow2;
      rv := 0;
      if n == 0 { return; }
      ghost var bytes := Window(p, n);
      if p == WriteTmp { CopyBack(n); }
      Publish(n, bytes);
    }

    /** cbuf_read */
    method Read(n: nat) returns (rv: int, out: seq<Byte>)
      requires Valid()
      modifies `rdPtr, `consumed
      ensures Valid()
      ensures rv == if n <= |old(Contents())| then 0 else -EINVAL
      ensures out == if rv == 0 then old(Contents())[..n] else []
      ensures consumed == old(consumed) + |out|
    {
      out := [];
      if n == 0 { return 0, out; }
      var fillLevel := Fill();
      if fillLevel < n { return -EINVAL, out; }
      out := Gather(n);
      Drop(n);
      rv := 0;
    }

    /** The two memcpy calls that bring the next `n` bytes together. */
    method Gather(n: nat) returns (out: seq<Byte>)
      requires Valid() && n <= |Contents()|
      ensures out == Contents()[..n]
    {
      var at := Mask(size, rdPtr);
      MaskIsSlot(k, rdPtr);
      if at + n <= size {
        OnePiece(n);
        out := data[at..at + n];
      } else {
        TwoPieces(n);
        var sizeToEnd := size - at;
        out := data[at..at + sizeToEnd] + data[..n - sizeToEnd];
      }
    }

    lemma OnePiece(n: nat)
      requires Valid() && n <= |Contents()| && Slot(size, rdPtr) + n <= size
      ensures data[Slot(size, rdPtr)..Slot(size, rdPtr) + n] == Contents()[..n]
    {
      forall i | 0 <= i < n ensures data[Slot(size, rdPtr) + i] == Contents()[i] {
        assert Slot(size, rdPtr) + i == SlotAt(size, rdPtr, i);
      }
    }

    lemma TwoPieces(n: nat)
      requires Valid() && n <= |Contents()| && Slot(size, rdPtr) + n > size
      ensures data[Slot(size, rdPtr)..size] + data[..n - (size - Slot(size, rdPtr))] == Contents()[..n]
    {
      var pieces := data[Slot(size, rdPtr)..size] + data[..n - (size - Slot(size, rdPtr))];
      forall i | 0 <= i < n ensures pieces[i] == Contents()[i] {
        assert pieces[i] == data[SlotAt(size, rdPtr, i)];
      }
    }

    /** Moves the read position over the next `n` bytes. */
    method Drop(n: nat)
      requires Valid() && n <= |Contents()|
      modifies `rdPtr, `consumed
      ensures Valid() && consumed == old(consumed) + n
    {
      hide BitAnd, BitXor, Pow2, PtrAdd, SlotAt;
      AdvanceMovesDistance(k, rdPtr, wrPtr, n);
      PtrAddIsAdvance(k, rdPtr, n);
      forall i | 0 <= i < |Contents()| - n
        ensures data[SlotAt(size, PtrAdd(size, rdPtr, n), i)] == written[consumed + n + i]
      {
        SlotAtAdvance(size, rdPtr, n, i);
      }
      rdPtr := PtrAdd(size, rdPtr, n);
      consumed := consumed + n;
    }

    /** `p` is what Peek hands out for the next `n` bytes. */
    ghost predicate IsPeek(p: Ptr, n: nat)
      reads this
    {
      && InBounds(p, n)
      && (p.Ring? && n > 0 ==> rdPtr < 2 * size && p.offset == Slot(size, rdPtr) && p.offset + n <= size)
      && !p.WriteTmp?
    }

    /** Bytes shown by Peek in the ring stay where they are while only the writer goes on. */
    lemma PeekedStays(p: Ptr, n: nat)
      requires Valid() && n <= |Contents()| && IsPeek(p, n) && p.Ring?
      ensures Window(p, n) == Contents()[..n]
    {
      if n > 0 { OnePiece(n); }
    }

    /** cbuf_peek: a pointer to the next `n` bytes, in one piece, without taking them out. With
        `n == 0` the source leaves its out-parameter as it was; any pointer does. */
    method Peek(n: nat) returns (rv: int, p: Ptr)
      requires Valid()
      modifies `readDataTmp, readDataTmp
      ensures Valid() && fresh(Repr() - old(Repr()))
      ensures rv == if n <= |Contents()| then 0 else -EINVAL
      ensures rv == 0 ==> IsPeek(p, n) && Window(p, n) == Contents()[..n]
      ensures readDataTmp == old(readDataTmp) ||
        (p == ReadTmp && old(readDataTmp).Length < n
         && (n <= hintMaxReadSize ==> readDataTmp.Length == hintMaxReadSize))
    {
      hide BitAnd, BitXor, Pow2, Distance;
      p := ReadTmp;
      if n == 0 { return 0, p; }
      var fillLevel := Fill();
      if fillLevel < n { return -EINVAL, p; }
      var at := Mask(size, rdPtr);
      MaskIsSlot(k, rdPtr);
      if at + n <= size {
        OnePiece(n);
        return 0, Ring(at);
      }
      if readDataTmp.Length < n {
        var tmpSize := hintMaxReadSize;
        if n > hintMaxReadSize { tmpSize := CalcBufsize(n, size); }
        readDataTmp := new Byte[tmpSize](_ => 0);
      }
      CopyAround(n);
      rv := 0;
    }

    /** Brings the two ends of the ring together in the temporary read buffer. */
    method CopyAround(n: nat)
      requires Valid() && n <= |Contents()| && n <= readDataTmp.Length
      requires Slot(size, rdPtr) + n > size
      modifies readDataTmp
      ensures Valid() && readDataTmp[..n] == Contents()[..n]
    {
      TwoPieces(n);
      var at := Mask(size, rdPtr);
      MaskIsSlot(k, rdPtr);
      var sizeToEnd := size - at;
      CopyIn(readDataTmp, 0, data[at..at + sizeToEnd]);
      CopyIn(readDataTmp, sizeToEnd, data[..n - sizeToEnd]);
      assert readDataTmp[..n] == data[at..size] + data[..n - sizeToEnd];
    }

    /** cbuf_discard */
    method Discard(n: nat) returns (rv: int)
      requires Valid()
      modifies `rdPtr, `consumed
      ensures Valid()
      ensures rv == if n <= |old(Contents())| then 0 else -EINVAL
      ensures consumed == old(consumed) + (if rv == 0 then n else 0)
    {
      var fillLevel := Fill();
      if fillLevel < n { return -EINVAL; }
      Drop(n);
      rv := 0;
    }
  }
}
