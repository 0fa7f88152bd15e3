/** Partial and blocking transfers over a circular buffer while the thread on the other side of the
    buffer keeps running. The other thread may act between any two uses of the buffer. */
module CbufUtil {
  import opened Bits
  import opened Cbuf

  const ETIMEDOUT := 110

  /** The thread on the read side takes out any part of what is there. */
  method ReaderRuns(buf: Cbuf)
    requires buf.Valid()
    modifies buf`rdPtr, buf`consumed
    ensures buf.Valid() && old(buf.consumed) <= buf.consumed
  {
    var n: nat :| n <= buf.Fill();
    var _ := buf.Discard(n);
  }

  /** The thread on the write side adds anything that fits. */
  method WriterRuns(buf: Cbuf)
    requires buf.Valid()
    modifies buf`wrPtr, buf`written, buf`reserved, buf.data
    ensures buf.Valid() && old(buf.written) <= buf.written
  {
    var bytes: seq<Byte> := *;
    var _ := buf.Write(bytes);
  }

  /** gb_util_cbuf_read: up to `size` bytes, at least what was there when the call began. */
  method Read(buf: Cbuf, size: nat) returns (rv: int, data: seq<Byte>, sizeRead: nat)
    requires buf.Valid()
    modifies buf`rdPtr, buf`consumed, buf`wrPtr, buf`written, buf`reserved, buf.data
    ensures buf.Valid() && old(buf.written) <= buf.written
    ensures rv == 0 && sizeRead == |data| == Min(|old(buf.Contents())|, size)
    ensures buf.consumed == old(buf.consumed) + sizeRead
    ensures data == buf.written[old(buf.consumed)..buf.consumed]
  {
    var fillLevel := buf.Fill();
    sizeRead := Min(fillLevel, size);
    WriterRuns(buf);
    rv, data := buf.Read(sizeRead);
    if rv < 0 { rv := -1; }
  }

  /** gb_util_cbuf_read_b, observed for at most `polls` waits. The return value is 0 only with
      exactly the next `size` bytes; a timeout delivers what is there, no less than when the call began; any
      other failure delivers nothing, and only a wait for bytes that are not there can fail. Whatever the
      outcome, the bytes delivered are the next ones. */
  method ReadB(buf: Cbuf, size: nat, polls: nat)
    returns (waiting: bool, rv: int, data: seq<Byte>, sizeRead: nat)
    requires buf.Valid()
    modifies buf`rdPtr, buf`consumed, buf`wrPtr, buf`written, buf`reserved, buf.data
    ensures buf.Valid() && old(buf.written) <= buf.written
    ensures sizeRead == |data| <= size && buf.consumed == old(buf.consumed) + sizeRead
    ensures data == buf.written[old(buf.consumed)..buf.consumed]
    ensures size > buf.size ==> !waiting && rv == -1 && sizeRead == 0
    ensures size <= buf.size && |old(buf.Contents())| >= size ==> !waiting && rv == 0
    ensures !waiting && rv == 0 ==> sizeRead == size
    ensures !waiting && rv == -ETIMEDOUT ==> sizeRead >= Min(size, |old(buf.Contents())|)
    ensures !waiting && rv != 0 && rv != -ETIMEDOUT ==> sizeRead == 0
    ensures waiting ==> sizeRead == 0
  {
    waiting, rv, data, sizeRead := false, 0, [], 0;
    if size > buf.size { rv := -1; return; }
    var level := buf.Fill();
    var left := polls;
    while level < size
      invariant buf.Valid() && old(buf.written) <= buf.written && buf.consumed == old(buf.consumed)
      invariant rv == 0 && level <= |buf.Contents()|
      invariant |old(buf.Contents())| >= size ==> level >= size
      decreases left
    {
      if left == 0 { waiting := true; return; }
      left := left - 1;
      WriterRuns(buf);
      var failure :| 0 <= failure;
      rv := 0 - failure;
      if rv == -ETIMEDOUT { break; }
      if rv != 0 { return; }
      level := buf.Fill();
    }
    var rvRead;
    rvRead, data, sizeRead := Read(buf, size);
    if rvRead == 0 && size != sizeRead { rv := -ETIMEDOUT; }
  }

  /** gb_util_cbuf_write: as much of `data` as there was room for when the call began. */
  method Write(buf: Cbuf, data: seq<Byte>) returns (rv: int, sizeWritten: nat)
    requires buf.Valid()
    modifies buf`rdPtr, buf`consumed, buf`wrPtr, buf`written, buf`reserved, buf.data
    ensures buf.Valid() && old(buf.consumed) <= buf.consumed
    ensures rv == 0 && sizeWritten == Min(|data|, buf.size - |old(buf.Contents())|)
    ensures buf.written == old(buf.written) + data[..sizeWritten]
  {
    var free := buf.Free();
    sizeWritten := if |data| > free then free else |data|;
    ReaderRuns(buf);
    rv := buf.Write(data[..sizeWritten]);
  }

  lemma PrefixGrows(data: seq<Byte>, a: nat, b: nat, before: seq<Byte>)
    requires a + b <= |data|
    ensures before + data[..a] + data[a..][..b] == before + data[..a + b]
  {
  }

  /** gb_util_cbuf_write_b, observed for at most `polls` rounds: it appends a prefix of `data` in
      order and returns 0 exactly when the prefix is all of it. It gives up only after it has filled the
      buffer. */
  method WriteB(buf: Cbuf, data: seq<Byte>, polls: nat) returns (waiting: bool, rv: int, sizeWritten: nat)
    requires buf.Valid()
    modifies buf`rdPtr, buf`consumed, buf`wrPtr, buf`written, buf`reserved, buf.data
    ensures buf.Valid() && old(buf.consumed) <= buf.consumed
    ensures sizeWritten <= |data| && buf.written == old(buf.written) + data[..sizeWritten]
    ensures !waiting ==> (rv == 0 <==> sizeWritten == |data|)
    ensures !waiting && rv != 0 ==> |buf.written| >= old(buf.consumed) + buf.size
    ensures waiting && polls > 0 ==> sizeWritten < |data|
    ensures polls > 0 ==> sizeWritten >= Min(|data|, buf.size - |old(buf.Contents())|)
  {
    var sizeDone, left := 0, polls;
    waiting, rv := false, 0;
    while true
      invariant buf.Valid() && old(buf.consumed) <= buf.consumed
      invariant 0 <= sizeDone <= |data| && buf.written == old(buf.written) + data[..sizeDone]
      invariant left < polls ==> sizeDone >= Min(|data|, buf.size - |old(buf.Contents())|)
      invariant left < polls ==> sizeDone < |data|
      invariant left == polls ==> buf.consumed == old(buf.consumed) && sizeDone == 0
      invariant 0 <= left <= polls
      decreases left
    {
      if left == 0 { return true, 0, sizeDone; }
      left := left - 1;
      var _, sizeTmp := Write(buf, data[sizeDone..]);
      PrefixGrows(data, sizeDone, sizeTmp, old(buf.written));
      sizeDone := sizeDone + sizeTmp;
      if sizeDone == |data| { return false, 0, sizeDone; }
      if buf.Free() == 0 {
        ReaderRuns(buf);
        var failure :| 0 <= failure;
        if failure != 0 { return false, 0 - failure, sizeDone; }
      }
    }
  }
}
