/** The host side of a JTAG transfer, for targets with two-byte words: how much to transfer, the
    request that is built from the write buffer, and what is done with the response. The user's
    thread may act on both buffers between any two steps. */
module JtagHost {
  import opened Bits
  import opened Cbuf
  import opened JtagBytes
  import CbufUtil

  const BUFFER_SIZE := 64 * 1024
  const MAX_PAYLOAD_WORDS := 15000
  const ENOMEM := 12

  /** A request: both sizes, the data, and zeros for the rest of the payload and the tail. */
  function RequestBytes(wr: nat, rd: nat, data: seq<Byte>): (req: seq<Byte>)
    requires |data| == ToBytes(wr)
    ensures |req| == ToBytes(Max(wr, rd) + 4) && |req| >= 8 && |req| % 2 == 0
  {
    CopyToWord(wr) + CopyToWord(rd) + data + ZeroBytes(ToBytes(Max(wr, rd) + 2 - wr))
  }

  function ZeroBytes(n: nat): (bytes: seq<Byte>)
    ensures |bytes| == n && forall i :: 0 <= i < n ==> bytes[i] == 0
  {
    seq(n, _ => 0)
  }

  /** The counts at the end of a response, and the words a response of that count carries. */
  function Acked(resp: seq<Byte>): nat
    requires |resp| >= 4
  {
    CopyFromWord(resp, |resp| - 4)
  }

  function ReadCount(resp: seq<Byte>): nat
    requires |resp| >= 4
  {
    CopyFromWord(resp, |resp| - 2)
  }

  /** What the host can take from a response without reading beyond it. */
  predicate Readable(resp: seq<Byte>) { |resp| >= 8 && 4 + ToBytes(ReadCount(resp)) <= |resp| }

  function Payload(resp: seq<Byte>): (data: seq<Byte>)
    requires Readable(resp)
    ensures |data| == ToBytes(ReadCount(resp))
  {
    resp[4..4 + ToBytes(ReadCount(resp))]
  }

  function GrowBuf(size: nat): (grown: nat)
    ensures grown == size + Min(size, 32 * 1024) && (size > 0 ==> size < grown)
  {
    if size < 32 * 1024 then size * 2 else size + 32 * 1024
  }

  lemma BufferPower() returns (k: nat)
    ensures k <= 30 && Pow2(k) == BUFFER_SIZE
  {
    WordPower();
    k := 16;
  }

  /** The sizes of a transfer, when `avail` words wait to be sent, `room` words can be received, and `wanted`
      words are wanted. */
  ghost predicate SizesFor(avail: nat, room: nat, wanted: nat, wr: nat, rd: nat) {
    var payload := Min(wanted, Max(avail, room));
    wr == Min(avail, payload) && rd == Min(room, payload)
  }

  /** The payload is the longer of the two. Each direction gets all its buffer offers or the whole payload;
      the payload is shorter than wanted only if neither buffer had more to offer, and fewer words are
      wanted than sent only if the read buffer had no room for more. */
  lemma SizesAreFair(avail: nat, room: nat, wanted: nat, wr: nat, rd: nat)
    requires SizesFor(avail, room, wanted, wr, rd)
    ensures Max(wr, rd) == Min(wanted, Max(avail, room)) && wr <= avail && rd <= room
    ensures wr < avail ==> wr == Max(wr, rd) == wanted
    ensures rd < room ==> rd == Max(wr, rd) == wanted
    ensures Max(wr, rd) < wanted ==> wr == avail && rd == room
    ensures rd < wr ==> rd == room
  {
  }

  /** How many words are wanted after a transfer with the target's buffer size `size`. */
  function Adapted(size: nat, wanted: nat, acked: nat, read: nat, wr: nat, rd: nat): nat {
    var good := 10 * acked > 9 * wr || 10 * read >= 9 * rd;
    var poor := 2 * acked <= wr && 2 * read <= rd;
    Min(Max(size, if good then wanted * 3 / 2 else if poor then wanted * 3 / 10 else wanted), MAX_PAYLOAD_WORDS)
  }

  /** What that is: half as much again after more than nine tenths of either direction, three tenths after at
      most half of both, otherwise as many as before; but never less than the target's buffer holds, and
      never more than MAX_PAYLOAD_WORDS. */
  lemma AdaptedBounds(size: nat, wanted: nat, acked: nat, read: nat, wr: nat, rd: nat)
    ensures Min(size, MAX_PAYLOAD_WORDS) <= Adapted(size, wanted, acked, read, wr, rd) <= MAX_PAYLOAD_WORDS
    ensures var w := Adapted(size, wanted, acked, read, wr, rd);
      var free := size < w < MAX_PAYLOAD_WORDS;
      if 10 * acked > 9 * wr || 10 * read >= 9 * rd then
        Min(wanted, MAX_PAYLOAD_WORDS) <= w && (free ==> 2 * w <= 3 * wanted < 2 * (w + 1))
      else if 2 * acked <= wr && 2 * read <= rd then
        w <= Max(size, wanted) && (free ==> 10 * w <= 3 * wanted < 10 * (w + 1))
      else
        w <= Max(size, wanted) && (free ==> w == wanted)
  {
  }

  class Host {
    const writeBuf: Cbuf
    const readBuf: Cbuf
    var targetBufferSize: nat
    var wantedWords: nat

    ghost predicate Valid()
      reads this, writeBuf, readBuf, writeBuf.Repr(), readBuf.Repr()
    {
      && writeBuf.Valid() && readBuf.Valid() && writeBuf.Repr() !! readBuf.Repr()
      && this !in writeBuf.Repr() && this !in readBuf.Repr()
      && writeBuf.size == readBuf.size == BUFFER_SIZE
    }

    /** For how many words the read buffer has room. */
    ghost function Room(): nat
      reads this, writeBuf, readBuf, writeBuf.Repr(), readBuf.Repr()
      requires Valid()
    {
      ToWords(BUFFER_SIZE - |readBuf.Contents()|)
    }

    constructor ()
      ensures Valid() && fresh(this) && fresh(writeBuf.Repr()) && fresh(readBuf.Repr())
      ensures writeBuf.written == [] && readBuf.written == [] && writeBuf.consumed == 0
    {
      hide Pow2, Cbuf.Valid, Cbuf.Contents, Cbuf.IsGrant;
      ghost var k := BufferPower();
      writeBuf := new Cbuf(k, BUFFER_SIZE);
      readBuf := new Cbuf(k, BUFFER_SIZE);
      targetBufferSize, wantedWords := 0, 0;
    }

    /** The user's thread writes some bytes and reads some. */
    method UserRuns()
      requires Valid()
      modifies writeBuf`wrPtr, writeBuf`written, writeBuf`reserved, writeBuf.data
      modifies readBuf`rdPtr, readBuf`consumed
      ensures Valid() && old(writeBuf.written) <= writeBuf.written && old(readBuf.consumed) <= readBuf.consumed
    {
      CbufUtil.WriterRuns(writeBuf);
      CbufUtil.ReaderRuns(readBuf);
    }

    /** calc_payload_len: each direction gets what its buffer allows, up to the payload, which is what is
        wanted, or what the better of the two buffers allows. The level of the write buffer is that at the
        beginning, the room in the read buffer that at the end. */
    method CalcPayloadLen() returns (payload: nat, wr: nat, rd: nat)
      requires Valid()
      modifies writeBuf`wrPtr, writeBuf`written, writeBuf`reserved, writeBuf.data
      modifies readBuf`rdPtr, readBuf`consumed
      ensures Valid() && old(writeBuf.written) <= writeBuf.written && old(readBuf.consumed) <= readBuf.consumed
      ensures ToBytes(wr) <= |writeBuf.Contents()| && ToBytes(rd) <= BUFFER_SIZE - |readBuf.Contents()|
      ensures SizesFor(ToWords(|old(writeBuf.Contents())|), Room(), wantedWords, wr, rd) && old(Room()) <= Room()
      ensures payload == Max(wr, rd) <= Min(wantedWords, BUFFER_SIZE / 2)
      ensures wr <= ToWords(|old(writeBuf.Contents())|) && rd <= Room()
      ensures wr < ToWords(|old(writeBuf.Contents())|) ==> wr == payload == wantedWords
      ensures rd < Room() ==> rd == payload == wantedWords
      ensures payload < wantedWords ==> wr == ToWords(|old(writeBuf.Contents())|) && rd == Room()
    {
      var availWr := ToWords(writeBuf.Fill());
      UserRuns();
      var availRd := ToWords(readBuf.Free());
      payload := Min(wantedWords, Max(availWr, availRd));
      wr := Min(availWr, payload);
      rd := Min(availRd, payload);
    }

    /** The next `n` bytes to send, read through a pointer into the write buffer while the user writes
        more behind them. */
    method PeekData(n: nat) returns (rv: int, bytes: seq<Byte>)
      requires Valid()
      modifies writeBuf`readDataTmp, writeBuf.readDataTmp
      modifies writeBuf`wrPtr, writeBuf`written, writeBuf`reserved, writeBuf.data
      modifies readBuf`rdPtr, readBuf`consumed
      ensures Valid() && old(writeBuf.written) <= writeBuf.written && old(readBuf.consumed) <= readBuf.consumed
      ensures fresh(writeBuf.Repr() - old(writeBuf.Repr()))
      ensures rv == if n <= |old(writeBuf.Contents())| then 0 else -EINVAL
      ensures rv == 0 ==> bytes == old(writeBuf.Contents())[..n]
    {
      var data;
      rv, data := writeBuf.Peek(n);
      if rv < 0 { return rv, []; }
      ghost var was := writeBuf.Contents();
      UserRuns();
      if data.Ring? { writeBuf.PeekedStays(data, n); }
      bytes := writeBuf.Window(data, n);
      assert bytes == was[..n];
    }

    /** build_jtag_req, with the user writing while the peeked bytes are in use. */
    method BuildReq(wr: nat, rd: nat, req: array<Byte>) returns (len: int)
      requires Valid() && req !in writeBuf.Repr() && req !in readBuf.Repr()
      modifies req, writeBuf`readDataTmp, writeBuf.readDataTmp
      modifies writeBuf`wrPtr, writeBuf`written, writeBuf`reserved, writeBuf.data
      modifies readBuf`rdPtr, readBuf`consumed
      ensures Valid() && old(writeBuf.written) <= writeBuf.written && old(readBuf.consumed) <= readBuf.consumed
      ensures req !in writeBuf.Repr() && fresh(writeBuf.Repr() - old(writeBuf.Repr()))
      ensures len == -ENOMEM <==> ToBytes(Max(wr, rd) + 4) > req.Length
      ensures len == -1 <==> len != -ENOMEM && ToBytes(wr) > |old(writeBuf.Contents())|
      ensures len != -ENOMEM && len != -1 ==>
        (len == ToBytes(Max(wr, rd) + 4) && req[..len] == RequestBytes(wr, rd, old(writeBuf.Contents())[..ToBytes(wr)]))
    {
      var wrBytes := ToBytes(wr);
      var payloadLenWords := Max(wr, rd);
      var transferLenBytes := ToBytes(payloadLenWords + 4);
      if transferLenBytes > req.Length { return -ENOMEM; }
      Head(wr, rd, req);
      var rv, bytes := PeekData(wrBytes);
      if rv < 0 { return -1; }
      CopyIn(req, 4, bytes);
      len := transferLenBytes;
      assert req[..len] == RequestBytes(wr, rd, bytes);
    }

    /** The memset and the two header words. */
    static method Head(wr: nat, rd: nat, req: array<Byte>)
      requires ToBytes(Max(wr, rd) + 4) <= req.Length
      modifies req
      ensures req[..4] == CopyToWord(wr) + CopyToWord(rd)
      ensures forall i :: 4 <= i < ToBytes(Max(wr, rd) + 4) ==> req[i] == 0
    {
      forall i | 0 <= i < ToBytes(Max(wr, rd) + 4) { req[i] := 0; }
      CopyIn(req, 0, CopyToWord(wr));
      CopyIn(req, 2, CopyToWord(rd));
    }

    /** parse_jtag_resp: the return values of cbuf_discard and cbuf_write are not looked at. */
    method ParseResp(resp: seq<Byte>) returns (acked: nat, read: nat)
      requires Valid() && Readable(resp)
      modifies writeBuf`rdPtr, writeBuf`consumed
      modifies writeBuf`wrPtr, writeBuf`written, writeBuf`reserved, writeBuf.data
      modifies readBuf`rdPtr, readBuf`consumed, readBuf`wrPtr, readBuf`written, readBuf`reserved, readBuf.data
      ensures Valid() && acked == Acked(resp) && read == ReadCount(resp)
      ensures old(writeBuf.written) <= writeBuf.written && old(readBuf.consumed) <= readBuf.consumed
      ensures writeBuf.consumed ==
        old(writeBuf.consumed) + (if ToBytes(acked) <= |old(writeBuf.Contents())| then ToBytes(acked) else 0)
      ensures readBuf.written == old(readBuf.written) || readBuf.written == old(readBuf.written) + Payload(resp)
      ensures ToBytes(read) <= BUFFER_SIZE - |old(readBuf.Contents())| ==>
        readBuf.written == old(readBuf.written) + Payload(resp)
    {
      acked := CopyFromWord(resp, |resp| - 4);
      read := CopyFromWord(resp, |resp| - 2);
      var _ := writeBuf.Discard(ToBytes(acked));
      UserRuns();
      var _ := readBuf.Write(resp[4..4 + ToBytes(read)]);
    }

    /** The end of a round: more is wanted after a transfer of more than nine tenths in either direction,
        less after one of at most half in both, always at least the target's buffer size and at most
        MAX_PAYLOAD_WORDS; the bound against 0xFFFF has no effect of its own. */
    method AdaptWanted(acked: nat, read: nat, wr: nat, rd: nat)
      requires targetBufferSize <= 0x4000_0000 && wantedWords <= Max(targetBufferSize, MAX_PAYLOAD_WORDS)
      modifies `wantedWords
      ensures wantedWords == Adapted(targetBufferSize, old(wantedWords), acked, read, wr, rd) <= MAX_PAYLOAD_WORDS
    {
      if 10 * acked > 9 * wr || 10 * read >= 9 * rd {
        wantedWords := wantedWords * 3 / 2;
      } else if 2 * acked <= wr && 2 * read <= rd {
        wantedWords := wantedWords * 3 / 10;
      }
      assert wantedWords < 0x8000_0000;
      wantedWords := Min(wantedWords, 0x1_0000 - 2);
      wantedWords := Max(targetBufferSize, wantedWords);
      wantedWords := Min(wantedWords, MAX_PAYLOAD_WORDS);
    }

    /** The inner loop of a round: grows the buffer until the request fits. */
    method Request(wr: nat, rd: nat, buf: array<Byte>) returns (tx: array<Byte>, len: nat)
      requires Valid() && buf !in writeBuf.Repr() && buf !in readBuf.Repr() && buf.Length > 0
      requires ToBytes(wr) <= |writeBuf.Contents()|
      modifies buf, writeBuf`readDataTmp, writeBuf.readDataTmp
      modifies writeBuf`wrPtr, writeBuf`written, writeBuf`reserved, writeBuf.data
      modifies readBuf`rdPtr, readBuf`consumed
      ensures Valid() && old(writeBuf.written) <= writeBuf.written && old(readBuf.consumed) <= readBuf.consumed
      ensures tx !in writeBuf.Repr() && tx !in readBuf.Repr() && tx.Length >= buf.Length
      ensures tx == buf || fresh(tx)
      ensures fresh(writeBuf.Repr() - old(writeBuf.Repr()))
      ensures len == ToBytes(Max(wr, rd) + 4) <= tx.Length
      ensures tx[..len] == RequestBytes(wr, rd, old(writeBuf.Contents())[..ToBytes(wr)])
    {
      tx := buf;
      ghost var data := writeBuf.Contents()[..ToBytes(wr)];
      var transferSize := BuildReq(wr, rd, tx);
      while transferSize == -ENOMEM
        invariant Valid() && tx !in writeBuf.Repr() && tx !in readBuf.Repr() && tx.Length >= buf.Length
        invariant tx == buf || fresh(tx)
        invariant fresh(writeBuf.Repr() - old(writeBuf.Repr()))
        invariant old(writeBuf.written) <= writeBuf.written && old(readBuf.consumed) <= readBuf.consumed
        invariant ToBytes(wr) <= |writeBuf.Contents()| && writeBuf.Contents()[..ToBytes(wr)] == data
        invariant transferSize == -ENOMEM <==> ToBytes(Max(wr, rd) + 4) > tx.Length
        invariant transferSize == -ENOMEM ||
          (transferSize == ToBytes(Max(wr, rd) + 4) && tx[..transferSize] == RequestBytes(wr, rd, data))
        decreases ToBytes(Max(wr, rd) + 4) - tx.Length
      {
        tx := new Byte[GrowBuf(tx.Length)](_ => 0);
        transferSize := BuildReq(wr, rd, tx);
      }
      len := transferSize;
    }
  }
}
