/** The communication thread of the JTAG backend, running against the target model: transfer after
    transfer, with the user's thread and the logic acting in between. */
module JtagPoll {
  import opened Bits
  import opened JtagWords
  import opened JtagBytes
  import opened JtagHost
  import opened JtagTarget
  import opened JtagLink
  import opened JtagOpenOcd
  import opened JtagDrscan
  import opened JtagReceive
  import InF = JtagInputFrame
  import OutF = JtagOutputFrame
  import In = JtagInputFsm
  import Out = JtagOutputFsm
  import Conf = JtagConfigFsm
  import opened JtagFifo

  /** Both directions, exactly once and in order: the words the target has accepted are the bytes taken
      out of the write buffer, and the words it has given away are the bytes put into the read buffer. */
  ghost predicate Delivered(host: Host, s: Target)
    requires host.Valid()
    reads host, host.writeBuf, host.readBuf, host.writeBuf.Repr(), host.readBuf.Repr()
  {
    DeliveredOf(s, host.writeBuf.written, host.writeBuf.consumed, host.readBuf.written)
  }

  /** The same on values: of the bytes `w` to send the first `c` are sent, and `r` are received. */
  ghost predicate DeliveredOf(s: Target, w: seq<Byte>, c: nat, r: seq<Byte>)
    requires c <= |w|
  {
    c % 2 == 0 && |r| % 2 == 0 && s.inp.pushed == WordsOf(w[..c]) && s.out.popped == WordsOf(r)
  }

  /** How many words are on the target's side of the books and not on the host's. */
  ghost function Surplus(host: Host, s: Target): int
    reads host, host.writeBuf, host.readBuf
  {
    SurplusOf(s, host.writeBuf.consumed, host.readBuf.written)
  }

  ghost function SurplusOf(s: Target, c: nat, r: seq<Byte>): int {
    |s.inp.pushed| - c / 2 + |s.out.popped| - |r| / 2
  }

  /** The state of the thread between two transfers. */
  ghost predicate Linked(host: Host, p: Params, s: Target)
    reads host, host.writeBuf, host.readBuf, host.writeBuf.Repr(), host.readBuf.Repr()
  {
    && host.Valid() && p.w == 16 && Ready(p, s) && InF.Conserved(s.inp)
    && host.writeBuf.consumed % 2 == 0 && |host.readBuf.written| % 2 == 0
    && host.targetBufferSize <= 0x4000_0000 && host.wantedWords <= Max(host.targetBufferSize, MAX_PAYLOAD_WORDS)
  }

  /** What a request must look like: no WR_REQ_SIZE of 0xFFFF, and short enough. */
  ghost predicate RequestOk(req: seq<Byte>) {
    8 <= |req| <= ToBytes(BUFFER_SIZE / 2 + 4) && |req| % 2 == 0 && CopyFromWord(req, 0) != 0xFFFF
  }

  /** The request sends the bytes of `w` that follow the first `c`. */
  ghost predicate Sends(req: seq<Byte>, w: seq<Byte>, c: nat) {
    && RequestOk(req)
    && var wr, rd := CopyFromWord(req, 0), CopyFromWord(req, 2);
    c + ToBytes(wr) <= |w| && req == RequestBytes(wr, rd, w[c..c + ToBytes(wr)])
  }

  /** The host between two transfers: how many bytes are taken out of the write buffer, how many words are
      wanted, and how many bytes are put into the read buffer. */
  datatype Books = Books(sent: nat, wanted: nat, received: nat)

  ghost function BooksOn(host: Host): Books
    reads host, host.writeBuf, host.readBuf
  {
    Books(host.writeBuf.consumed, host.wantedWords, |host.readBuf.written|)
  }

  /** One transfer: the target before and after it, what surrounds it, the request, the host's books before
      it; and what the sizes were chosen by besides the wanted length: the words waiting in the write
      buffer, and the words for which the read buffer had room. */
  datatype Transfer = Transfer(before: Target, env: Env, req: seq<Byte>, books: Books,
                               avail: nat, room: nat, after: Target)

  /** What waits is all of the first `given` bytes that is not sent yet, or more, and the room is at least
      what is left of the buffer if the user takes nothing out; but for an odd byte. */
  ghost predicate Offers(t: Transfer, given: nat) {
    given <= t.books.sent + ToBytes(t.avail) + 1 && BUFFER_SIZE <= t.books.received + ToBytes(t.room) + 1
  }

  /** The request of a transfer has the chosen sizes and carries the next bytes of the write buffer, to
      which `w` has been written. */
  ghost predicate Requested(p: Params, t: Transfer, w: seq<Byte>) {
    && Ok(p, t.before) && EnvOk(p, t.env) && p.w == 16 && Sends(t.req, w, t.books.sent)
    && SizesFor(t.avail, t.room, t.books.wanted, CopyFromWord(t.req, 0), CopyFromWord(t.req, 2))
  }

  /** The transfer took place: one scan of its request. */
  ghost predicate Scans(p: Params, t: Transfer, w: seq<Byte>) {
    && Requested(p, t, w) && SteadyScan(p, t.before, t.env, t.req)
    && t.after == Scanned(p, t.before, t.env, t.req)
  }

  /** The transfer is one whose response runs one word long: fewer words are wanted than sent, and the
      target supplies all of them. */
  ghost predicate Overran(t: Transfer) {
    && |t.req| >= 8
    && var wr, rd := CopyFromWord(t.req, 0), CopyFromWord(t.req, 2);
    0 < rd < wr && Supplied(t.before, t.env, rd)
  }

  /** What the host books after a transfer: as sent what the answer acknowledges, as received what it
      counts (if it overran, only if there is room), and the wanted length is adapted. */
  ghost predicate Booked(p: Params, t: Transfer, b: Books)
    requires Ok(p, t.before) && EnvOk(p, t.env) && p.w == 16 && RequestOk(t.req)
  {
    var resp, wr, rd := Answer(p, t.before, t.env, t.req), CopyFromWord(t.req, 0), CopyFromWord(t.req, 2);
    && b.sent == t.books.sent + ToBytes(Acked(resp))
    && b.wanted == Adapted(Pow2(p.numWords), t.books.wanted, Acked(resp), ReadCount(resp), wr, rd)
    && (b.received == t.books.received + ToBytes(ReadCount(resp)) || (Overran(t) && b.received == t.books.received))
  }

  const DISCOVERY: seq<Byte> := [0xFF, 0xFF, 0, 0, 0, 0]

  lemma DiscoveryWords()
    ensures var words := WordsOf(DISCOVERY); |words| == 3 && AllOnes(words[0])
  {
    hide Val, ToBits;
    WordValue(DISCOVERY, 0);
    NotAllOnes(WordsOf(DISCOVERY)[0]);
  }

  /** What discover_targetconf learns. It pushes and takes nothing, and it empties the input fifo; what
      that loses, JtagTarget.ConfigLosesNothing says. */
  lemma DiscoveryScan(p: Params, s: Target, e: Env)
    requires p.w == 16 && Ready(p, s) && EnvOk(p, e) && p.numWords < 0x1_0000
    ensures var u := Scanned(p, s, e, DISCOVERY); var resp := Answer(p, s, e, DISCOVERY);
      && Ready(p, u) && SameTraffic(s, u) && u.inp.fifo == []
      && CopyFromWord(resp, 2) == p.w && CopyFromWord(resp, 4) == p.numWords
  {
    hide Frame, TdoWords, WordsOf, Clocked, EnvOk, Begun, Ended, Ok, FrameOk, TdiBits, AllOnes, ToBits, CopyFromWord;
    hide Ready, Finished, Started, Scanned, Answer;
    ReadyIsOk(p, s);
    ScanParts(p, s, e, DISCOVERY);
    BeginStarts(p, s, e);
    DiscoveryWords();
    var v, groups := Begun(p, s, e), Clocked(e, WordsOf(DISCOVERY));
    ClockedSpellsWords(p, e, WordsOf(DISCOVERY));
    ConfigTransaction(p, v, groups);
    EndMakesReady(p, Frame(p, v, groups), e);
    var words := TdoWords(p, v, groups);
    assert words[1] == words[1..][0] && words[2] == words[1..][1];
    CountIs(Answer(p, s, e, DISCOVERY), 1, p.w);
    CountIs(Answer(p, s, e, DISCOVERY), 2, p.numWords);
  }

  /** At no clock of the shift does discovery reset the logic. */
  lemma DiscoveryDoesNotReset(p: Params, s: Target, e: Env, n: nat)
    requires p.w == 16 && Ready(p, s) && EnvOk(p, e)
    ensures Ok(p, s) && |Clocks(Clocked(e, WordsOf(DISCOVERY)))| == 48
    ensures n <= 48 ==>
      var ts := Clocks(Clocked(e, WordsOf(DISCOVERY)));
      TicksOk(p, ts[..n]) && !Run(p, Begun(p, s, e), ts[..n]).conf.ctrlLogicRst
  {
    hide Frame, WordsOf, Clocked, EnvOk, Begun, Ok, FrameOk, AllOnes, ToBits, Ready, Started, TicksOk, Run;
    ReadyIsOk(p, s);
    BeginStarts(p, s, e);
    DiscoveryWords();
    var words := WordsOf(DISCOVERY);
    var groups := Clocked(e, words);
    ClockedSpellsWords(p, e, words);
    StartedIsOk(p, Begun(p, s, e));
    FrameIsRun(p, Begun(p, s, e), groups);
    ThreeWords(groups, 16);
    SecondWordIsZero();
    assert TdiBits(groups[1]) == words[1] == Zeros(16);
    assert !Clocks(groups)[16].tdi by { assert TdiBits(groups[1])[0] == groups[1][0].tdi; }
    var ts := Clocks(groups);
    assert !ts[p.w].tdi;
    if n <= 48 {
      LogicResetPulse(p, Begun(p, s, e), ts, n);
      assert !Run(p, Begun(p, s, e), ts[..n]).conf.ctrlLogicRst;
    }
  }

  lemma ThreeWords(groups: seq<seq<Tick>>, w: nat)
    requires |groups| == 3 && w > 0 && forall i :: 0 <= i < 3 ==> |groups[i]| == w
    ensures |Clocks(groups)| == 3 * w && Clocks(groups)[w] == groups[1][0]
  {
    var last := groups[1..][1..];
    assert last == [groups[2]] && last[1..] == [] && groups[1..][0] == groups[1];
    assert Clocks(last[1..]) == [];
    assert Clocks(last) == groups[2] + [];
    assert Clocks(groups[1..]) == groups[1] + Clocks(last);
    assert Clocks(groups) == groups[0] + Clocks(groups[1..]);
  }

  lemma SecondWordIsZero()
    ensures var words := WordsOf(DISCOVERY); |words| == 3 && words[1] == Zeros(16)
  {
    hide Val, ToBits;
    WordValue(DISCOVERY, 1);
    ZeroIsZeros(WordsOf(DISCOVERY)[1]);
  }

  /** The target as a session finds it: what it accepted and gave away earlier is not counted. */
  function Opened(s: Target): Target {
    s.(inp := s.inp.(pushed := [], drained := []), out := s.out.(popped := []))
  }

  ghost predicate SameButBooks(s: Target, u: Target) {
    s.inp.r == u.inp.r && s.inp.fifo == u.inp.fifo && s.out.r == u.out.r && s.out.q == u.out.q && s.conf == u.conf
  }

  /** Books are only kept: nothing the target does depends on them. */
  lemma BooksDoNotMatter(p: Params, s: Target, t: Tick, capture: bool, update: bool)
    requires Ok(p, s) && TickOk(p, t)
    ensures Ok(p, Opened(s)) && SameButBooks(Step(p, s, t), Step(p, Opened(s), t))
    ensures SameButBooks(Around(p, s, capture, update, t), Around(p, Opened(s), capture, update, t))
    ensures Tdo(p, s, t) == Tdo(p, Opened(s), t)
  {
    hide OutF.WordsOk, ToBits, NextQueue, In.Next, Out.Next, Conf.Next, TickOk;
  }

  lemma BooksOpen(p: Params, s: Target)
    requires Ready(p, s) && s.inp.fifo == []
    ensures Ready(p, Opened(s)) && InF.Conserved(Opened(s).inp)
  {
  }

  lemma BooksAreEmpty(s: Target)
    ensures Opened(s).inp.pushed == [] && Opened(s).out.popped == []
  {
  }

  /** discover_targetconf, at the beginning of a session. */
  method Discover(host: Host, p: Params, s: Target, e: Env) returns (steady: bool, u: Target)
    requires host.Valid() && p.w == 16 && p.numWords <= 30 && Ready(p, s) && EnvOk(p, e)
    modifies host`targetBufferSize
    ensures host.Valid() && Ready(p, u) && InF.Conserved(u.inp)
    ensures Ok(p, s) && u == Opened(Scanned(p, s, e, DISCOVERY)) && u.inp.pushed == [] && u.out.popped == []
    ensures steady <==> SteadyScan(p, s, e, DISCOVERY)
    ensures steady ==> host.targetBufferSize == Pow2(p.numWords) <= 0x4000_0000
  {
    hide Scanned, Answer, Ready, Ok, Pow2, Opened, SteadyScan;
    ReadyIsOk(p, s);
    DiscoveryScan(p, s, e);
    BoundedPower(p.numWords);
    var rv, resp;
    steady, rv, u, resp := Drscan(p, s, e, DISCOVERY);
    BooksOpen(p, u);
    BooksAreEmpty(u);
    u := Opened(u);
    if !steady { return; }
    assert CopyFromWord(resp, 2) != 0 && CopyFromWord(resp, 2) % 8 == 0;
    assert CopyFromWord(resp, 2) / 8 == WIDTH;
    host.targetBufferSize := Pow2(CopyFromWord(resp, 4));
  }

  lemma BoundedPower(n: nat)
    requires n <= 30
    ensures Pow2(n) <= 0x4000_0000
  {
    PowersGrow(n, 30);
    assert Pow2(29) == 2 * Pow2(28) && Pow2(30) == 2 * Pow2(29);
    hide Pow2;
    WordPower();
    FourMore(16);
    FourMore(20);
    FourMore(24);
  }

  // ---- One round ----

  /** The first half of a round: what to transfer, and the request. `data` is what it will send, the
      front of the write buffer. */
  method Prepare(host: Host, buf: array<Byte>)
    returns (wr: nat, rd: nat, tx: array<Byte>, len: nat, ghost data: seq<Byte>, ghost room: nat)
    requires host.Valid() && buf !in host.writeBuf.Repr() && buf !in host.readBuf.Repr() && buf.Length > 0
    modifies buf, host.writeBuf`readDataTmp, host.writeBuf.readDataTmp
    modifies host.writeBuf`wrPtr, host.writeBuf`written, host.writeBuf`reserved, host.writeBuf.data
    modifies host.readBuf`rdPtr, host.readBuf`consumed
    ensures host.Valid() && old(host.writeBuf.written) <= host.writeBuf.written
    ensures tx !in host.writeBuf.Repr() && tx !in host.readBuf.Repr() && tx.Length > 0 && (tx == buf || fresh(tx))
    ensures fresh(host.writeBuf.Repr() - old(host.writeBuf.Repr()))
    ensures wr <= BUFFER_SIZE / 2 && rd <= BUFFER_SIZE / 2 && Max(wr, rd) <= host.wantedWords
    ensures len == ToBytes(Max(wr, rd) + 4) <= tx.Length && |data| == ToBytes(wr)
    ensures tx[..len] == RequestBytes(wr, rd, data) && data <= host.writeBuf.Contents()
    ensures ToBytes(rd) <= BUFFER_SIZE - |host.readBuf.Contents()|
    ensures SizesFor(ToWords(|old(host.writeBuf.Contents())|), room, host.wantedWords, wr, rd)
    ensures old(host.Room()) <= room
  {
    var payload;
    payload, wr, rd := host.CalcPayloadLen();
    room := host.Room();
    SizesAreFair(ToWords(|old(host.writeBuf.Contents())|), room, host.wantedWords, wr, rd);
    hide SizesFor;
    data := host.writeBuf.Contents()[..ToBytes(wr)];
    tx, len := host.Request(wr, rd, buf);
  }

  /** The second half: the counts and words of a response that keeps to what was asked for are booked
      in full. */
  method Complete(host: Host, resp: seq<Byte>, wr: nat, rd: nat)
    requires host.Valid() && Readable(resp)
    requires host.targetBufferSize <= 0x4000_0000 && host.wantedWords <= Max(host.targetBufferSize, MAX_PAYLOAD_WORDS)
    modifies host`wantedWords, host.writeBuf`rdPtr, host.writeBuf`consumed
    modifies host.writeBuf`wrPtr, host.writeBuf`written, host.writeBuf`reserved, host.writeBuf.data
    modifies host.readBuf`rdPtr, host.readBuf`consumed
    modifies host.readBuf`wrPtr, host.readBuf`written, host.readBuf`reserved, host.readBuf.data
    ensures host.Valid() && old(host.writeBuf.written) <= host.writeBuf.written
    ensures host.wantedWords ==
      Adapted(host.targetBufferSize, old(host.wantedWords), Acked(resp), ReadCount(resp), wr, rd)
    ensures host.wantedWords <= MAX_PAYLOAD_WORDS
    ensures ToBytes(Acked(resp)) <= |old(host.writeBuf.Contents())| ==>
      host.writeBuf.consumed == old(host.writeBuf.consumed) + ToBytes(Acked(resp))
    ensures host.readBuf.written == old(host.readBuf.written) ||
            host.readBuf.written == old(host.readBuf.written) + Payload(resp)
    ensures ToBytes(ReadCount(resp)) <= BUFFER_SIZE - |old(host.readBuf.Contents())| ==>
      host.readBuf.written == old(host.readBuf.written) + Payload(resp)
  {
    hide Adapted;
    host.UserRuns();
    var acked, read := host.ParseResp(resp);
    host.AdaptWanted(acked, read, wr, rd);
  }

  /** Books that agree keep what was delivered so far, while the user appends to what is to be sent. */
  lemma BooksKeepDelivery(s: Target, u: Target, w: seq<Byte>, w': seq<Byte>, c: nat,
                          r: seq<Byte>, data: seq<Byte>, resp: seq<Byte>)
    requires Readable(resp) && BooksAgree(s, u, data, resp)
    requires w <= w' && c <= |w| && data <= w[c..] && DeliveredOf(s, w, c, r)
    ensures c + ToBytes(Acked(resp)) <= |w'| && DeliveredOf(u, w', c + ToBytes(Acked(resp)), r + Payload(resp))
  {
    hide WordsOf, CopyFromWord;
    var n := ToBytes(Acked(resp));
    assert w[..c] + data[..n] == w'[..c + n];
    WordsOfAppend(w[..c], data[..n]);
    WordsOfAppend(r, Payload(resp));
  }

  lemma BooksCount(s: Target, u: Target, data: seq<Byte>, resp: seq<Byte>)
    requires Readable(resp) && BooksAgree(s, u, data, resp)
    ensures ToBytes(Acked(resp)) <= |data|
    ensures |u.inp.pushed| == |s.inp.pushed| + Acked(resp) && |u.out.popped| == |s.out.popped| + ReadCount(resp)
  {
  }

  /** What one scan means for the thread: the books agree, or they fall apart. */
  lemma TransferBooks(p: Params, t: Transfer, wr: nat, rd: nat, data: seq<Byte>)
    requires p.w == 16 && Ready(p, t.before) && InF.Conserved(t.before.inp) && EnvOk(p, t.env) && |data| == ToBytes(wr)
    requires wr <= BUFFER_SIZE / 2 && rd <= BUFFER_SIZE / 2 && t.req == RequestBytes(wr, rd, data)
    ensures RequestOk(t.req) && CopyFromWord(t.req, 0) == wr && CopyFromWord(t.req, 2) == rd
    ensures var u := Scanned(p, t.before, t.env, t.req); var resp := Answer(p, t.before, t.env, t.req);
      && Ready(p, u) && InF.Conserved(u.inp) && Readable(resp)
      && (if Overran(t) then BooksFallApart(t.before, u, rd, wr, resp)
          else BooksAgree(t.before, u, data, resp) && ReadCount(resp) <= rd)
  {
    hide Scanned, Answer, Ready, Ok, EnvOk, RequestBytes, WordsOf, InF.Conserved, CopyFromWord, BooksAgree;
    hide Acked, ReadCount, Payload, Supplied;
    ReadyIsOk(p, t.before);
    ExactlyOnce(p, t.before, t.env, wr, rd, data);
    RequestHead(wr, rd, data);
  }

  /** What the host books when a response overruns: nothing sent, and received as many words as the
      target accepted, although it gave away `rd` others. */
  ghost predicate BooksFallApart(s: Target, u: Target, rd: nat, wr: nat, resp: seq<Byte>)
    requires Readable(resp)
  {
    && 0 < rd < wr && Acked(resp) == 0
    && |u.out.popped| == |s.out.popped| + rd && |u.inp.pushed| == |s.inp.pushed| + ReadCount(resp)
  }

  /** The books after a transfer, on values: `c` and `r` became `c'` and `r'`. */
  lemma TransferMovesSurplus(s: Target, u: Target, rd: nat, wr: nat, data: seq<Byte>, resp: seq<Byte>,
                             c: nat, c': nat, r: seq<Byte>, r': seq<Byte>)
    requires Readable(resp) && c % 2 == 0 && |r| % 2 == 0
    requires c' == c + ToBytes(Acked(resp)) && (r' == r || r' == r + Payload(resp))
    ensures c' % 2 == 0 && |r'| % 2 == 0
    ensures BooksFallApart(s, u, rd, wr, resp) ==> SurplusOf(u, c', r') > SurplusOf(s, c, r)
    ensures BooksAgree(s, u, data, resp) && r' == r + Payload(resp) ==> SurplusOf(u, c', r') == SurplusOf(s, c, r)
  {
    hide CopyFromWord, Acked, ReadCount, Payload;
    if BooksAgree(s, u, data, resp) { BooksCount(s, u, data, resp); }
  }

  /** The scan and the second half. A transfer that does not overrun keeps the surplus and what was
      delivered; one that does adds to the surplus. Where the run is not defined any more (`steady` is
      false), the books are those before the transfer. */
  method Transact(host: Host, p: Params, s: Target, e: Env, req: seq<Byte>, wr: nat, rd: nat,
                  ghost data: seq<Byte>, ghost t: Transfer)
    returns (steady: bool, u: Target)
    requires Linked(host, p, s) && EnvOk(p, e) && t.before == s && t.env == e && t.req == req && Ok(p, s)
    requires wr <= BUFFER_SIZE / 2 && rd <= BUFFER_SIZE / 2 && |data| == ToBytes(wr)
    requires req == RequestBytes(wr, rd, data) && RequestOk(req) && t.books == BooksOn(host)
    requires host.targetBufferSize == Pow2(p.numWords)
    requires data <= host.writeBuf.Contents() && ToBytes(rd) <= BUFFER_SIZE - |host.readBuf.Contents()|
    modifies host`wantedWords, host.writeBuf`rdPtr, host.writeBuf`consumed
    modifies host.writeBuf`wrPtr, host.writeBuf`written, host.writeBuf`reserved, host.writeBuf.data
    modifies host.readBuf`rdPtr, host.readBuf`consumed
    modifies host.readBuf`wrPtr, host.readBuf`written, host.readBuf`reserved, host.readBuf.data
    ensures Linked(host, p, u) && old(host.writeBuf.written) <= host.writeBuf.written
    ensures steady <==> SteadyScan(p, s, e, req)
    ensures if steady then u == Scanned(p, s, e, req) && Booked(p, t, BooksOn(host))
            else u == s && BooksOn(host) == t.books
    ensures !steady || !Overran(t) ==> Surplus(host, u) == old(Surplus(host, s))
    ensures (!steady || !Overran(t)) && old(Delivered(host, s)) ==> Delivered(host, u)
    ensures steady && Overran(t) ==> Surplus(host, u) > old(Surplus(host, s))
  {
    hide Scanned, Answer, Ready, Ok, EnvOk, RequestBytes, WordsOf, InF.Conserved, CopyFromWord, BooksAgree;
    hide Acked, ReadCount, Payload, Overran, DeliveredOf, SurplusOf, BooksFallApart;
    hide SteadyScan, TickOk, Adapted, Pow2;
    TransferBooks(p, t, wr, rd, data);
    var rv, resp;
    steady, rv, u, resp := Drscan(p, s, e, req);
    if !steady { return false, s; }
    ghost var w, c, r := host.writeBuf.written, host.writeBuf.consumed, host.readBuf.written;
    TransferFits(s, u, rd, wr, data, resp, Overran(t));
    Complete(host, resp, wr, rd);
    TransferMovesSurplus(s, u, rd, wr, data, resp, c, host.writeBuf.consumed, r, host.readBuf.written);
    if !Overran(t) && old(Delivered(host, s)) {
      BooksKeepDelivery(s, u, w, host.writeBuf.written, c, r, data, resp);
    }
  }

  lemma TransferFits(s: Target, u: Target, rd: nat, wr: nat, data: seq<Byte>, resp: seq<Byte>, overran: bool)
    requires Readable(resp) && |data| == ToBytes(wr)
    requires if overran then BooksFallApart(s, u, rd, wr, resp)
             else BooksAgree(s, u, data, resp) && ReadCount(resp) <= rd
    ensures ToBytes(Acked(resp)) <= |data| && (overran ==> rd < wr)
    ensures !overran ==> ToBytes(ReadCount(resp)) <= ToBytes(rd)
  {
  }

  lemma OffersAll(t: Transfer, given: nat, waiting: nat, held: nat)
    requires given == t.books.sent + waiting && held <= t.books.received && held <= BUFFER_SIZE
    requires t.avail == ToWords(waiting) && t.room >= ToWords(BUFFER_SIZE - held)
    ensures Offers(t, given)
  {
  }

  lemma DeliveryStays(s: Target, w: seq<Byte>, c: nat, r: seq<Byte>, w': seq<Byte>)
    requires c <= |w| && w <= w'
    ensures DeliveredOf(s, w, c, r) ==> DeliveredOf(s, w', c, r)
  {
    hide WordsOf;
    assert w[..c] == w'[..c];
  }

  lemma RequestIsOk(wr: nat, rd: nat, data: seq<Byte>)
    requires wr <= BUFFER_SIZE / 2 && rd <= BUFFER_SIZE / 2 && |data| == ToBytes(wr)
    ensures RequestOk(RequestBytes(wr, rd, data))
    ensures CopyFromWord(RequestBytes(wr, rd, data), 0) == wr && CopyFromWord(RequestBytes(wr, rd, data), 2) == rd
  {
    hide RequestBytes, CopyFromWord;
    RequestHead(wr, rd, data);
  }

  /** What was asked for is the next part of the write buffer, however much more the user writes. */
  lemma RequestSends(wr: nat, rd: nat, data: seq<Byte>, w: seq<Byte>, c: nat, w': seq<Byte>)
    requires wr <= BUFFER_SIZE / 2 && rd <= BUFFER_SIZE / 2 && |data| == ToBytes(wr)
    requires w <= w' && c <= |w| && data <= w[c..]
    ensures Sends(RequestBytes(wr, rd, data), w', c)
  {
    hide RequestBytes, CopyFromWord, RequestOk;
    RequestIsOk(wr, rd, data);
    assert w'[c..c + ToBytes(wr)] == data;
  }

  /** A round of the thread's loop: what to transfer, the request, the scan, the response. It is the transfer
      `t`: one scan of the request for the next bytes of the write buffer, with the sizes that both buffers
      and the wanted length give, if the reply comes in steadily. */
  method Round(host: Host, p: Params, s: Target, e: Env, buf: array<Byte>)
    returns (steady: bool, u: Target, tx: array<Byte>, ghost t: Transfer)
    requires Linked(host, p, s) && EnvOk(p, e) && host.targetBufferSize == Pow2(p.numWords)
    requires buf !in host.writeBuf.Repr() && buf !in host.readBuf.Repr() && buf.Length > 0
    modifies buf, host`wantedWords, host.writeBuf, host.writeBuf.data, host.writeBuf.readDataTmp
    modifies host.readBuf, host.readBuf.data
    ensures Linked(host, p, u) && old(host.writeBuf.written) <= host.writeBuf.written
    ensures tx !in host.writeBuf.Repr() && tx !in host.readBuf.Repr() && tx.Length > 0 && (tx == buf || fresh(tx))
    ensures fresh(host.writeBuf.Repr() - old(host.writeBuf.Repr())) && host.readBuf.Repr() == old(host.readBuf.Repr())
    ensures t.before == s && t.env == e && t.books == old(BooksOn(host))
    ensures t.avail == ToWords(|old(host.writeBuf.Contents())|) && t.room >= old(host.Room())
    ensures Offers(t, |old(host.writeBuf.written)|)
    ensures Requested(p, t, host.writeBuf.written) && (steady <==> SteadyScan(p, s, e, t.req))
    ensures if steady then Scans(p, t, host.writeBuf.written) && Leaves(p, t, u, BooksOn(host))
            else u == s && BooksOn(host) == t.books
    ensures !steady || !Overran(t) ==> Surplus(host, u) == old(Surplus(host, s))
    ensures (!steady || !Overran(t)) && old(Delivered(host, s)) ==> Delivered(host, u)
    ensures steady && Overran(t) ==> Surplus(host, u) > old(Surplus(host, s))
  {
    hide Ready, Ok, EnvOk, RequestBytes, WordsOf, InF.Conserved, CopyFromWord, Overran, RequestOk;
    hide SteadyScan, Scanned, Answer, Sends, SizesFor, DeliveredOf, SurplusOf, Acked, ReadCount, Payload;
    hide Booked, Pow2, Offers;
    var wr, rd, len;
    ghost var data, room, avail := [], 0, ToWords(|host.writeBuf.Contents()|);
    ReadyIsOk(p, s);
    wr, rd, tx, len, data, room := Prepare(host, buf);
    t := Transfer(s, e, tx[..len], old(BooksOn(host)), avail, room, Scanned(p, s, e, tx[..len]));
    ghost var w := host.writeBuf.written;
    OffersAll(t, |old(host.writeBuf.written)|, |old(host.writeBuf.Contents())|, |old(host.readBuf.Contents())|);
    DeliveryStays(s, old(host.writeBuf.written), t.books.sent, host.readBuf.written, w);
    RequestIsOk(wr, rd, data);
    steady, u := Transact(host, p, s, e, tx[..len], wr, rd, data, t);
    RequestSends(wr, rd, data, w, t.books.sent, host.writeBuf.written);
  }

  // ---- The whole session ----

  /** What a transfer leaves: the target, and the host's books. */
  ghost predicate Leaves(p: Params, t: Transfer, s: Target, b: Books) {
    && Ok(p, t.before) && EnvOk(p, t.env) && p.w == 16 && RequestOk(t.req)
    && s == t.after && Booked(p, t, b)
  }

  /** The transfers of a session, in the order of the loop: from the target `start`, `given` bytes written by
      the user, nothing sent or received, and the target's buffer size wanted; each from where the one
      before it ended; to the target `s` and the books `b`, with the bytes `w` written by the user. */
  ghost predicate IsLog(p: Params, start: Target, given: nat, envs: seq<Env>, w: seq<Byte>,
                        log: seq<Transfer>, s: Target, b: Books)
    decreases |log|
  {
    if log == [] then s == start && b == Books(0, Pow2(p.numWords), 0) else
      var n := |log| - 1;
      var t := log[n];
      && n < |envs| && t.env == envs[n] && Offers(t, given) && Scans(p, t, w) && Leaves(p, t, s, b)
      && IsLog(p, start, given, envs, w, log[..n], t.before, t.books)
  }

  /** Every transfer of a log took place, and began where the one before it ended. */
  lemma {:induction false} LogIsChain(p: Params, start: Target, given: nat, envs: seq<Env>, w: seq<Byte>,
                                      log: seq<Transfer>, s: Target, b: Books, i: nat)
    requires IsLog(p, start, given, envs, w, log, s, b) && i < |log|
    ensures |log| <= |envs| && log[i].env == envs[i] && Offers(log[i], given) && Scans(p, log[i], w)
    ensures if i + 1 < |log| then Leaves(p, log[i], log[i + 1].before, log[i + 1].books)
            else Leaves(p, log[i], s, b)
    ensures i == 0 ==> log[0].before == start && log[0].books == Books(0, Pow2(p.numWords), 0)
    decreases |log|
  {
    hide Scans, Leaves, Offers, Pow2;
    var n := |log| - 1;
    if i < n {
      LogIsChain(p, start, given, envs, w, log[..n], log[n].before, log[n].books, i);
    } else if i > 0 {
      LogIsChain(p, start, given, envs, w, log[..n], log[n].before, log[n].books, i - 1);
    }
  }

  ghost predicate NoneOverran(log: seq<Transfer>) { forall i :: 0 <= i < |log| ==> !Overran(log[i]) }

  /** Room in the read buffer rules overruns out. */
  ghost predicate OverrunsLackRoom(log: seq<Transfer>) {
    forall i :: 0 <= i < |log| && Overran(log[i]) ==> log[i].room < CopyFromWord(log[i].req, 0)
  }

  lemma RoomRulesOutOverruns(p: Params, start: Target, given: nat, envs: seq<Env>, w: seq<Byte>,
                             log: seq<Transfer>, s: Target, b: Books)
    requires IsLog(p, start, given, envs, w, log, s, b)
    ensures OverrunsLackRoom(log)
  {
    hide IsLog, CopyFromWord, SteadyScan, Sends, Scanned, Ok, EnvOk, SizesFor, Supplied;
    forall i | 0 <= i < |log| && Overran(log[i]) ensures log[i].room < CopyFromWord(log[i].req, 0) {
      LogIsChain(p, start, given, envs, w, log, s, b, i);
      var t := log[i];
      SizesAreFair(t.avail, t.room, t.books.wanted, CopyFromWord(t.req, 0), CopyFromWord(t.req, 2));
    }
  }

  lemma ScansStill(p: Params, t: Transfer, w: seq<Byte>, w': seq<Byte>)
    requires Scans(p, t, w) && w <= w'
    ensures Scans(p, t, w')
  {
    hide RequestBytes, CopyFromWord, SteadyScan, Scanned, Ok, EnvOk, RequestOk, SizesFor;
    var c, n := t.books.sent, ToBytes(CopyFromWord(t.req, 0));
    assert w[c..c + n] == w'[c..c + n];
  }

  lemma LogGrows(p: Params, start: Target, given: nat, envs: seq<Env>, w: seq<Byte>, log: seq<Transfer>, s: Target,
                 b: Books, w': seq<Byte>, t: Transfer, u: Target, d: Books)
    requires IsLog(p, start, given, envs, w, log, s, b) && w <= w' && |log| < |envs|
    requires t.before == s && t.books == b && t.env == envs[|log|]
    requires Offers(t, given) && Scans(p, t, w') && Leaves(p, t, u, d)
    ensures IsLog(p, start, given, envs, w', log + [t], u, d)
  {
    hide Scans, Leaves, Offers, Pow2;
    LogStays(p, start, given, envs, w, log, s, b, w');
    assert (log + [t])[..|log|] == log;
  }

  /** The user may write more meanwhile. */
  lemma {:induction false} LogStays(p: Params, start: Target, given: nat, envs: seq<Env>, w: seq<Byte>,
                                    log: seq<Transfer>, s: Target, b: Books, w': seq<Byte>)
    requires IsLog(p, start, given, envs, w, log, s, b) && w <= w'
    ensures IsLog(p, start, given, envs, w', log, s, b)
    decreases |log|
  {
    hide Scans, Leaves, Offers, Pow2;
    if log != [] {
      var n := |log| - 1;
      ScansStill(p, log[n], w, w');
      LogStays(p, start, given, envs, w, log[..n], log[n].before, log[n].books, w');
    }
  }

  lemma OverrunsGrow(log: seq<Transfer>, t: Transfer)
    ensures NoneOverran(log + [t]) <==> NoneOverran(log) && !Overran(t)
  {
    hide Overran;
    var more, n := log + [t], |log|;
    assert more[n] == t;
    forall i | 0 <= i < n ensures more[i] == log[i] {}
    if NoneOverran(more) {
      forall i | 0 <= i < n ensures !Overran(log[i]) { assert !Overran(more[i]); }
    }
  }

  lemma DeliveredHasNoSurplus(host: Host, s: Target)
    requires host.Valid() && Delivered(host, s)
    ensures Surplus(host, s) == 0
  {
  }

  /** What a run of transfers leaves: everything is delivered if no response overran, otherwise words are
      on the target's side only. */
  ghost predicate Outcome(host: Host, s: Target, clean: bool)
    requires host.Valid()
    reads host, host.writeBuf, host.readBuf, host.writeBuf.Repr(), host.readBuf.Repr()
  {
    if clean then Delivered(host, s) else Surplus(host, s) > 0
  }

  /** The next transfer, from the target `s` and the books `b`, is one whose reply does not come in steadily. */
  ghost predicate BreaksOff(p: Params, s: Target, e: Env, given: nat, w: seq<Byte>, b: Books) {
    exists t: Transfer :: Requested(p, t, w) && t.before == s && t.env == e && t.books == b
                          && Offers(t, given) && !SteadyScan(p, s, e, t.req)
  }

  /** The loop of poll_thread, |envs| rounds of it. */
  method PollLoop(host: Host, p: Params, start: Target, envs: seq<Env>, first: array<Byte>)
    returns (steady: bool, s: Target, ghost log: seq<Transfer>)
    requires Linked(host, p, start) && forall i :: 0 <= i < |envs| ==> EnvOk(p, envs[i])
    requires Delivered(host, start) && BooksOn(host) == Books(0, Pow2(p.numWords), 0)
    requires host.targetBufferSize == Pow2(p.numWords)
    requires first !in host.writeBuf.Repr() && first !in host.readBuf.Repr() && first.Length > 0
    modifies host`wantedWords, first, host.writeBuf.Repr(), host.readBuf.Repr()
    ensures Linked(host, p, s)
    ensures IsLog(p, start, |old(host.writeBuf.written)|, envs, host.writeBuf.written, log, s, BooksOn(host))
    ensures steady ==> |log| == |envs|
    ensures !steady ==>
      && |log| < |envs|
      && BreaksOff(p, s, envs[|log|], |old(host.writeBuf.written)|, host.writeBuf.written, BooksOn(host))
    ensures Outcome(host, s, NoneOverran(log))
  {
    hide Delivered, NoneOverran, Ready, EnvOk, CopyFromWord, Surplus, Overran, Host.Valid, Host.Room;
    hide IsLog, Scans, Requested, Leaves, BreaksOff, SteadyScan, Offers, BooksOn, Pow2;
    var buf := first;
    steady, s, log := true, start, [];
    ghost var given := |host.writeBuf.written|;
    LogStarts(p, start, given, envs, host.writeBuf.written);
    for i := 0 to |envs|
      invariant steady && Linked(host, p, s)
      invariant buf !in host.writeBuf.Repr() && buf !in host.readBuf.Repr() && buf.Length > 0
      invariant buf == first || fresh(buf)
      invariant fresh(host.writeBuf.Repr() - old(host.writeBuf.Repr()))
      invariant host.readBuf.Repr() == old(host.readBuf.Repr())
      invariant |log| == i && IsLog(p, start, given, envs, host.writeBuf.written, log, s, BooksOn(host))
      invariant given <= |host.writeBuf.written|
      invariant Outcome(host, s, NoneOverran(log))
    {
      ghost var last, w, b := s, host.writeBuf.written, BooksOn(host);
      if NoneOverran(log) { DeliveredHasNoSurplus(host, s); }
      ghost var t;
      steady, s, buf, t := Round(host, p, s, envs[i], buf);
      OffersLess(t, |w|, given);
      if !steady {
        LogStays(p, start, given, envs, w, log, s, b, host.writeBuf.written);
        RoundBreaksOff(p, t, given, host.writeBuf.written);
        return;
      }
      LogGrows(p, start, given, envs, w, log, last, b, host.writeBuf.written, t, s, BooksOn(host));
      OverrunsGrow(log, t);
      log := log + [t];
    }
  }

  lemma LogStarts(p: Params, start: Target, given: nat, envs: seq<Env>, w: seq<Byte>)
    ensures IsLog(p, start, given, envs, w, [], start, Books(0, Pow2(p.numWords), 0)) && NoneOverran([])
    ensures OverrunsLackRoom([])
  {
  }

  lemma OffersLess(t: Transfer, given: nat, less: nat)
    requires Offers(t, given) && less <= given
    ensures Offers(t, less)
  {
  }

  lemma RoundBreaksOff(p: Params, t: Transfer, given: nat, w: seq<Byte>)
    requires Requested(p, t, w) && Offers(t, given) && !SteadyScan(p, t.before, t.env, t.req)
    ensures BreaksOff(p, t.before, t.env, given, w, t.books)
  {
    hide SteadyScan, Offers, Ok, EnvOk, Sends, SizesFor;
  }

  /** poll_thread, observed for |envs| rounds: discovery, then transfer after transfer. `log` is the account
      of the transfers: each is one scan of a request for the next bytes of the write buffer, with the sizes
      that the buffers and the wanted length give, from where the one before it left target and books.
      Everything is delivered exactly once if and only if no response overran, and no response overruns that
      finds room for as many words as are sent. Where a reply that does not come in steadily makes the run
      undefined, `steady` is false and the account ends before that transfer. */
  method PollThread(host: Host, p: Params, start: Target, first: Env, envs: seq<Env>)
    returns (steady: bool, s: Target, ghost log: seq<Transfer>)
    requires host.Valid() && host.writeBuf.consumed == 0 && host.readBuf.written == []
    requires p.w == 16 && p.numWords <= 30 && Ready(p, start)
    requires EnvOk(p, first) && forall i :: 0 <= i < |envs| ==> EnvOk(p, envs[i])
    modifies host`wantedWords, host`targetBufferSize, host.writeBuf.Repr(), host.readBuf.Repr()
    ensures host.Valid() && Ready(p, s) && InF.Conserved(s.inp) && Ok(p, start)
    ensures var learned := Opened(Scanned(p, start, first, DISCOVERY));
      if SteadyScan(p, start, first, DISCOVERY)
      then IsLog(p, learned, |old(host.writeBuf.written)|, envs, host.writeBuf.written, log, s, BooksOn(host))
      else !steady && log == [] && s == learned
    ensures steady ==> |log| == |envs|
    ensures !steady && SteadyScan(p, start, first, DISCOVERY) ==>
      && |log| < |envs|
      && BreaksOff(p, s, envs[|log|], |old(host.writeBuf.written)|, host.writeBuf.written, BooksOn(host))
    ensures Delivered(host, s) <==> NoneOverran(log)
    ensures OverrunsLackRoom(log)
  {
    hide Scanned, Answer, Ready, Ok, EnvOk, InF.Conserved, CopyFromWord, WordsOf, NoneOverran, OverrunsLackRoom;
    hide IsLog, SteadyScan, BreaksOff, Pow2;
    ghost var given := |host.writeBuf.written|;
    steady, s := Discover(host, p, start, first);
    log := [];
    LogStarts(p, s, given, envs, host.writeBuf.written);
    NothingIsDelivered(s, host.writeBuf.written);
    ghost var learned := s;
    if !steady { return; }
    host.wantedWords := host.targetBufferSize;
    var buf := new Byte[ToBytes(MAX_PAYLOAD_WORDS + 4)](_ => 0);
    steady, s, log := PollLoop(host, p, s, envs, buf);
    if Delivered(host, s) { DeliveredHasNoSurplus(host, s); }
    RoomRulesOutOverruns(p, learned, given, envs, host.writeBuf.written, log, s, BooksOn(host));
  }

  lemma NothingIsDelivered(s: Target, w: seq<Byte>)
    requires s.inp.pushed == [] && s.out.popped == []
    ensures DeliveredOf(s, w, 0, [])
  {
  }
}
