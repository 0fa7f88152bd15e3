/** Host and target together: one DR scan carries a request to the three state machines and their
    response back. The central promise of the backend is that every word is delivered exactly once. */
module JtagLink {
  import opened Bits
  import opened JtagWords
  import opened JtagBytes
  import opened JtagHost
  import opened JtagTarget
  import InF = JtagInputFrame
  import OutF = JtagOutputFrame
  import In = JtagInputFsm
  import Out = JtagOutputFsm
  import Conf = JtagConfigFsm

  /** What surrounds a scan and what happens at the target meanwhile, clock by clock: any number of
      idle clocks before and after the shift, the drains of the input fifo, the arrivals at the output
      fifo. The bits on TDI come from the request. OpenOCD prints its reply with digits of either case, and
      `arrivals` says in what pieces it comes in. */
  datatype Env = Env(before: seq<Tick>, capture: Tick, shift: (nat, nat) -> Tick, after: seq<Tick>, update: Tick,
                     upper: bool, arrivals: nat -> nat)

  ghost predicate EnvOk(p: Params, e: Env) {
    && TicksOk(p, e.before) && TickOk(p, e.capture) && TicksOk(p, e.after) && TickOk(p, e.update)
    && (forall i, j :: TickOk(p, e.shift(i, j)))
  }

  /** How many words the output fifo holds at the first clock of the shift, and how many come in with the
      clocks of the shift. */
  function Waiting(s: Target, e: Env): nat { |s.out.q| + |Arrivals(e.before)| + |e.capture.arrived| }

  function Coming(e: Env): OutF.Counts { (i: nat, j: nat) => |e.shift(i, j).arrived| }

  /** The output fifo supplies all of `rd` wanted words. */
  ghost predicate Supplied(s: Target, e: Env, rd: nat) {
    forall k :: 0 <= k < rd ==> OutF.Finds(16, Waiting(s, e), Coming(e), k)
  }

  // ---- A scan ----

  function Waits(p: Params, s: Target, ts: seq<Tick>): (u: Target)
    requires Ok(p, s) && TicksOk(p, ts)
    ensures Ok(p, u)
    decreases |ts|
  {
    if ts == [] then s else Waits(p, Around(p, s, false, false, ts[0]), ts[1..])
  }

  /** The clocks of the shift: word `i`, bit `j`, least significant bit first. */
  function Clocked(e: Env, words: seq<Word>): (groups: seq<seq<Tick>>)
    ensures |groups| == |words|
  {
    seq(|words|, i requires 0 <= i < |words| => WordClocks(e, i, words[i]))
  }

  function WordClocks(e: Env, i: nat, word: Word): (ts: seq<Tick>)
    ensures |ts| == |word|
  {
    seq(|word|, j requires 0 <= j < |word| => e.shift(i, j).(tdi := word[j]))
  }

  lemma ClockedSpellsWords(p: Params, e: Env, words: seq<Word>)
    requires EnvOk(p, e) && p.w == 16 && WordsOk(words)
    ensures FrameOk(p, Clocked(e, words)) && TdiWords(Clocked(e, words)) == words
    ensures forall i :: 0 <= i < |words| ==> TdiBits(Clocked(e, words)[i]) == words[i]
  {
    forall i | 0 <= i < |words|
      ensures TicksOk(p, Clocked(e, words)[i]) && TdiBits(Clocked(e, words)[i]) == words[i]
    {
      WordClocked(p, e, i, words[i]);
    }
  }

  lemma WordClocked(p: Params, e: Env, i: nat, word: Word)
    requires EnvOk(p, e)
    ensures TicksOk(p, WordClocks(e, i, word)) && TdiBits(WordClocks(e, i, word)) == word
  {
  }

  lemma ClocksCounted(e: Env, words: seq<Word>)
    ensures Counted(Clocked(e, words), Coming(e))
  {
  }

  function Begun(p: Params, s: Target, e: Env): (u: Target)
    requires Ok(p, s) && EnvOk(p, e)
    ensures Ok(p, u)
  {
    Around(p, Waits(p, s, e.before), true, false, e.capture)
  }

  function Ended(p: Params, s: Target, e: Env): (u: Target)
    requires Ok(p, s) && EnvOk(p, e)
    ensures Ok(p, u)
  {
    Around(p, Waits(p, s, e.after), false, true, e.update)
  }

  /** The target after a scan of the bytes `req`, and the bytes that come back. */
  function Scanned(p: Params, s: Target, e: Env, req: seq<Byte>): (u: Target)
    requires Ok(p, s) && EnvOk(p, e) && p.w == 16 && |req| % 2 == 0
    ensures Ok(p, u)
  {
    ClockedSpellsWords(p, e, WordsOf(req));
    Ended(p, Frame(p, Begun(p, s, e), Clocked(e, WordsOf(req))), e)
  }

  function Answer(p: Params, s: Target, e: Env, req: seq<Byte>): (resp: seq<Byte>)
    requires Ok(p, s) && EnvOk(p, e) && p.w == 16 && |req| % 2 == 0
    ensures |resp| == |req|
  {
    ClockedSpellsWords(p, e, WordsOf(req));
    TdoWordSizes(p, Begun(p, s, e), Clocked(e, WordsOf(req)));
    BytesOf(TdoWords(p, Begun(p, s, e), Clocked(e, WordsOf(req))))
  }

  lemma {:induction false} TdoWordSizes(p: Params, s: Target, groups: seq<seq<Tick>>)
    requires Ok(p, s) && FrameOk(p, groups) && p.w == 16
    ensures WordsOk(TdoWords(p, s, groups))
    decreases |groups|
  {
    if groups != [] { TdoWordSizes(p, Run(p, s, groups[0]), groups[1..]); }
  }

  lemma {:induction false} ReadyWaits(p: Params, s: Target, ts: seq<Tick>)
    requires Ready(p, s) && TicksOk(p, ts)
    ensures Ready(p, Waits(p, s, ts)) && Settles(s, Waits(p, s, ts))
    ensures |Waits(p, s, ts).out.q| == |s.out.q| + |Arrivals(ts)|
    decreases |ts|
  {
    hide Around, TickOk, Ok, Ready;
    if ts != [] {
      ReadyIsOk(p, s);
      IdleKeepsReady(p, s, ts[0]);
      ReadyWaits(p, Around(p, s, false, false, ts[0]), ts[1..]);
    }
  }

  lemma {:induction false} FinishedWaits(p: Params, s: Target, ts: seq<Tick>)
    requires Finished(p, s) && TicksOk(p, ts)
    ensures Finished(p, Waits(p, s, ts)) && Settles(s, Waits(p, s, ts))
    decreases |ts|
  {
    hide Around, TickOk, Ok;
    if ts != [] {
      ExitKeepsFinished(p, s, ts[0]);
      FinishedWaits(p, Around(p, s, false, false, ts[0]), ts[1..]);
    }
  }

  lemma BeginStarts(p: Params, s: Target, e: Env)
    requires Ready(p, s) && EnvOk(p, e)
    ensures Started(p, Begun(p, s, e)) && Settles(s, Begun(p, s, e)) && |Begun(p, s, e).out.q| == Waiting(s, e)
  {
    hide Around, TickOk, Ok, Waits;
    ReadyWaits(p, s, e.before);
    CaptureStarts(p, Waits(p, s, e.before), e.capture);
  }

  lemma EndMakesReady(p: Params, s: Target, e: Env)
    requires Finished(p, s) && EnvOk(p, e)
    ensures Ready(p, Ended(p, s, e)) && Settles(s, Ended(p, s, e))
  {
    hide Around, TickOk, Ok, Waits;
    FinishedWaits(p, s, e.after);
    UpdateMakesReady(p, Waits(p, s, e.after), e.update);
  }

  // ---- The request as words ----

  predicate Sizes(wr: nat, rd: nat, data: seq<Byte>) { |data| == ToBytes(wr) && wr < 0xFFFF && rd < 0x1_0000 }

  lemma RequestWords(wr: nat, rd: nat, data: seq<Byte>)
    requires Sizes(wr, rd, data)
    ensures var words := WordsOf(RequestBytes(wr, rd, data));
      |words| == Max(wr, rd) + 4 && Val(words[0]) == wr && Val(words[1]) == rd && !AllOnes(words[0])
  {
    hide RequestBytes, WordsOf, Val, AllOnes;
    var req := RequestBytes(wr, rd, data);
    RequestHead(wr, rd, data);
    WordValue(req, 0);
    WordValue(req, 1);
    NotAllOnes(WordsOf(req)[0]);
  }

  lemma RequestHead(wr: nat, rd: nat, data: seq<Byte>)
    requires Sizes(wr, rd, data)
    ensures CopyFromWord(RequestBytes(wr, rd, data), 0) == wr && CopyFromWord(RequestBytes(wr, rd, data), 2) == rd
  {
    SplitsAndJoins(wr);
    SplitsAndJoins(rd);
  }

  lemma SplitsAndJoins(value: nat)
    requires value < 0x1_0000
    ensures CopyFromWord(CopyToWord(value), 0) == value
  {
  }

  lemma RequestData(wr: nat, rd: nat, data: seq<Byte>)
    requires Sizes(wr, rd, data)
    ensures WordsOf(RequestBytes(wr, rd, data))[2..][..wr] == WordsOf(data)
  {
    var req := RequestBytes(wr, rd, data);
    forall i | 0 <= i < wr ensures CopyFromWord(req, 2 * (i + 2)) == CopyFromWord(data, 2 * i) {
      assert req[2 * (i + 2)] == data[2 * i] && req[2 * (i + 2) + 1] == data[2 * i + 1];
    }
  }

  /** The rest of the payload and the tail are zeros. */
  lemma RequestRest(wr: nat, rd: nat, data: seq<Byte>, i: nat)
    requires Sizes(wr, rd, data) && wr + 2 <= i < Max(wr, rd) + 4
    ensures |WordsOf(RequestBytes(wr, rd, data))| == Max(wr, rd) + 4
    ensures WordsOf(RequestBytes(wr, rd, data))[i] == Zeros(16)
  {
    var req := RequestBytes(wr, rd, data);
    assert req[2 * i] == 0 && req[2 * i + 1] == 0;
    WordValue(req, i);
    hide WordsOf, RequestBytes;
    ZeroIsZeros(WordsOf(req)[i]);
  }

  lemma {:induction false} ZeroIsZeros(b: Word)
    requires Val(b) == 0
    ensures b == Zeros(|b|)
  {
    hide Val;
    if i :| 0 <= i < |b| && b[i] {
      assert AnyOne(b);
      AnyOneIsPositive(b);
    }
  }

  /** Between `s` and `u` the target accepted the first `n` words of `data`, at least as many as it had
      room for, and gave away `taken`, no fewer than were waiting; `answer` reports that. */
  ghost predicate Transacted(p: Params, s: Target, u: Target, answer: seq<Word>,
                             wr: nat, rd: nat, data: seq<Byte>, n: nat, taken: seq<Word>)
    requires |data| == ToBytes(wr)
  {
    && Min(wr, p.numWords - |s.inp.fifo|) <= n <= wr && Min(rd, |s.out.q|) <= |taken| <= rd
    && u.inp.pushed == s.inp.pushed + WordsOf(data)[..n]
    && u.out.popped == s.out.popped + taken
    && (InF.Conserved(s.inp) ==> InF.Conserved(u.inp))
    && answer == Response(16, taken, n, Max(wr, rd), rd)
  }

  lemma ShiftIsTransaction(p: Params, v: Target, e: Env, wr: nat, rd: nat, data: seq<Byte>)
    returns (n: nat, taken: seq<Word>)
    requires p.w == 16 && Started(p, v) && EnvOk(p, e) && Sizes(wr, rd, data)
    requires FrameOk(p, Clocked(e, WordsOf(RequestBytes(wr, rd, data))))
    ensures OutF.Supplies(16, |v.out.q|, Coming(e), rd, |taken|)
    ensures var groups := Clocked(e, WordsOf(RequestBytes(wr, rd, data))); var u := Frame(p, v, groups);
      && |groups| == Max(wr, rd) + 4 && AcceptsFirst(p, v, groups, wr, n)
      && Finished(p, u) && Transacted(p, v, u, TdoWords(p, v, groups)[2..], wr, rd, data, n, taken)
  {
    hide Counted, AcceptsFirst, OutF.Supplies, Coming;
    hide Frame, TdiWords, TdoWords, Response, InF.Conserved, RequestBytes, WordsOf, Clocked;
    hide EnvOk, Ok, FrameOk, Finished, Request;
    var groups := Clocked(e, WordsOf(RequestBytes(wr, rd, data)));
    RequestWords(wr, rd, data);
    RequestData(wr, rd, data);
    RequestOnTheWire(p, e, WordsOf(RequestBytes(wr, rd, data)), wr, rd, data);
    ClocksCounted(e, WordsOf(RequestBytes(wr, rd, data)));
    n, taken := Transaction(p, v, groups, wr, rd, Coming(e));
    SameFront(TdiWords(groups[2..]), WordsOf(data), wr, n);
  }

  /** The clocks of a request are a request for the state machines. */
  lemma RequestOnTheWire(p: Params, e: Env, words: seq<Word>, wr: nat, rd: nat, data: seq<Byte>)
    requires p.w == 16 && EnvOk(p, e) && |data| == ToBytes(wr) && WordsOk(words) && |words| == Max(wr, rd) + 4
    requires Val(words[0]) == wr && Val(words[1]) == rd && !AllOnes(words[0]) && words[2..][..wr] == WordsOf(data)
    ensures Request(p, Clocked(e, words), wr, rd) && TdiWords(Clocked(e, words)[2..])[..wr] == WordsOf(data)
  {
    hide WordsOf, Val, AllOnes, Clocked, EnvOk, TdiBits;
    ClockedSpellsWords(p, e, words);
    SubWords(Clocked(e, words), words, wr, data);
  }

  lemma SameFront(a: seq<Word>, b: seq<Word>, m: nat, n: nat)
    requires n <= m <= |a| && a[..m] == b
    ensures a[..n] == b[..n]
  {
    assert a[..m][..n] == a[..n];
  }

  lemma ReadyIsOk(p: Params, s: Target)
    requires Ready(p, s)
    ensures Ok(p, s)
  {
  }

  /** A scan of a request is one transaction between two idle states. */
  lemma ScanIsTransaction(p: Params, s: Target, e: Env, wr: nat, rd: nat, data: seq<Byte>)
    returns (n: nat, taken: seq<Word>)
    requires p.w == 16 && Ready(p, s) && EnvOk(p, e) && Sizes(wr, rd, data)
    ensures OutF.Supplies(16, Waiting(s, e), Coming(e), rd, |taken|)
    ensures var req := RequestBytes(wr, rd, data); var u := Scanned(p, s, e, req);
      && |req| == ToBytes(Max(wr, rd) + 4)
      && FrameOk(p, Clocked(e, WordsOf(req))) && AcceptsFirst(p, Begun(p, s, e), Clocked(e, WordsOf(req)), wr, n)
      && Ready(p, u) && Transacted(p, s, u, WordsOf(Answer(p, s, e, req))[2..], wr, rd, data, n, taken)
  {
    hide AcceptsFirst, OutF.Supplies, Coming, Waiting;
    hide Frame, TdoWords, Response, InF.Conserved, RequestBytes, WordsOf, Clocked, EnvOk, Begun, Ended, Ok, FrameOk;
    hide Ready, Finished, Started, Scanned, Answer;
    var req := RequestBytes(wr, rd, data);
    ReadyIsOk(p, s);
    ScanParts(p, s, e, req);
    BeginStarts(p, s, e);
    n, taken := ShiftIsTransaction(p, Begun(p, s, e), e, wr, rd, data);
    EndMakesReady(p, Frame(p, Begun(p, s, e), Clocked(e, WordsOf(req))), e);
  }

  lemma ScanParts(p: Params, s: Target, e: Env, req: seq<Byte>)
    requires Ok(p, s) && EnvOk(p, e) && p.w == 16 && |req| % 2 == 0
    ensures var v, groups := Begun(p, s, e), Clocked(e, WordsOf(req));
      && FrameOk(p, groups) && Scanned(p, s, e, req) == Ended(p, Frame(p, v, groups), e)
      && WordsOf(Answer(p, s, e, req)) == TdoWords(p, v, groups)
  {
    hide Frame, TdoWords, WordsOf, Clocked, EnvOk, BytesOf, Begun, Ended, Ok;
    ClockedSpellsWords(p, e, WordsOf(req));
    TdoWordSizes(p, Begun(p, s, e), Clocked(e, WordsOf(req)));
    WordsOfBytesOf(TdoWords(p, Begun(p, s, e), Clocked(e, WordsOf(req))));
  }

  lemma SubWords(groups: seq<seq<Tick>>, words: seq<Word>, wr: nat, data: seq<Byte>)
    requires TdiWords(groups) == words && |words| >= wr + 2 && |data| == ToBytes(wr)
    requires words[2..][..wr] == WordsOf(data)
    ensures TdiWords(groups[2..])[..wr] == WordsOf(data)
  {
    forall i | 0 <= i < wr ensures TdiWords(groups[2..])[i] == WordsOf(data)[i] {
      assert words[2..][..wr][i] == words[i + 2] == TdiBits(groups[i + 2]);
    }
  }

  // ---- What the host makes of the response ----

  lemma ResponseTail(taken: seq<Word>, n: nat, m: nat, rd: nat)
    requires |taken| <= rd <= m
    ensures var r := Response(16, taken, n, m, rd);
      && r[..|taken|] == taken
      && (OutF.Overruns(rd, m, |taken|) ==> r[m] == Zeros(16) && r[m + 1] == ToBits(n, 16))
      && (!OutF.Overruns(rd, m, |taken|) ==> r[m] == ToBits(n, 16) && r[m + 1] == ToBits(|taken|, 16))
  {
    hide ToBits;
  }

  lemma CountIs(resp: seq<Byte>, i: nat, n: nat)
    requires |resp| % 2 == 0 && i < |resp| / 2 && n < 0x1_0000 && WordsOf(resp)[i] == ToBits(n, 16)
    ensures CopyFromWord(resp, 2 * i) == n
  {
    hide WordsOf, ToBits, Val, Pow2;
    WordPower();
    WordValue(resp, i);
    ValOfToBits(n, 16);
  }

  /** The counts the host finds: swapped for a zero and the write count if the response overruns. */
  lemma CountsRead(resp: seq<Byte>, taken: seq<Word>, n: nat, m: nat, rd: nat)
    requires |taken| <= rd <= m < 0x1_0000 && n <= m && |resp| == ToBytes(m + 4)
    requires WordsOf(resp)[2..] == Response(16, taken, n, m, rd)
    ensures Readable(resp)
    ensures OutF.Overruns(rd, m, |taken|) ==> Acked(resp) == 0 && ReadCount(resp) == n
    ensures !OutF.Overruns(rd, m, |taken|) ==> Acked(resp) == n && ReadCount(resp) == |taken|
  {
    hide WordsOf, ToBits, Response, OutF.Overruns;
    ResponseTail(taken, n, m, rd);
    ZerosAreZero(16);
    var words := WordsOf(resp);
    assert words[m + 2] == words[2..][m] && words[m + 3] == words[2..][m + 1];
    if OutF.Overruns(rd, m, |taken|) {
      CountIs(resp, m + 2, 0);
      CountIs(resp, m + 3, n);
    } else {
      CountIs(resp, m + 2, n);
      CountIs(resp, m + 3, |taken|);
    }
  }

  lemma PayloadRead(resp: seq<Byte>, taken: seq<Word>, n: nat, m: nat, rd: nat)
    requires |taken| <= rd <= m < 0x1_0000 && |resp| == ToBytes(m + 4)
    requires WordsOf(resp)[2..] == Response(16, taken, n, m, rd)
    requires Readable(resp) && ReadCount(resp) == |taken|
    ensures WordsOf(Payload(resp)) == taken
  {
    hide ToBits, Response, WordsOf, CopyFromWord;
    ResponseTail(taken, n, m, rd);
    forall i | 0 <= i < |taken| ensures WordsOf(Payload(resp))[i] == taken[i] {
      assert WordsOf(resp)[2..][i] == WordsOf(resp)[i + 2];
      SameWord(Payload(resp), i, resp, i + 2);
    }
  }

  lemma SameWord(a: seq<Byte>, i: nat, b: seq<Byte>, j: nat)
    requires |a| % 2 == 0 == |b| % 2 && 2 * i < |a| && 2 * j < |b|
    requires a[2 * i] == b[2 * j] && a[2 * i + 1] == b[2 * j + 1]
    ensures WordsOf(a)[i] == WordsOf(b)[j]
  {
    hide ToBits;
  }

  // ---- Exactly once ----

  /** After a transfer the host's books agree with what happened: the bytes it discards from its write
      buffer are those the target accepted, the bytes it adds to its read buffer those the target gave
      away. `u` and `resp` are the target and the response after sending `data` to `s`. */
  ghost predicate BooksAgree(s: Target, u: Target, data: seq<Byte>, resp: seq<Byte>)
    requires Readable(resp)
  {
    && ToBytes(Acked(resp)) <= |data|
    && u.inp.pushed == s.inp.pushed + WordsOf(data[..ToBytes(Acked(resp))])
    && u.out.popped == s.out.popped + WordsOf(Payload(resp))
  }

  lemma WordsOfPrefix(bytes: seq<Byte>, n: nat)
    requires |bytes| % 2 == 0 && ToBytes(n) <= |bytes|
    ensures WordsOf(bytes)[..n] == WordsOf(bytes[..ToBytes(n)])
  {
  }

  /** Whether a transfer delivers every word exactly once: always, except when fewer words are wanted
      than sent and the target's fifo, with what the logic adds to it meanwhile, supplies all of those
      that are wanted. Then the host takes the accepted words for unsent, and takes their number for the
      number of words it received. */
  lemma ExactlyOnce(p: Params, s: Target, e: Env, wr: nat, rd: nat, data: seq<Byte>)
    requires p.w == 16 && Ready(p, s) && EnvOk(p, e) && Sizes(wr, rd, data)
    ensures var req := RequestBytes(wr, rd, data); var u := Scanned(p, s, e, req); var resp := Answer(p, s, e, req);
      && Ready(p, u) && Readable(resp) && (InF.Conserved(s.inp) ==> InF.Conserved(u.inp))
      && |u.out.popped| - |s.out.popped| <= rd
      && (|u.out.popped| - |s.out.popped| == rd <==> Supplied(s, e, rd))
      && (BooksAgree(s, u, data, resp) <==> !(0 < rd < wr && Supplied(s, e, rd)))
      && (0 < rd < wr && rd <= |s.out.q| ==> !BooksAgree(s, u, data, resp))
      && (!BooksAgree(s, u, data, resp) ==>
            Acked(resp) == 0 && ReadCount(resp) == |u.inp.pushed| - |s.inp.pushed|)
      && ReadCount(resp) <= Max(wr, rd) && (BooksAgree(s, u, data, resp) ==> ReadCount(resp) <= rd)
  {
    hide Scanned, Answer, RequestBytes, Ready, EnvOk, Ok, WordsOf, CopyFromWord, BooksAgree, Transacted, InF.Conserved;
    hide AcceptsFirst, FrameOk, Begun, Clocked, OutF.Supplies, OutF.Finds, Waiting, Coming;
    ReadyIsOk(p, s);
    var req := RequestBytes(wr, rd, data);
    var n, taken := ScanIsTransaction(p, s, e, wr, rd, data);
    OutF.SuppliesAll(16, Waiting(s, e), Coming(e), rd, |taken|);
    BooksOf(p, s, Scanned(p, s, e, req), Answer(p, s, e, req), wr, rd, data, n, taken);
  }

  lemma BooksOf(p: Params, s: Target, u: Target, resp: seq<Byte>,
                wr: nat, rd: nat, data: seq<Byte>, n: nat, taken: seq<Word>)
    requires Sizes(wr, rd, data) && |resp| == ToBytes(Max(wr, rd) + 4)
    requires Transacted(p, s, u, WordsOf(resp)[2..], wr, rd, data, n, taken)
    ensures Readable(resp) && ReadCount(resp) <= Max(wr, rd)
    ensures |u.out.popped| - |s.out.popped| == |taken| && Min(rd, |s.out.q|) <= |taken| <= rd
    ensures InF.Conserved(s.inp) ==> InF.Conserved(u.inp)
    ensures BooksAgree(s, u, data, resp) <==> !OutF.Overruns(rd, Max(wr, rd), |taken|)
    ensures BooksAgree(s, u, data, resp) ==> ReadCount(resp) <= rd
    ensures !BooksAgree(s, u, data, resp) ==> Acked(resp) == 0 && ReadCount(resp) == |u.inp.pushed| - |s.inp.pushed|
  {
    hide Response, CopyFromWord, InF.Conserved, WordsOf;
    var m := Max(wr, rd);
    CountsRead(resp, taken, n, m, rd);
    // After an overrun the host acknowledges nothing and takes as many words as the target accepted. That
    // agrees with what happened only if none were accepted and none taken, but rd > 0 were taken.
    if !OutF.Overruns(rd, m, |taken|) {
      PayloadRead(resp, taken, n, m, rd);
      WordsOfPrefix(data, n);
    }
  }

  /** The exception is real: a target with one word waiting, and a transfer that sends two words and
      wants one. */
  lemma OverrunHappens() returns (p: Params, s: Target, e: Env, data: seq<Byte>)
    ensures p.w == 16 && Ready(p, s) && EnvOk(p, e) && Sizes(2, 1, data) && InF.Conserved(s.inp)
    ensures var resp := Answer(p, s, e, RequestBytes(2, 1, data));
      Readable(resp) && !BooksAgree(s, Scanned(p, s, e, RequestBytes(2, 1, data)), data, resp)
  {
    hide Scanned, Answer, RequestBytes, WordsOf, CopyFromWord, BooksAgree;
    p := Params(16, 1);
    s := OneWordWaiting();
    var t := Tick(false, false, [], Zeros(16));
    e := Env([], t, (i, j) => t, [], t, false, k => 0);
    data := [1, 2, 3, 4];
    ExactlyOnce(p, s, e, 2, 1, data);
  }

  lemma OneWordWaiting() returns (s: Target)
    ensures Ready(Params(16, 1), s) && |s.out.q| == 1 && InF.Conserved(s.inp)
  {
    s := Target(InF.InSys(In.InReg(In.DropPacket, false, false, 0, Zeros(16), 0, Zeros(16)), [], [], []),
                OutF.OutSys(Out.Cleared(16), [Zeros(16)], []), Conf.Cleared(16));
    WordPower();
  }
}
