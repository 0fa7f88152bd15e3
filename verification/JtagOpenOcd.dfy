/** jtag_drscan as a whole: the request as a command, OpenOCD and the target behind it, the response
    as text. The text layer is transparent for replies that come in steadily: what comes back is what a
    scan of the request returns. */
module JtagOpenOcd {
  import opened Bits
  import opened JtagWords
  import opened JtagBytes
  import opened JtagHost
  import opened JtagDrscan
  import opened JtagTarget
  import opened JtagLink
  import opened JtagReceive

  /** The target sees the bits of a shift in groups of one word. */
  function Chop(bits: Word): (words: seq<Word>)
    requires |bits| % 16 == 0
    ensures |words| == |bits| / 16 && WordsOk(words)
  {
    if bits == [] then [] else [bits[..16]] + Chop(bits[16..])
  }

  lemma {:induction false} ChopOfFlat(words: seq<Word>)
    requires WordsOk(words)
    ensures |Flat(words)| == 16 * |words| && Chop(Flat(words)) == words
  {
    if words != [] {
      ChopOfFlat(words[1..]);
      assert Flat(words)[..16] == words[0] && Flat(words)[16..] == Flat(words[1..]);
    }
  }

  /** What OpenOCD shifts into the target for a command, as bytes. */
  function Shifted(command: string): (req: Option<seq<Byte>>)
    ensures req.Some? ==> |req.value| % 2 == 0
  {
    if !(OOCD_CMDSTART <= command) then None else
      var fields := ReadFields(command[|OOCD_CMDSTART|..]);
      if fields.None? || |ShiftBits(fields.value)| % 16 != 0 then None
      else Some(BytesOf(Chop(ShiftBits(fields.value))))
  }

  lemma CommandIsShifted(req: seq<Byte>)
    requires |req| % 2 == 0
    ensures Shifted(CommandText(req)) == Some(req)
  {
    hide CommandText, ReadFields, ShiftBits, Flat, WordsOf, BytesOf, Chop;
    CommandShiftsRequest(req);
    ChopOfFlat(WordsOf(req));
    BytesOfWordsOf(req);
  }

  /** Whether the reply to a scan comes in steadily: a matter of the target, of how OpenOCD prints, and of
      the pieces in which its reply comes in. */
  ghost predicate SteadyScan(p: Params, s: Target, e: Env, req: seq<Byte>)
    requires Ok(p, s) && EnvOk(p, e) && p.w == 16 && req != [] && |req| % 2 == 0
  {
    ComesSteadily(Reply(Answer(p, s, e, req), e.upper), e.arrivals)
  }

  /** OpenOCD: shifts what the command says and prints what comes back, in digits of either case. */
  method OpenOcd(p: Params, s: Target, e: Env, command: string) returns (u: Target, reply: string)
    requires Ok(p, s) && EnvOk(p, e) && p.w == 16
    requires Shifted(command).Some? && Shifted(command).value != []
    ensures var req := Shifted(command).value;
      u == Scanned(p, s, e, req) && reply == Reply(Answer(p, s, e, req), e.upper)
  {
    hide Shifted, Scanned, Answer, Reply, Ok, EnvOk;
    var req := Shifted(command).value;
    u := Scanned(p, s, e, req);
    reply := Reply(Answer(p, s, e, req), e.upper);
  }

  /** jtag_drscan: the response of a scan of the request, or, if and only if the reply does not come in
      steadily, a run that is not defined any more (`steady` is false). */
  method Drscan(p: Params, s: Target, e: Env, req: seq<Byte>)
    returns (steady: bool, rv: int, u: Target, resp: seq<Byte>)
    requires Ok(p, s) && EnvOk(p, e) && p.w == 16
    requires 0 < |req| <= ToBytes(BUFFER_SIZE / 2 + 4) && |req| % 2 == 0
    ensures u == Scanned(p, s, e, req) && (steady <==> SteadyScan(p, s, e, req))
    ensures steady ==> rv == 0 && resp == Answer(p, s, e, req)
  {
    hide Shifted, Scanned, Answer, Reply, Ok, EnvOk, CommandText, WellFormed, DecodeReply, ComesSteadily;
    var command := DrscanWrite(req);
    CommandIsShifted(req);
    var text;
    u, text := OpenOcd(p, s, e, command);
    ReplyRoundTrip(Answer(p, s, e, req), e.upper);
    steady, rv, resp := DrscanRead(text, |req|, e.arrivals);
  }
}
