/** The communication thread of the host as code: reset(), parse_buffer, update_credit and the loop
    of thread_func. Every statement that touches shared state is one step of the system, and user
    and logic run between any two of them. */
module UartHost {
  import opened Bits
  import opened UartWire
  import opened UartSystem

  predicate IsOthers(a: Action) {
    a.UserReads? || a.UserWrites? || a.LogicSends? || a.LogicGrants? || a.LogicReceives?
  }

  /** What the host may rely on while user and logic run. */
  ghost predicate OthersRan(s: Sys, t: Sys) {
    && t.pc == s.pc && t.credit == s.credit && t.debt == s.debt && t.rounds == s.rounds
    && t.parsed == s.parsed && t.done == s.done
    && |t.input| <= |s.input| && s.toHost <= t.toHost && s.output <= t.output
    && t.Emitted() == s.Emitted() && t.Stored() == s.Stored()
  }

  lemma OtherRuns(s: Sys, a: Action)
    requires Inv(s) && Enabled(s, a) && IsOthers(a)
    ensures OthersRan(s, Step(s, a))
  {
    hide Inv, DownBytes;
    if a.LogicReceives? { EmittedByReceiving(s); }
    if a.UserReads? { assert s.input[..a.n] + s.input[a.n..] == s.input; }
  }

  /** What holds while the thread reads or grants: it puts no data on the wire and takes none out of the
      output buffer, and `debt` only grows. */
  ghost predicate NothingSent(s: Sys, t: Sys) {
    t.Emitted() == s.Emitted() && s.output <= t.output && s.debt <= t.debt
  }

  /** What a round sends at least: of the output buffer it found, as much as debt and scratch buffer allowed. */
  ghost predicate ShareSent(s: Sys, t: Sys) {
    s.Emitted().data + s.output[..Min(|s.output|, Min(s.debt, TMP_BUFFER_SIZE))] <= t.Emitted().data
  }

  lemma ShareIsSent(s: Sys, u: Sys, t: Sys)
    requires u.Emitted().data == s.Emitted().data && s.output <= u.output && s.debt <= u.debt
    requires t.Emitted().data == u.Emitted().data + u.output[..Min(|u.output|, Min(u.debt, TMP_BUFFER_SIZE))]
    ensures ShareSent(s, t)
  {
    hide Sys.Emitted;
  }

  lemma ShareStaysSent(s: Sys, u: Sys, t: Sys)
    requires ShareSent(s, u) && t.Emitted() == u.Emitted()
    ensures ShareSent(s, t)
  {
    hide Sys.Emitted;
  }

  /** How much is read in a round, when the device hands over `arrived` bytes, as far as they are there: no
      less than what there was room for at its beginning, with a full buffer one message if anything; no
      more than that many and the rest of a message. */
  ghost predicate ReadShare(s: Sys, t: Sys, arrived: nat) {
    var here := Min(arrived, |s.toHost|);
    && |s.parsed| + (if s.Free() <= 0 then Min(here, 1) else Min(Min(s.Free(), TMP_BUFFER_SIZE), here)) <= |t.parsed|
    && |t.parsed| <= |s.parsed| + if arrived == 0 then 0 else Min(arrived, TMP_BUFFER_SIZE) + 2
  }

  lemma ReadShareOfLater(s: Sys, u: Sys, t: Sys, arrived: nat)
    requires |u.input| <= |s.input| && s.toHost <= u.toHost && u.parsed == s.parsed && ReadShare(u, t, arrived)
    ensures ReadShare(s, t, arrived)
  {
  }

  /** The levels of the reset that requests in some rounds put on the wire. */
  function LevelsFor(resets: seq<bool>): seq<bool> {
    if resets == [] then [] else
      var n := |resets| - 1;
      LevelsFor(resets[..n]) + if resets[n] then [true, false] else []
  }

  /** What a whole round does between two heads of the loop. */
  ghost predicate RoundDone(s: Sys, t: Sys, resetRequest: bool, arrived: nat) {
    && s.pc.Top? && t.pc.Top? && t.rounds == s.rounds + 1
    && t.Emitted().resets == s.Emitted().resets + LevelsFor([resetRequest])
    && ReadShare(s, t, arrived) && ShareSent(s, t)
  }

  lemma LevelsForOne(resets: seq<bool>, i: nat)
    requires i < |resets|
    ensures LevelsFor(resets[..i]) + LevelsFor([resets[i]]) == LevelsFor(resets[..i + 1])
  {
    assert resets[..i + 1][..i] == resets[..i] && [resets[i]][..0] == [];
    assert [] + LevelsFor([resets[i]]) == LevelsFor([resets[i]]);
  }

  lemma LevelsForSingle(request: bool)
    ensures LevelsFor([request]) == if request then [true, false] else []
  {
    assert [request][..0] == [];
  }

  lemma LevelsForNone(levels: seq<bool>)
    ensures levels + LevelsFor([]) == levels
  {
  }

  lemma ReadShareStays(s: Sys, u: Sys, t: Sys, arrived: nat)
    requires ReadShare(s, u, arrived) && t.parsed == u.parsed
    ensures ReadShare(s, t, arrived)
  {
  }

  /** User and logic may run before a round. */
  lemma RoundFromHead(s: Sys, u: Sys, t: Sys, resetRequest: bool, arrived: nat)
    requires OthersRan(s, u) && RoundDone(u, t, resetRequest, arrived)
    ensures RoundDone(s, t, resetRequest, arrived) && t.pc.Top?
  {
    hide Sys.Emitted, LevelsFor;
    ReadShareOfLater(s, u, t, arrived);
  }

  lemma CreditFits(s: Sys)
    requires WithinCredit(s)
    ensures s.credit <= UART_BUF_SIZE - |s.input|
  {
    hide UpBytes, DownBytes;
  }

  /** The user has not read: what was stored since `s` fills the input buffer but for one byte. */
  ghost predicate UserIsSlow(s: Sys, t: Sys) { |t.Stored()| >= |s.userRead| + UART_BUF_SIZE - 1 }

  lemma SlowSince(firstCredit: nat, trace: seq<Action>, s: Sys, later: seq<Action>, u: Sys, t: Sys)
    requires Reached(firstCredit, trace, s) && Reached(firstCredit, later, u) && trace <= later && UserIsSlow(u, t)
    ensures UserIsSlow(s, t)
  {
    hide Inv, Reached, Sys.Stored, DownBytes, DownResets;
    LongerRunKeepsHistory(firstCredit, trace, s, later, u);
  }

  // ---- What one parse step does, case by case ----

  /** `t` follows `s` by parsing one message: `rest` remains of the chunk and `taken` further bytes
      came from the wire. */
  ghost predicate ParsedTo(s: Sys, t: Sys, rest: seq<Byte>, taken: nat) {
    && s.pc.Parsing? && |rest| <= |s.pc.chunk| && taken <= |s.toHost|
    && t.pc == Parsing(rest) && t.toHost == s.toHost[taken..]
    && t.parsed + rest == s.parsed + s.pc.chunk + s.toHost[..taken]
    && t.output == s.output && t.toLogic == s.toLogic && t.rounds == s.rounds
    && t.Emitted() == s.Emitted()
  }

  ghost predicate DataParsed(s: Sys, t: Sys, b: Byte) {
    && t.input == s.input + [b] && s.credit > 0 && |s.input| < UART_BUF_SIZE
    && t.credit == s.credit - 1 && t.debt == s.debt
  }

  ghost predicate CreditParsed(s: Sys, t: Sys, first: Byte, second: Byte) {
    t.input == s.input && t.credit == s.credit && t.debt == s.debt + DebtAmount(first, second)
  }

  lemma ParsePlainData(s: Sys)
    requires Inv(s) && s.pc.Parsing? && s.pc.chunk != [] && s.pc.chunk[0] != MARKER
    ensures Enabled(s, ParseMessage)
    ensures var t := Step(s, ParseMessage); ParsedTo(s, t, s.pc.chunk[1..], 0) && DataParsed(s, t, s.pc.chunk[0])
  {
    hide Inv;
  }

  lemma ParseDoubledMarker(s: Sys)
    requires Inv(s) && s.pc.Parsing? && |s.pc.chunk| >= 2 && s.pc.chunk[0] == s.pc.chunk[1] == MARKER
    ensures Enabled(s, ParseMessage)
    ensures var t := Step(s, ParseMessage); ParsedTo(s, t, s.pc.chunk[2..], 0) && DataParsed(s, t, MARKER)
  {
    hide Inv;
  }

  lemma ParseWholeCredit(s: Sys)
    requires Inv(s) && s.pc.Parsing? && |s.pc.chunk| >= 3 && s.pc.chunk[0] == MARKER != s.pc.chunk[1]
    ensures Enabled(s, ParseMessage)
    ensures var t := Step(s, ParseMessage);
      ParsedTo(s, t, s.pc.chunk[3..], 0) && CreditParsed(s, t, s.pc.chunk[1], s.pc.chunk[2])
  {
    hide Inv;
  }

  /** The chunk ends one byte before the end of a credit message: that byte is on the wire. */
  lemma ParseCreditCutLate(s: Sys)
    requires Inv(s) && s.pc.Parsing? && |s.pc.chunk| == 2 && s.pc.chunk[0] == MARKER != s.pc.chunk[1]
    ensures Enabled(s, ParseMessage) && |s.toHost| >= 1
    ensures var t := Step(s, ParseMessage);
      ParsedTo(s, t, [], 1) && CreditParsed(s, t, s.pc.chunk[1], s.toHost[0])
  {
    hide Inv, DebtAmount;
    AssertionsHold(s, ParseMessage);
    assert (s.pc.chunk + s.toHost)[2] == s.toHost[0];
    assert (s.pc.chunk + s.toHost)[..3] == s.pc.chunk + s.toHost[..1];
  }

  /** The chunk ends with a marker: one more byte of a doubled marker, or two of a credit message,
      are on the wire. */
  lemma ParseCutAtMarker(s: Sys)
    requires Inv(s) && s.pc == Parsing([MARKER]) && s.credit >= 2
    ensures Enabled(s, ParseMessage) && |s.toHost| >= 1
    ensures s.toHost[0] == MARKER ==>
      ParsedTo(s, Step(s, ParseMessage), [], 1) && DataParsed(s, Step(s, ParseMessage), MARKER)
    ensures s.toHost[0] != MARKER ==>
      && |s.toHost| >= 2
      && ParsedTo(s, Step(s, ParseMessage), [], 2)
      && CreditParsed(s, Step(s, ParseMessage), s.toHost[0], s.toHost[1])
  {
    hide Inv, DebtAmount;
    AssertionsHold(s, ParseMessage);
    var stream := [MARKER] + s.toHost;
    assert stream[1] == s.toHost[0];
    if s.toHost[0] == MARKER {
      assert stream[..2] == [MARKER] + s.toHost[..1];
    } else {
      assert stream[2] == s.toHost[1];
      assert stream[..3] == [MARKER] + s.toHost[..2];
    }
  }

  // ---- What the steps of update_credit do ----

  function CreditAction(caller: Caller): Action {
    if caller.FromMarkerWait? then WaitAtMarker else DecideCredit
  }

  /** The source calls update_credit after reset, below the tranche size, or waiting at a marker. */
  ghost predicate Calls(s: Sys, caller: Caller) {
    && MayCall(s, caller)
    && (caller.FromLoop? ==> s.credit < UART_MAX_TRANCHE)
    && (caller.FromMarkerWait? ==> s.credit < 2)
  }

  function After(caller: Caller): Pc {
    match caller case FromReset => ResetRead case FromLoop => Top case FromMarkerWait => Parsing([MARKER])
  }

  lemma UpdateCreditBegins(s: Sys, caller: Caller)
    requires Inv(s) && Calls(s, caller)
    ensures Enabled(s, CreditAction(caller)) && s.Tranche() >= 0
    ensures Step(s, CreditAction(caller)) == UpdateCredit(s, caller)
    ensures Step(s, CreditAction(caller)).Emitted() == s.Emitted()
  {
    hide Inv, UpHead, DownHead;
    var t := Step(s, CreditAction(caller));
  }

  lemma GrantIsSent(s: Sys)
    requires Inv(s) && s.pc.Granting?
    ensures Enabled(s, SendCredit) && Step(s, SendCredit) == SendCreditEffect(s)
    ensures SendCreditEffect(s).Emitted() == s.Emitted()
  {
    hide Inv;
    EmittedBySending(s, SendCreditEffect(s), DownCredit(s.pc.n));
    assert s.Emitted().data + [] == s.Emitted().data && s.Emitted().resets + [] == s.Emitted().resets;
  }

  lemma GrantIsCounted(s: Sys)
    requires Inv(s) && s.pc.Granted?
    ensures Enabled(s, CountCredit) && Step(s, CountCredit) == CountCreditEffect(s)
    ensures Step(s, CountCredit).Emitted() == s.Emitted()
  {
    hide Inv;
  }

  // ---- What the other steps of the thread do ----

  lemma RoomIsSeen(s: Sys)
    requires Inv(s) && s.pc.Top?
    ensures Enabled(s, LookAtRoom) && s.Free() >= 0
    ensures Step(s, LookAtRoom) == s.(pc := if s.Free() == 0 then FullRead else ChunkRead(s.Free()))
    ensures Step(s, LookAtRoom).Emitted() == s.Emitted()
  {
  }

  lemma NothingIsRead(s: Sys)
    requires Inv(s) && (s.pc.FullRead? || s.pc.ChunkRead?)
    ensures Enabled(s, ReadNothing) && Step(s, ReadNothing) == s.(pc := WritePart)
    ensures Step(s, ReadNothing).Emitted() == s.Emitted()
  {
    hide Inv;
  }

  lemma ParseIsDone(s: Sys)
    requires Inv(s) && s.pc == Parsing([])
    ensures Enabled(s, ParseDone) && Step(s, ParseDone) == s.(pc := WritePart)
    ensures Step(s, ParseDone).Emitted() == s.Emitted()
  {
    hide Inv;
  }

  lemma ChunkIsRead(s: Sys, n: nat)
    requires Inv(s) && s.pc.ChunkRead? && 0 < n <= Min(s.pc.avail, TMP_BUFFER_SIZE) && n <= |s.toHost|
    ensures Enabled(s, ReadChunk(n)) && Step(s, ReadChunk(n)) == ReadChunkEffect(s, n)
    ensures Step(s, ReadChunk(n)).Emitted() == s.Emitted()
  {
    hide Inv;
  }

  /** With a full buffer the wire holds a whole credit message before anything else. */
  lemma CreditIsRead(s: Sys)
    requires Inv(s) && s.pc.FullRead? && s.toHost != []
    ensures Enabled(s, ReadCredit) && |s.toHost| >= 3 && s.toHost[0] == MARKER
    ensures var t := Step(s, ReadCredit);
      && t.pc == WritePart && t.toHost == s.toHost[3..] && t.debt == s.debt + DebtAmount(s.toHost[1], s.toHost[2])
      && t.input == s.input && t.output == s.output && t.toLogic == s.toLogic && t.credit == s.credit
      && t.rounds == s.rounds && t.Emitted() == s.Emitted() && |t.parsed| == |s.parsed| + 3
  {
    hide Inv, DebtAmount;
    var t := Step(s, ReadCredit);
  }

  lemma FirstCreditIsRead(s: Sys)
    requires Inv(s) && s.pc.ResetRead?
    ensures Enabled(s, ReadFirstCredit) && |s.toHost| >= 3 && s.toHost[0] == MARKER
    ensures var t := Step(s, ReadFirstCredit);
      && t.pc == Top && t.toHost == s.toHost[3..] && t.debt == s.debt + DebtAmount(s.toHost[1], s.toHost[2])
      && t.input == s.input && t.output == s.output && t.toLogic == s.toLogic && t.credit == s.credit
      && t.rounds == s.rounds && t.Emitted() == s.Emitted() && |t.parsed| == |s.parsed| + 3
  {
    hide Inv, DebtAmount;
    var t := Step(s, ReadFirstCredit);
  }

  lemma OutputIsTaken(s: Sys)
    requires Inv(s) && s.pc.WritePart?
    ensures Enabled(s, TakeOutput) && Step(s, TakeOutput) == TakeOutputEffect(s)
    ensures Step(s, TakeOutput).Emitted() == s.Emitted()
  {
    hide Inv;
  }

  lemma ByteIsSent(s: Sys)
    requires Inv(s) && s.pc.Sending? && s.pc.left != []
    ensures Enabled(s, SendByte) && Step(s, SendByte) == SendByteEffect(s)
    ensures SendByteEffect(s).Emitted() == s.Emitted().(data := s.Emitted().data + [s.pc.left[0]])
  {
    hide Inv;
    EmittedBySending(s, SendByteEffect(s), DownData(s.pc.left[0]));
    assert s.Emitted().resets + [] == s.Emitted().resets;
  }

  lemma SendingIsDone(s: Sys)
    requires Inv(s) && s.pc.Sending? && s.pc.left == []
    ensures Enabled(s, SendDone) && s.pc.size <= s.debt && Step(s, SendDone) == SendDoneEffect(s)
    ensures Step(s, SendDone).Emitted() == s.Emitted()
  {
    hide Inv;
    var t := Step(s, SendDone);
  }

  /** The two messages of a logic reset, as messages and as bytes. */
  lemma ResetIsEmitted(s: Sys)
    requires Inv(s) && s.pc.Top?
    ensures Enabled(s, EmitLogicReset) && Step(s, EmitLogicReset) == EmitLogicResetEffect(s)
    ensures var t := EmitLogicResetEffect(s);
      && t.Emitted() == s.Emitted().(resets := s.Emitted().resets + [true, false])
      && t.toLogic == s.toLogic + [0xfe, 0x83, 0xfe, 0x81] && t.down == s.down + [LogicReset(true), LogicReset(false)]
  {
    hide Inv, DecodeUp, DecodeDown, DownBytes, DownResets;
    ResetBytes();
    StepEmits(s, EmitLogicReset);
    var t := EmitLogicResetEffect(s);
    assert s.Emitted().data + [] == s.Emitted().data;
    assert t.toLogic == s.toLogic + [0xfe, 0x83] + [0xfe, 0x81];
  }

  lemma NoGrantIsNeeded(s: Sys)
    requires Inv(s) && s.pc.CreditPart? && s.credit >= UART_MAX_TRANCHE
    ensures Enabled(s, DecideCredit) && Step(s, DecideCredit) == Return(s, FromLoop)
    ensures Step(s, DecideCredit).Emitted() == s.Emitted()
  {
    hide Inv;
  }

  lemma ChunkTail(b: seq<Byte>, i: nat, size: nat, k: nat)
    requires i + k <= size <= |b|
    ensures b[i..size][k..] == b[i + k..size]
  {
  }

  class Host {
    var credit: nat
    var debt: nat
    var inputBuffer: seq<Byte>
    var outputBuffer: seq<Byte>
    /** The device: bytes that can be read from it, bytes written to it. */
    var fromLogic: seq<Byte>
    var toLogic: seq<Byte>
    /** The whole system this host is part of, and the steps it has taken since the context was fresh: those
        of this host, in the order of its code, with those of user and logic in between. */
    var sys: Sys
    ghost const firstCredit: nat
    ghost var trace: seq<Action>

    ghost predicate Valid()
      reads this
    {
      && Reached(firstCredit, trace, sys) && Inv(sys) && credit == sys.credit && debt == sys.debt
      && inputBuffer == sys.input && outputBuffer == sys.output
      && fromLogic == sys.toHost && toLogic == sys.toLogic
    }

    /** A fresh context, with the buffers cleared and both sides reset. */
    constructor (firstCredit: nat)
      requires firstCredit <= 0x7fff
      ensures Valid() && sys == Start(firstCredit) && trace == []
    {
      this.firstCredit, trace := firstCredit, [];
      credit, debt, inputBuffer, outputBuffer := 0, 0, [], [];
      fromLogic, toLogic := EncodeUp(UpCredit(firstCredit)), [];
      sys := Start(firstCredit);
    }

    /** The host's next statement is this step of the system. */
    method Take(a: Action)
      requires Reached(firstCredit, trace, sys) && Inv(sys) && Enabled(sys, a)
      modifies `sys, `trace
      ensures Reached(firstCredit, trace, sys) && Inv(sys) && sys == Step(old(sys), a) && trace == old(trace) + [a]
    {
      hide Reached, Inv;
      ReachesOn(firstCredit, trace, sys, a);
      sys, trace := Step(sys, a), trace + [a];
    }

    /** User and logic run, for as long as they like. */
    method Others()
      requires Valid()
      modifies this
      ensures Valid() && old(trace) <= trace && OthersRan(old(sys), sys)
    {
      hide Inv, Reached, DownBytes;
      var more: nat :| true;
      while more > 0
        invariant Valid() && old(trace) <= trace && OthersRan(old(sys), sys)
      {
        var a: Action := *;
        if Enabled(sys, a) && IsOthers(a) {
          OtherRuns(sys, a);
          Take(a);
        }
        inputBuffer, outputBuffer, fromLogic, toLogic := sys.input, sys.output, sys.toHost, sys.toLogic;
        more := more - 1;
      }
    }

    method UpdateDebt(first: Byte, second: Byte)
      modifies `debt
      ensures debt == old(debt) + DebtAmount(first, second)
    {
      debt := debt + BitOr(BitAnd(first / 2, 0x7f) * 256, second);
    }

    method ReadBlocking(size: nat) returns (bytes: seq<Byte>)
      requires size <= |fromLogic|
      modifies `fromLogic
      ensures bytes == old(fromLogic)[..size] && fromLogic == old(fromLogic)[size..]
    {
      bytes, fromLogic := fromLogic[..size], fromLogic[size..];
    }

    method WriteBlocking(bytes: seq<Byte>)
      modifies `toLogic
      ensures toLogic == old(toLogic) + bytes
    {
      toLogic := toLogic + bytes;
    }

    /** A data word: the two assertions of the source, and the write to the input buffer. */
    method StoreData(b: Byte)
      requires credit > 0 && |inputBuffer| < UART_BUF_SIZE
      modifies `inputBuffer, `credit
      ensures inputBuffer == old(inputBuffer) + [b] && credit == old(credit) - 1
    {
      inputBuffer := inputBuffer + [b];
      credit := credit - 1;
    }

    /** The second half of update_credit: the message, then the counter. */
    method SendTranche(n: nat, caller: Caller)
      requires Valid() && sys.pc == Granting(n, caller)
      modifies this
      ensures Valid() && old(trace) <= trace && sys.pc == After(caller) && credit == old(credit) + n
      ensures debt == old(debt) && sys.parsed == old(sys.parsed) && old(sys.toHost) <= sys.toHost
      ensures NothingSent(old(sys), sys) && sys.Stored() == old(sys.Stored()) && |inputBuffer| <= |old(inputBuffer)|
      ensures sys.rounds == old(sys.rounds) + if caller.FromLoop? then 1 else 0
    {
      hide Inv, Reached, Step, Effect, Asserted, BitOr, BitAnd, DecodeUp, DecodeDown, Sys.Emitted;
      GrantIsSent(sys);
      WriteBlocking([0xfe, BitOr(1, (n / 256) * 2) % 256, BitAnd(n, 0xff) % 256]);
      Take(SendCredit);
      Others();
      GrantIsCounted(sys);
      credit := credit + n;
      Take(CountCredit);
    }

    /** update_credit: grants what is free and not promised yet, at most one tranche. */
    method UpdateCredit(caller: Caller) returns (rv: int)
      requires Valid() && Calls(sys, caller)
      modifies this
      ensures Valid() && old(trace) <= trace && sys.pc == After(caller)
      ensures credit == old(credit) + Min(UART_BUF_SIZE - |old(inputBuffer)| - old(credit), UART_MAX_TRANCHE)
      ensures rv == if credit == old(credit) then -1 else 0
      ensures debt == old(debt) && sys.parsed == old(sys.parsed) && old(sys.toHost) <= sys.toHost
      ensures NothingSent(old(sys), sys) && sys.Stored() == old(sys.Stored()) && |inputBuffer| <= |old(inputBuffer)|
      ensures sys.rounds == old(sys.rounds) + if caller.FromLoop? then 1 else 0
    {
      hide Inv, Reached, Step, Effect, Asserted, DecodeUp, DecodeDown, Sys.Emitted;
      var targetCreditAdd := Min(UART_BUF_SIZE - |inputBuffer| - credit, UART_MAX_TRANCHE);
      UpdateCreditBegins(sys, caller);
      assert targetCreditAdd >= 0;
      Take(CreditAction(caller));
      if targetCreditAdd == 0 { return -1; }
      Others();
      SendTranche(targetCreditAdd, caller);
      rv := 0;
    }

    /** The wait until the logic may send a second data word, so that the byte behind the marker comes. `stuck`
        says that it still waits after `patience` polls: then the user has left no room to grant. */
    method WaitForCredit(patience: nat) returns (stuck: bool)
      requires Valid() && sys.pc == Parsing([MARKER])
      modifies this
      ensures Valid() && old(trace) <= trace && sys.rounds == old(sys.rounds) && NothingSent(old(sys), sys)
      ensures sys.pc == Parsing([MARKER]) && sys.parsed == old(sys.parsed) && (!stuck <==> credit >= 2)
      ensures stuck && patience > 0 ==> UserIsSlow(old(sys), sys)
    {
      hide Inv, Reached, Step, Effect, Asserted, Enabled, UpHead, DebtAmount, Sys.Emitted;
      var polls := patience;
      while credit < 2
        invariant Valid() && old(trace) <= trace && sys.rounds == old(sys.rounds) && NothingSent(old(sys), sys)
        invariant sys.pc == Parsing([MARKER]) && sys.parsed == old(sys.parsed)
        invariant sys.Stored() == old(sys.Stored()) && |inputBuffer| <= |old(inputBuffer)|
        invariant 0 <= polls <= patience
        invariant polls < patience && credit < 2 ==> |old(inputBuffer)| >= UART_BUF_SIZE - 1
        decreases polls
      {
        if polls == 0 { return true; }
        polls := polls - 1;
        Others();
        var _ := UpdateCredit(FromMarkerWait);
      }
      stuck := false;
    }

    /** The chunk ended with a marker: wait for credit, then read on into the scratch buffer. */
    method FinishAtMarker(buffer: array<Byte>, patience: nat) returns (stuck: bool, ghost extra: seq<Byte>)
      requires Valid() && sys.pc == Parsing([MARKER]) && buffer.Length == TMP_BUFFER_SIZE
      modifies this, buffer
      ensures Valid() && old(trace) <= trace && sys.rounds == old(sys.rounds) && NothingSent(old(sys), sys)
      ensures stuck ==> sys.pc == Parsing([MARKER]) && (patience > 0 ==> UserIsSlow(old(sys), sys))
      ensures !stuck ==> sys.pc == Parsing([]) && |extra| <= 2 && sys.parsed == old(sys.parsed) + [MARKER] + extra
    {
      hide Inv, Reached, Step, Effect, Asserted, Enabled, UpHead, DebtAmount, Sys.Emitted, UserIsSlow;
      stuck := WaitForCredit(patience);
      if stuck { return true, []; }
      ParseCutAtMarker(sys);
      var next := ReadBlocking(1);
      buffer[0] := next[0];
      if buffer[0] == 0xfe {
        StoreData(buffer[0]);
        extra := [buffer[0]];
      } else {
        next := ReadBlocking(1);
        buffer[1] := next[0];
        UpdateDebt(buffer[0], buffer[1]);
        extra := [buffer[0], buffer[1]];
      }
      Take(ParseMessage);
      assert sys.parsed + [] == sys.parsed;
    }

    /** The chunk ended one byte before the end of a credit message: the byte is read into the
        scratch buffer, whose start is not needed any more. */
    method FinishCredit(buffer: array<Byte>, i: nat) returns (ghost extra: seq<Byte>)
      requires Valid() && i + 2 <= buffer.Length && i < buffer.Length - 1
      requires buffer[i] == MARKER != buffer[i + 1] && sys.pc == Parsing(buffer[i..i + 2])
      modifies this, buffer
      ensures Valid() && old(trace) <= trace && sys.rounds == old(sys.rounds) && NothingSent(old(sys), sys)
      ensures sys.pc == Parsing([]) && |extra| == 1 && sys.parsed == old(sys.parsed) + old(buffer[i..i + 2]) + extra
    {
      hide Inv, Reached, Step, Effect, Asserted, Enabled, UpHead, DebtAmount, Sys.Emitted;
      ParseCreditCutLate(sys);
      ghost var first := buffer[i + 1];
      var next := ReadBlocking(1);
      extra := next;
      buffer[0] := next[0];
      UpdateDebt(buffer[i + 1], buffer[0]);
      Take(ParseMessage);
    }

    /** A marker with the next byte still in the chunk: a doubled marker, or a credit message that may
        end behind the chunk. Returns the index of the last byte of the message. */
    method MarkerInChunk(buffer: array<Byte>, i: nat, size: nat) returns (last: nat, ghost extra: seq<Byte>)
      requires Valid() && i + 1 < size <= buffer.Length && buffer[i] == MARKER && sys.pc == Parsing(buffer[i..size])
      modifies this, buffer
      ensures Valid() && old(trace) <= trace && sys.rounds == old(sys.rounds) && NothingSent(old(sys), sys)
      ensures i < last < size && sys.pc == Parsing(old(buffer[last + 1..size]))
      ensures sys.parsed + sys.pc.chunk == old(sys.parsed) + old(buffer[i..size]) + extra
      ensures |extra| <= 1 && (last + 1 < size ==> extra == [] && buffer[..] == old(buffer[..]))
    {
      hide Inv, Reached, Step, Effect, Asserted, Enabled, UpHead, DebtAmount, Sys.Emitted;
      extra := [];
      ghost var chunk := buffer[i..size];
      assert chunk == buffer[..][i..size];
      ChunkTail(buffer[..], i, size, 2);
      if |chunk| > 2 { ChunkTail(buffer[..], i, size, 3); }
      assert chunk[0] == MARKER && chunk[1] == buffer[i + 1] && (|chunk| > 2 ==> chunk[2] == buffer[i + 2]);
      assert sys.parsed + chunk + [] == sys.parsed + chunk;
      if buffer[i + 1] == 0xfe {
        ParseDoubledMarker(sys);
        StoreData(buffer[i]);
        Take(ParseMessage);
        last := i + 1;
      } else if i + 2 < size {
        ParseWholeCredit(sys);
        UpdateDebt(buffer[i + 1], buffer[i + 2]);
        Take(ParseMessage);
        last := i + 2;
      } else {
        extra := FinishCredit(buffer, i);
        last := i + 1;
      }
    }

    /** A byte of the chunk that is not the marker. */
    method PlainData(b: Byte)
      requires Valid() && sys.pc.Parsing? && sys.pc.chunk != [] && b == sys.pc.chunk[0] != MARKER
      modifies this
      ensures Valid() && old(trace) <= trace && sys.rounds == old(sys.rounds) && NothingSent(old(sys), sys)
      ensures sys.pc == Parsing(old(sys.pc.chunk[1..]))
      ensures sys.parsed + sys.pc.chunk == old(sys.parsed + sys.pc.chunk)
    {
      hide Inv, Reached, Step, Effect, Asserted, Enabled, UpHead, DebtAmount, Sys.Emitted;
      ParsePlainData(sys);
      StoreData(b);
      Take(ParseMessage);
    }

    /** parse_buffer, for the first `size` bytes of the scratch buffer, which it overwrites. It parses
        exactly these bytes and at most two further ones, `extra`, and stops at a message boundary. */
    method ParseBuffer(buffer: array<Byte>, size: nat, patience: nat) returns (stuck: bool, ghost extra: seq<Byte>)
      requires Valid() && 0 < size <= TMP_BUFFER_SIZE == buffer.Length && sys.pc == Parsing(buffer[..size])
      modifies this, buffer
      ensures Valid() && old(trace) <= trace && sys.rounds == old(sys.rounds) && NothingSent(old(sys), sys)
      ensures stuck ==> sys.pc == Parsing([MARKER]) && (patience > 0 ==> UserIsSlow(old(sys), sys))
      ensures !stuck ==> sys.pc == Parsing([])
      ensures !stuck ==> |extra| <= 2 && sys.parsed == old(sys.parsed) + old(buffer[..size]) + extra
    {
      hide Inv, Reached, Step, Effect, Asserted, Enabled, UpHead, DebtAmount, Sys.Emitted;
      stuck, extra := false, [];
      ghost var chunk := buffer[..size];
      var i := 0;
      while i < size
        invariant Valid() && old(trace) <= trace && i <= size && sys.rounds == old(sys.rounds) && sys.pc.Parsing?
        invariant NothingSent(old(sys), sys)
        invariant sys.pc.chunk == if i < size then buffer[i..size] else []
        invariant sys.parsed + sys.pc.chunk == old(sys.parsed) + chunk + extra
        invariant |extra| <= 2 && (i < size ==> extra == [])
      {
        Others();
        ghost var left := sys.pc.chunk;
        assert left == buffer[i..size] && left[0] == buffer[i] && left[1..] == buffer[i + 1..size];
        if buffer[i] == 0xfe {
          if i + 1 < size {
            i, extra := MarkerInChunk(buffer, i, size);
          } else {
            ghost var before, so := sys, trace;
            stuck, extra := FinishAtMarker(buffer, patience);
            if stuck {
              if patience > 0 { SlowSince(firstCredit, old(trace), old(sys), so, before, sys); }
              return;
            }
          }
        } else {
          PlainData(buffer[i]);
        }
        i := i + 1;
      }
    }

    /** The end of reset(): the first tranche to the logic, the first credit from it. */
    method ResetEnd(debtBytes: array<Byte>)
      requires Valid() && sys.pc.Reset? && debtBytes.Length == 3
      modifies this, debtBytes
      ensures Valid() && old(trace) <= trace && sys.pc.Top? && sys.rounds == old(sys.rounds)
      ensures credit == old(credit) + Min(UART_BUF_SIZE - |old(inputBuffer)| - old(credit), UART_MAX_TRANCHE)
      ensures NothingSent(old(sys), sys) && |sys.parsed| == |old(sys.parsed)| + 3
    {
      hide Inv, Reached, Step, Effect, Asserted, Enabled, UpHead, DebtAmount, Sys.Emitted;
      var _ := UpdateCredit(FromReset);
      Others();
      FirstCreditIsRead(sys);
      var bytes := ReadBlocking(3);
      debtBytes[0], debtBytes[1], debtBytes[2] := bytes[0], bytes[1], bytes[2];
      assert debtBytes[0] == 0xfe;
      UpdateDebt(debtBytes[1], debtBytes[2]);
      Take(ReadFirstCredit);
    }

    /** The read part of the loop. `arrived` is what the non-blocking read returns, as far as there is
        room and there are bytes. If it returns something, something is parsed, and nothing is sent. */
    method ReadPart(buffer: array<Byte>, arrived: nat, patience: nat) returns (stuck: bool)
      requires Valid() && sys.pc.Top? && buffer.Length == TMP_BUFFER_SIZE
      modifies this, buffer
      ensures Valid() && old(trace) <= trace && sys.rounds == old(sys.rounds) && NothingSent(old(sys), sys)
      ensures if stuck then sys.pc == Parsing([MARKER]) && (patience > 0 ==> UserIsSlow(old(sys), sys))
              else sys.pc.WritePart?
      ensures !stuck ==> ReadShare(old(sys), sys, arrived)
    {
      hide Inv, Reached, Step, Effect, Asserted, Enabled, UpHead, DebtAmount, Sys.Emitted;
      stuck := false;
      var avail := UART_BUF_SIZE - |inputBuffer|;
      RoomIsSeen(sys);
      Take(LookAtRoom);
      Others();
      if avail == 0 {
        ReadWhenFull(buffer, arrived);
      } else {
        ghost var before, so := sys, trace;
        stuck := ReadWithRoom(buffer, avail, arrived, patience);
        if stuck && patience > 0 { SlowSince(firstCredit, old(trace), old(sys), so, before, sys); }
      }
    }

    /** With a full buffer only a credit message can come. */
    method ReadWhenFull(buffer: array<Byte>, arrived: nat)
      requires Valid() && sys.pc.FullRead? && buffer.Length == TMP_BUFFER_SIZE
      modifies this, buffer
      ensures Valid() && old(trace) <= trace && sys.rounds == old(sys.rounds) && NothingSent(old(sys), sys)
      ensures sys.pc.WritePart?
      ensures |sys.parsed| == |old(sys.parsed)| + if arrived > 0 && |old(fromLogic)| > 0 then 3 else 0
    {
      hide Inv, Reached, Step, Effect, Asserted, Enabled, UpHead, DebtAmount, Sys.Emitted;
      if arrived > 0 && |fromLogic| > 0 {
        CreditIsRead(sys);
        var bytes := ReadBlocking(1);
        buffer[0] := bytes[0];
        assert buffer[0] == 0xfe;
        bytes := ReadBlocking(2);
        buffer[0], buffer[1] := bytes[0], bytes[1];
        UpdateDebt(buffer[0], buffer[1]);
        Take(ReadCredit);
      } else {
        NothingIsRead(sys);
        Take(ReadNothing);
      }
    }

    /** Otherwise a chunk of at most `avail` bytes. */
    method ReadWithRoom(buffer: array<Byte>, avail: nat, arrived: nat, patience: nat) returns (stuck: bool)
      requires Valid() && sys.pc == ChunkRead(avail) && avail > 0 && buffer.Length == TMP_BUFFER_SIZE
      modifies this, buffer
      ensures Valid() && old(trace) <= trace && sys.rounds == old(sys.rounds) && NothingSent(old(sys), sys)
      ensures if stuck then sys.pc == Parsing([MARKER]) && (patience > 0 ==> UserIsSlow(old(sys), sys))
              else sys.pc.WritePart?
      ensures var n := Min(Min(avail, TMP_BUFFER_SIZE), Min(arrived, |old(fromLogic)|));
        !stuck ==> |old(sys.parsed)| + n <= |sys.parsed| <= |old(sys.parsed)| + (if n == 0 then 0 else n + 2)
    {
      hide Inv, Reached, Step, Effect, Asserted, Enabled, UpHead, DebtAmount, Sys.Emitted;
      stuck := false;
      var size := Min(avail, TMP_BUFFER_SIZE);
      var n := Min(Min(size, arrived), |fromLogic|);
      if n > 0 {
        ChunkIsRead(sys, n);
        var bytes := ReadBlocking(n);
        forall j | 0 <= j < n { buffer[j] := bytes[j]; }
        assert buffer[..n] == bytes;
        Take(ReadChunk(n));
        ghost var before, so, extra := sys, trace, [];
        stuck, extra := ParseBuffer(buffer, n, patience);
        if stuck {
          if patience > 0 { SlowSince(firstCredit, old(trace), old(sys), so, before, sys); }
          return;
        }
        ParseIsDone(sys);
        Take(ParseDone);
      } else {
        NothingIsRead(sys);
        Take(ReadNothing);
      }
    }

    /** Every byte taken out of the output buffer goes onto the wire, a marker twice. */
    method SendBytes(buffer: array<Byte>, size: nat)
      requires Valid() && size <= buffer.Length && sys.pc == Sending(buffer[..size], size)
      modifies this
      ensures Valid() && old(trace) <= trace && sys.pc == Sending([], size)
      ensures sys.rounds == old(sys.rounds) && debt == old(debt) && old(sys.output) <= sys.output
      ensures sys.parsed == old(sys.parsed)
      ensures sys.Emitted() == old(sys.Emitted()).(data := old(sys.Emitted().data) + buffer[..size])
    {
      hide Inv, Reached, Step, Effect, Asserted, Enabled, Sys.Emitted;
      for i := 0 to size
        invariant Valid() && old(trace) <= trace && sys.pc == Sending(buffer[i..size], size)
        invariant sys.rounds == old(sys.rounds) && debt == old(debt) && old(sys.output) <= sys.output
        invariant sys.parsed == old(sys.parsed)
        invariant sys.Emitted() == old(sys.Emitted()).(data := old(sys.Emitted().data) + buffer[..i])
      {
        Others();
        ByteIsSent(sys);
        WriteBlocking([buffer[i]]);
        if buffer[i] == 0xfe { WriteBlocking([buffer[i]]); }
        Take(SendByte);
        assert buffer[..i] + [buffer[i]] == buffer[..i + 1];
        ConcatAssoc(old(sys.Emitted().data), buffer[..i], [buffer[i]]);
      }
    }

    /** The write part of the loop: at most the debt, the output buffer's content and the scratch
        buffer's size, with the marker doubled. */
    method WritePartOfLoop(buffer: array<Byte>)
      requires Valid() && sys.pc.WritePart? && buffer.Length == TMP_BUFFER_SIZE
      modifies this, buffer
      ensures Valid() && old(trace) <= trace && sys.pc.CreditPart? && sys.rounds == old(sys.rounds)
      ensures sys.parsed == old(sys.parsed)
      ensures var size := Min(|old(outputBuffer)|, Min(old(debt), TMP_BUFFER_SIZE));
        && sys.Emitted().data == old(sys.Emitted().data) + old(outputBuffer)[..size] && debt == old(debt) - size
        && sys.Emitted().resets == old(sys.Emitted().resets)
        && old(outputBuffer)[size..] <= outputBuffer
    {
      hide Inv, Reached, Step, Effect, Asserted, Enabled, Sys.Emitted;
      OutputIsTaken(sys);
      if debt > 0 && |outputBuffer| > 0 {
        var size := Min(|outputBuffer|, Min(debt, TMP_BUFFER_SIZE));
        forall j | 0 <= j < size { buffer[j] := outputBuffer[j]; }
        assert buffer[..size] == outputBuffer[..size];
        outputBuffer := outputBuffer[size..];
        Take(TakeOutput);
        SendBytes(buffer, size);
        Others();
        SendingIsDone(sys);
        debt := debt - size;
        Take(SendDone);
      } else {
        Take(TakeOutput);
      }
    }

    /** What a requested logic reset puts on the wire at the head of the loop: the messages that assert and
        release it, behind whatever is in flight. */
    method EmitReset()
      requires Valid() && sys.pc.Top?
      modifies this
      ensures Valid() && trace == old(trace) + [EmitLogicReset] && sys.pc.Top? && sys.rounds == old(sys.rounds)
      ensures toLogic == old(toLogic) + [0xfe, 0x83, 0xfe, 0x81]
      ensures DecodeDown(toLogic).msgs == DecodeDown(old(toLogic)).msgs + [LogicReset(true), LogicReset(false)]
      ensures sys.Emitted() == old(sys.Emitted()).(resets := old(sys.Emitted().resets) + [true, false])
      ensures sys.parsed == old(sys.parsed) && fromLogic == old(fromLogic) && debt == old(debt)
      ensures inputBuffer == old(inputBuffer) && outputBuffer == old(outputBuffer) && credit == old(credit)
    {
      hide Inv, Reached, Step, Effect, Asserted, Enabled, Sys.Emitted, DecodeDown;
      ResetIsEmitted(sys);
      DownIsDecoded(sys);
      ResetBytes();
      WriteBlocking([0xfe, ResetByte(1, 0x81)]);
      WriteBlocking([0xfe, ResetByte(0, 0x81)]);
      Take(EmitLogicReset);
      DownIsDecoded(sys);
    }

    /** The end of the loop: a grant, if the credit is below the size of a tranche. */
    method CreditPartOfLoop()
      requires Valid() && sys.pc.CreditPart?
      modifies this
      ensures Valid() && old(trace) <= trace && sys.pc.Top? && sys.rounds == old(sys.rounds) + 1
      ensures NothingSent(old(sys), sys) && sys.parsed == old(sys.parsed)
      ensures credit == old(credit) + if old(credit) >= UART_MAX_TRANCHE then 0
                                      else Min(UART_BUF_SIZE - |old(inputBuffer)| - old(credit), UART_MAX_TRANCHE)
    {
      hide Inv, Reached, Step, Effect, Asserted, Enabled, Sys.Emitted;
      if credit < UART_MAX_TRANCHE {
        var _ := UpdateCredit(FromLoop);
      } else {
        NoGrantIsNeeded(sys);
        Take(DecideCredit);
      }
    }

    /** One round of the loop of thread_func: the reset messages if one is requested, something of what has
        come in, what may be sent of the output buffer, and a grant if one is due. */
    method Round(buffer: array<Byte>, resetRequest: bool, arrived: nat, patience: nat) returns (stuck: bool)
      requires Valid() && sys.pc.Top? && buffer.Length == TMP_BUFFER_SIZE
      modifies this, buffer
      ensures Valid() && old(trace) <= trace
      ensures if stuck then sys.pc == Parsing([MARKER]) && sys.rounds == old(sys.rounds)
                            && (patience > 0 ==> UserIsSlow(old(sys), sys))
              else RoundDone(old(sys), sys, resetRequest, arrived)
      ensures sys.Emitted().resets == old(sys.Emitted().resets) + LevelsFor([resetRequest])
    {
      hide Inv, Reached, Step, Effect, Asserted, Enabled, Sys.Emitted, ShareSent, ReadShare, LevelsFor;
      hide UpHead, DecodeDown;
      LevelsForSingle(resetRequest);
      assert sys.Emitted().resets + [] == sys.Emitted().resets;
      if resetRequest { EmitReset(); }
      Others();
      ghost var before, so := sys, trace;
      stuck := ReadPart(buffer, arrived, patience);
      if stuck {
        if patience > 0 { SlowSince(firstCredit, old(trace), old(sys), so, before, sys); }
        return;
      }
      ReadShareOfLater(old(sys), before, sys, arrived);
      ghost var read := sys;
      Others();
      before := sys;
      WritePartOfLoop(buffer);
      ShareIsSent(old(sys), before, sys);
      before := sys;
      Others();
      CreditPartOfLoop();
      ShareStaysSent(old(sys), before, sys);
      ReadShareStays(old(sys), read, sys, arrived);
    }

    /** thread_func for any number of rounds, whatever user and logic do. `heads` are the states at the head of
        the loop; between two of them a round does what it should. The thread follows a run of the
        system, so no assertion of the source fails, and what holds over every run holds of its buffers
        and counters: no byte is lost or reordered in either direction, credit is respected in both, and
        how the reads cut the stream does not matter. The resets on the wire are those requested. */
    method ThreadFunc(arrivals: seq<nat>, resets: seq<bool>, patience: nat) returns (stuck: bool, ghost heads: seq<Sys>)
      requires Valid() && sys.pc.Reset? && |arrivals| == |resets|
      modifies this
      ensures Valid() && old(trace) <= trace && HistoryKept(old(sys), sys)
      ensures 1 <= |heads| <= |arrivals| + 1 && heads[0].rounds == old(sys.rounds)
      ensures if stuck then sys.pc == Parsing([MARKER]) && |heads| <= |arrivals|
                            && (patience > 0 ==> UserIsSlow(heads[|heads| - 1], sys))
              else |heads| == |arrivals| + 1 && heads[|arrivals|] == sys
      ensures forall i :: 0 <= i < |heads| - 1 ==> RoundDone(heads[i], heads[i + 1], resets[i], arrivals[i])
      ensures sys.Emitted().resets ==
        old(sys.Emitted().resets) + LevelsFor(if stuck then resets[..|heads|] else resets)
      ensures sys.logicSent == sys.userRead + inputBuffer + UpBytes(sys.up)
      ensures sys.userWritten == sys.logicGot + DownBytes(sys.down) + (sys.Left() + outputBuffer)
      ensures credit <= UART_BUF_SIZE - |inputBuffer|
      ensures WithinCredit(sys) && DecodedInOnePass(sys)
    {
      hide Inv, Reached, WithinCredit, DecodedInOnePass, HistoryKept, Sys.Emitted, RoundDone, LevelsFor;
      stuck := false;
      var debtBytes := new Byte[3](_ => 0);
      ResetEnd(debtBytes);
      var buffer := new Byte[TMP_BUFFER_SIZE](_ => 0);
      heads := [sys];
      LevelsForNone(old(sys.Emitted().resets));
      for i := 0 to |arrivals|
        invariant Valid() && old(trace) <= trace && !stuck && sys.pc.Top?
        invariant |heads| == i + 1 && heads[i] == sys && heads[0].rounds == old(sys.rounds)
        invariant forall j :: 0 <= j < i ==> RoundDone(heads[j], heads[j + 1], resets[j], arrivals[j])
        invariant sys.Emitted().resets == old(sys.Emitted().resets) + LevelsFor(resets[..i])
      {
        ghost var head, headTrace := sys, trace;
        Others();
        ghost var begun, so := sys, trace;
        LevelsForOne(resets, i);
        ConcatAssoc(old(sys.Emitted().resets), LevelsFor(resets[..i]), LevelsFor([resets[i]]));
        stuck := Round(buffer, resets[i], arrivals[i], patience);
        if stuck {
          if patience > 0 { SlowSince(firstCredit, headTrace, head, so, begun, sys); }
          break;
        }
        RoundFromHead(head, begun, sys, resets[i], arrivals[i]);
        heads := heads + [sys];
      }
      assert !stuck ==> resets[..|arrivals|] == resets;
      LongerRunKeepsHistory(firstCredit, old(trace), old(sys), trace, sys);
      ReachedKeepsPromises(firstCredit, trace, sys);
      CreditFits(sys);
    }
  }
}
