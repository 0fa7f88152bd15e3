/** Host, both wires, an abstract logic and the user as one step system. The thread of the host is
    cut at every access to shared state; user and logic may act between any two of its steps. */
module UartSystem {
  import opened Bits
  import opened UartWire

  const UART_BUF_SIZE := 32 * 1024
  const TMP_BUFFER_SIZE := 256

  /** Who called update_credit, and so where the host continues after it. */
  datatype Caller = FromReset | FromLoop | FromMarkerWait

  /** What the host has put on the wire: the data bytes, and the levels of the logic's reset. */
  datatype Emission = Emission(data: seq<Byte>, resets: seq<bool>)

  /** Where the host is. */
  datatype Pc =
    | Reset                                // in reset(), buffers cleared, about to grant the first tranche
    | ResetRead                            // in reset(), about to read the first credit of the logic
    | Top                                  // head of the thread's loop
    | FullRead                             // the input buffer was full: about to look for a credit message
    | ChunkRead(avail: nat)                // about to read a chunk
    | Parsing(chunk: seq<Byte>)            // in parse_buffer, with the part of the chunk not parsed yet
    | WritePart                            // about to look for data to send
    | Sending(left: seq<Byte>, size: nat)  // `size` bytes taken out of the output buffer, `left` not yet sent
    | CreditPart                           // at the credit check that ends the loop
    | Granting(n: nat, caller: Caller)     // in update_credit, message not yet on the wire
    | Granted(n: nat, caller: Caller)      // in update_credit, message sent, counter not yet updated

  /** `toHost` and `toLogic` are the bytes on the wires. The rest is history: the messages in flight in
      both directions and those parsed, the bytes parsed, what was sent, granted, read and written so
      far, the reset levels the logic has got, and the rounds of the loop completed. No step looks at
      history. */
  datatype Sys = Sys(
    pc: Pc, credit: nat, debt: nat, input: seq<Byte>, output: seq<Byte>,
    toHost: seq<Byte>, toLogic: seq<Byte>, logicCredit: nat,
    up: seq<Up>, down: seq<Down>, done: seq<Up>, parsed: seq<Byte>,
    logicSent: seq<Byte>, logicGot: seq<Byte>, logicGranted: nat,
    resetsGot: seq<bool>, userRead: seq<Byte>, userWritten: seq<Byte>, rounds: nat)
  {
    /** Bytes the host has read from its wire and not parsed yet. */
    function Chunk(): seq<Byte> {
      match pc
      case Parsing(chunk) => chunk
      case Granting(_, FromMarkerWait) => [MARKER]
      case Granted(_, FromMarkerWait) => [MARKER]
      case _ => []
    }

    /** Bytes taken out of the output buffer and not yet on the wire. */
    function Left(): seq<Byte> { if pc.Sending? then pc.left else [] }

    /** Bytes on the wire that `debt` does not account for yet. */
    function Unaccounted(): int { if pc.Sending? then pc.size - |pc.left| else 0 }

    /** Credit on its way into the counter. */
    function Sent(): nat { if pc.Granted? then pc.n else 0 }
    function Promised(): nat { if pc.Granted? || pc.Granting? then pc.n else 0 }

    /** Everything ever added to `debt`: what is left of it, and what was spent on sent bytes. */
    ghost function DebtReceived(): int { debt + |logicGot| + |DownBytes(down)| - Unaccounted() }

    /** What was put on the wire to the logic so far, and the data bytes written to the input buffer. */
    ghost function Emitted(): Emission { Emission(logicGot + DownBytes(down), resetsGot + DownResets(down)) }
    ghost function Stored(): seq<Byte> { userRead + input }

    /** All bytes that ever came onto the wire to the host. */
    ghost function Stream(): seq<Byte> { parsed + (Chunk() + toHost) }

    function Free(): int { UART_BUF_SIZE - |input| }

    /** The amount update_credit computes; the subtraction is unsigned in the source. */
    function Tranche(): int { Min(Free() - credit, UART_MAX_TRANCHE) }
  }

  datatype Action =
    // the user, through glip_read and glip_write
    | UserReads(n: nat) | UserWrites(bytes: seq<Byte>)
    // the logic
    | LogicSends(b: Byte) | LogicGrants(amount: nat) | LogicReceives
    // the host
    | EmitLogicReset | LookAtRoom | ReadNothing | ReadFirstCredit | ReadCredit | ReadChunk(size: nat)
    | ParseMessage | WaitAtMarker | ParseDone | TakeOutput | SendByte | SendDone
    | DecideCredit | SendCredit | CountCredit

  function UpBytes(msgs: seq<Up>): seq<Byte> {
    if msgs == [] then [] else (if msgs[0].UpData? then [msgs[0].b] else []) + UpBytes(msgs[1..])
  }

  function UpCredits(msgs: seq<Up>): nat {
    if msgs == [] then 0 else (if msgs[0].UpCredit? then msgs[0].n else 0) + UpCredits(msgs[1..])
  }

  function DownBytes(msgs: seq<Down>): seq<Byte> {
    if msgs == [] then [] else (if msgs[0].DownData? then [msgs[0].b] else []) + DownBytes(msgs[1..])
  }

  function DownCredits(msgs: seq<Down>): nat {
    if msgs == [] then 0 else (if msgs[0].DownCredit? then msgs[0].n else 0) + DownCredits(msgs[1..])
  }

  function DownResets(msgs: seq<Down>): seq<bool> {
    if msgs == [] then [] else (if msgs[0].LogicReset? then [msgs[0].state] else []) + DownResets(msgs[1..])
  }

  /** When an action can be taken: control is there and non-blocking reads return what they may. */
  predicate Enabled(s: Sys, a: Action) {
    match a
    case UserReads(n) => n <= |s.input|
    case UserWrites(bytes) => |bytes| <= UART_BUF_SIZE - |s.output|
    case LogicSends(_) => s.logicCredit > 0
    case LogicGrants(amount) => amount <= 0x7fff
    case LogicReceives => DownHead(s.toLogic).Complete?
    case EmitLogicReset => s.pc.Top?
    case LookAtRoom => s.pc.Top?
    case ReadNothing => s.pc.FullRead? || s.pc.ChunkRead?
    case ReadFirstCredit => s.pc.ResetRead?
    case ReadCredit => s.pc.FullRead? && s.toHost != []
    case ReadChunk(size) => s.pc.ChunkRead? && 0 < size <= Min(s.pc.avail, TMP_BUFFER_SIZE) && size <= |s.toHost|
    case ParseMessage => s.pc.Parsing? && s.pc.chunk != [] && (s.pc.chunk == [MARKER] ==> s.credit >= 2)
    case WaitAtMarker => s.pc.Parsing? && s.pc.chunk == [MARKER] && s.credit < 2
    case ParseDone => s.pc == Parsing([])
    case TakeOutput => s.pc.WritePart?
    case SendByte => s.pc.Sending? && s.pc.left != []
    case SendDone => s.pc.Sending? && s.pc.left == []
    case DecideCredit => s.pc.Reset? || s.pc.CreditPart?
    case SendCredit => s.pc.Granting?
    case CountCredit => s.pc.Granted?
  }

  /** What the code asserts, or silently relies on, when it takes the action. */
  predicate Asserted(s: Sys, a: Action)
    requires Enabled(s, a)
  {
    match a
    // reset(): the bytes awaited arrive and start with the marker of a credit message
    case ReadFirstCredit => UpHead(s.toHost).Complete? && UpHead(s.toHost).msg.UpCredit?
    // full buffer: the byte is 0xfe, and what follows is the rest of a credit message
    case ReadCredit => UpHead(s.toHost).Complete? && UpHead(s.toHost).msg.UpCredit? && s.toHost[0] == MARKER
    // blocking reads are satisfied; credit > 0 and cbuf_write succeeds for a data byte
    case ParseMessage =>
      && UpHead(s.pc.chunk + s.toHost).Complete?
      && (UpHead(s.pc.chunk + s.toHost).msg.UpData? ==> s.credit > 0 && |s.input| < UART_BUF_SIZE)
    // the unsigned subtraction in update_credit does not wrap
    case WaitAtMarker => s.Tranche() >= 0
    case DecideCredit => s.Tranche() >= 0
    // debt does not underflow
    case SendDone => s.pc.size <= s.debt
    case _ => true
  }

  // ---- What each action does ----

  function Tail<M>(msgs: seq<M>): seq<M> { if msgs == [] then [] else msgs[1..] }

  function UserReadsEffect(s: Sys, n: nat): Sys
    requires n <= |s.input|
  {
    s.(input := s.input[n..], userRead := s.userRead + s.input[..n])
  }

  function UserWritesEffect(s: Sys, bytes: seq<Byte>): Sys {
    s.(output := s.output + bytes, userWritten := s.userWritten + bytes)
  }

  function LogicSendsEffect(s: Sys, b: Byte): Sys
    requires s.logicCredit > 0
  {
    s.(toHost := s.toHost + EncodeUp(UpData(b)), up := s.up + [UpData(b)],
       logicSent := s.logicSent + [b], logicCredit := s.logicCredit - 1)
  }

  function LogicGrantsEffect(s: Sys, amount: nat): Sys {
    s.(toHost := s.toHost + EncodeUp(UpCredit(amount)), up := s.up + [UpCredit(amount)],
       logicGranted := s.logicGranted + amount)
  }

  function LogicReceivesEffect(s: Sys): Sys
    requires DownHead(s.toLogic).Complete?
  {
    var h := DownHead(s.toLogic);
    var t := s.(toLogic := s.toLogic[h.len..], down := Tail(s.down));
    match h.msg
    case DownData(b) => t.(logicGot := s.logicGot + [b])
    case DownCredit(n) => t.(logicCredit := s.logicCredit + n)
    case LogicReset(state) => t.(resetsGot := s.resetsGot + [state])
    case ComReset(_) => t
  }

  function EmitLogicResetEffect(s: Sys): Sys {
    s.(toLogic := s.toLogic + EncodeDown(LogicReset(true)) + EncodeDown(LogicReset(false)),
       down := s.down + [LogicReset(true)] + [LogicReset(false)])
  }

  function LookAtRoomEffect(s: Sys): Sys {
    s.(pc := if s.Free() <= 0 then FullRead else ChunkRead(s.Free()))
  }

  function ReadCreditEffect(s: Sys, next: Pc): Sys
    requires UpHead(s.toHost).Complete? && UpHead(s.toHost).msg.UpCredit?
  {
    var h := UpHead(s.toHost);
    s.(pc := next, toHost := s.toHost[h.len..], debt := s.debt + h.msg.n,
       up := Tail(s.up), done := s.done + [h.msg], parsed := s.parsed + s.toHost[..h.len])
  }

  function ReadChunkEffect(s: Sys, size: nat): Sys
    requires size <= |s.toHost|
  {
    s.(pc := Parsing(s.toHost[..size]), toHost := s.toHost[size..])
  }

  /** One message is taken off the chunk, and off the wire where the chunk ends inside it. */
  function ParseEffect(s: Sys): Sys
    requires s.pc.Parsing? && UpHead(s.pc.chunk + s.toHost).Complete?
    requires UpHead(s.pc.chunk + s.toHost).msg.UpData? ==> s.credit > 0
  {
    var h := UpHead(s.pc.chunk + s.toHost);
    var t := s.(up := Tail(s.up), done := s.done + [h.msg],
                parsed := s.parsed + (s.pc.chunk + s.toHost)[..h.len],
                pc := Parsing(if h.len <= |s.pc.chunk| then s.pc.chunk[h.len..] else []),
                toHost := if h.len <= |s.pc.chunk| then s.toHost else s.toHost[h.len - |s.pc.chunk|..]);
    match h.msg
    case UpData(b) => t.(input := s.input + [b], credit := s.credit - 1)
    case UpCredit(n) => t.(debt := s.debt + n)
  }

  function TakeOutputEffect(s: Sys): Sys {
    var size := Min(|s.output|, Min(s.debt, TMP_BUFFER_SIZE));
    if size == 0 then s.(pc := CreditPart)
    else s.(pc := Sending(s.output[..size], size), output := s.output[size..])
  }

  function SendByteEffect(s: Sys): Sys
    requires s.pc.Sending? && s.pc.left != []
  {
    s.(pc := s.pc.(left := s.pc.left[1..]), toLogic := s.toLogic + EncodeDown(DownData(s.pc.left[0])),
       down := s.down + [DownData(s.pc.left[0])])
  }

  function SendDoneEffect(s: Sys): Sys
    requires s.pc.Sending? && s.pc.size <= s.debt
  {
    s.(pc := CreditPart, debt := s.debt - s.pc.size)
  }

  function Return(s: Sys, caller: Caller): Sys {
    match caller
    case FromReset => s.(pc := ResetRead)
    case FromLoop => s.(pc := Top, rounds := s.rounds + 1)
    case FromMarkerWait => s.(pc := Parsing([MARKER]))
  }

  /** update_credit, up to the point where the amount is computed. */
  function UpdateCredit(s: Sys, caller: Caller): Sys
    requires s.Tranche() >= 0
  {
    if s.Tranche() == 0 then Return(s, caller) else s.(pc := Granting(s.Tranche(), caller))
  }

  /** In the loop update_credit is only called below the tranche size. */
  function DecideCreditEffect(s: Sys): Sys
    requires s.Tranche() >= 0
  {
    if s.pc.Reset? then UpdateCredit(s, FromReset)
    else if s.credit < UART_MAX_TRANCHE then UpdateCredit(s, FromLoop)
    else Return(s, FromLoop)
  }

  function SendCreditEffect(s: Sys): Sys
    requires s.pc.Granting?
  {
    s.(pc := Granted(s.pc.n, s.pc.caller), toLogic := s.toLogic + EncodeDown(DownCredit(s.pc.n)),
       down := s.down + [DownCredit(s.pc.n)])
  }

  function CountCreditEffect(s: Sys): Sys
    requires s.pc.Granted?
  {
    Return(s.(credit := s.credit + s.pc.n), s.pc.caller)
  }

  function Effect(s: Sys, a: Action): Sys
    requires Enabled(s, a) && Asserted(s, a)
  {
    match a
    case UserReads(n) => UserReadsEffect(s, n)
    case UserWrites(bytes) => UserWritesEffect(s, bytes)
    case LogicSends(b) => LogicSendsEffect(s, b)
    case LogicGrants(amount) => LogicGrantsEffect(s, amount)
    case LogicReceives => LogicReceivesEffect(s)
    case EmitLogicReset => EmitLogicResetEffect(s)
    case LookAtRoom => LookAtRoomEffect(s)
    case ReadNothing => s.(pc := WritePart)
    case ReadFirstCredit => ReadCreditEffect(s, Top)
    case ReadCredit => ReadCreditEffect(s, WritePart)
    case ReadChunk(size) => ReadChunkEffect(s, size)
    case ParseMessage => ParseEffect(s)
    case WaitAtMarker => UpdateCredit(s, FromMarkerWait)
    case ParseDone => s.(pc := WritePart)
    case TakeOutput => TakeOutputEffect(s)
    case SendByte => SendByteEffect(s)
    case SendDone => SendDoneEffect(s)
    case DecideCredit => DecideCreditEffect(s)
    case SendCredit => SendCreditEffect(s)
    case CountCredit => CountCreditEffect(s)
  }

  /** A fresh context in reset(): both sides have just reset, and the logic has sent its first credit. */
  function Init(firstCredit: nat): Sys {
    Sys(Reset, 0, 0, [], [], EncodeUp(UpCredit(firstCredit)), [], 0,
        [UpCredit(firstCredit)], [], [], [], [], [], firstCredit, [], [], [], 0)
  }

  /** The bytes on the wires, with what the host has read and not parsed, are whole messages: those
      in flight. What the host has parsed so far is whole messages too, wherever chunks ended. */
  ghost predicate Framed(s: Sys) {
    && DecodeUp(s.Chunk() + s.toHost) == Parsed(s.up, [])
    && DecodeDown(s.toLogic) == Parsed(s.down, [])
    && DecodeUp(s.parsed) == Parsed(s.done, [])
  }

  /** Credit is neither lost nor created: what the host has granted and not got back as data is what
      the logic has left, what is on its way there, and the data on its way here. */
  ghost predicate CreditConserved(s: Sys) {
    && s.credit + s.Sent() == s.logicCredit + DownCredits(s.down) + |UpBytes(s.up)|
    && s.credit + s.Promised() <= s.Free()
    && s.Promised() <= UART_MAX_TRANCHE
  }

  /** The same in the other direction: what the logic has granted is what the host may still send,
      the grants on their way, and the data sent. */
  ghost predicate DebtConserved(s: Sys) {
    && s.logicGranted + s.Unaccounted() == s.debt + UpCredits(s.up) + |s.logicGot| + |DownBytes(s.down)|
    && s.logicGranted == UpCredits(s.done) + UpCredits(s.up)
    && (s.pc.Sending? ==> |s.pc.left| <= s.pc.size <= s.debt)
  }

  /** No byte is lost, repeated or reordered in either direction. */
  ghost predicate Delivered(s: Sys) {
    && s.logicSent == s.userRead + s.input + UpBytes(s.up)
    && s.userWritten == s.logicGot + DownBytes(s.down) + (s.Left() + s.output)
    && s.userRead + s.input == UpBytes(s.done)
  }

  ghost predicate ControlFacts(s: Sys) {
    && |s.output| <= UART_BUF_SIZE
    && (s.pc.FullRead? ==> s.credit == 0)
    && (s.pc.Reset? || s.pc.ResetRead? || ((s.pc.Granting? || s.pc.Granted?) && s.pc.caller.FromReset?) ==>
          s.up != [] && s.up[0].UpCredit?)
  }

  ghost predicate Good(s: Sys) {
    CreditConserved(s) && DebtConserved(s) && Delivered(s) && ControlFacts(s)
  }

  ghost predicate Inv(s: Sys) { Framed(s) && Good(s) }

  // ---- Messages appended to and taken from a stream ----

  lemma {:induction false} UpSums(a: seq<Up>, b: seq<Up>)
    ensures UpBytes(a + b) == UpBytes(a) + UpBytes(b) && UpCredits(a + b) == UpCredits(a) + UpCredits(b)
  {
    if a == [] {
      assert a + b == b;
    } else {
      assert (a + b)[0] == a[0] && (a + b)[1..] == a[1..] + b;
      UpSums(a[1..], b);
      var first := if a[0].UpData? then [a[0].b] else [];
      assert first + (UpBytes(a[1..]) + UpBytes(b)) == (first + UpBytes(a[1..])) + UpBytes(b);
    }
  }

  lemma {:induction false} DownSums(a: seq<Down>, b: seq<Down>)
    ensures DownBytes(a + b) == DownBytes(a) + DownBytes(b) && DownCredits(a + b) == DownCredits(a) + DownCredits(b)
  {
    if a == [] {
      assert a + b == b;
    } else {
      assert (a + b)[0] == a[0] && (a + b)[1..] == a[1..] + b;
      DownSums(a[1..], b);
      var first := if a[0].DownData? then [a[0].b] else [];
      assert first + (DownBytes(a[1..]) + DownBytes(b)) == (first + DownBytes(a[1..])) + DownBytes(b);
    }
  }

  lemma UpSumsOfOne(m: Up)
    ensures UpBytes([m]) == if m.UpData? then [m.b] else []
    ensures UpCredits([m]) == if m.UpCredit? then m.n else 0
  {
    assert [m][1..] == [];
  }

  lemma DownSumsOfOne(m: Down)
    ensures DownBytes([m]) == if m.DownData? then [m.b] else []
    ensures DownCredits([m]) == if m.DownCredit? then m.n else 0
  {
    assert [m][1..] == [];
  }

  // ---- Framing: appending a message to a wire, taking one off ----

  lemma UpFramed(s: seq<Byte>, up: seq<Up>, m: Up)
    requires DecodeUp(s) == Parsed(up, []) && (m.UpCredit? ==> m.n <= 0x7fff)
    ensures DecodeUp(s + EncodeUp(m)) == Parsed(up + [m], [])
  {
    DecodeUpAppend(s, EncodeUp(m));
    DecodeUpOne(m);
    assert [] + EncodeUp(m) == EncodeUp(m);
  }

  lemma DownFramed(s: seq<Byte>, down: seq<Down>, m: Down)
    requires DecodeDown(s) == Parsed(down, []) && Sendable(m)
    ensures DecodeDown(s + EncodeDown(m)) == Parsed(down + [m], [])
  {
    DecodeDownAppend(s, EncodeDown(m));
    DecodeDownOne(m);
    assert [] + EncodeDown(m) == EncodeDown(m);
  }

  lemma UpLeaves(s: seq<Byte>, up: seq<Up>)
    requires DecodeUp(s) == Parsed(up, []) && s != []
    ensures UpHead(s).Complete? && up != [] && up[0] == UpHead(s).msg
    ensures DecodeUp(s[UpHead(s).len..]) == Parsed(up[1..], [])
  {
  }

  lemma DownLeaves(s: seq<Byte>, down: seq<Down>)
    requires DecodeDown(s) == Parsed(down, []) && DownHead(s).Complete?
    ensures down != [] && down[0] == DownHead(s).msg
    ensures DecodeDown(s[DownHead(s).len..]) == Parsed(down[1..], [])
  {
  }

  /** The bytes of one parsed message extend the parsed part by exactly that message. */
  lemma ParsedGrows(parsed: seq<Byte>, done: seq<Up>, s: seq<Byte>)
    requires DecodeUp(parsed) == Parsed(done, []) && UpHead(s).Complete?
    ensures DecodeUp(parsed + s[..UpHead(s).len]) == Parsed(done + [UpHead(s).msg], [])
  {
    hide DebtAmount;
    var h := UpHead(s);
    var bytes := s[..h.len];
    DecodeUpAppend(parsed, bytes);
    assert [] + bytes == bytes;
    assert UpHead(bytes) == h;
    assert bytes[h.len..] == [];
  }

  /** Steps that append a message to the wire to the host. */
  lemma UpGrowsFramed(s: Sys, t: Sys, m: Up)
    requires Framed(s) && (m.UpCredit? ==> m.n <= 0x7fff)
    requires t.toHost == s.toHost + EncodeUp(m) && t.up == s.up + [m] && t.Chunk() == s.Chunk()
    requires t.toLogic == s.toLogic && t.down == s.down && t.parsed == s.parsed && t.done == s.done
    ensures Framed(t)
  {
    assert t.Chunk() + t.toHost == (s.Chunk() + s.toHost) + EncodeUp(m);
    UpFramed(s.Chunk() + s.toHost, s.up, m);
  }

  /** Steps that append a message to the wire to the logic. */
  lemma DownGrowsFramed(s: Sys, t: Sys, m: Down)
    requires Framed(s) && Sendable(m)
    requires t.toLogic == s.toLogic + EncodeDown(m) && t.down == s.down + [m]
    requires t.toHost == s.toHost && t.up == s.up && t.Chunk() == s.Chunk()
    requires t.parsed == s.parsed && t.done == s.done
    ensures Framed(t)
  {
    DownFramed(s.toLogic, s.down, m);
  }

  /** Steps that leave the wires alone, or only move bytes from the wire into the chunk. */
  lemma SameStreamsFramed(s: Sys, t: Sys)
    requires Framed(s) && t.Chunk() + t.toHost == s.Chunk() + s.toHost && t.up == s.up
    requires t.toLogic == s.toLogic && t.down == s.down && t.parsed == s.parsed && t.done == s.done
    ensures Framed(t)
  {
  }

  lemma ParseMovesStream(s: Sys)
    requires Enabled(s, ParseMessage) && Asserted(s, ParseMessage)
    ensures ParseEffect(s).Chunk() + ParseEffect(s).toHost ==
      (s.pc.chunk + s.toHost)[UpHead(s.pc.chunk + s.toHost).len..]
    ensures ParseEffect(s).Chunk() == ParseEffect(s).pc.chunk
  {
  }

  lemma ParseFramed(s: Sys)
    requires Framed(s) && Enabled(s, ParseMessage) && Asserted(s, ParseMessage)
    ensures Framed(ParseEffect(s))
    ensures s.up != [] && s.up[0] == UpHead(s.pc.chunk + s.toHost).msg
  {
    var stream := s.pc.chunk + s.toHost;
    UpLeaves(stream, s.up);
    ParsedGrows(s.parsed, s.done, stream);
    ParseMovesStream(s);
  }

  lemma ReadCreditFramed(s: Sys, next: Pc)
    requires Framed(s) && s.Chunk() == [] && (next.Top? || next.WritePart?)
    requires UpHead(s.toHost).Complete? && UpHead(s.toHost).msg.UpCredit?
    ensures Framed(ReadCreditEffect(s, next))
    ensures s.up != [] && s.up[0] == UpHead(s.toHost).msg
  {
    hide DebtAmount;
    assert [] + s.toHost == s.toHost;
    UpLeaves(s.toHost, s.up);
    ParsedGrows(s.parsed, s.done, s.toHost);
    var t := ReadCreditEffect(s, next);
    assert t.Chunk() + t.toHost == s.toHost[UpHead(s.toHost).len..];
  }

  lemma LogicReceivesFramed(s: Sys, t: Sys)
    requires Framed(s) && DownHead(s.toLogic).Complete?
    requires t.toLogic == s.toLogic[DownHead(s.toLogic).len..] && t.down == Tail(s.down)
    requires t.toHost == s.toHost && t.up == s.up && t.Chunk() == s.Chunk()
    requires t.parsed == s.parsed && t.done == s.done
    ensures Framed(t) && s.down != [] && s.down[0] == DownHead(s.toLogic).msg
  {
    DownLeaves(s.toLogic, s.down);
  }

  // ---- Accounting ----

  lemma UserReadsGood(s: Sys, n: nat)
    requires Good(s) && n <= |s.input|
    ensures Good(UserReadsEffect(s, n))
  {
    var t := UserReadsEffect(s, n);
    assert s.userRead + s.input == t.userRead + t.input;
  }

  lemma UserWritesGood(s: Sys, bytes: seq<Byte>)
    requires Good(s) && |bytes| <= UART_BUF_SIZE - |s.output|
    ensures Good(UserWritesEffect(s, bytes))
  {
    var sent, rest := s.logicGot + DownBytes(s.down), s.Left() + s.output;
    ConcatAssoc(s.Left(), s.output, bytes);
    ConcatAssoc(sent, rest, bytes);
  }

  lemma LogicSendsGood(s: Sys, b: Byte)
    requires Good(s) && s.logicCredit > 0
    ensures Good(LogicSendsEffect(s, b))
  {
    UpSums(s.up, [UpData(b)]);
    UpSumsOfOne(UpData(b));
    ConcatAssoc(s.userRead + s.input, UpBytes(s.up), [b]);
  }

  lemma LogicGrantsGood(s: Sys, amount: nat)
    requires Good(s)
    ensures Good(LogicGrantsEffect(s, amount))
  {
    UpSums(s.up, [UpCredit(amount)]);
    UpSumsOfOne(UpCredit(amount));
    assert UpBytes(s.up) + [] == UpBytes(s.up);
  }

  lemma LogicReceivesGood(s: Sys)
    requires Good(s) && DownHead(s.toLogic).Complete?
    requires s.down != [] && s.down[0] == DownHead(s.toLogic).msg
    ensures Good(LogicReceivesEffect(s))
  {
    var first := if s.down[0].DownData? then [s.down[0].b] else [];
    ConcatAssoc(s.logicGot, first, DownBytes(s.down[1..]));
    assert s.logicGot + [] == s.logicGot;
  }

  /** Sending a message that carries neither data nor credit. */
  lemma CommandGood(s: Sys, m: Down, t: Sys)
    requires Good(s) && (m.LogicReset? || m.ComReset?) && t == s.(toLogic := t.toLogic, down := s.down + [m])
    ensures Good(t)
  {
    DownSums(s.down, [m]);
    DownSumsOfOne(m);
    assert DownBytes(s.down) + [] == DownBytes(s.down);
  }

  /** The host takes the next message `m` out of its stream: a data byte or credit. */
  ghost predicate MessageTaken(s: Sys, t: Sys, m: Up) {
    && s.up != [] && s.up[0] == m && t.up == s.up[1..] && t.done == s.done + [m]
    && (m.UpData? ==> s.credit > 0 && t.input == s.input + [m.b] && t.credit == s.credit - 1 && t.debt == s.debt)
    && (m.UpCredit? ==> t.input == s.input && t.credit == s.credit && t.debt == s.debt + m.n)
    && t == s.(pc := t.pc, toHost := t.toHost, up := t.up, done := t.done, parsed := t.parsed,
               input := t.input, credit := t.credit, debt := t.debt)
    && s.Left() == t.Left() == [] && !s.pc.Sending? && !t.pc.Sending?
    && s.Promised() == t.Promised() == 0 && !t.pc.Granting? && !t.pc.Granted?
    && !t.pc.Reset? && !t.pc.ResetRead? && !t.pc.FullRead?
  }

  lemma MessageSums(s: Sys, t: Sys, m: Up)
    requires MessageTaken(s, t, m)
    ensures UpBytes(s.up) == UpBytes([m]) + UpBytes(t.up) && UpCredits(s.up) == UpCredits([m]) + UpCredits(t.up)
    ensures UpBytes(t.done) == UpBytes(s.done) + UpBytes([m]) && UpCredits(t.done) == UpCredits(s.done) + UpCredits([m])
    ensures UpBytes([m]) == (if m.UpData? then [m.b] else []) && UpCredits([m]) == (if m.UpCredit? then m.n else 0)
  {
    UpSums(s.done, [m]);
    UpSumsOfOne(m);
  }

  lemma MessageTakenDelivered(s: Sys, t: Sys, m: Up)
    requires Delivered(s) && MessageTaken(s, t, m)
    ensures Delivered(t)
  {
    MessageSums(s, t, m);
    hide UpBytes, UpCredits, DownBytes, DownCredits;
    var bytes := UpBytes([m]);
    ConcatAssoc(s.userRead, s.input, bytes);
    ConcatAssoc(s.userRead + s.input, bytes, UpBytes(t.up));
    assert s.input + [] == s.input;
  }

  lemma MessageTakenGood(s: Sys, t: Sys, m: Up)
    requires Good(s) && MessageTaken(s, t, m)
    ensures Good(t)
  {
    MessageTakenDelivered(s, t, m);
    MessageSums(s, t, m);
    hide UpBytes, UpCredits, DownBytes, DownCredits, Delivered;
  }

  lemma SendByteGood(s: Sys)
    requires Good(s) && s.pc.Sending? && s.pc.left != []
    ensures Good(SendByteEffect(s))
  {
    var b := s.pc.left[0];
    DownSums(s.down, [DownData(b)]);
    DownSumsOfOne(DownData(b));
    var sent, rest := s.logicGot + DownBytes(s.down), s.pc.left[1..] + s.output;
    assert s.Left() + s.output == [b] + rest;
    ConcatAssoc(s.logicGot, DownBytes(s.down), [b]);
    ConcatAssoc(sent, [b], rest);
  }

  lemma SendCreditGood(s: Sys)
    requires Good(s) && s.pc.Granting?
    ensures Good(SendCreditEffect(s))
  {
    DownSums(s.down, [DownCredit(s.pc.n)]);
    DownSumsOfOne(DownCredit(s.pc.n));
    assert DownBytes(s.down) + [] == DownBytes(s.down);
  }

  lemma TakeOutputGood(s: Sys)
    requires Good(s) && s.pc.WritePart?
    ensures Good(TakeOutputEffect(s))
  {
    var t := TakeOutputEffect(s);
    assert s.Left() + s.output == t.Left() + t.output;
  }

  lemma LookAtRoomGood(s: Sys)
    requires Good(s) && s.pc.Top?
    ensures Good(LookAtRoomEffect(s))
  {
  }

  lemma GoToWritePartGood(s: Sys)
    requires Good(s) && (s.pc.FullRead? || s.pc.ChunkRead? || s.pc.Parsing?)
    ensures Good(s.(pc := WritePart))
  {
  }

  lemma ReadChunkGood(s: Sys, size: nat)
    requires Good(s) && s.pc.ChunkRead? && size <= |s.toHost|
    ensures Good(ReadChunkEffect(s, size))
  {
  }

  lemma SendDoneGood(s: Sys)
    requires Good(s) && s.pc.Sending? && s.pc.left == []
    ensures s.pc.size <= s.debt && Good(SendDoneEffect(s))
  {
  }

  ghost predicate MayCall(s: Sys, caller: Caller) {
    match caller
    case FromReset => s.pc.Reset?
    case FromLoop => s.pc.CreditPart?
    case FromMarkerWait => s.pc == Parsing([MARKER])
  }

  lemma ReturnGood(s: Sys, caller: Caller)
    requires Good(s) && (MayCall(s, caller) || s.pc == Granted(0, caller))
    ensures Good(Return(s, caller)) && (Framed(s) ==> Framed(Return(s, caller)))
  {
    hide Framed, UpBytes, UpCredits, DownBytes, DownCredits;
    var t := Return(s, caller);
    if Framed(s) { SameStreamsFramed(s, t); }
  }

  lemma UpdateCreditGood(s: Sys, caller: Caller)
    requires Good(s) && MayCall(s, caller)
    ensures s.Tranche() >= 0 && Good(UpdateCredit(s, caller)) && (Framed(s) ==> Framed(UpdateCredit(s, caller)))
  {
    hide Framed, UpBytes, UpCredits, DownBytes, DownCredits;
    ReturnGood(s, caller);
    if Framed(s) && s.Tranche() > 0 { SameStreamsFramed(s, s.(pc := Granting(s.Tranche(), caller))); }
  }

  lemma CountCreditGood(s: Sys)
    requires Good(s) && s.pc.Granted?
    ensures Good(CountCreditEffect(s)) && (Framed(s) ==> Framed(CountCreditEffect(s)))
  {
    hide Framed, UpBytes, UpCredits, DownBytes, DownCredits;
    var u := s.(credit := s.credit + s.pc.n, pc := Granted(0, s.pc.caller));
    if Framed(s) { SameStreamsFramed(s, u); }
    ReturnGood(u, s.pc.caller);
  }

  // ---- Every assertion holds, every step keeps the invariant ----

  /** In every state that satisfies the invariant, whatever the host does next passes the assertions
      in the source: credit is there for each data byte and the buffer has room, a full buffer is
      only ever followed by a credit message, blocking reads are satisfied, nothing underflows. */
  lemma AssertionsHold(s: Sys, a: Action)
    requires Inv(s) && Enabled(s, a)
    ensures Asserted(s, a)
  {
    hide DebtAmount;
    var stream := s.Chunk() + s.toHost;
    if stream != [] { UpLeaves(stream, s.up); }
    if a.ReadFirstCredit? || a.ReadCredit? {
      assert stream == s.toHost;
    }
  }

  lemma EmitLogicResetKeepsInv(s: Sys)
    requires Inv(s)
    ensures Inv(EmitLogicResetEffect(s))
  {
    hide Framed, Good;
    var t := EmitLogicResetEffect(s);
    var u := s.(toLogic := s.toLogic + EncodeDown(LogicReset(true)), down := s.down + [LogicReset(true)]);
    CommandGood(s, LogicReset(true), u);
    DownGrowsFramed(s, u, LogicReset(true));
    CommandGood(u, LogicReset(false), t);
    DownGrowsFramed(u, t, LogicReset(false));
  }

  lemma LogicStepKeepsInv(s: Sys, a: Action)
    requires Inv(s) && Enabled(s, a) && (a.LogicSends? || a.LogicGrants? || a.LogicReceives?)
    ensures Inv(Effect(s, a))
  {
    hide Framed, Good;
    match a
    case LogicSends(b) => LogicSendsGood(s, b); UpGrowsFramed(s, LogicSendsEffect(s, b), UpData(b));
    case LogicGrants(amount) =>
      LogicGrantsGood(s, amount); UpGrowsFramed(s, LogicGrantsEffect(s, amount), UpCredit(amount));
    case LogicReceives => LogicReceivesFramed(s, LogicReceivesEffect(s)); LogicReceivesGood(s);
  }

  lemma SendStepKeepsInv(s: Sys, a: Action)
    requires Inv(s) && Enabled(s, a) && (a.SendByte? || a.SendCredit?)
    ensures Inv(Effect(s, a))
  {
    hide Framed;
    match a
    case SendByte => SendByteGood(s); DownGrowsFramed(s, SendByteEffect(s), DownData(s.pc.left[0]));
    case SendCredit => SendCreditGood(s); DownGrowsFramed(s, SendCreditEffect(s), DownCredit(s.pc.n));
  }

  lemma ReadCreditKeepsInv(s: Sys, next: Pc)
    requires Inv(s) && (s.pc.ResetRead? || s.pc.FullRead?) && (next.Top? || next.WritePart?)
    requires UpHead(s.toHost).Complete? && UpHead(s.toHost).msg.UpCredit?
    ensures Inv(ReadCreditEffect(s, next))
  {
    ReadCreditFramed(s, next);
    MessageTakenGood(s, ReadCreditEffect(s, next), UpHead(s.toHost).msg);
  }

  lemma ParseKeepsInv(s: Sys)
    requires Inv(s) && Enabled(s, ParseMessage) && Asserted(s, ParseMessage)
    ensures Inv(ParseEffect(s))
  {
    hide Framed, Good, DecodeUp, DecodeDown;
    ParseFramed(s);
    MessageTakenGood(s, ParseEffect(s), UpHead(s.pc.chunk + s.toHost).msg);
  }

  /** Steps that leave the wires and the unparsed bytes as they are. */
  lemma LocalStepKeepsInv(s: Sys, a: Action)
    requires Inv(s) && Enabled(s, a) && (a.UserReads? || a.UserWrites? || a.TakeOutput? || a.SendDone?)
    ensures Asserted(s, a) && Inv(Effect(s, a))
  {
    hide Framed, Good;
    match a
    case UserReads(n) => UserReadsGood(s, n); SameStreamsFramed(s, UserReadsEffect(s, n));
    case UserWrites(bytes) => UserWritesGood(s, bytes); SameStreamsFramed(s, UserWritesEffect(s, bytes));
    case TakeOutput => TakeOutputGood(s); SameStreamsFramed(s, TakeOutputEffect(s));
    case SendDone => SendDoneGood(s); SameStreamsFramed(s, SendDoneEffect(s));
  }

  lemma ControlStepKeepsInv(s: Sys, a: Action)
    requires Inv(s) && Enabled(s, a) && (a.LookAtRoom? || a.ReadNothing? || a.ParseDone? || a.ReadChunk?)
    ensures Inv(Effect(s, a))
  {
    hide Framed, Good;
    match a
    case LookAtRoom => LookAtRoomGood(s); SameStreamsFramed(s, LookAtRoomEffect(s));
    case ReadNothing => GoToWritePartGood(s); SameStreamsFramed(s, s.(pc := WritePart));
    case ParseDone => GoToWritePartGood(s); SameStreamsFramed(s, s.(pc := WritePart));
    case ReadChunk(size) => ReadChunkGood(s, size); SameStreamsFramed(s, ReadChunkEffect(s, size));
  }

  lemma CreditStepKeepsInv(s: Sys, a: Action)
    requires Inv(s) && Enabled(s, a) && (a.WaitAtMarker? || a.DecideCredit? || a.CountCredit?)
    ensures Asserted(s, a) && Inv(Effect(s, a))
  {
    hide Framed;
    AssertionsHold(s, a);
    match a
    case WaitAtMarker => UpdateCreditGood(s, FromMarkerWait);
    case DecideCredit =>
      if s.pc.Reset? { UpdateCreditGood(s, FromReset); }
      else if s.credit < UART_MAX_TRANCHE { UpdateCreditGood(s, FromLoop); }
      else { ReturnGood(s, FromLoop); }
    case CountCredit => CountCreditGood(s);
  }

  /** Every action that can be taken in a state of the invariant passes the assertions of the source
      and leads to a state of the invariant. */
  lemma StepKeepsInv(s: Sys, a: Action)
    requires Inv(s) && Enabled(s, a)
    ensures Asserted(s, a) && Inv(Effect(s, a))
  {
    AssertionsHold(s, a);
    if a.LogicSends? || a.LogicGrants? || a.LogicReceives? {
      LogicStepKeepsInv(s, a);
    } else if a.SendByte? || a.SendCredit? {
      SendStepKeepsInv(s, a);
    } else if a.UserReads? || a.UserWrites? || a.TakeOutput? || a.SendDone? {
      LocalStepKeepsInv(s, a);
    } else if a.LookAtRoom? || a.ReadNothing? || a.ParseDone? || a.ReadChunk? {
      ControlStepKeepsInv(s, a);
    } else if a.WaitAtMarker? || a.DecideCredit? || a.CountCredit? {
      CreditStepKeepsInv(s, a);
    } else if a.EmitLogicReset? {
      EmitLogicResetKeepsInv(s);
    } else if a.ParseMessage? {
      ParseKeepsInv(s);
    } else {
      ReadCreditKeepsInv(s, if a.ReadFirstCredit? then Top else WritePart);
    }
  }

  lemma EmptyStreams()
    ensures DecodeUp([]) == Parsed([], []) && DecodeDown([]) == Parsed([], [])
  {
  }

  lemma InitKeepsInv(firstCredit: nat)
    requires firstCredit <= 0x7fff
    ensures Inv(Init(firstCredit))
  {
    EmptyStreams();
    hide DebtAmount, DecodeUp, DecodeDown, EncodeUp;
    var s := Init(firstCredit);
    assert [] + s.toHost == EncodeUp(UpCredit(firstCredit));
    DecodeUpOne(UpCredit(firstCredit));
    UpSumsOfOne(UpCredit(firstCredit));
  }

  // ---- Runs ----

  function Step(s: Sys, a: Action): (t: Sys)
    requires Inv(s) && Enabled(s, a)
    ensures Asserted(s, a) && Inv(t)
  {
    StepKeepsInv(s, a);
    Effect(s, a)
  }

  function Start(firstCredit: nat): (s: Sys)
    requires firstCredit <= 0x7fff
    ensures Inv(s)
  {
    InitKeepsInv(firstCredit);
    Init(firstCredit)
  }

  ghost predicate IsRun(s: Sys, actions: seq<Action>)
    requires Inv(s)
    decreases actions
  {
    actions == [] || (Enabled(s, actions[0]) && IsRun(Step(s, actions[0]), actions[1..]))
  }

  ghost function Final(s: Sys, actions: seq<Action>): (t: Sys)
    requires Inv(s) && IsRun(s, actions)
    ensures Inv(t)
    decreases actions
  {
    if actions == [] then s else Final(Step(s, actions[0]), actions[1..])
  }

  /** One more step of a run. */
  lemma {:induction false} RunSteps(s: Sys, actions: seq<Action>, a: Action)
    requires Inv(s) && IsRun(s, actions) && Enabled(Final(s, actions), a)
    ensures IsRun(s, actions + [a]) && Final(s, actions + [a]) == Step(Final(s, actions), a)
    decreases actions
  {
    hide Inv, Step, Enabled;
    if actions == [] {
      assert ([] + [a])[1..] == [];
    } else {
      var rest := actions[1..];
      RunSteps(Step(s, actions[0]), rest, a);
      assert (actions + [a])[1..] == rest + [a];
    }
  }

  /** `s` is where the run `actions` from a fresh context leads. */
  ghost predicate Reached(firstCredit: nat, actions: seq<Action>, s: Sys) {
    firstCredit <= 0x7fff && IsRun(Start(firstCredit), actions) && s == Final(Start(firstCredit), actions)
  }

  lemma ReachesOn(firstCredit: nat, actions: seq<Action>, s: Sys, a: Action)
    requires Reached(firstCredit, actions, s) && Inv(s) && Enabled(s, a)
    ensures Reached(firstCredit, actions + [a], Step(s, a))
  {
    hide Inv, Step, Enabled, Start, IsRun, Final;
    RunSteps(Start(firstCredit), actions, a);
  }

  // ---- What has happened stays happened ----

  /** From `s` to `t` histories only grow: what was read, written, sent, received, granted and parsed, the
      data on its way to the logic, the data stored for the user, and what has come over the wire. */
  ghost predicate HistoryKept(s: Sys, t: Sys) {
    && s.userRead <= t.userRead && s.userWritten <= t.userWritten && s.logicSent <= t.logicSent
    && s.logicGot <= t.logicGot && s.logicGranted <= t.logicGranted && s.rounds <= t.rounds
    && s.parsed <= t.parsed && s.done <= t.done
    && s.Emitted().data <= t.Emitted().data && s.Emitted().resets <= t.Emitted().resets
    && s.Stored() <= t.Stored() && s.Stream() <= t.Stream()
  }

  lemma {:induction false} DownResetsOf(a: seq<Down>, b: seq<Down>)
    ensures DownResets(a + b) == DownResets(a) + DownResets(b)
  {
    if a == [] {
      assert a + b == b;
    } else {
      assert (a + b)[0] == a[0] && (a + b)[1..] == a[1..] + b;
      DownResetsOf(a[1..], b);
    }
  }

  /** What a message adds to what is emitted. */
  function DataOf(m: Down): seq<Byte> { if m.DownData? then [m.b] else [] }
  function ResetOf(m: Down): seq<bool> { if m.LogicReset? then [m.state] else [] }

  /** Sending a message appends what it carries to what was emitted, receiving one changes nothing there. */
  lemma EmittedBySending(s: Sys, t: Sys, m: Down)
    requires t.logicGot == s.logicGot && t.resetsGot == s.resetsGot && t.down == s.down + [m]
    ensures t.Emitted() == Emission(s.Emitted().data + DataOf(m), s.Emitted().resets + ResetOf(m))
  {
    DownSums(s.down, [m]);
    DownSumsOfOne(m);
    DownResetsOf(s.down, [m]);
    assert [m][1..] == [];
    ConcatAssoc(s.logicGot, DownBytes(s.down), DownBytes([m]));
    ConcatAssoc(s.resetsGot, DownResets(s.down), DownResets([m]));
  }

  lemma EmittedByReceiving(s: Sys)
    requires Inv(s) && DownHead(s.toLogic).Complete?
    ensures LogicReceivesEffect(s).Emitted() == s.Emitted()
  {
    hide DownHead, UpHead, DecodeUp, EncodeUp, EncodeDown;
    DownLeaves(s.toLogic, s.down);
    var m, rest := s.down[0], s.down[1..];
    ConcatAssoc(s.logicGot, DataOf(m), DownBytes(rest));
    ConcatAssoc(s.resetsGot, ResetOf(m), DownResets(rest));
    assert s.logicGot + [] == s.logicGot && s.resetsGot + [] == s.resetsGot;
  }

  lemma LogicStepKeepsHistory(s: Sys, a: Action)
    requires Inv(s) && Enabled(s, a) && (a.LogicSends? || a.LogicGrants? || a.LogicReceives?)
    ensures Asserted(s, a) && HistoryKept(s, Effect(s, a))
  {
    hide Inv, DownHead, UpHead, EncodeUp, EncodeDown, DownBytes;
    var t := Effect(s, a);
    if a.LogicReceives? {
      EmittedByReceiving(s);
    } else {
      ConcatAssoc(s.Chunk(), s.toHost, t.toHost[|s.toHost|..]);
      ConcatAssoc(s.parsed, s.Chunk() + s.toHost, t.toHost[|s.toHost|..]);
    }
  }

  lemma SendStepKeepsHistory(s: Sys, a: Action)
    requires Inv(s) && Enabled(s, a) && (a.SendByte? || a.SendCredit? || a.EmitLogicReset?)
    ensures Asserted(s, a) && HistoryKept(s, Effect(s, a))
  {
    hide Inv, DownHead, UpHead, EncodeUp, EncodeDown, DownBytes;
    var t := Effect(s, a);
    match a
    case SendByte => EmittedBySending(s, t, DownData(s.pc.left[0]));
    case SendCredit => EmittedBySending(s, t, DownCredit(s.pc.n));
    case EmitLogicReset =>
      var u := s.(down := s.down + [LogicReset(true)]);
      EmittedBySending(s, u, LogicReset(true));
      EmittedBySending(u, t, LogicReset(false));
  }

  /** `k` bytes of the stream become parsed. */
  lemma StreamMoves(s: Sys, t: Sys, k: nat)
    requires k <= |s.Chunk() + s.toHost|
    requires t.parsed == s.parsed + (s.Chunk() + s.toHost)[..k] && t.Chunk() + t.toHost == (s.Chunk() + s.toHost)[k..]
    ensures t.Stream() == s.Stream()
  {
    hide Sys.Chunk;
    var stream := s.Chunk() + s.toHost;
    assert stream[..k] + stream[k..] == stream;
    ConcatAssoc(s.parsed, stream[..k], stream[k..]);
  }

  lemma ParseKeepsHistory(s: Sys)
    requires Enabled(s, ParseMessage) && Asserted(s, ParseMessage)
    ensures HistoryKept(s, ParseEffect(s))
  {
    ParseMovesStream(s);
    StreamMoves(s, ParseEffect(s), UpHead(s.pc.chunk + s.toHost).len);
    hide UpHead, DownBytes;
  }

  lemma ReadCreditKeepsHistory(s: Sys, next: Pc)
    requires s.Chunk() == [] && (next.Top? || next.WritePart?)
    requires UpHead(s.toHost).Complete? && UpHead(s.toHost).msg.UpCredit?
    ensures HistoryKept(s, ReadCreditEffect(s, next))
  {
    assert [] + s.toHost == s.toHost;
    StreamMoves(s, ReadCreditEffect(s, next), UpHead(s.toHost).len);
    hide UpHead, DownBytes;
  }

  lemma ReadChunkKeepsHistory(s: Sys, size: nat)
    requires s.pc.ChunkRead? && size <= |s.toHost|
    ensures HistoryKept(s, ReadChunkEffect(s, size))
  {
    hide DownBytes;
    var t := ReadChunkEffect(s, size);
    assert t.Chunk() + t.toHost == s.Chunk() + s.toHost;
  }

  lemma ReadStepKeepsHistory(s: Sys, a: Action)
    requires Inv(s) && Enabled(s, a) && (a.ReadFirstCredit? || a.ReadCredit? || a.ReadChunk? || a.ParseMessage?)
    ensures Asserted(s, a) && HistoryKept(s, Effect(s, a))
  {
    hide Inv, HistoryKept, UpHead;
    AssertionsHold(s, a);
    match a
    case ReadFirstCredit => ReadCreditKeepsHistory(s, Top);
    case ReadCredit => ReadCreditKeepsHistory(s, WritePart);
    case ReadChunk(size) => ReadChunkKeepsHistory(s, size);
    case ParseMessage => ParseKeepsHistory(s);
  }

  lemma OtherStepKeepsHistory(s: Sys, a: Action)
    requires Inv(s) && Enabled(s, a) && Asserted(s, a)
    requires !a.LogicSends? && !a.LogicGrants? && !a.LogicReceives? && !a.SendByte? && !a.SendCredit?
    requires !a.EmitLogicReset? && !a.ReadFirstCredit? && !a.ReadCredit? && !a.ReadChunk? && !a.ParseMessage?
    ensures HistoryKept(s, Effect(s, a))
  {
    hide Inv, DownHead, UpHead, EncodeUp, EncodeDown, DownBytes;
    if a.UserReads? || a.UserWrites? {
      var t := Effect(s, a);
      assert t.Stored() == s.Stored();
    } else {
      OtherStepLeavesStreams(s, a);
      LeftAlone(s, Effect(s, a));
    }
  }

  /** Only control, `credit`, `debt`, the output buffer and the round counter may differ. */
  ghost predicate StreamsLeft(s: Sys, t: Sys) {
    && t.Chunk() == s.Chunk() && s.rounds <= t.rounds
    && t == s.(pc := t.pc, credit := t.credit, debt := t.debt, output := t.output, rounds := t.rounds)
  }

  lemma LeftAlone(s: Sys, t: Sys)
    requires StreamsLeft(s, t)
    ensures HistoryKept(s, t)
  {
  }

  lemma OtherStepLeavesStreams(s: Sys, a: Action)
    requires Enabled(s, a) && Asserted(s, a)
    requires !a.LogicSends? && !a.LogicGrants? && !a.LogicReceives? && !a.SendByte? && !a.SendCredit?
    requires !a.EmitLogicReset? && !a.ReadFirstCredit? && !a.ReadCredit? && !a.ReadChunk? && !a.ParseMessage?
    requires !a.UserReads? && !a.UserWrites?
    ensures StreamsLeft(s, Effect(s, a))
  {
    hide DownHead, UpHead, EncodeUp, EncodeDown, DownBytes;
  }

  lemma StepKeepsHistory(s: Sys, a: Action)
    requires Inv(s) && Enabled(s, a)
    ensures HistoryKept(s, Step(s, a))
  {
    hide Inv, HistoryKept;
    AssertionsHold(s, a);
    if a.LogicSends? || a.LogicGrants? || a.LogicReceives? {
      LogicStepKeepsHistory(s, a);
    } else if a.SendByte? || a.SendCredit? || a.EmitLogicReset? {
      SendStepKeepsHistory(s, a);
    } else if a.ReadFirstCredit? || a.ReadCredit? || a.ReadChunk? || a.ParseMessage? {
      ReadStepKeepsHistory(s, a);
    } else {
      OtherStepKeepsHistory(s, a);
    }
  }

  lemma {:induction false} RunKeepsHistory(s: Sys, actions: seq<Action>)
    requires Inv(s) && IsRun(s, actions)
    ensures HistoryKept(s, Final(s, actions))
    decreases actions
  {
    hide Inv, Step, Enabled, DownBytes;
    if actions != [] {
      StepKeepsHistory(s, actions[0]);
      RunKeepsHistory(Step(s, actions[0]), actions[1..]);
    }
  }

  lemma {:induction false} RunsJoin(s: Sys, actions: seq<Action>, more: seq<Action>)
    requires Inv(s) && IsRun(s, actions + more)
    ensures IsRun(s, actions) && IsRun(Final(s, actions), more)
    ensures Final(s, actions + more) == Final(Final(s, actions), more)
    decreases actions
  {
    hide Inv, Step, Enabled;
    if actions == [] {
      assert [] + more == more;
    } else {
      assert (actions + more)[1..] == actions[1..] + more;
      RunsJoin(Step(s, actions[0]), actions[1..], more);
    }
  }

  /** A longer run forgets nothing of a shorter one. */
  lemma LongerRunKeepsHistory(firstCredit: nat, actions: seq<Action>, s: Sys, longer: seq<Action>, t: Sys)
    requires Reached(firstCredit, actions, s) && Reached(firstCredit, longer, t) && actions <= longer
    ensures HistoryKept(s, t)
  {
    hide Inv, HistoryKept, IsRun, Final, Start;
    var more := longer[|actions|..];
    assert longer == actions + more;
    RunsJoin(Start(firstCredit), actions, more);
    RunKeepsHistory(s, more);
  }

  // ---- The resets of the logic ----

  /** A step puts nothing on the wire to the logic but the byte it sends, or the two reset messages. */
  lemma StepEmits(s: Sys, a: Action)
    requires Inv(s) && Enabled(s, a)
    ensures var t := Step(s, a);
      && t.Emitted().data == s.Emitted().data + (if a.SendByte? then [s.pc.left[0]] else [])
      && t.Emitted().resets == s.Emitted().resets + (if a.EmitLogicReset? then [true, false] else [])
  {
    hide Inv, DownHead, UpHead, EncodeUp, EncodeDown, DownBytes, DownResets;
    AssertionsHold(s, a);
    var data, resets := s.Emitted().data, s.Emitted().resets;
    assert data + [] == data && resets + [] == resets;
    if a.LogicReceives? {
      EmittedByReceiving(s);
    } else if a.SendByte? || a.SendCredit? || a.EmitLogicReset? {
      SendStepEmits(s, a);
    } else {
      StepLeavesEmission(s, a);
    }
  }

  lemma SendStepEmits(s: Sys, a: Action)
    requires Enabled(s, a) && Asserted(s, a) && (a.SendByte? || a.SendCredit? || a.EmitLogicReset?)
    ensures var t := Effect(s, a);
      && t.Emitted().data == s.Emitted().data + (if a.SendByte? then [s.pc.left[0]] else [])
      && t.Emitted().resets == s.Emitted().resets + (if a.EmitLogicReset? then [true, false] else [])
  {
    hide DownHead, UpHead, EncodeUp, EncodeDown, DownBytes, DownResets;
    var t := Effect(s, a);
    var data, resets := s.Emitted().data, s.Emitted().resets;
    assert data + [] == data && resets + [] == resets;
    match a
    case SendByte => EmittedBySending(s, t, DownData(s.pc.left[0]));
    case SendCredit => EmittedBySending(s, t, DownCredit(s.pc.n));
    case EmitLogicReset =>
      var u := s.(down := s.down + [LogicReset(true)]);
      EmittedBySending(s, u, LogicReset(true));
      EmittedBySending(u, t, LogicReset(false));
      ConcatAssoc(resets, [true], [false]);
  }

  lemma StepLeavesEmission(s: Sys, a: Action)
    requires Enabled(s, a) && Asserted(s, a)
    requires !a.SendByte? && !a.SendCredit? && !a.EmitLogicReset? && !a.LogicReceives?
    ensures var t := Effect(s, a); t.down == s.down && t.logicGot == s.logicGot && t.resetsGot == s.resetsGot
  {
    hide DownHead, UpHead, EncodeUp, EncodeDown;
  }

  /** `n` times asserted and released. */
  function Pulses(n: nat): (levels: seq<bool>)
    ensures |levels| == 2 * n && forall i :: 0 <= i < |levels| ==> levels[i] == (i % 2 == 0)
  {
    if n == 0 then [] else Pulses(n - 1) + [true, false]
  }

  function ResetRequests(actions: seq<Action>): nat {
    if actions == [] then 0 else (if actions[0].EmitLogicReset? then 1 else 0) + ResetRequests(actions[1..])
  }

  lemma {:induction false} RunResets(s: Sys, actions: seq<Action>, n: nat)
    requires Inv(s) && IsRun(s, actions) && s.Emitted().resets == Pulses(n)
    ensures Final(s, actions).Emitted().resets == Pulses(n + ResetRequests(actions))
    decreases actions
  {
    hide Inv, Step, Enabled, DownResets, DownBytes;
    if actions != [] {
      StepEmits(s, actions[0]);
      if actions[0].EmitLogicReset? {
        RunResets(Step(s, actions[0]), actions[1..], n + 1);
      } else {
        RunResets(Step(s, actions[0]), actions[1..], n);
      }
    }
  }

  /** Over every run the levels of the logic's reset put on the wire are one pulse for each request, asserted
      and then released, and the logic has got a front of them; so the last one sent releases the reset. */
  lemma ResetsArePulses(firstCredit: nat, actions: seq<Action>, s: Sys)
    requires Reached(firstCredit, actions, s)
    ensures s.Emitted().resets == Pulses(ResetRequests(actions)) && s.resetsGot <= s.Emitted().resets
    ensures s.Emitted().resets != [] ==> !s.Emitted().resets[|s.Emitted().resets| - 1]
  {
    hide Inv, Start, IsRun, Final, DownResets, DownBytes;
    StartHasNoResets(firstCredit);
    RunResets(Start(firstCredit), actions, 0);
  }

  lemma StartHasNoResets(firstCredit: nat)
    requires firstCredit <= 0x7fff
    ensures Start(firstCredit).Emitted().resets == []
  {
    hide Inv, EncodeUp, DownBytes;
  }

  /** The bytes on the wire to the logic are the messages in flight. */
  lemma DownIsDecoded(s: Sys)
    requires Inv(s)
    ensures DecodeDown(s.toLogic) == Parsed(s.down, [])
  {
    hide Good, DecodeUp, DecodeDown;
  }

  // ---- The guarantees over every run ----

  /** The credit counter is exactly what the logic may still send and what is on the wires, it never
      exceeds the room in the input buffer, and the data the host has put on the wire never exceeds what
      the logic granted. */
  ghost predicate WithinCredit(t: Sys) {
    && (!t.pc.Granted? ==> t.credit == t.logicCredit + DownCredits(t.down) + |UpBytes(t.up)|)
    && t.credit <= UART_BUF_SIZE - |t.input|
    && |t.Emitted().data| <= t.logicGranted
    && (!t.pc.Sending? ==> t.debt == t.logicGranted - UpCredits(t.up) - |t.Emitted().data|)
    && (|t.input| == UART_BUF_SIZE ==> UpBytes(t.up) == [])
  }

  /** What the user has read, what waits in the input buffer and what is on its way is what the logic
      sent, in order; and the same from the user to the logic. */
  ghost predicate Lossless(t: Sys) {
    && t.logicSent == t.userRead + t.input + UpBytes(t.up)
    && t.userWritten == t.logicGot + DownBytes(t.down) + (t.Left() + t.output)
    && t.userRead <= t.logicSent && t.logicGot <= t.userWritten
  }

  /** What the host has stored and added to `debt` is the effect of a one-pass decoder on the bytes it has
      parsed. */
  ghost predicate DecodedInOnePass(t: Sys) {
    && t.Stored() == UpBytes(DecodeUp(t.parsed).msgs)
    && t.DebtReceived() == UpCredits(DecodeUp(t.parsed).msgs)
    && DecodeUp(t.parsed).rest == []
  }

  /** Flow control over every run from a fresh context. */
  lemma FlowControl(firstCredit: nat, actions: seq<Action>)
    requires firstCredit <= 0x7fff && IsRun(Start(firstCredit), actions)
    ensures WithinCredit(Final(Start(firstCredit), actions))
  {
    hide Framed, Delivered, Start, Step, Enabled, UpBytes, UpCredits, DownBytes, DownCredits;
  }

  /** Delivery over every run from a fresh context. */
  lemma EndToEnd(firstCredit: nat, actions: seq<Action>)
    requires firstCredit <= 0x7fff && IsRun(Start(firstCredit), actions)
    ensures Lossless(Final(Start(firstCredit), actions))
  {
    hide Framed, Start, Step, Enabled, UpBytes, DownBytes;
    var t := Final(Start(firstCredit), actions);
    ConcatAssoc(t.userRead, t.input, UpBytes(t.up));
    ConcatAssoc(t.logicGot, DownBytes(t.down), t.Left() + t.output);
  }

  /** Chunk independence over every run: what the host stores and adds to `debt` is decided by the bytes
      parsed, however the reads cut them. Two runs that parsed the same bytes agree on both. */
  lemma ChunksDoNotMatter(firstCredit: nat, actions: seq<Action>, firstCredit': nat, actions': seq<Action>)
    requires firstCredit <= 0x7fff && IsRun(Start(firstCredit), actions)
    requires firstCredit' <= 0x7fff && IsRun(Start(firstCredit'), actions')
    requires Final(Start(firstCredit), actions).parsed == Final(Start(firstCredit'), actions').parsed
    ensures var t, t' := Final(Start(firstCredit), actions), Final(Start(firstCredit'), actions');
      DecodedInOnePass(t) && t'.Stored() == t.Stored() && t'.DebtReceived() == t.DebtReceived()
  {
    hide DecodeUp, DecodeDown, EncodeUp, UpHead, DownHead, ControlFacts, Step, Init;
  }

  /** The three guarantees for a state that a run has reached. */
  lemma ReachedKeepsPromises(firstCredit: nat, actions: seq<Action>, s: Sys)
    requires Reached(firstCredit, actions, s)
    ensures WithinCredit(s) && Lossless(s) && DecodedInOnePass(s)
  {
    hide WithinCredit, Lossless, DecodedInOnePass, Inv, IsRun, Final, Start;
    FlowControl(firstCredit, actions);
    EndToEnd(firstCredit, actions);
    ChunksDoNotMatter(firstCredit, actions, firstCredit, actions);
  }
}
