/** The bytes on the UART wires: data with 0xfe doubled, credit messages in both directions and the
    two reset messages of the host. */
module UartWire {
  import opened Bits

  const MARKER: Byte := 0xfe

  /** The largest credit one message of the host can carry. */
  const UART_MAX_TRANCHE := 0x3fff

  /** Messages from the logic to the host. */
  datatype Up = UpData(b: Byte) | UpCredit(n: nat)

  /** Messages from the host to the logic. */
  datatype Down = DownData(b: Byte) | DownCredit(n: nat) | LogicReset(state: bool) | ComReset(state: bool)

  /** The first complete message of a byte stream, with its length on the wire. */
  datatype Head<M> = Incomplete | Complete(msg: M, len: nat)

  datatype Parsed<M> = Parsed(msgs: seq<M>, rest: seq<Byte>)

  // ---- The code's packing and unpacking ----

  /** credit[1] of update_credit, stored in a uint8_t. */
  function CreditHigh(n: nat): Byte { BitOr(1, (n / 256) * 2) % 256 }

  /** credit[2] of update_credit. */
  function CreditLow(n: nat): Byte { BitAnd(n, 0xff) % 256 }

  /** The amount update_debt adds for the two bytes after the marker. */
  function DebtAmount(first: Byte, second: Byte): nat { BitOr(BitAnd(first / 2, 0x7f) * 256, second) }

  /** reset[1] of reset_logic and of reset_com. */
  function ResetByte(state: nat, command: Byte): Byte { BitOr(BitAnd(state, 1) * 2, command) % 256 }

  const RESET_LOGIC: Byte := 0x81
  const RESET_COM: Byte := 0x85

  // ---- Encoders ----

  function EscapedData(b: Byte): seq<Byte> { if b == MARKER then [MARKER, MARKER] else [b] }

  function CreditMessage(n: nat): seq<Byte> { [MARKER, CreditHigh(n), CreditLow(n)] }

  function EncodeUp(m: Up): (e: seq<Byte>)
    ensures e != []
  {
    match m case UpData(b) => EscapedData(b) case UpCredit(n) => CreditMessage(n)
  }

  function EncodeDown(m: Down): (e: seq<Byte>)
    ensures e != []
  {
    match m
    case DownData(b) => EscapedData(b)
    case DownCredit(n) => CreditMessage(n)
    case LogicReset(state) => [MARKER, ResetByte(if state then 1 else 0, RESET_LOGIC)]
    case ComReset(state) => [MARKER, ResetByte(if state then 1 else 0, RESET_COM)]
  }

  function EncodeAll(msgs: seq<Down>): seq<Byte> {
    if msgs == [] then [] else EncodeDown(msgs[0]) + EncodeAll(msgs[1..])
  }

  // ---- Decoders ----

  /** What parse_buffer takes for the first message: anything but 0xfe after the marker starts a
      credit message. */
  function UpHead(s: seq<Byte>): (h: Head<Up>)
    ensures h.Complete? ==> 1 <= h.len <= 3 && h.len <= |s|
  {
    if s == [] then Incomplete
    else if s[0] != MARKER then Complete(UpData(s[0]), 1)
    else if |s| < 2 then Incomplete
    else if s[1] == MARKER then Complete(UpData(MARKER), 2)
    else if |s| < 3 then Incomplete
    else Complete(UpCredit(DebtAmount(s[1], s[2])), 3)
  }

  /** The logic's side of the protocol description: after the marker a cleared top bit starts a
      credit message, a set top bit is a one-byte reset command. */
  function DownHead(s: seq<Byte>): (h: Head<Down>)
    ensures h.Complete? ==> 1 <= h.len <= 3 && h.len <= |s|
  {
    if s == [] then Incomplete
    else if s[0] != MARKER then Complete(DownData(s[0]), 1)
    else if |s| < 2 then Incomplete
    else if s[1] == MARKER then Complete(DownData(MARKER), 2)
    else if s[1] >= 0x80 then
      Complete(if s[1] / 4 % 2 == 0 then LogicReset(s[1] / 2 % 2 == 1) else ComReset(s[1] / 2 % 2 == 1), 2)
    else if |s| < 3 then Incomplete
    else Complete(DownCredit((s[1] as int) / 2 * 256 + s[2]), 3)
  }

  function DecodeUp(s: seq<Byte>): Parsed<Up>
    decreases |s|
  {
    match UpHead(s)
    case Incomplete => Parsed([], s)
    case Complete(m, len) => var tail := DecodeUp(s[len..]); Parsed([m] + tail.msgs, tail.rest)
  }

  function DecodeDown(s: seq<Byte>): Parsed<Down>
    decreases |s|
  {
    match DownHead(s)
    case Incomplete => Parsed([], s)
    case Complete(m, len) => var tail := DecodeDown(s[len..]); Parsed([m] + tail.msgs, tail.rest)
  }

  // ---- Packing facts ----

  lemma PackingIsArithmetic(n: nat)
    requires n <= 0x7fff
    ensures CreditHigh(n) == 1 + 2 * (n / 256) && CreditLow(n) == n % 256
  {
    SmallPowers();
    OrIsSum(n / 256, 1, 1);
    MaskIsMod(n, 8);
  }

  lemma MaskedAndShifted(high: nat, bits: nat, low: nat, shift: nat)
    requires high < Pow2(bits) && low < Pow2(shift)
    ensures BitOr(BitAnd(high, Pow2(bits) - 1) * Pow2(shift), low) == high * Pow2(shift) + low
  {
    MaskIsMod(high, bits);
    ModSmall(high, Pow2(bits));
    OrIsSum(high, low, shift);
  }

  lemma DebtIsArithmetic(first: Byte, second: Byte)
    ensures DebtAmount(first, second) == (first as int) / 2 * 256 + second
  {
    SmallPowers();
    MaskedAndShifted(first / 2, 7, second, 8);
  }

  /** update_debt inverts update_credit's packing for every value of 15 bits, and the byte after the
      marker is odd, so it is never mistaken for a doubled marker. */
  lemma CreditRoundTrip(n: nat)
    requires n <= 0x7fff
    ensures DebtAmount(CreditHigh(n), CreditLow(n)) == n
    ensures CreditHigh(n) % 2 == 1 && CreditHigh(n) != MARKER
    ensures CreditHigh(n) < 0x80 <==> n <= UART_MAX_TRANCHE
  {
    PackingIsArithmetic(n);
    DebtIsArithmetic(CreditHigh(n), CreditLow(n));
  }

  lemma ResetBytes()
    ensures ResetByte(0, RESET_LOGIC) == 0x81 && ResetByte(1, RESET_LOGIC) == 0x83
    ensures ResetByte(0, RESET_COM) == 0x85 && ResetByte(1, RESET_COM) == 0x87
  {
    assert BitOr(2, 0x81) == 0x83 by { assert BitOr(1, 0x40) == 0x41; }
    assert BitOr(2, 0x85) == 0x87 by { assert BitOr(1, 0x42) == 0x43 by { assert BitOr(0, 0x21) == 0x21; } }
  }

  // ---- Messages on a stream ----

  ghost predicate Sendable(m: Down) { m.DownCredit? ==> m.n <= UART_MAX_TRANCHE }

  lemma UpHeadOfMessage(m: Up, s: seq<Byte>)
    requires m.UpCredit? ==> m.n <= 0x7fff
    ensures UpHead(EncodeUp(m) + s) == Complete(m, |EncodeUp(m)|)
  {
    if m.UpCredit? { CreditRoundTrip(m.n); }
  }

  lemma DownHeadOfMessage(m: Down, s: seq<Byte>)
    requires Sendable(m)
    ensures DownHead(EncodeDown(m) + s) == Complete(m, |EncodeDown(m)|)
  {
    if m.DownCredit? {
      CreditRoundTrip(m.n);
      PackingIsArithmetic(m.n);
    }
    ResetBytes();
  }

  /** More bytes behind a complete message do not change it. */
  lemma UpHeadExtends(s: seq<Byte>, t: seq<Byte>)
    requires UpHead(s).Complete?
    ensures UpHead(s + t) == UpHead(s)
  {
  }

  lemma DownHeadExtends(s: seq<Byte>, t: seq<Byte>)
    requires DownHead(s).Complete?
    ensures DownHead(s + t) == DownHead(s)
  {
  }

  /** Decoding a stream cut anywhere: what the first part leaves over goes in front of the second. */
  lemma {:induction false} DecodeUpAppend(s: seq<Byte>, t: seq<Byte>)
    ensures DecodeUp(s + t).msgs == DecodeUp(s).msgs + DecodeUp(DecodeUp(s).rest + t).msgs
    ensures DecodeUp(s + t).rest == DecodeUp(DecodeUp(s).rest + t).rest
    decreases |s|
  {
    hide UpHead;
    if UpHead(s).Complete? {
      UpHeadExtends(s, t);
      var len, first := UpHead(s).len, [UpHead(s).msg];
      assert (s + t)[len..] == s[len..] + t;
      DecodeUpAppend(s[len..], t);
      assert DecodeUp(s + t).msgs == first + DecodeUp(s[len..] + t).msgs;
      ConcatAssoc(first, DecodeUp(s[len..]).msgs, DecodeUp(DecodeUp(s).rest + t).msgs);
    }
  }

  lemma {:induction false} DecodeDownAppend(s: seq<Byte>, t: seq<Byte>)
    ensures DecodeDown(s + t).msgs == DecodeDown(s).msgs + DecodeDown(DecodeDown(s).rest + t).msgs
    ensures DecodeDown(s + t).rest == DecodeDown(DecodeDown(s).rest + t).rest
    decreases |s|
  {
    hide DownHead;
    if DownHead(s).Complete? {
      DownHeadExtends(s, t);
      var len, first := DownHead(s).len, [DownHead(s).msg];
      assert (s + t)[len..] == s[len..] + t;
      DecodeDownAppend(s[len..], t);
      assert DecodeDown(s + t).msgs == first + DecodeDown(s[len..] + t).msgs;
      ConcatAssoc(first, DecodeDown(s[len..]).msgs, DecodeDown(DecodeDown(s).rest + t).msgs);
    }
  }

  lemma DecodeUpOne(m: Up)
    requires m.UpCredit? ==> m.n <= 0x7fff
    ensures DecodeUp(EncodeUp(m)) == Parsed([m], [])
  {
    UpHeadOfMessage(m, []);
    assert EncodeUp(m) + [] == EncodeUp(m);
  }

  lemma DecodeDownOne(m: Down)
    requires Sendable(m)
    ensures DecodeDown(EncodeDown(m)) == Parsed([m], [])
  {
    DownHeadOfMessage(m, []);
    assert EncodeDown(m) + [] == EncodeDown(m);
  }

  /** Round trip of the host's wire: any sequence of data bytes, grants up to 0x3fff and resets is
      decoded back to exactly that sequence, with nothing left over. */
  lemma {:induction false} WireRoundTrip(msgs: seq<Down>)
    requires forall i :: 0 <= i < |msgs| ==> Sendable(msgs[i])
    ensures DecodeDown(EncodeAll(msgs)) == Parsed(msgs, [])
  {
    if msgs != [] {
      DownHeadOfMessage(msgs[0], EncodeAll(msgs[1..]));
      var s := EncodeAll(msgs);
      assert s[|EncodeDown(msgs[0])|..] == EncodeAll(msgs[1..]);
      WireRoundTrip(msgs[1..]);
    }
  }

  /** Hence no two sequences share an encoding. */
  lemma EncodingIsUnique(a: seq<Down>, b: seq<Down>)
    requires forall i :: 0 <= i < |a| ==> Sendable(a[i])
    requires forall i :: 0 <= i < |b| ==> Sendable(b[i])
    requires EncodeAll(a) == EncodeAll(b)
    ensures a == b
  {
    WireRoundTrip(a);
    WireRoundTrip(b);
  }
}
