/** The simulation's end of the TCP interface: bytes from the socket are assembled to words, words from
    the logic are split to bytes, as far as the queues allow in each cycle. The socket's thread may act
    between any two uses of a queue. */
module GlipTcp {
  import opened Bits
  import opened TcpWords

  const CONTROL_AVAILABLE := 1
  const INCOMING_AVAILABLE := 2
  const OUTGOING_READY := 4
  const QUEUE_SIZE := 1 * 1024 * 1024

  datatype TempStorage = TempStorage(valid: bool, partial: nat, value: nat)

  const CLEARED := TempStorage(false, 0, 0)

  /** Where byte `m` of the control stream goes: every message starts with its high byte. */
  function ControlShift(m: nat): nat { (1 - m % 2) * 8 }

  /** What a control item holds after `bytes`: its value is not cleared between messages. */
  function ControlValue(bytes: seq<Byte>): nat {
    if bytes == [] then 0 else
      var m := |bytes| - 1;
      BitOr(ControlValue(bytes[..m]), Shl(bytes[m], ControlShift(m)))
  }

  lemma NextControlByte(bytes: seq<Byte>, data: Byte)
    ensures ControlValue(bytes + [data]) == BitOr(ControlValue(bytes), Shl(data, ControlShift(|bytes|)))
  {
    hide BitOr, Shl, ControlShift;
    var s := bytes + [data];
    assert |s| - 1 == |bytes| && s[..|bytes|] == bytes && s[|bytes|] == data;
  }

  predicate Bit(v: nat, j: nat) {
    if j == 0 then v % 2 == 1 else Bit(v / 2, j - 1)
  }

  lemma OrZero(a: nat)
    ensures BitOr(0, a) == a == BitOr(a, 0)
  {
  }

  lemma OrHalves(a: nat, b: nat)
    ensures BitOr(a, b) / 2 == BitOr(a / 2, b / 2) && (BitOr(a, b) % 2 == 1 <==> a % 2 == 1 || b % 2 == 1)
  {
  }

  lemma {:induction false} OrBit(a: nat, b: nat, j: nat)
    ensures Bit(BitOr(a, b), j) <==> Bit(a, j) || Bit(b, j)
    decreases j
  {
    hide BitOr;
    OrHalves(a, b);
    if j > 0 { OrBit(a / 2, b / 2, j - 1); }
  }

  /** Every bit of `a` is a bit of `m`. */
  ghost predicate BitsWithin(a: nat, m: nat) { forall j: nat :: Bit(a, j) ==> Bit(m, j) }

  lemma OrAbsorbs(a: nat, m: nat)
    ensures BitOr(a, m) == m <==> BitsWithin(a, m)
  {
    if BitOr(a, m) == m {
      forall j: nat | Bit(a, j) ensures Bit(m, j) {
        OrBit(a, m, j);
        assert Bit(BitOr(a, m), j);
      }
    }
    if BitsWithin(a, m) {
      Absorbed(a, m);
    }
  }

  lemma {:induction false} Absorbed(a: nat, m: nat)
    requires BitsWithin(a, m)
    ensures BitOr(a, m) == m
    decreases a
  {
    if a > 0 {
      assert Bit(a, 0) ==> Bit(m, 0);
      forall j: nat | Bit(a / 2, j) ensures Bit(m / 2, j) {
        assert Bit(a, j + 1) ==> Bit(m, j + 1);
      }
      Absorbed(a / 2, m / 2);
    }
  }

  /** A control message is handed over as it was sent if and only if it repeats every bit of the
      messages before it. */
  lemma ControlMessageIsExact(before: seq<Byte>, hi: Byte, lo: Byte)
    requires |before| % 2 == 0
    ensures var m := 256 * hi as int + lo as int;
      ControlValue(before + [hi, lo]) == m <==> BitsWithin(ControlValue(before), m)
  {
    ControlPair(before, hi, lo);
    OrAbsorbs(ControlValue(before), 256 * hi as int + lo as int);
  }

  lemma ControlPair(before: seq<Byte>, hi: Byte, lo: Byte)
    requires |before| % 2 == 0
    ensures ControlValue(before + [hi, lo]) == BitOr(ControlValue(before), 256 * hi as int + lo as int)
  {
    hide ControlValue, BitOr, Pow2;
    NextControlByte(before, hi);
    NextControlByte(before + [hi], lo);
    assert before + [hi] + [lo] == before + [hi, lo];
    WidePower();
    OrIsSum(hi, lo, 8);
    OrAssociates(ControlValue(before), 256 * hi as int, lo);
  }

  lemma {:induction false} OrAssociates(a: nat, b: nat, c: nat)
    ensures BitOr(BitOr(a, b), c) == BitOr(a, BitOr(b, c))
    decreases a + b + c
  {
    hide BitOr;
    OrZero(a);
    OrZero(b);
    OrZero(c);
    OrZero(BitOr(a, b));
    OrZero(BitOr(b, c));
    if a > 0 && b > 0 && c > 0 {
      OrHalves(a, b);
      OrHalves(BitOr(a, b), c);
      OrHalves(b, c);
      OrHalves(a, BitOr(b, c));
      OrAssociates(a / 2, b / 2, c / 2);
    }
  }

  lemma {:induction false} ShiftedBit(d: nat, k: nat, j: nat)
    ensures Bit(d * Pow2(k), j) <==> j >= k && Bit(d, j - k)
    decreases k
  {
    if k > 0 {
      var half := d * Pow2(k - 1);
      assert d * Pow2(k) == 2 * half;
      if j > 0 { ShiftedBit(d, k - 1, j - 1); }
    } else {
      assert Pow2(0) == 1;
    }
  }

  /** One of the bytes carries bit `j` of the item: bits 8 to 15 come first in a message. */
  ghost predicate CarriesBit(bytes: seq<Byte>, j: nat) {
    exists i :: 0 <= i < |bytes| && j >= ControlShift(i) && Bit(bytes[i], j - ControlShift(i))
  }

  lemma CarriesBitOfLast(bytes: seq<Byte>, data: Byte, j: nat)
    ensures CarriesBit(bytes + [data], j) <==>
      CarriesBit(bytes, j) || (j >= ControlShift(|bytes|) && Bit(data, j - ControlShift(|bytes|)))
  {
    hide Bit, ControlShift;
    var s := bytes + [data];
    if CarriesBit(bytes, j) {
      var i :| 0 <= i < |bytes| && j >= ControlShift(i) && Bit(bytes[i], j - ControlShift(i));
      assert s[i] == bytes[i];
    }
    if j >= ControlShift(|bytes|) && Bit(data, j - ControlShift(|bytes|)) {
      assert s[|bytes|] == data;
    }
  }

  /** Which bits the item holds after any control stream: exactly those some byte of it carries. */
  lemma {:induction false} ControlBits(bytes: seq<Byte>, j: nat)
    ensures Bit(ControlValue(bytes), j) <==> CarriesBit(bytes, j)
    decreases |bytes|
  {
    hide Bit, BitOr, ControlShift, CarriesBit, Shl;
    if bytes == [] {
      NoControlBit(j);
    } else {
      var m := |bytes| - 1;
      var before := bytes[..m];
      assert bytes == before + [bytes[m]];
      ControlBits(before, j);
      NextControlByte(before, bytes[m]);
      CarriesBitOfLast(before, bytes[m], j);
      OrBit(ControlValue(before), Shl(bytes[m], ControlShift(m)), j);
      ControlByteShifted(bytes[m], m);
      ShiftedBit(bytes[m], ControlShift(m), j);
    }
  }

  lemma NoControlBit(j: nat)
    ensures !Bit(ControlValue([]), j) && !CarriesBit([], j)
  {
    ShiftedBit(0, j + 1, j);
  }

  lemma ControlByteShifted(data: Byte, m: nat)
    ensures Shl(data, ControlShift(m)) == data * Pow2(ControlShift(m))
  {
  }

  /** The bit the logic takes for a reset is set if and only if the low byte of some message has it. */
  lemma LogicResetIsSeen(bytes: seq<Byte>)
    ensures Bit(ControlValue(bytes), 0) <==> exists i :: 0 <= i < |bytes| && i % 2 == 1 && bytes[i] % 2 == 1
  {
    hide ControlValue;
    ControlBits(bytes, 0);
    if CarriesBit(bytes, 0) {
      var i :| 0 <= i < |bytes| && 0 >= ControlShift(i) && Bit(bytes[i], 0 - ControlShift(i));
      assert i % 2 == 1 && bytes[i] % 2 == 1;
    }
    if i :| 0 <= i < |bytes| && i % 2 == 1 && bytes[i] % 2 == 1 {
      assert 0 >= ControlShift(i) && Bit(bytes[i], 0 - ControlShift(i));
    }
  }

  /** 16-bit messages as a little-endian host sends them: in its own byte order. */
  function LittleEndianMessages(messages: seq<nat>): (bytes: seq<Byte>)
    ensures |bytes| == 2 * |messages|
  {
    seq(2 * |messages|, i requires 0 <= i < 2 * |messages| =>
      if i % 2 == 0 then messages[i / 2] % 256 else messages[i / 2] / 256 % 256)
  }

  /** From such a host the logic sees a reset if and only if some message has bit 8 set. */
  lemma LittleEndianResetIsSeen(messages: seq<nat>)
    ensures Bit(ControlValue(LittleEndianMessages(messages)), 0) <==>
      exists k :: 0 <= k < |messages| && messages[k] / 256 % 2 == 1
  {
    hide ControlValue, Bit;
    var bytes := LittleEndianMessages(messages);
    LogicResetIsSeen(bytes);
    if i :| 0 <= i < |bytes| && i % 2 == 1 && bytes[i] % 2 == 1 {
      LowBitOfByte(messages[i / 2] / 256);
      assert messages[i / 2] / 256 % 2 == 1;
    }
    if k :| 0 <= k < |messages| && messages[k] / 256 % 2 == 1 {
      LowBitOfByte(messages[k] / 256);
      assert bytes[2 * k + 1] % 2 == 1;
    }
  }

  lemma LowBitOfByte(n: nat)
    ensures n % 256 % 2 == n % 2
  {
  }

  const CTRL_MSG_LOGIC_RESET := 1

  /** So none of its logic reset requests is ever seen, however many it sends; the first one is handed
      over as 0x100. */
  lemma LogicResetArrivesSwapped(n: nat)
    ensures !Bit(ControlValue(LittleEndianMessages(seq(n, _ => CTRL_MSG_LOGIC_RESET))), 0)
    ensures LittleEndianMessages([CTRL_MSG_LOGIC_RESET]) == [1, 0] && ControlValue([1, 0]) == 0x100
  {
    hide ControlValue, Bit, LittleEndianMessages;
    LittleEndianResetIsSeen(seq(n, _ => CTRL_MSG_LOGIC_RESET));
    FirstRequest();
  }

  lemma FirstRequest()
    ensures LittleEndianMessages([CTRL_MSG_LOGIC_RESET]) == [1, 0] && ControlValue([1, 0]) == 0x100
  {
    ControlPair([], 1, 0);
    assert ControlValue([]) == 0 && [] + [1, 0] == [1, 0];
    OrZero(0x100);
    hide BitOr, ControlValue;
  }

  class GlipTcp {
    const mNumBytes: nat
    var mConnected: bool
    var mDataIn: seq<Byte>
    var mDataOut: seq<Byte>
    var mControl: seq<Byte>
    var mReadItem: TempStorage
    var mWriteItem: TempStorage
    var mControlItem: TempStorage

    /** Since the last reset: the bytes that came in; those of the words acknowledged, and of the word
        being assembled; the words acknowledged. */
    ghost var arrived: seq<Byte>
    ghost var readBytes: seq<Byte>
    ghost var pending: seq<Byte>
    ghost var wordsRead: seq<nat>

    /** The words whose bytes are all in the queue; the bytes ever put there, and those taken by the
        socket. */
    ghost var wordsSent: seq<nat>
    ghost var sent: seq<Byte>
    ghost var delivered: seq<Byte>

    /** The control bytes that came in, and those popped. */
    ghost var controlArrived: seq<Byte>
    ghost var controlBytes: seq<Byte>

    ghost predicate WidthOk()
    {
      1 <= mNumBytes <= 8
    }

    ghost predicate InValid()
      reads this
    {
      && WidthOk() && arrived == readBytes + pending + mDataIn && |mDataIn| <= QUEUE_SIZE
      && |pending| == mReadItem.partial <= mNumBytes
      && |readBytes| % mNumBytes == 0
      && (mNumBytes <= 4 ==>
            mReadItem.value == Value(mNumBytes, pending) && wordsRead == Group(mNumBytes, readBytes))
    }

    /** Every word written to the interface, including the one whose bytes are still on their way. */
    ghost function WordsWritten(): seq<nat>
      reads this
    {
      if mWriteItem.valid then wordsSent + [mWriteItem.value] else wordsSent
    }

    ghost predicate OutValid()
      reads this
    {
      && WidthOk() && sent == delivered + mDataOut && |mDataOut| <= QUEUE_SIZE
      && mWriteItem.partial <= mNumBytes
      && sent == Expand(mNumBytes, wordsSent) +
           (if mWriteItem.valid then Split(mNumBytes, mWriteItem.value)[..mWriteItem.partial] else [])
    }

    ghost predicate ControlValid()
      reads this
    {
      && controlArrived == controlBytes + mControl
      && mControlItem.partial <= 2 && mControlItem.value == ControlValue(controlBytes)
      && (if mControlItem.valid then mControlItem.partial == 2 && |controlBytes| % 2 == 0
          else mControlItem.partial < 2 && mControlItem.partial == |controlBytes| % 2)
    }

    ghost predicate Valid()
      reads this
    {
      InValid() && (mReadItem.valid <==> mReadItem.partial == mNumBytes) && OutValid() && ControlValid()
    }

    /** init, up to the thread */
    constructor (width: nat)
      requires 8 <= width <= 64 && width % 8 == 0
      ensures Valid() && mNumBytes == width / 8 && !mConnected
      ensures arrived == [] && wordsRead == [] && WordsWritten() == [] && sent == []
      ensures controlArrived == [] && mControlItem == CLEARED
    {
      mNumBytes, mConnected := width / 8, false;
      mDataIn, mDataOut, mControl := [], [], [];
      mReadItem, mWriteItem, mControlItem := CLEARED, CLEARED, CLEARED;
      arrived, readBytes, pending, wordsRead := [], [], [], [];
      wordsSent, sent, delivered := [], [], [];
      controlArrived, controlBytes := [], [];
    }

    // ---- The socket's thread ----

    method BytesArrive()
      requires InValid()
      modifies `mDataIn, `arrived
      ensures InValid() && old(arrived) <= arrived && old(mDataIn) <= mDataIn
    {
      var bytes: seq<Byte> :| |mDataIn| + |bytes| <= QUEUE_SIZE;
      mDataIn, arrived := mDataIn + bytes, arrived + bytes;
    }

    method BytesLeave()
      requires OutValid()
      modifies `mDataOut, `delivered
      ensures OutValid() && old(delivered) <= delivered && |mDataOut| <= |old(mDataOut)|
    {
      var n: nat :| n <= |mDataOut|;
      mDataOut, delivered := mDataOut[n..], delivered + mDataOut[..n];
    }

    method ControlArrives()
      requires controlArrived == controlBytes + mControl
      modifies `mControl, `controlArrived
      ensures controlArrived == controlBytes + mControl
      ensures old(controlArrived) <= controlArrived && old(mControl) <= mControl
    {
      var bytes: seq<Byte> := *;
      ConcatAssoc(controlBytes, mControl, bytes);
      mControl, controlArrived := mControl + bytes, controlArrived + bytes;
    }

    method ResetRead()
      requires WidthOk()
      modifies `mDataIn, `mReadItem, `arrived, `readBytes, `pending, `wordsRead
      ensures InValid() && mReadItem == CLEARED && arrived == [] && wordsRead == []
    {
      mDataIn, mReadItem := [], CLEARED;
      arrived, readBytes, pending, wordsRead := [], [], [], [];
    }

    method ResetWrite()
      requires WidthOk()
      modifies `mDataOut, `mWriteItem, `wordsSent, `sent, `delivered
      ensures OutValid() && mWriteItem == CLEARED && sent == [] && WordsWritten() == []
    {
      mDataOut, mWriteItem := [], CLEARED;
      wordsSent, sent, delivered := [], [], [];
    }

    method ResetControl()
      modifies `mControl, `mControlItem, `controlArrived, `controlBytes
      ensures ControlValid() && mControlItem == CLEARED && controlArrived == []
    {
      mControl, mControlItem, controlArrived, controlBytes := [], CLEARED, [], [];
    }

    /** A client connects or leaves: everything that is still on its way is dropped. */
    method Reset()
      requires Valid()
      modifies this
      ensures Valid() && mConnected == old(mConnected)
      ensures arrived == [] && wordsRead == [] && WordsWritten() == [] && sent == [] && controlArrived == []
      ensures mReadItem == CLEARED && mWriteItem == CLEARED && mControlItem == CLEARED
    {
      hide Value, Group, Expand, Split;
      ResetControl();
      ResetRead();
      ResetWrite();
    }

    // ---- A cycle ----

    /** One byte moves from the queue to the read item. A shift of an int by 32 bits or more, which words of
        more than four bytes begin with, is not defined: its value is left open. */
    method TakeByte()
      requires InValid() && mDataIn != [] && mReadItem.partial < mNumBytes
      modifies `mDataIn, `mReadItem, `pending
      ensures InValid() && mReadItem.valid == old(mReadItem.valid)
      ensures mReadItem.partial == old(mReadItem.partial) + 1
      ensures pending == old(pending) + [old(mDataIn)[0]] && mDataIn == old(mDataIn)[1..]
    {
      hide BitOr, Shl, Value, Group;
      var data := mDataIn[0];
      var shift := (mNumBytes - mReadItem.partial - 1) * 8;
      var shifted: nat := Shl(data, shift);
      if shift >= 32 { shifted :| shifted < 0x1_0000_0000_0000_0000; }
      if mNumBytes <= 4 { NextByte(mNumBytes, pending, data); }
      mDataIn, pending := mDataIn[1..], pending + [data];
      mReadItem := mReadItem.(value := BitOr(mReadItem.value, shifted), partial := mReadItem.partial + 1);
    }

    /** The read item takes what the queue has, until it is complete. */
    method AssembleRead()
      requires InValid()
      modifies `mDataIn, `arrived, `mReadItem, `pending
      ensures InValid() && old(arrived) <= arrived && mReadItem.valid == old(mReadItem.valid)
      ensures old(pending) <= pending
      ensures |old(pending)| + |old(mDataIn)| >= mNumBytes ==> mReadItem.partial == mNumBytes
    {
      hide Value, Group;
      for i := mReadItem.partial to mNumBytes
        invariant InValid() && old(arrived) <= arrived && mReadItem.valid == old(mReadItem.valid)
        invariant old(pending) <= pending && mReadItem.partial == i
        invariant |pending| + |mDataIn| >= |old(pending)| + |old(mDataIn)|
      {
        BytesArrive();
        if mDataIn == [] { break; }
        TakeByte();
      }
    }

    /** The write item's bytes go to the queue as far as there is room. */
    method SendWrite()
      requires OutValid() && mWriteItem.valid
      modifies `mDataOut, `delivered, `mWriteItem, `sent
      ensures OutValid() && old(sent) <= sent && old(delivered) <= delivered
      ensures mWriteItem == old(mWriteItem).(partial := mWriteItem.partial)
      ensures mNumBytes - old(mWriteItem.partial) <= QUEUE_SIZE - |old(mDataOut)| ==> mWriteItem.partial == mNumBytes
    {
      hide Split, Expand, Pow2;
      for i := mWriteItem.partial to mNumBytes
        invariant OutValid() && old(sent) <= sent && old(delivered) <= delivered
        invariant mWriteItem == old(mWriteItem).(partial := i)
        invariant |mDataOut| + old(mWriteItem.partial) <= |old(mDataOut)| + i
      {
        BytesLeave();
        SplitAt(mNumBytes, mWriteItem.value, i);
        var data: Byte := mWriteItem.value / Pow2((mNumBytes - i - 1) * 8) % 256;
        if |mDataOut| == QUEUE_SIZE { break; }
        mDataOut, sent := mDataOut + [data], sent + [data];
        mWriteItem := mWriteItem.(partial := mWriteItem.partial + 1);
      }
    }

    /** What a control item has become: it took the next bytes that came in, one for each byte it grew. */
    twostate predicate ControlGrew()
      reads this
    {
      && controlArrived == controlBytes + mControl && old(controlArrived) <= controlArrived
      && old(controlBytes) <= controlBytes
      && |controlBytes| - |old(controlBytes)| == mControlItem.partial - old(mControlItem.partial)
      && mControlItem.value == ControlValue(controlBytes)
    }

    /** The control item takes what the queue has, until it is complete. */
    method AssembleControl()
      requires ControlValid() && !mControlItem.valid
      modifies `mControl, `controlArrived, `mControlItem, `controlBytes
      ensures ControlGrew() && !mControlItem.valid && mControlItem.partial <= 2
      ensures old(mControlItem.partial) + |old(mControl)| >= 2 ==> mControlItem.partial == 2
    {
      hide ControlValue, BitOr, Shl;
      for i := mControlItem.partial to 2
        invariant ControlGrew() && !mControlItem.valid && mControlItem.partial == i
        invariant i + |mControl| >= old(mControlItem.partial) + |old(mControl)|
      {
        ControlArrives();
        if mControl == [] { break; }
        var data := mControl[0];
        NextControlByte(controlBytes, data);
        mControl, controlBytes := mControl[1..], controlBytes + [data];
        mControlItem := mControlItem.(value := BitOr(mControlItem.value, Shl(data, (1 - i) * 8)));
        mControlItem := mControlItem.(partial := mControlItem.partial + 1);
      }
    }

    method CycleControl() returns (available: bool)
      requires ControlValid() && !mControlItem.valid
      modifies `mControl, `controlArrived, `mControlItem, `controlBytes
      ensures ControlValid() && ControlGrew() && available == mControlItem.valid
      ensures old(mControlItem.partial) + |old(mControl)| >= 2 ==> mControlItem.valid
    {
      hide ControlValue;
      AssembleControl();
      available := mControlItem.partial == 2;
      if available { mControlItem := mControlItem.(valid := true); }
    }

    method CycleRead() returns (available: bool)
      requires InValid() && (mReadItem.valid <==> mReadItem.partial == mNumBytes)
      modifies `mDataIn, `arrived, `mReadItem, `pending
      ensures InValid() && (mReadItem.valid <==> mReadItem.partial == mNumBytes)
      ensures old(arrived) <= arrived && old(pending) <= pending && available == mReadItem.valid
      ensures old(mReadItem.valid) ==> mReadItem == old(mReadItem)
      ensures old(mReadItem.partial) + |old(mDataIn)| >= mNumBytes ==> mReadItem.valid
    {
      hide Value, Group;
      if mReadItem.valid { return true; }
      AssembleRead();
      available := mReadItem.partial == mNumBytes;
      if available { mReadItem := mReadItem.(valid := true); }
    }

    method CycleWrite() returns (ready: bool)
      requires OutValid()
      modifies `mDataOut, `delivered, `mWriteItem, `sent, `wordsSent
      ensures OutValid() && old(sent) <= sent && old(delivered) <= delivered
      ensures WordsWritten() == old(WordsWritten()) && ready == !mWriteItem.valid
      ensures old(mWriteItem.valid) && mWriteItem.valid ==>
        |old(mDataOut)| + mNumBytes - old(mWriteItem.partial) > QUEUE_SIZE
    {
      hide Split, Expand;
      if !mWriteItem.valid { return true; }
      SendWrite();
      ready := mWriteItem.partial == mNumBytes;
      if ready {
        ExpandAppend(mNumBytes, wordsSent, mWriteItem.value);
        wordsSent := wordsSent + [mWriteItem.value];
        mWriteItem := mWriteItem.(valid := false);
      }
    }

    /** next_cycle: nothing while no client is connected. Otherwise a word becomes available as soon as
        its bytes have come in, and a written word is gone as soon as its bytes have found room; no
        byte is lost or reordered in either direction, however often a cycle stalls in between. */
    method NextCycle() returns (state: nat)
      requires Valid() && !mControlItem.valid
      modifies `mControl, `controlArrived, `mControlItem, `controlBytes, `mDataIn, `arrived, `mReadItem, `pending
      modifies `mDataOut, `delivered, `mWriteItem, `sent, `wordsSent
      ensures Valid() && mConnected == old(mConnected) && wordsRead == old(wordsRead)
      ensures readBytes == old(readBytes) && old(pending) <= pending && old(delivered) <= delivered
      ensures WordsWritten() == old(WordsWritten())
      ensures old(arrived) <= arrived && old(sent) <= sent && ControlGrew()
      ensures old(mReadItem.valid) ==> mReadItem == old(mReadItem)
      ensures !mConnected ==>
        && state == 0 && mReadItem == old(mReadItem) && mWriteItem == old(mWriteItem)
        && mControlItem == old(mControlItem) && pending == old(pending) && sent == old(sent)
      ensures mConnected ==>
        state == (if mControlItem.valid then 1 else 0) + (if mReadItem.valid then 2 else 0)
                 + (if mWriteItem.valid then 0 else 4)
      ensures mConnected && old(mControlItem.partial) + |old(mControl)| >= 2 ==> mControlItem.valid
      ensures mConnected && old(mReadItem.partial) + |old(mDataIn)| >= mNumBytes ==> mReadItem.valid
      ensures mConnected && old(mWriteItem.valid) && mWriteItem.valid ==>
        |old(mDataOut)| + mNumBytes - old(mWriteItem.partial) > QUEUE_SIZE
    {
      hide ControlValue, Value, Group, Expand, Split, BigEndian, BitOr, Pow2;
      if !mConnected {
        state := 0;
      } else {
        state := Cycle();
      }
    }

    /** The three items, one after the other, while a client is connected. */
    method Cycle() returns (state: nat)
      requires Valid() && !mControlItem.valid
      modifies `mControl, `controlArrived, `mControlItem, `controlBytes, `mDataIn, `arrived, `mReadItem, `pending
      modifies `mDataOut, `delivered, `mWriteItem, `sent, `wordsSent
      ensures Valid() && old(pending) <= pending && old(delivered) <= delivered
      ensures WordsWritten() == old(WordsWritten())
      ensures old(arrived) <= arrived && old(sent) <= sent && ControlGrew()
      ensures old(mReadItem.valid) ==> mReadItem == old(mReadItem)
      ensures state == (if mControlItem.valid then 1 else 0) + (if mReadItem.valid then 2 else 0)
                       + (if mWriteItem.valid then 0 else 4)
      ensures old(mControlItem.partial) + |old(mControl)| >= 2 ==> mControlItem.valid
      ensures old(mReadItem.partial) + |old(mDataIn)| >= mNumBytes ==> mReadItem.valid
      ensures old(mWriteItem.valid) && mWriteItem.valid ==>
        |old(mDataOut)| + mNumBytes - old(mWriteItem.partial) > QUEUE_SIZE
    {
      hide ControlValue, Value, Group, Expand, Split, BigEndian, BitOr, Pow2;
      var control := CycleControl();
      var incoming := CycleRead();
      var outgoing := CycleWrite();
      state := StateBits(control, incoming, outgoing);
    }

    /** The state a cycle reports. */
    method StateBits(control: bool, incoming: bool, outgoing: bool) returns (state: nat)
      ensures state == (if control then 1 else 0) + (if incoming then 2 else 0) + (if outgoing then 4 else 0)
    {
      hide BitOr, Pow2;
      SmallFlags();
      state := 0;
      if control { state := BitOr(state, CONTROL_AVAILABLE); }
      if incoming {
        SetFlag(state, 1);
        state := BitOr(state, INCOMING_AVAILABLE);
      }
      if outgoing {
        SetFlag(state, 2);
        state := BitOr(state, OUTGOING_READY);
      }
    }

    lemma SmallFlags()
      ensures BitOr(0, 1) == 1 && Pow2(1) == 2 && Pow2(2) == 4
    {
    }

    lemma SetFlag(state: nat, k: nat)
      requires state < Pow2(k)
      ensures BitOr(state, Pow2(k)) == state + Pow2(k)
    {
      OrIsSum(1, state, k);
    }

    /** readData, with the source's assertion as its precondition: the value of the next whole word. */
    method ReadData() returns (data: nat)
      requires Valid() && mReadItem.valid
      ensures |pending| == mNumBytes
      ensures mNumBytes <= 4 ==>
        && data == Value(mNumBytes, pending) && data % 0x1_0000_0000 == BigEndian(pending)
        && (data == BigEndian(pending) <==> mNumBytes < 4 || pending[0] < 128)
    {
      if mNumBytes <= 4 { ItemIsBigEndian(mNumBytes, pending); }
      data := mReadItem.value;
    }

    /** readAck, called once the word has been taken. */
    method ReadAck()
      requires Valid() && mReadItem.valid
      modifies `mReadItem, `readBytes, `pending, `wordsRead
      ensures Valid() && !mReadItem.valid && wordsRead == old(wordsRead) + [old(mReadItem.value)]
      ensures readBytes == old(readBytes) + old(pending) && pending == []
    {
      GroupAppend(mNumBytes, readBytes, pending);
      wordsRead := wordsRead + [mReadItem.value];
      readBytes, pending := readBytes + pending, [];
      mReadItem := CLEARED;
    }

    /** writeData, with the source's assertion as its precondition. */
    method WriteData(data: nat)
      requires Valid() && !mWriteItem.valid && data < 0x1_0000_0000_0000_0000
      modifies `mWriteItem
      ensures Valid() && WordsWritten() == old(WordsWritten()) + [data]
    {
      mWriteItem := TempStorage(true, 0, data);
    }

    /** control_msg: the bits of every message since the reset, not of the last one alone. */
    method ControlMsg() returns (data: nat)
      requires Valid() && mControlItem.valid
      modifies `mControlItem
      ensures Valid() && !mControlItem.valid && data == ControlValue(controlBytes) && |controlBytes| % 2 == 0
      ensures controlBytes <= controlArrived
    {
      data := mControlItem.value;
      mControlItem := mControlItem.(valid := false, partial := 0);
    }

    /** What the logic has read is the grouping of a front of what came in, and what has gone out is a
        front of the bytes of what the logic has written. */
    lemma StreamsAreFaithful()
      requires Valid()
      ensures readBytes <= arrived && |readBytes| % mNumBytes == 0
      ensures mNumBytes <= 4 ==> wordsRead == Group(mNumBytes, readBytes) && Expand(mNumBytes, wordsRead) <= arrived
      ensures sent <= Expand(mNumBytes, WordsWritten()) && delivered <= sent
      ensures controlBytes <= controlArrived && mControlItem.value == ControlValue(controlBytes)
    {
      if mNumBytes <= 4 { ExpandOfGroup(mNumBytes, readBytes); }
      if mWriteItem.valid { ExpandAppend(mNumBytes, wordsSent, mWriteItem.value); }
    }
  }
}
