/** glip_jtag_output_fsm: answers a request with words from the fifo, padding, and two counts. */
module JtagOutputFsm {
  import opened Bits
  import opened JtagWords

  datatype OutState = Idle | WriteLength | ReadLength | NoData | SendData | SendCountWrite | SendCountRead | ConfigDisc

  datatype OutReg = OutReg(
    state: OutState, wordCnt: nat, bitCnt: nat, packetCount: nat, outReg: Word, free: Word,
    inRegCnt: Word, writeLength: nat, readLength: nat)

  datatype OutPins = OutPins(
    tdi: bool, shift: bool, update: bool, inError: bool, inWritten: Word, fifoData: Word, fifoValid: bool)

  /** The next register values, the bit on TDO and the request to the fifo. */
  datatype OutNext = OutNext(r: OutReg, tdo: bool, fifoReady: bool)

  /** Register widths; bit_cnt stays below the word width and is 0 in the idle state. */
  ghost predicate RegOk(w: nat, r: OutReg) {
    && w >= 2 && |r.outReg| == w == |r.free| == |r.inRegCnt| && r.bitCnt < w
    && r.wordCnt < Pow2(w) && r.packetCount < Pow2(w) && r.writeLength < Pow2(w) && r.readLength < Pow2(w)
    && (r.state.Idle? || r.state.ConfigDisc? ==> r.bitCnt == 0)
  }

  ghost predicate PinsOk(w: nat, p: OutPins) { |p.inWritten| == w == |p.fifoData| }

  function Cleared(w: nat): OutReg { OutReg(Idle, 0, 0, 0, Zeros(w), Zeros(w), Zeros(w), 0, 0) }

  // ---- The next state, state by state ----

  function IdleNext(w: nat, r: OutReg, p: OutPins): OutNext
    requires RegOk(w, r) && PinsOk(w, p) && r.state.Idle?
  {
    var t := r.(wordCnt := 0, packetCount := 0, inRegCnt := Zeros(w), free := Zeros(w),
                writeLength := 0, readLength := 0);
    OutNext(if p.shift then t.(state := WriteLength, bitCnt := 1, inRegCnt := Zeros(w)[0 := p.tdi]) else t,
            p.fifoData[0], false)
  }

  function WriteLengthNext(w: nat, r: OutReg, p: OutPins): OutNext
    requires RegOk(w, r) && PinsOk(w, p) && r.state.WriteLength?
  {
    var word := r.inRegCnt[r.bitCnt := p.tdi];
    OutNext(
      if r.bitCnt < w - 1 then r.(inRegCnt := word, bitCnt := r.bitCnt + 1)
      else if AllOnes(word) then r.(inRegCnt := word, bitCnt := 0, state := ConfigDisc)
      else r.(inRegCnt := word, bitCnt := 0, state := ReadLength, writeLength := Val(word)),
      p.fifoData[0], false)
  }

  function ReadLengthNext(w: nat, r: OutReg, p: OutPins): OutNext
    requires RegOk(w, r) && PinsOk(w, p) && r.state.ReadLength?
  {
    var word := r.inRegCnt[r.bitCnt := p.tdi];
    if r.bitCnt < w - 1 then OutNext(r.(inRegCnt := word, bitCnt := r.bitCnt + 1), p.fifoData[0], false)
    else
      var t := r.(outReg := p.fifoData, bitCnt := 0, readLength := Val(word),
                  inRegCnt := if r.writeLength > Val(word) then ToBits(r.writeLength, w) else word);
      if AnyOne(word) then OutNext(t.(state := if p.fifoValid then SendData else NoData), p.fifoData[0], p.fifoValid)
      else OutNext(t.(state := if r.writeLength > 0 then NoData else SendCountWrite), p.fifoData[0], false)
  }

  function SendDataNext(w: nat, r: OutReg, p: OutPins): OutNext
    requires RegOk(w, r) && PinsOk(w, p) && r.state.SendData?
  {
    var tdo := r.outReg[r.bitCnt];
    var sent := (r.wordCnt + 1) % Pow2(w);
    if !p.shift then OutNext(r, tdo, false)
    else if r.bitCnt < w - 1 then OutNext(r.(bitCnt := r.bitCnt + 1), tdo, false)
    else if r.wordCnt == Val(r.inRegCnt) - 1 then
      OutNext(r.(bitCnt := 0, state := SendCountWrite, packetCount := sent), tdo, false)
    else if r.wordCnt == r.readLength - 1 then
      OutNext(r.(bitCnt := 0, state := NoData, packetCount := sent), tdo, false)
    else if p.fifoValid then
      OutNext(r.(bitCnt := 0, wordCnt := sent, outReg := p.fifoData), tdo, true)
    else
      OutNext(r.(bitCnt := 0, wordCnt := sent, packetCount := sent, state := NoData), tdo, false)
  }

  function NoDataNext(w: nat, r: OutReg, p: OutPins): OutNext
    requires RegOk(w, r) && PinsOk(w, p) && r.state.NoData?
  {
    OutNext(
      if !p.shift then r
      else if r.bitCnt < w - 1 then r.(bitCnt := r.bitCnt + 1)
      else if r.wordCnt == Val(r.inRegCnt) - 1 then r.(bitCnt := 0, state := SendCountWrite)
      else r.(bitCnt := 0, wordCnt := (r.wordCnt + 1) % Pow2(w)),
      false, false)
  }

  function SendCountWriteNext(w: nat, r: OutReg, p: OutPins): OutNext
    requires RegOk(w, r) && PinsOk(w, p) && r.state.SendCountWrite?
  {
    var latched := r.bitCnt == 0 && !p.inError;
    var t := if latched then r.(free := p.inWritten) else r;
    OutNext(
      if r.bitCnt == w - 1 then t.(bitCnt := 0, state := SendCountRead) else t.(bitCnt := r.bitCnt + 1),
      if p.inError then true else if r.bitCnt == 0 then p.inWritten[0] else r.free[r.bitCnt],
      false)
  }

  function SendCountReadNext(w: nat, r: OutReg): OutNext
    requires RegOk(w, r) && r.state.SendCountRead?
  {
    OutNext(
      if r.bitCnt < w - 1 then r.(bitCnt := r.bitCnt + 1) else r.(bitCnt := 0, state := Idle),
      ToBits(r.packetCount, w)[r.bitCnt], false)
  }

  function ConfigDiscNext(r: OutReg, p: OutPins): OutNext
    requires r.state.ConfigDisc?
  {
    OutNext(r.(bitCnt := 0, state := if p.update then Idle else ConfigDisc), false, false)
  }

  /** The combinational block. */
  function Comb(w: nat, r: OutReg, p: OutPins): (n: OutNext)
    requires RegOk(w, r) && PinsOk(w, p)
    ensures RegOk(w, n.r)
  {
    match r.state
    case Idle => IdleNext(w, r, p)
    case WriteLength => WriteLengthNext(w, r, p)
    case ReadLength => ReadLengthNext(w, r, p)
    case SendData => SendDataNext(w, r, p)
    case NoData => NoDataNext(w, r, p)
    case SendCountWrite => SendCountWriteNext(w, r, p)
    case SendCountRead => SendCountReadNext(w, r)
    case ConfigDisc => ConfigDiscNext(r, p)
  }

  /** The registers after the clock edge. */
  function Next(w: nat, r: OutReg, p: OutPins): (n: OutNext)
    requires RegOk(w, r) && PinsOk(w, p)
    ensures RegOk(w, n.r)
  {
    var c := Comb(w, r, p);
    if p.update then c.(r := Cleared(w)) else c
  }

  /** A clock without shift, as in Pause-DR, holds the machine up between frames, in the payload and while it
      is silent; the states of the header and of the counts do not look at shift, and go on. */
  lemma HeldClock(w: nat, r: OutReg, p: OutPins)
    requires RegOk(w, r) && PinsOk(w, p) && !p.shift && !p.update
    ensures var n := Next(w, r, p);
      && (r.state.Idle? ==> n.r == Cleared(w).(outReg := r.outReg) && !n.fifoReady)
      && (r.state.SendData? || r.state.NoData? ==> n.r == r && !n.fifoReady)
      && (r.state.SendData? ==> n.tdo == r.outReg[r.bitCnt]) && (r.state.NoData? ==> !n.tdo)
      && (r.state.ConfigDisc? ==> n.r == r && !n.fifoReady && !n.tdo)
      && (!r.state.Idle? && !r.state.SendData? && !r.state.NoData? && !r.state.ConfigDisc? ==>
            n.r.bitCnt == (if r.bitCnt == w - 1 then 0 else r.bitCnt + 1) != r.bitCnt)
  {
    hide ToBits, Val, AllOnes, AnyOne;
  }

  // ---- The module as it is clocked ----

  class Module {
    const wordWidth: nat
    var state: OutState
    var wordCnt: nat
    var bitCnt: nat
    var packetCount: nat
    var outReg: Word
    var free: Word
    var inRegCnt: Word
    var writeLengthReg: nat
    var readLengthReg: nat

    function Regs(): OutReg
      reads this
    {
      OutReg(state, wordCnt, bitCnt, packetCount, outReg, free, inRegCnt, writeLengthReg, readLengthReg)
    }

    ghost predicate Valid()
      reads this
    {
      RegOk(wordWidth, Regs())
    }

    /** After power-up and one clock with update. */
    constructor (wordWidth: nat)
      requires wordWidth >= 2
      ensures Valid() && this.wordWidth == wordWidth && Regs() == Cleared(wordWidth)
    {
      this.wordWidth := wordWidth;
      state, wordCnt, bitCnt, packetCount, writeLengthReg, readLengthReg := Idle, 0, 0, 0, 0, 0;
      outReg, free, inRegCnt := Zeros(wordWidth), Zeros(wordWidth), Zeros(wordWidth);
    }

    /** The combinational block, first half: the states that read the request. */
    method ReadRequest(p: OutPins) returns (nxt: OutReg, tdo: bool, fifoReady: bool)
      requires Valid() && PinsOk(wordWidth, p) && (state.Idle? || state.WriteLength? || state.ReadLength?)
      ensures OutNext(nxt, tdo, fifoReady) == Comb(wordWidth, Regs(), p)
    {
      var nxtState, nxtWordCnt, nxtBitCnt, nxtPacketCount, nxtOutReg := state, wordCnt, bitCnt, packetCount, outReg;
      var nxtFree, nxtInRegCnt, nxtReadLength, nxtWriteLength := free, inRegCnt, readLengthReg, writeLengthReg;
      fifoReady := false;
      tdo := p.fifoData[0];
      if state.Idle? {
        nxtWordCnt, nxtPacketCount, nxtWriteLength, nxtReadLength := 0, 0, 0, 0;
        nxtInRegCnt, nxtFree := Zeros(wordWidth), Zeros(wordWidth);
        if p.shift {
          nxtState, nxtBitCnt, nxtInRegCnt := WriteLength, bitCnt + 1, nxtInRegCnt[bitCnt := p.tdi];
        }
      } else if bitCnt < wordWidth - 1 {
        nxtInRegCnt := nxtInRegCnt[bitCnt := p.tdi];
        nxtBitCnt := bitCnt + 1;
      } else {
        nxtInRegCnt := nxtInRegCnt[bitCnt := p.tdi];
        nxtBitCnt := 0;
        var word := nxtInRegCnt[..wordWidth - 1] + [p.tdi];
        assert word == nxtInRegCnt;
        if state.WriteLength? {
          if AllOnes(word) {
            nxtState := ConfigDisc;
          } else {
            nxtState, nxtWriteLength := ReadLength, Val(word);
          }
        } else {
          nxtOutReg, nxtReadLength := p.fifoData, Val(word);
          if AnyOne(word) {
            if p.fifoValid { nxtState, fifoReady := SendData, true; } else { nxtState := NoData; }
            if writeLengthReg > Val(word) { nxtInRegCnt := ToBits(writeLengthReg, wordWidth); }
          } else if writeLengthReg > 0 {
            AnyOneIsPositive(word);
            nxtState, nxtInRegCnt := NoData, ToBits(writeLengthReg, wordWidth);
          } else {
            nxtState := SendCountWrite;
          }
        }
      }
      nxt := OutReg(nxtState, nxtWordCnt, nxtBitCnt, nxtPacketCount, nxtOutReg, nxtFree, nxtInRegCnt,
                    nxtWriteLength, nxtReadLength);
    }

    /** The combinational block, second half: the states that answer. */
    method Answer(p: OutPins) returns (nxt: OutReg, tdo: bool, fifoReady: bool)
      requires Valid() && PinsOk(wordWidth, p) && !(state.Idle? || state.WriteLength? || state.ReadLength?)
      ensures OutNext(nxt, tdo, fifoReady) == Comb(wordWidth, Regs(), p)
    {
      var nxtState, nxtWordCnt, nxtBitCnt, nxtPacketCount := state, wordCnt, bitCnt, packetCount;
      var nxtOutReg, nxtFree := outReg, free;
      fifoReady, tdo := false, false;
      if state.SendData? {
        tdo := outReg[bitCnt];
        if p.shift {
          if bitCnt == wordWidth - 1 {
            nxtBitCnt := 0;
            if wordCnt == Val(inRegCnt) - 1 {
              nxtState, nxtPacketCount := SendCountWrite, (wordCnt + 1) % Pow2(wordWidth);
            } else if wordCnt == readLengthReg - 1 {
              nxtState, nxtPacketCount := NoData, (wordCnt + 1) % Pow2(wordWidth);
            } else {
              nxtWordCnt := (wordCnt + 1) % Pow2(wordWidth);
              if p.fifoValid {
                nxtOutReg, fifoReady := p.fifoData, true;
              } else {
                nxtPacketCount, nxtState := (wordCnt + 1) % Pow2(wordWidth), NoData;
              }
            }
          } else {
            nxtBitCnt := bitCnt + 1;
          }
        }
      } else if state.NoData? {
        if p.shift {
          if bitCnt == wordWidth - 1 {
            nxtBitCnt := 0;
            if wordCnt == Val(inRegCnt) - 1 {
              nxtState := SendCountWrite;
            } else {
              nxtWordCnt := (wordCnt + 1) % Pow2(wordWidth);
            }
          } else {
            nxtBitCnt := bitCnt + 1;
          }
        }
      } else if state.SendCountWrite? {
        nxtBitCnt := bitCnt + 1;
        if p.inError {
          tdo := true;
        } else if bitCnt == 0 {
          nxtFree, tdo := p.inWritten, p.inWritten[0];
        } else {
          tdo := free[bitCnt];
        }
        if bitCnt == wordWidth - 1 { nxtState, nxtBitCnt := SendCountRead, 0; }
      } else if state.SendCountRead? {
        tdo := ToBits(packetCount, wordWidth)[bitCnt];
        if bitCnt < wordWidth - 1 { nxtBitCnt := bitCnt + 1; } else { nxtBitCnt, nxtState := 0, Idle; }
      } else {
        nxtBitCnt := 0;
        if p.update { nxtState := Idle; }
      }
      nxt := OutReg(nxtState, nxtWordCnt, nxtBitCnt, nxtPacketCount, nxtOutReg, nxtFree, inRegCnt,
                    writeLengthReg, readLengthReg);
    }

    /** One clock edge. */
    method Clock(p: OutPins) returns (tdo: bool, fifoReady: bool)
      requires Valid() && PinsOk(wordWidth, p)
      modifies this
      ensures Valid() && OutNext(Regs(), tdo, fifoReady) == Next(wordWidth, old(Regs()), p)
    {
      hide Comb;
      var nxt;
      if state.Idle? || state.WriteLength? || state.ReadLength? {
        nxt, tdo, fifoReady := ReadRequest(p);
      } else {
        nxt, tdo, fifoReady := Answer(p);
      }
      if p.update {
        state, wordCnt, outReg, bitCnt := Idle, 0, Zeros(wordWidth), 0;
        inRegCnt, packetCount, free, writeLengthReg, readLengthReg := Zeros(wordWidth), 0, Zeros(wordWidth), 0, 0;
      } else {
        state, wordCnt, bitCnt, inRegCnt := nxt.state, nxt.wordCnt, nxt.bitCnt, nxt.inRegCnt;
        outReg, packetCount, free := nxt.outReg, nxt.packetCount, nxt.free;
        writeLengthReg, readLengthReg := nxt.writeLength, nxt.readLength;
      }
    }
  }
}
