/** glip_jtag_input_fsm: reads the request bit by bit and pushes data words into the synchronous fifo
    until it finds it full. */
module JtagInputFsm {
  import opened Bits
  import opened JtagWords
  import opened JtagFifo

  datatype InState = Idle | ReadPacketLength | IgnoreReadLength | ReadPacket | DropPacket

  datatype InReg = InReg(
    state: InState, error: bool, jtagReset: bool, bitCnt: nat, inRegCnt: Word, accCnt: nat, inRegData: Word)

  datatype InPins = InPins(rst: bool, tdi: bool, shift: bool, update: bool, capture: bool)

  /** The registers after the clock, and what is offered to the fifo during it. */
  datatype InNext = InNext(r: InReg, inValid: bool, inFlit: Word)

  /** Register widths; bit_cnt stays below the word width and is 0 in the idle state. */
  ghost predicate RegOk(w: nat, r: InReg) {
    && w >= 2 && |r.inRegCnt| == w == |r.inRegData| && r.bitCnt < w && r.accCnt < Pow2(w)
    && (r.state.Idle? ==> r.bitCnt == 0)
  }

  // ---- The next state, state by state ----

  function IdleNext(w: nat, r: InReg, p: InPins): InReg
    requires RegOk(w, r) && r.state.Idle?
  {
    if p.shift then InReg(ReadPacketLength, false, false, 1, Zeros(w)[0 := p.tdi], 0, Zeros(w))
    else InReg(Idle, false, false, 0, Zeros(w), 0, Zeros(w))
  }

  function LengthNext(w: nat, r: InReg, p: InPins): InReg
    requires RegOk(w, r) && r.state.ReadPacketLength?
  {
    var cnt := r.inRegCnt[r.bitCnt := p.tdi];
    var t := r.(inRegCnt := cnt);
    if r.bitCnt < w - 1 then t.(bitCnt := r.bitCnt + 1)
    else if AllOnes(cnt) then t.(bitCnt := 0, state := DropPacket, jtagReset := true, error := false)
    else if AnyOne(cnt) then t.(bitCnt := 0, state := IgnoreReadLength, jtagReset := false, error := false)
    else t.(bitCnt := 0, state := DropPacket, jtagReset := false)
  }

  function IgnoreNext(w: nat, r: InReg): InReg
    requires RegOk(w, r) && r.state.IgnoreReadLength?
  {
    if r.bitCnt == w - 1 then r.(bitCnt := 0, state := ReadPacket) else r.(bitCnt := r.bitCnt + 1)
  }

  function PacketNext(w: nat, r: InReg, p: InPins, inReady: bool): InReg
    requires RegOk(w, r) && r.state.ReadPacket?
  {
    var t := r.(error := false, inRegData := r.inRegData[r.bitCnt := p.tdi]);
    if r.bitCnt < w - 1 then t.(bitCnt := r.bitCnt + 1)
    else if !inReady then t.(bitCnt := 0, state := DropPacket)
    else
      var left := ToBits(Val(r.inRegCnt) + Pow2(w) - 1, w);
      t.(bitCnt := 0, accCnt := (r.accCnt + 1) % Pow2(w), inRegCnt := left,
         state := if AnyOne(left) then ReadPacket else DropPacket)
  }

  function DropNext(r: InReg, p: InPins): InReg
    requires r.state.DropPacket?
  {
    if p.update || p.capture then r.(bitCnt := 0, jtagReset := false, state := Idle, error := false)
    else r.(bitCnt := 0, jtagReset := false)
  }

  /** The combinational block: the next register values and the word offered to the fifo. */
  function Comb(w: nat, r: InReg, p: InPins, inReady: bool): (n: InNext)
    requires RegOk(w, r)
    ensures RegOk(w, n.r)
  {
    var nxt := match r.state
      case Idle => IdleNext(w, r, p)
      case ReadPacketLength => LengthNext(w, r, p)
      case IgnoreReadLength => IgnoreNext(w, r)
      case ReadPacket => PacketNext(w, r, p, inReady)
      case DropPacket => DropNext(r, p);
    var atBoundary := r.state.ReadPacket? && r.bitCnt == w - 1;
    InNext(nxt, atBoundary && inReady, if atBoundary then r.inRegData[w - 1 := p.tdi] else Zeros(w))
  }

  /** The registers after the clock edge. */
  function Next(w: nat, r: InReg, p: InPins, inReady: bool): (n: InNext)
    requires RegOk(w, r)
    ensures RegOk(w, n.r)
  {
    var c := Comb(w, r, p, inReady);
    if p.rst || p.update then c.(r := InReg(DropPacket, c.r.error, false, 0, Zeros(w), 0, Zeros(w))) else c
  }

  /** Nothing ever raises the error output. */
  lemma NoErrorIsRaised(w: nat, r: InReg, p: InPins, inReady: bool)
    requires RegOk(w, r) && !r.error
    ensures !Next(w, r, p, inReady).r.error
  {
    hide ToBits, Val;
  }

  /** A clock without shift, as in Pause-DR, holds the machine up only between frames and while it drops: the
      states that read the header or data do not look at shift, and count the clock as one of the word's. */
  lemma HeldClock(w: nat, r: InReg, p: InPins, inReady: bool)
    requires RegOk(w, r) && !p.shift && !p.update && !p.capture && !p.rst
    ensures var n := Next(w, r, p, inReady);
      && (r.state.Idle? ==> n.r == InReg(Idle, false, false, 0, Zeros(w), 0, Zeros(w)) && !n.inValid)
      && (r.state.DropPacket? ==> n.r == r.(bitCnt := 0, jtagReset := false) && !n.inValid)
      && (!r.state.Idle? && !r.state.DropPacket? ==>
            n.r.bitCnt == (if r.bitCnt == w - 1 then 0 else r.bitCnt + 1) != r.bitCnt)
  {
    hide ToBits, Val;
  }

  // ---- The module as it is clocked ----

  class Module {
    const wordWidth: nat
    const syncFifo: Fifo
    var state: InState
    var error: bool
    var jtagReset: bool
    var bitCnt: nat
    var inRegCnt: Word
    var accCnt: nat
    var inRegData: Word

    function Regs(): InReg
      reads this
    {
      InReg(state, error, jtagReset, bitCnt, inRegCnt, accCnt, inRegData)
    }

    ghost predicate Valid()
      reads this, syncFifo, syncFifo.data
    {
      RegOk(wordWidth, Regs()) && syncFifo.Valid()
    }

    /** After power-up and one clock with rst. */
    constructor (wordWidth: nat, numWords: nat)
      requires wordWidth >= 2 && numWords >= 1
      ensures Valid() && fresh(syncFifo) && fresh(syncFifo.data) && syncFifo.Queue() == []
      ensures Regs() == InReg(DropPacket, false, false, 0, Zeros(wordWidth), 0, Zeros(wordWidth))
    {
      this.wordWidth := wordWidth;
      syncFifo := new Fifo(numWords, numWords);
      state, error, jtagReset, bitCnt, accCnt := DropPacket, false, false, 0, 0;
      inRegCnt, inRegData := Zeros(wordWidth), Zeros(wordWidth);
    }

    /** The combinational block. */
    method InputFsm(p: InPins, inReady: bool) returns (nxt: InReg, inValid: bool, inFlit: Word)
      requires RegOk(wordWidth, Regs())
      ensures InNext(nxt, inValid, inFlit) == Comb(wordWidth, Regs(), p, inReady)
    {
      var nxtState, nxtBitCnt, nxtInRegData, nxtJtagReset := state, bitCnt, inRegData, jtagReset;
      var nxtInRegCnt, nxtError, nxtAccCnt := inRegCnt, error, accCnt;
      inValid, inFlit := false, Zeros(wordWidth);
      match state {
        case Idle =>
          nxtError, nxtBitCnt, nxtInRegData, nxtInRegCnt, nxtJtagReset, nxtAccCnt :=
            false, 0, Zeros(wordWidth), Zeros(wordWidth), false, 0;
          if p.shift {
            nxtState, nxtBitCnt, nxtInRegCnt := ReadPacketLength, bitCnt + 1, nxtInRegCnt[bitCnt := p.tdi];
          }
        case ReadPacketLength =>
          nxtInRegCnt := nxtInRegCnt[bitCnt := p.tdi];
          if bitCnt < wordWidth - 1 {
            nxtBitCnt := bitCnt + 1;
          } else {
            nxtBitCnt := 0;
            var word := nxtInRegCnt[..wordWidth - 1] + [p.tdi];
            assert word == nxtInRegCnt;
            if AllOnes(word) {
              nxtState, nxtJtagReset, nxtError := DropPacket, true, false;
            } else if AnyOne(word) {
              nxtState, nxtJtagReset, nxtError := IgnoreReadLength, false, false;
            } else {
              nxtState, nxtJtagReset := DropPacket, false;
            }
          }
        case IgnoreReadLength =>
          if bitCnt == wordWidth - 1 { nxtBitCnt, nxtState := 0, ReadPacket; } else { nxtBitCnt := bitCnt + 1; }
        case ReadPacket =>
          nxtError := false;
          nxtInRegData := nxtInRegData[bitCnt := p.tdi];
          if bitCnt < wordWidth - 1 {
            nxtBitCnt := bitCnt + 1;
          } else {
            inFlit, nxtBitCnt := nxtInRegData[..wordWidth - 1] + [p.tdi], 0;
            assert inFlit == nxtInRegData;
            if inReady {
              inValid, nxtAccCnt := true, (accCnt + 1) % Pow2(wordWidth);
              nxtInRegCnt := ToBits(Val(inRegCnt) + Pow2(wordWidth) - 1, wordWidth);
              nxtState := if AnyOne(nxtInRegCnt) then ReadPacket else DropPacket;
            } else {
              nxtState := DropPacket;
            }
          }
        case DropPacket =>
          nxtBitCnt, nxtJtagReset := 0, false;
          if p.update || p.capture { nxtState, nxtError := Idle, false; }
      }
      nxt := InReg(nxtState, nxtError, nxtJtagReset, nxtBitCnt, nxtInRegCnt, nxtAccCnt, nxtInRegData);
    }

    /** The registers at the clock edge. */
    method Load(p: InPins, nxt: InReg)
      modifies `state, `error, `jtagReset, `bitCnt, `inRegCnt, `accCnt, `inRegData
      ensures Regs() ==
        if p.rst || p.update then InReg(DropPacket, nxt.error, false, 0, Zeros(wordWidth), 0, Zeros(wordWidth)) else nxt
    {
      if p.rst || p.update {
        jtagReset, state, bitCnt, accCnt := false, DropPacket, 0, 0;
        inRegData, inRegCnt := Zeros(wordWidth), Zeros(wordWidth);
      } else {
        jtagReset, state, bitCnt, accCnt := nxt.jtagReset, nxt.state, nxt.bitCnt, nxt.accCnt;
        inRegData, inRegCnt := nxt.inRegData, nxt.inRegCnt;
      }
      error := nxt.error;
    }

    /** One clock edge; `fifoReady` is the reader of the synchronous fifo. */
    method Clock(p: InPins, fifoReady: bool) returns (fifoData: Word, fifoValid: bool)
      requires Valid()
      modifies this, syncFifo`writePtr, syncFifo`freeSpace, syncFifo`count, syncFifo.data
      ensures Valid()
      ensures var n := Next(wordWidth, old(Regs()), p, |old(syncFifo.Queue())| < syncFifo.length);
        && Regs() == n.r
        && syncFifo.Queue() == NextQueue(old(syncFifo.Queue()), syncFifo.length, p.rst, n.inFlit, n.inValid, fifoReady)
      ensures fifoValid == (old(syncFifo.Queue()) != []) && (fifoValid ==> fifoData == old(syncFifo.Queue())[0])
    {
      hide Comb, NextQueue, OneHot, Pow2;
      fifoData, fifoValid := syncFifo.OutFlit(), syncFifo.OutValid();
      var nxt, inValid, inFlit := InputFsm(p, syncFifo.InReady());
      syncFifo.Clock(p.rst, inFlit, inValid, fifoReady);
      Load(p, nxt);
    }
  }
}
