/** glip_jtag_config_discovery_fsm: recognises the all-ones header and answers with the configuration. */
module JtagConfigFsm {
  import opened Bits
  import opened JtagWords

  datatype ConfState = Idle | SendWordWidth | SendBufferSize | WaitForUpdate

  datatype ConfReg = ConfReg(
    state: ConfState, bitCnt: nat, inReg: Word, dataTransfer: bool, configDiscovery: bool, ctrlLogicRst: bool)

  datatype ConfPins = ConfPins(tdi: bool, shift: bool, update: bool)

  datatype ConfNext = ConfNext(r: ConfReg, tdo: bool)

  ghost predicate RegOk(w: nat, r: ConfReg) { w >= 2 && |r.inReg| == w && r.bitCnt < w }

  function Cleared(w: nat): ConfReg { ConfReg(Idle, 0, Zeros(w), false, false, false) }

  // ---- The next state, state by state ----

  function IdleNext(w: nat, r: ConfReg, p: ConfPins): ConfReg
    requires RegOk(w, r) && r.state.Idle?
  {
    var t := r.(ctrlLogicRst := false);
    if !p.shift then t
    else
      var word := r.inReg[r.bitCnt := p.tdi];
      var u := t.(inReg := word, configDiscovery := false, dataTransfer := false);
      if r.bitCnt < w - 1 then u.(bitCnt := r.bitCnt + 1)
      else if AllOnes(word) then u.(bitCnt := 0, state := SendWordWidth, configDiscovery := true)
      else u.(bitCnt := 0, state := WaitForUpdate, dataTransfer := true)
  }

  function SendWordWidthNext(w: nat, r: ConfReg, p: ConfPins): ConfReg
    requires RegOk(w, r) && r.state.SendWordWidth?
  {
    var t := r.(configDiscovery := true, dataTransfer := false, ctrlLogicRst := r.bitCnt == 0 && p.tdi);
    if r.bitCnt == w - 1 then t.(bitCnt := 0, state := SendBufferSize) else t.(bitCnt := r.bitCnt + 1)
  }

  function SendBufferSizeNext(w: nat, r: ConfReg): ConfReg
    requires RegOk(w, r) && r.state.SendBufferSize?
  {
    var t := r.(configDiscovery := true, dataTransfer := false, ctrlLogicRst := false);
    if r.bitCnt == w - 1 then t.(bitCnt := 0, state := WaitForUpdate, inReg := Zeros(w))
    else t.(bitCnt := r.bitCnt + 1)
  }

  /** The combinational block; `numWords` is the parameter NUM_WORDS. */
  function Comb(w: nat, numWords: nat, r: ConfReg, p: ConfPins): (n: ConfNext)
    requires RegOk(w, r)
    ensures RegOk(w, n.r)
  {
    match r.state
    case Idle => ConfNext(IdleNext(w, r, p), false)
    case SendWordWidth => ConfNext(SendWordWidthNext(w, r, p), ToBits(w, w)[r.bitCnt])
    case SendBufferSize => ConfNext(SendBufferSizeNext(w, r), ToBits(numWords, w)[r.bitCnt])
    case WaitForUpdate => ConfNext(r.(ctrlLogicRst := false, state := if p.update then Idle else WaitForUpdate), false)
  }

  /** The registers after the clock edge. */
  function Next(w: nat, numWords: nat, r: ConfReg, p: ConfPins): (n: ConfNext)
    requires RegOk(w, r)
    ensures RegOk(w, n.r)
  {
    var c := Comb(w, numWords, r, p);
    if p.update then c.(r := Cleared(w)) else c
  }

  /** A clock without shift, as in Pause-DR, holds the machine up only before its answer and behind it. */
  lemma HeldClock(w: nat, numWords: nat, r: ConfReg, p: ConfPins)
    requires RegOk(w, r) && !p.shift && !p.update
    ensures var n := Next(w, numWords, r, p);
      && (r.state.Idle? || r.state.WaitForUpdate? ==> n.r == r.(ctrlLogicRst := false))
      && (r.state.SendWordWidth? || r.state.SendBufferSize? ==>
            n.r.bitCnt == (if r.bitCnt == w - 1 then 0 else r.bitCnt + 1) != r.bitCnt)
  {
    hide ToBits;
  }

  // ---- The module as it is clocked ----

  class Module {
    const wordWidth: nat
    const numWords: nat
    var state: ConfState
    var bitCnt: nat
    var inReg: Word
    var dataTransfer: bool
    var configDiscovery: bool
    var ctrlLogicRst: bool

    function Regs(): ConfReg
      reads this
    {
      ConfReg(state, bitCnt, inReg, dataTransfer, configDiscovery, ctrlLogicRst)
    }

    ghost predicate Valid()
      reads this
    {
      RegOk(wordWidth, Regs())
    }

    /** After power-up and one clock with update. */
    constructor (wordWidth: nat, numWords: nat)
      requires wordWidth >= 2
      ensures Valid() && this.wordWidth == wordWidth && this.numWords == numWords && Regs() == Cleared(wordWidth)
    {
      this.wordWidth, this.numWords := wordWidth, numWords;
      state, bitCnt, inReg := Idle, 0, Zeros(wordWidth);
      dataTransfer, configDiscovery, ctrlLogicRst := false, false, false;
    }

    /** The combinational block: the next register values, before the clock edge looks at update. */
    method Conf(p: ConfPins) returns (nxt: ConfReg, tdo: bool)
      requires Valid()
      ensures ConfNext(nxt, tdo) == Comb(wordWidth, numWords, Regs(), p)
    {
      hide ToBits;
      var nxtBitCnt, nxtState, nxtInReg := bitCnt, state, inReg;
      var nxtDataTransfer, nxtConfigDiscovery, nxtCtrlLogicRst := dataTransfer, configDiscovery, false;
      tdo := false;
      if state.Idle? {
        if p.shift {
          nxtBitCnt, nxtInReg := bitCnt + 1, nxtInReg[bitCnt := p.tdi];
          nxtConfigDiscovery, nxtDataTransfer := false, false;
          if bitCnt == wordWidth - 1 {
            nxtBitCnt := 0;
            var word := inReg[..wordWidth - 1] + [p.tdi];
            assert word == nxtInReg;
            if AllOnes(word) {
              nxtState, nxtConfigDiscovery, nxtDataTransfer := SendWordWidth, true, false;
            } else {
              nxtState, nxtDataTransfer, nxtConfigDiscovery := WaitForUpdate, true, false;
            }
          }
        }
      } else if state.SendWordWidth? {
        nxtBitCnt, nxtConfigDiscovery, nxtDataTransfer := bitCnt + 1, true, false;
        tdo := ToBits(wordWidth, wordWidth)[bitCnt];
        if bitCnt == 0 && p.tdi { nxtCtrlLogicRst := true; }
        if bitCnt == wordWidth - 1 { nxtBitCnt, nxtState := 0, SendBufferSize; }
      } else if state.SendBufferSize? {
        nxtBitCnt, nxtConfigDiscovery, nxtDataTransfer := bitCnt + 1, true, false;
        tdo := ToBits(numWords, wordWidth)[bitCnt];
        if bitCnt == wordWidth - 1 { nxtBitCnt, nxtState, nxtInReg := 0, WaitForUpdate, Zeros(wordWidth); }
      } else {
        nxtState := if p.update then Idle else WaitForUpdate;
      }
      nxt := ConfReg(nxtState, nxtBitCnt, nxtInReg, nxtDataTransfer, nxtConfigDiscovery, nxtCtrlLogicRst);
    }

    /** One clock edge, with the combinational block before it. */
    method Clock(p: ConfPins) returns (tdo: bool)
      requires Valid()
      modifies this
      ensures Valid() && ConfNext(Regs(), tdo) == Next(wordWidth, numWords, old(Regs()), p)
    {
      hide Comb;
      var nxt;
      nxt, tdo := Conf(p);
      if p.update {
        bitCnt, state, inReg := 0, Idle, Zeros(wordWidth);
        configDiscovery, dataTransfer, ctrlLogicRst := false, false, false;
      } else {
        bitCnt, state, inReg := nxt.bitCnt, nxt.state, nxt.inReg;
        dataTransfer, configDiscovery, ctrlLogicRst := nxt.dataTransfer, nxt.configDiscovery, nxt.ctrlLogicRst;
      }
    }
  }

  // ---- A contiguous shift ----

  function ConfStep(w: nat, numWords: nat, r: ConfReg, tdi: bool): (u: ConfReg)
    requires RegOk(w, r)
    ensures RegOk(w, u)
  {
    Next(w, numWords, r, ConfPins(tdi, true, false)).r
  }

  function ConfRun(w: nat, numWords: nat, r: ConfReg, bits: Word): (u: ConfReg)
    requires RegOk(w, r)
    ensures RegOk(w, u)
    decreases |bits|
  {
    if bits == [] then r else ConfRun(w, numWords, ConfStep(w, numWords, r, bits[0]), bits[1..])
  }

  /** The bits on TDO while this FSM drives it. */
  function ConfBits(w: nat, numWords: nat, r: ConfReg, bits: Word): (b: Word)
    requires RegOk(w, r)
    ensures |b| == |bits|
    decreases |bits|
  {
    if bits == [] then []
    else [Next(w, numWords, r, ConfPins(bits[0], true, false)).tdo]
         + ConfBits(w, numWords, ConfStep(w, numWords, r, bits[0]), bits[1..])
  }

  /** After how many clocks of a shift the logic reset output is high. */
  ghost predicate ResetAfter(w: nat, numWords: nat, r: ConfReg, bits: Word, n: nat)
    requires RegOk(w, r) && n <= |bits|
  {
    ConfRun(w, numWords, r, bits[..n]).ctrlLogicRst
  }

  lemma {:induction false} HeaderBits(w: nat, numWords: nat, r: ConfReg, bits: Word)
    requires RegOk(w, r) && r.state.Idle? && !r.configDiscovery && !r.ctrlLogicRst && r.bitCnt + |bits| < w
    ensures var u := ConfRun(w, numWords, r, bits);
      && u.state.Idle? && !u.configDiscovery && !u.ctrlLogicRst && u.bitCnt == r.bitCnt + |bits|
      && (forall i :: 0 <= i < r.bitCnt ==> u.inReg[i] == r.inReg[i])
      && (forall i :: 0 <= i < |bits| ==> u.inReg[r.bitCnt + i] == bits[i])
    decreases |bits|
  {
    if bits != [] { HeaderBits(w, numWords, ConfStep(w, numWords, r, bits[0]), bits[1..]); }
  }

  lemma {:induction false} ConfRunAppend(w: nat, numWords: nat, r: ConfReg, a: Word, b: Word)
    requires RegOk(w, r)
    ensures ConfRun(w, numWords, r, a + b) == ConfRun(w, numWords, ConfRun(w, numWords, r, a), b)
    ensures ConfBits(w, numWords, r, a + b) ==
      ConfBits(w, numWords, r, a) + ConfBits(w, numWords, ConfRun(w, numWords, r, a), b)
    decreases |a|
  {
    hide Next;
    if a == [] {
      assert a + b == b;
    } else {
      assert (a + b)[1..] == a[1..] + b && (a + b)[0] == a[0];
      ConfRunAppend(w, numWords, ConfStep(w, numWords, r, a[0]), a[1..], b);
    }
  }

  /** The first word decides: an all-ones header starts the answer, any other leaves this FSM silent
      until update, and it has not spoken before. */
  lemma HeaderWord(w: nat, numWords: nat, r: ConfReg, word: Word)
    requires RegOk(w, r) && r.state.Idle? && r.bitCnt == 0 && !r.configDiscovery && !r.ctrlLogicRst && |word| == w
    ensures var u := ConfRun(w, numWords, r, word);
      && u.bitCnt == 0 && !u.ctrlLogicRst && u.dataTransfer == !AllOnes(word)
      && (if AllOnes(word) then u.state.SendWordWidth? && u.configDiscovery
          else u.state.WaitForUpdate? && !u.configDiscovery)
    ensures forall n :: 0 <= n < w ==> !ConfRun(w, numWords, r, word[..n]).configDiscovery
  {
    HeaderBits(w, numWords, r, word[..w - 1]);
    var x := ConfRun(w, numWords, r, word[..w - 1]);
    assert word == word[..w - 1] + [word[w - 1]];
    ConfRunAppend(w, numWords, r, word[..w - 1], [word[w - 1]]);
    assert [word[w - 1]][1..] == [];
    HeaderEnds(w, numWords, x, word);
    forall n | 0 <= n < w ensures !ConfRun(w, numWords, r, word[..n]).configDiscovery {
      HeaderBits(w, numWords, r, word[..n]);
    }
  }

  lemma HeaderEnds(w: nat, numWords: nat, x: ConfReg, word: Word)
    requires RegOk(w, x) && x.state.Idle? && x.bitCnt == w - 1 && |word| == w
    requires forall i :: 0 <= i < w - 1 ==> x.inReg[i] == word[i]
    ensures var u := ConfStep(w, numWords, x, word[w - 1]);
      && u.bitCnt == 0 && !u.ctrlLogicRst && u.dataTransfer == !AllOnes(word)
      && (if AllOnes(word) then u.state.SendWordWidth? && u.configDiscovery
          else u.state.WaitForUpdate? && !u.configDiscovery)
  {
    assert x.inReg[w - 1 := word[w - 1]] == word;
  }

  /** What the two answering states still have to show. */
  function Answer(w: nat, numWords: nat, r: ConfReg): Word {
    if r.state.SendWordWidth? then ToBits(w, w) else ToBits(numWords, w)
  }

  lemma AnswerBit(w: nat, numWords: nat, r: ConfReg, bit: bool)
    requires RegOk(w, r) && (r.state.SendWordWidth? || r.state.SendBufferSize?)
    ensures Next(w, numWords, r, ConfPins(bit, true, false)).tdo == Answer(w, numWords, r)[r.bitCnt]
    ensures var u := ConfStep(w, numWords, r, bit);
      && u.configDiscovery && u.ctrlLogicRst == (r.state.SendWordWidth? && r.bitCnt == 0 && bit)
      && (if r.bitCnt < w - 1 then u.bitCnt == r.bitCnt + 1 && u.state == r.state
          else u.bitCnt == 0 && u.state == (if r.state.SendWordWidth? then SendBufferSize else WaitForUpdate))
  {
    hide ToBits, AllOnes;
  }

  lemma {:induction false} AnswerBits(w: nat, numWords: nat, r: ConfReg, bits: Word)
    requires RegOk(w, r) && (r.state.SendWordWidth? || r.state.SendBufferSize?) && r.configDiscovery
    requires r.bitCnt + |bits| == w
    ensures var u := ConfRun(w, numWords, r, bits);
      && u.configDiscovery && u.bitCnt == 0
      && u.state == (if r.state.SendWordWidth? then SendBufferSize else WaitForUpdate)
      && (bits != [] && (r.bitCnt > 0 || r.state.SendBufferSize? || |bits| > 1) ==> !u.ctrlLogicRst)
    ensures ConfBits(w, numWords, r, bits) == Answer(w, numWords, r)[r.bitCnt..]
    decreases |bits|
  {
    hide ToBits, Next, ConfStep;
    AnswerBit(w, numWords, r, bits[0]);
    var u, a := ConfStep(w, numWords, r, bits[0]), Answer(w, numWords, r);
    if |bits| > 1 {
      AnswerBits(w, numWords, u, bits[1..]);
    } else {
      assert bits[1..] == [];
    }
    HeadAndTail(a, r.bitCnt);
  }

  lemma HeadAndTail(a: Word, i: nat)
    requires i < |a|
    ensures [a[i]] + a[i + 1..] == a[i..]
  {
  }

  lemma {:induction false} AnswerProgress(w: nat, numWords: nat, r: ConfReg, bits: Word)
    requires RegOk(w, r) && (r.state.SendWordWidth? || r.state.SendBufferSize?) && r.bitCnt + |bits| < w
    ensures var u := ConfRun(w, numWords, r, bits); u.state == r.state && u.bitCnt == r.bitCnt + |bits|
    decreases |bits|
  {
    hide ToBits;
    if bits != [] { AnswerProgress(w, numWords, ConfStep(w, numWords, r, bits[0]), bits[1..]); }
  }

  /** The reset output is high for one clock, after the first bit of the second word, iff it is set. */
  lemma PulseInAnswer(w: nat, numWords: nat, r: ConfReg, bits: Word, n: nat)
    requires RegOk(w, r) && (r.state.SendWordWidth? || r.state.SendBufferSize?) && r.bitCnt == 0
    requires |bits| == w && 0 < n <= w
    ensures ConfRun(w, numWords, r, bits[..n]).ctrlLogicRst <==> r.state.SendWordWidth? && n == 1 && bits[0]
  {
    hide ToBits;
    AnswerProgress(w, numWords, r, bits[..n - 1]);
    var x := ConfRun(w, numWords, r, bits[..n - 1]);
    assert bits[..n] == bits[..n - 1] + [bits[n - 1]];
    ConfRunAppend(w, numWords, r, bits[..n - 1], [bits[n - 1]]);
    assert [bits[n - 1]][1..] == [];
  }

  lemma {:induction false} Waiting(w: nat, numWords: nat, r: ConfReg, bits: Word)
    requires RegOk(w, r) && r.state.WaitForUpdate? && !r.ctrlLogicRst
    ensures var u := ConfRun(w, numWords, r, bits);
      u.state.WaitForUpdate? && u.configDiscovery == r.configDiscovery && !u.ctrlLogicRst
    decreases |bits|
  {
    if bits != [] { Waiting(w, numWords, ConfStep(w, numWords, r, bits[0]), bits[1..]); }
  }

  /** A configuration frame: behind the all-ones header the target answers WORD_WIDTH and NUM_WORDS
      and drives TDO until update. */
  lemma ConfigFrame(w: nat, numWords: nat, r: ConfReg, header: Word, side: Word, tail: Word)
    requires RegOk(w, r) && r.state.Idle? && r.bitCnt == 0 && !r.configDiscovery && !r.ctrlLogicRst
    requires |header| == |side| == |tail| == w && AllOnes(header)
    ensures var u := ConfRun(w, numWords, r, header + side + tail); u.state.WaitForUpdate? && u.configDiscovery
    ensures ConfBits(w, numWords, r, header + side + tail)[w..] == ToBits(w, w) + ToBits(numWords, w)
  {
    hide ConfRun, ConfBits, ToBits, AllOnes;
    HeaderWord(w, numWords, r, header);
    var a := ConfRun(w, numWords, r, header);
    ConfRunAppend(w, numWords, r, header, side);
    AnswerBits(w, numWords, a, side);
    var b := ConfRun(w, numWords, a, side);
    ConfRunAppend(w, numWords, r, header + side, tail);
    AnswerBits(w, numWords, b, tail);
    var shown := ConfBits(w, numWords, r, header);
    ConcatAssoc(shown, ToBits(w, w), ToBits(numWords, w));
    assert ToBits(w, w)[0..] == ToBits(w, w) && ToBits(numWords, w)[0..] == ToBits(numWords, w);
  }

  /** During such a frame the logic is reset for one clock iff bit 0 of the second word is set. */
  lemma PulseInFrame(w: nat, numWords: nat, r: ConfReg, header: Word, side: Word, tail: Word, n: nat)
    requires RegOk(w, r) && r.state.Idle? && r.bitCnt == 0 && !r.configDiscovery && !r.ctrlLogicRst
    requires |header| == |side| == |tail| == w && AllOnes(header) && n <= 3 * w
    ensures ResetAfter(w, numWords, r, header + side + tail, n) <==> n == w + 1 && side[0]
  {
    hide Next, ToBits;
    var bits := header + side + tail;
    HeaderWord(w, numWords, r, header);
    var a := ConfRun(w, numWords, r, header);
    if n < w {
      assert bits[..n] == header[..n];
      HeaderBits(w, numWords, r, header[..n]);
    } else if n == w {
      assert bits[..n] == header;
    } else if n <= 2 * w {
      assert bits[..n] == header + side[..n - w];
      ConfRunAppend(w, numWords, r, header, side[..n - w]);
      PulseInAnswer(w, numWords, a, side, n - w);
    } else {
      assert bits[..n] == (header + side) + tail[..n - 2 * w];
      ConfRunAppend(w, numWords, r, header, side);
      ConfRunAppend(w, numWords, r, header + side, tail[..n - 2 * w]);
      AnswerBits(w, numWords, a, side);
      PulseInAnswer(w, numWords, ConfRun(w, numWords, a, side), tail, n - 2 * w);
    }
  }

  /** And never again until update, however long the shift. */
  lemma PulseInShift(w: nat, numWords: nat, r: ConfReg, bits: Word, n: nat)
    requires RegOk(w, r) && r.state.Idle? && r.bitCnt == 0 && !r.configDiscovery && !r.ctrlLogicRst
    requires w <= |bits| && AllOnes(bits[..w]) && n <= |bits|
    ensures ConfRun(w, numWords, r, bits[..n]).ctrlLogicRst <==> n == w + 1 && bits[w]
  {
    hide Next, ToBits, ConfRun, AllOnes;
    var padded := bits + Zeros(3 * w);
    var header, side, tail := padded[..w], padded[w..2 * w], padded[2 * w..3 * w];
    assert header == bits[..w] && header + side + tail == padded[..3 * w];
    assert bits[..n] == padded[..n];
    if n <= 3 * w {
      PulseInFrame(w, numWords, r, header, side, tail, n);
      assert padded[..3 * w][..n] == padded[..n];
      if n == w + 1 { assert side[0] == padded[w] == bits[w]; }
    } else {
      var frame, rest := header + side + tail, bits[3 * w..n];
      assert bits[..n] == frame + rest;
      ConfigFrame(w, numWords, r, header, side, tail);
      PulseInFrame(w, numWords, r, header, side, tail, 3 * w);
      assert frame[..3 * w] == frame;
      ConfRunAppend(w, numWords, r, frame, rest);
      Waiting(w, numWords, ConfRun(w, numWords, r, frame), rest);
    }
  }

  /** Any other header keeps this FSM silent for the whole shift: it never drives TDO and never resets
      the logic. */
  lemma SilentFrame(w: nat, numWords: nat, r: ConfReg, header: Word, rest: Word, n: nat)
    requires RegOk(w, r) && r.state.Idle? && r.bitCnt == 0 && !r.configDiscovery && !r.ctrlLogicRst
    requires |header| == w && !AllOnes(header) && n <= w + |rest|
    ensures var u := ConfRun(w, numWords, r, (header + rest)[..n]); !u.configDiscovery && !u.ctrlLogicRst
  {
    hide Next;
    HeaderWord(w, numWords, r, header);
    if n < w {
      assert (header + rest)[..n] == header[..n];
      HeaderBits(w, numWords, r, header[..n]);
    } else {
      assert (header + rest)[..n] == header + rest[..n - w];
      ConfRunAppend(w, numWords, r, header, rest[..n - w]);
      Waiting(w, numWords, ConfRun(w, numWords, r, header), rest[..n - w]);
    }
  }

  /** Once it answers, this FSM drives TDO for the rest of the shift. */
  lemma {:induction false} KeepsDriving(w: nat, numWords: nat, r: ConfReg, bits: Word)
    requires RegOk(w, r) && r.configDiscovery && !r.state.Idle?
    ensures var u := ConfRun(w, numWords, r, bits); u.configDiscovery && !u.state.Idle?
    decreases |bits|
  {
    hide ToBits;
    if bits != [] { KeepsDriving(w, numWords, ConfStep(w, numWords, r, bits[0]), bits[1..]); }
  }
}
