/** A frame as the input FSM sees it: a contiguous shift of whole words, clock by clock, refined to
    one step per word. */
module JtagInputFrame {
  import opened Bits
  import opened JtagWords
  import opened JtagFifo
  import opened JtagInputFsm

  /** The FSM with its synchronous fifo of `length` words, and what went into it and out of it. */
  datatype InSys = InSys(r: InReg, fifo: seq<Word>, pushed: seq<Word>, drained: seq<Word>)

  /** One clock in Shift-DR: the bit on TDI, and whether the fifo behind takes a word. */
  datatype InTick = InTick(tdi: bool, drain: bool)

  ghost predicate Ok(w: nat, length: nat, s: InSys) {
    RegOk(w, s.r) && length >= 1 && |s.fifo| <= length
  }

  /** A shift clock. The reset of the fifo is the FSM's own jtag_reset register. */
  function InStep(w: nat, length: nat, s: InSys, t: InTick): (u: InSys)
    requires Ok(w, length, s)
    ensures Ok(w, length, u)
  {
    var n := Next(w, s.r, InPins(s.r.jtagReset, t.tdi, true, false, false), |s.fifo| < length);
    InSys(n.r,
          NextQueue(s.fifo, length, s.r.jtagReset, n.inFlit, n.inValid, t.drain),
          s.pushed + (if n.inValid then [n.inFlit] else []),
          s.drained + (if t.drain && s.fifo != [] then [s.fifo[0]] else []))
  }

  function InRun(w: nat, length: nat, s: InSys, ts: seq<InTick>): (u: InSys)
    requires Ok(w, length, s)
    ensures Ok(w, length, u)
    decreases |ts|
  {
    if ts == [] then s else InRun(w, length, InStep(w, length, s, ts[0]), ts[1..])
  }

  function InTdi(ts: seq<InTick>): (b: Word)
    ensures |b| == |ts|
  {
    seq(|ts|, i requires 0 <= i < |ts| => ts[i].tdi)
  }

  lemma {:induction false} InRunAppend(w: nat, length: nat, s: InSys, a: seq<InTick>, b: seq<InTick>)
    requires Ok(w, length, s)
    ensures InRun(w, length, s, a + b) == InRun(w, length, InRun(w, length, s, a), b)
    decreases |a|
  {
    if a == [] {
      assert a + b == b;
    } else {
      assert (a + b)[1..] == a[1..] + b && (a + b)[0] == a[0];
      InRunAppend(w, length, InStep(w, length, s, a[0]), a[1..], b);
    }
  }

  /** Nothing is lost between the FSM and the logic behind the fifo while no reset comes in between. */
  ghost predicate Conserved(s: InSys) { s.pushed == s.drained + s.fifo }

  /** At every clock a word is pushed only into a fifo with room, and the reader takes the oldest word, if
      it takes one and there is one; a reset drops the rest. */
  lemma StepMovesWords(w: nat, length: nat, s: InSys, t: InTick)
    requires Ok(w, length, s)
    ensures var u := InStep(w, length, s, t);
      var took := t.drain && s.fifo != [];
      && u.drained == s.drained + (if took then [s.fifo[0]] else [])
      && s.pushed <= u.pushed && |u.pushed| <= |s.pushed| + (if |s.fifo| < length then 1 else 0)
      && u.fifo == (if s.r.jtagReset then []
                    else (if took then s.fifo[1..] else s.fifo) + u.pushed[|s.pushed|..])
  {
    hide IdleNext, LengthNext, IgnoreNext, PacketNext, DropNext;
  }

  lemma StepFillsByPushes(w: nat, length: nat, s: InSys, t: InTick)
    requires Ok(w, length, s)
    ensures var u := InStep(w, length, s, t); |u.fifo| - |u.pushed| <= |s.fifo| - |s.pushed|
  {
    hide IdleNext, LengthNext, IgnoreNext, PacketNext, DropNext;
  }

  /** The fifo only grows by what is pushed. */
  lemma {:induction false} FillsByPushes(w: nat, length: nat, s: InSys, ts: seq<InTick>)
    requires Ok(w, length, s)
    ensures var u := InRun(w, length, s, ts); |u.fifo| - |u.pushed| <= |s.fifo| - |s.pushed|
    decreases |ts|
  {
    if ts != [] {
      StepFillsByPushes(w, length, s, ts[0]);
      hide InStep;
      FillsByPushes(w, length, InStep(w, length, s, ts[0]), ts[1..]);
    }
  }

  // ---- Inside a word: all clocks but the last ----

  /** States that collect bits, and what they have collected after `n` more clocks. */
  ghost predicate SameButProgress(s: InSys, u: InSys) {
    u.pushed == s.pushed && u.r.state == s.r.state && u.r.accCnt == s.r.accCnt && u.r.jtagReset == s.r.jtagReset
    && (Conserved(s) ==> Conserved(u))
  }

  /** One clock inside a word: bit_cnt moves on, the bit is stored where this word is kept. */
  lemma InnerBit(w: nat, length: nat, s: InSys, t: InTick)
    requires Ok(w, length, s) && !s.r.jtagReset && s.r.bitCnt < w - 1
    requires s.r.state.ReadPacketLength? || s.r.state.IgnoreReadLength? || s.r.state.ReadPacket?
    ensures var u := InStep(w, length, s, t);
      && SameButProgress(s, u) && u.r.bitCnt == s.r.bitCnt + 1
      && u.r.inRegCnt == (if s.r.state.ReadPacketLength? then s.r.inRegCnt[s.r.bitCnt := t.tdi] else s.r.inRegCnt)
      && u.r.inRegData == (if s.r.state.ReadPacket? then s.r.inRegData[s.r.bitCnt := t.tdi] else s.r.inRegData)
  {
    hide ToBits, Val, AllOnes, AnyOne, Conserved;
    DrainConserves(s, InStep(w, length, s, t), t.drain);
  }

  /** A word that is drained moves from the fifo to its reader. */
  lemma DrainConserves(s: InSys, u: InSys, drain: bool)
    requires u.pushed == s.pushed
    requires var d := drain && s.fifo != [];
      && u.fifo == (if d then s.fifo[1..] else s.fifo)
      && u.drained == s.drained + (if d then [s.fifo[0]] else [])
    ensures Conserved(s) ==> Conserved(u)
  {
    if drain && s.fifo != [] { ConcatAssoc(s.drained, [s.fifo[0]], s.fifo[1..]); }
  }

  lemma ProgressAdds(s: InSys, v: InSys, u: InSys)
    requires SameButProgress(s, v) && SameButProgress(v, u)
    ensures SameButProgress(s, u)
  {
    hide Conserved;
  }

  lemma TdiCons(ts: seq<InTick>)
    requires ts != []
    ensures InTdi(ts) == [ts[0].tdi] + InTdi(ts[1..])
  {
  }

  lemma {:induction false} LengthBits(w: nat, length: nat, s: InSys, ts: seq<InTick>)
    requires Ok(w, length, s) && s.r.state.ReadPacketLength? && !s.r.jtagReset
    requires s.r.bitCnt + |ts| < w
    ensures var u := InRun(w, length, s, ts);
      && SameButProgress(s, u) && u.r.bitCnt == s.r.bitCnt + |ts|
      && Overwrites(u.r.inRegCnt, s.r.inRegCnt, s.r.bitCnt, InTdi(ts))
    decreases |ts|
  {
    hide InStep, Conserved, InTdi;
    if ts != [] {
      hide Overwrites;
      var v := InStep(w, length, s, ts[0]);
      InnerBit(w, length, s, ts[0]);
      LengthBits(w, length, v, ts[1..]);
      ProgressAdds(s, v, InRun(w, length, v, ts[1..]));
      TdiCons(ts);
      OneMoreBit(InRun(w, length, v, ts[1..]).r.inRegCnt, s.r.inRegCnt, s.r.bitCnt, ts[0].tdi, InTdi(ts[1..]));
    }
  }

  lemma {:induction false} IgnoreBits(w: nat, length: nat, s: InSys, ts: seq<InTick>)
    requires Ok(w, length, s) && s.r.state.IgnoreReadLength? && !s.r.jtagReset
    requires s.r.bitCnt + |ts| < w
    ensures var u := InRun(w, length, s, ts);
      SameButProgress(s, u) && u.r.bitCnt == s.r.bitCnt + |ts| && u.r.inRegCnt == s.r.inRegCnt
    decreases |ts|
  {
    hide InStep, Conserved;
    if ts != [] {
      var v := InStep(w, length, s, ts[0]);
      InnerBit(w, length, s, ts[0]);
      IgnoreBits(w, length, v, ts[1..]);
      ProgressAdds(s, v, InRun(w, length, v, ts[1..]));
    }
  }

  lemma {:induction false} PacketBits(w: nat, length: nat, s: InSys, ts: seq<InTick>)
    requires Ok(w, length, s) && s.r.state.ReadPacket? && !s.r.jtagReset
    requires s.r.bitCnt + |ts| < w
    ensures var u := InRun(w, length, s, ts);
      && SameButProgress(s, u) && u.r.bitCnt == s.r.bitCnt + |ts| && u.r.inRegCnt == s.r.inRegCnt
      && Overwrites(u.r.inRegData, s.r.inRegData, s.r.bitCnt, InTdi(ts))
    decreases |ts|
  {
    hide InStep, Conserved, InTdi;
    if ts != [] {
      hide Overwrites;
      var v := InStep(w, length, s, ts[0]);
      InnerBit(w, length, s, ts[0]);
      PacketBits(w, length, v, ts[1..]);
      ProgressAdds(s, v, InRun(w, length, v, ts[1..]));
      TdiCons(ts);
      OneMoreBit(InRun(w, length, v, ts[1..]).r.inRegData, s.r.inRegData, s.r.bitCnt, ts[0].tdi, InTdi(ts[1..]));
    }
  }

  /** While it drops, the FSM ignores everything; a pending jtag_reset empties the fifo once. */
  lemma {:induction false} DropBits(w: nat, length: nat, s: InSys, ts: seq<InTick>)
    requires Ok(w, length, s) && s.r.state.DropPacket?
    ensures var u := InRun(w, length, s, ts);
      && u.r.state.DropPacket? && u.pushed == s.pushed
      && (!s.r.jtagReset ==> u.r.accCnt == s.r.accCnt && !u.r.jtagReset && (Conserved(s) ==> Conserved(u)))
      && (s.fifo == [] ==> u.fifo == [] && (Conserved(s) ==> Conserved(u)))
      && (s.r.jtagReset && ts != [] ==> !u.r.jtagReset && u.r.accCnt == 0 && u.fifo == [])
    decreases |ts|
  {
    if ts != [] { DropBits(w, length, InStep(w, length, s, ts[0]), ts[1..]); }
  }

  // ---- What is drained while nothing is pushed ----

  function Drains(ts: seq<InTick>): nat {
    if ts == [] then 0 else (if ts[0].drain then 1 else 0) + Drains(ts[1..])
  }

  lemma {:induction false} NoDrains(ts: seq<InTick>)
    requires forall i :: 0 <= i < |ts| ==> !ts[i].drain
    ensures Drains(ts) == 0
  {
    if ts != [] { NoDrains(ts[1..]); }
  }

  /** From `s` to `u` the reader took the next `n` words, or all there were, and nothing else moved. */
  ghost predicate OnlyDrained(s: InSys, u: InSys, n: nat) {
    var k := Min(n, |s.fifo|);
    u.pushed == s.pushed && u.fifo == s.fifo[k..] && u.drained == s.drained + s.fifo[..k]
  }

  lemma DrainsAdd(s: InSys, v: InSys, u: InSys, m: nat, n: nat)
    requires OnlyDrained(s, v, m) && OnlyDrained(v, u, n)
    ensures OnlyDrained(s, u, m + n)
  {
    var j, k := Min(m, |s.fifo|), Min(m + n, |s.fifo|);
    assert s.fifo[j..][..k - j] == s.fifo[j..k];
    assert s.fifo[..k] == s.fifo[..j] + s.fifo[j..k];
    ConcatAssoc(s.drained, s.fifo[..j], s.fifo[j..k]);
  }

  ghost predicate InHeader(r: InReg) { (r.state.Idle? || r.state.ReadPacketLength?) && !r.jtagReset }

  lemma HeaderStepDrains(w: nat, length: nat, s: InSys, t: InTick)
    requires Ok(w, length, s) && InHeader(s.r)
    ensures var u := InStep(w, length, s, t);
      && OnlyDrained(s, u, if t.drain then 1 else 0)
      && (s.r.bitCnt < w - 1 ==> InHeader(u.r) && u.r.bitCnt == s.r.bitCnt + 1)
  {
  }

  /** The first word of a frame moves nothing but what is drained, to its last clock. */
  lemma {:induction false} HeaderDrains(w: nat, length: nat, s: InSys, ts: seq<InTick>)
    requires Ok(w, length, s) && InHeader(s.r) && s.r.bitCnt + |ts| <= w
    ensures OnlyDrained(s, InRun(w, length, s, ts), Drains(ts))
    decreases |ts|
  {
    hide InStep, OnlyDrained, InHeader;
    if ts == [] {
      NothingDrained(s);
    } else {
      var v := InStep(w, length, s, ts[0]);
      HeaderStepDrains(w, length, s, ts[0]);
      if |ts| > 1 { HeaderDrains(w, length, v, ts[1..]); } else { NothingDrained(v); }
      DrainsAdd(s, v, InRun(w, length, v, ts[1..]), if ts[0].drain then 1 else 0, Drains(ts[1..]));
    }
  }

  lemma NothingDrained(s: InSys)
    ensures OnlyDrained(s, s, 0)
  {
  }

  /** A word of a configuration frame that begins with the reset pulse: its first clock may still drain
      a word, the rest of the fifo is dropped, and nothing moves afterwards. */
  lemma FlushWord(w: nat, length: nat, s: InSys, ts: seq<InTick>)
    requires Ok(w, length, s) && s.r.state.DropPacket? && s.r.jtagReset && ts != []
    ensures var u := InRun(w, length, s, ts);
      && u.fifo == [] && u.pushed == s.pushed
      && u.drained == s.drained + s.fifo[..Min(if ts[0].drain then 1 else 0, |s.fifo|)]
  {
    var v := InStep(w, length, s, ts[0]);
    assert v.fifo == [] && v.r.state.DropPacket? && !v.r.jtagReset && v.pushed == s.pushed;
    hide InStep;
    EmptyStays(w, length, v, ts[1..]);
  }

  lemma {:induction false} EmptyStays(w: nat, length: nat, s: InSys, ts: seq<InTick>)
    requires Ok(w, length, s) && s.r.state.DropPacket? && !s.r.jtagReset && s.fifo == []
    ensures var u := InRun(w, length, s, ts); u.fifo == [] && u.pushed == s.pushed && u.drained == s.drained
    decreases |ts|
  {
    if ts != [] { EmptyStays(w, length, InStep(w, length, s, ts[0]), ts[1..]); }
  }

  lemma OneClock(w: nat, length: nat, s: InSys, t: InTick)
    requires Ok(w, length, s)
    ensures InRun(w, length, s, [t]) == InStep(w, length, s, t)
  {
    hide InStep, Ok;
    assert [t][1..] == [];
  }

  lemma LastClock(w: nat, length: nat, s: InSys, ts: seq<InTick>)
    requires Ok(w, length, s) && ts != []
    ensures InRun(w, length, s, ts) == InStep(w, length, InRun(w, length, s, ts[..|ts| - 1]), ts[|ts| - 1])
  {
    hide InStep, InRun, Ok;
    var n := |ts| - 1;
    FrontAndLast(ts);
    InRunAppend(w, length, s, ts[..n], [ts[n]]);
    OneClock(w, length, InRun(w, length, s, ts[..n]), ts[n]);
  }

  // ---- Whole words ----

  /** What the FSM makes of the first word of a frame. */
  ghost predicate HeaderRead(w: nat, s: InSys, u: InSys, word: Word) {
    && u.pushed == s.pushed && u.r.accCnt == 0 && u.r.bitCnt == 0 && RegOk(w, u.r)
    && (Conserved(s) ==> Conserved(u))
    && u.r.jtagReset == AllOnes(word)
    && (if AllOnes(word) || !AnyOne(word) then u.r.state.DropPacket?
        else u.r.state.IgnoreReadLength? && u.r.inRegCnt == word)
  }

  lemma FirstClock(w: nat, length: nat, s: InSys, t: InTick)
    requires Ok(w, length, s) && s.r.state.Idle? && !s.r.jtagReset
    ensures var v := InStep(w, length, s, t);
      && v.r.state.ReadPacketLength? && v.r.bitCnt == 1 && v.r.accCnt == 0 && !v.r.jtagReset
      && v.r.inRegCnt[0] == t.tdi && v.pushed == s.pushed && (Conserved(s) ==> Conserved(v))
  {
  }

  lemma HeaderWord(w: nat, length: nat, s: InSys, ts: seq<InTick>)
    requires Ok(w, length, s) && s.r.state.Idle? && !s.r.jtagReset && |ts| == w
    ensures HeaderRead(w, s, InRun(w, length, s, ts), InTdi(ts))
  {
    hide InStep;
    FirstClock(w, length, s, ts[0]);
    var v := InStep(w, length, s, ts[0]);
    var middle := ts[1..][..w - 2];
    LengthBits(w, length, v, middle);
    var x := InRun(w, length, v, middle);
    LastClock(w, length, v, ts[1..]);
    assert ts[1..][w - 2] == ts[w - 1];
    forall i | 0 <= i < w - 1 ensures x.r.inRegCnt[i] == InTdi(ts)[i] {
      if i > 0 {
        assert x.r.inRegCnt[1 + (i - 1)] == InTdi(middle)[i - 1];
        assert middle[i - 1] == ts[i];
      }
    }
    HeaderEnds(w, length, x, ts[w - 1], InTdi(ts));
  }

  lemma HeaderEnds(w: nat, length: nat, x: InSys, t: InTick, word: Word)
    requires Ok(w, length, x) && x.r.state.ReadPacketLength? && !x.r.jtagReset && x.r.bitCnt == w - 1 && x.r.accCnt == 0
    requires |word| == w && word[w - 1] == t.tdi && forall i :: 0 <= i < w - 1 ==> x.r.inRegCnt[i] == word[i]
    ensures HeaderRead(w, x, InStep(w, length, x, t), word)
  {
    assert x.r.inRegCnt[w - 1 := t.tdi] == word;
  }

  lemma IgnoreWord(w: nat, length: nat, s: InSys, ts: seq<InTick>)
    requires Ok(w, length, s) && s.r.state.IgnoreReadLength? && !s.r.jtagReset && s.r.bitCnt == 0 && |ts| == w
    ensures var u := InRun(w, length, s, ts);
      && u.pushed == s.pushed && u.r.state.ReadPacket? && u.r.bitCnt == 0 && !u.r.jtagReset
      && u.r.accCnt == s.r.accCnt && u.r.inRegCnt == s.r.inRegCnt && (Conserved(s) ==> Conserved(u))
  {
    hide InRun, InStep, Conserved;
    IgnoreBits(w, length, s, ts[..w - 1]);
    LastClock(w, length, s, ts);
    IgnoreEnds(w, length, InRun(w, length, s, ts[..w - 1]), ts[w - 1]);
  }

  lemma IgnoreEnds(w: nat, length: nat, x: InSys, t: InTick)
    requires Ok(w, length, x) && x.r.state.IgnoreReadLength? && !x.r.jtagReset && x.r.bitCnt == w - 1
    ensures var u := InStep(w, length, x, t);
      && u.pushed == x.pushed && u.r.state.ReadPacket? && u.r.bitCnt == 0 && !u.r.jtagReset
      && u.r.accCnt == x.r.accCnt && u.r.inRegCnt == x.r.inRegCnt && (Conserved(x) ==> Conserved(u))
  {
    hide ToBits, Val, AllOnes, AnyOne, Conserved;
    DrainConserves(x, InStep(w, length, x, t), t.drain);
  }

  /** Whether the fifo has room at the clock that completes a word. */
  ghost predicate Room(w: nat, length: nat, s: InSys, ts: seq<InTick>)
    requires Ok(w, length, s) && |ts| == w
  {
    |InRun(w, length, s, ts[..w - 1]).fifo| < length
  }

  lemma RoomAtStart(w: nat, length: nat, s: InSys, ts: seq<InTick>)
    requires Ok(w, length, s) && s.r.state.ReadPacket? && !s.r.jtagReset && s.r.bitCnt == 0 && |ts| == w
    ensures |s.fifo| < length ==> Room(w, length, s, ts)
  {
    hide InStep;
    FillsByPushes(w, length, s, ts[..w - 1]);
    PacketBits(w, length, s, ts[..w - 1]);
  }

  lemma PacketWord(w: nat, length: nat, s: InSys, ts: seq<InTick>)
    requires Ok(w, length, s) && s.r.state.ReadPacket? && !s.r.jtagReset && s.r.bitCnt == 0 && |ts| == w
    requires Val(s.r.inRegCnt) > 0 && s.r.accCnt + 1 < Pow2(w)
    ensures var u := InRun(w, length, s, ts);
      && u.r.bitCnt == 0 && !u.r.jtagReset && (Conserved(s) ==> Conserved(u))
      && (if Room(w, length, s, ts) then
            && u.pushed == s.pushed + [InTdi(ts)] && u.r.accCnt == s.r.accCnt + 1
            && Val(u.r.inRegCnt) == Val(s.r.inRegCnt) - 1
            && (if Val(s.r.inRegCnt) == 1 then u.r.state.DropPacket? else u.r.state.ReadPacket?)
          else
            u.pushed == s.pushed && u.r.accCnt == s.r.accCnt && u.r.state.DropPacket?)
  {
    hide InStep;
    PacketBits(w, length, s, ts[..w - 1]);
    LastClock(w, length, s, ts);
    var x := InRun(w, length, s, ts[..w - 1]);
    forall i | 0 <= i < w - 1 ensures x.r.inRegData[i] == InTdi(ts)[i] {
      assert x.r.inRegData[0 + i] == InTdi(ts[..w - 1])[i];
    }
    PacketEnds(w, length, x, ts[w - 1], InTdi(ts));
  }

  lemma PacketEnds(w: nat, length: nat, x: InSys, t: InTick, word: Word)
    requires Ok(w, length, x) && x.r.state.ReadPacket? && !x.r.jtagReset && x.r.bitCnt == w - 1
    requires Val(x.r.inRegCnt) > 0 && x.r.accCnt + 1 < Pow2(w)
    requires |word| == w && word[w - 1] == t.tdi && forall i :: 0 <= i < w - 1 ==> x.r.inRegData[i] == word[i]
    ensures var u := InStep(w, length, x, t);
      && u.r.bitCnt == 0 && !u.r.jtagReset && (Conserved(x) ==> Conserved(u))
      && (if |x.fifo| < length then
            && u.pushed == x.pushed + [word] && u.r.accCnt == x.r.accCnt + 1
            && Val(u.r.inRegCnt) == Val(x.r.inRegCnt) - 1
            && (if Val(x.r.inRegCnt) == 1 then u.r.state.DropPacket? else u.r.state.ReadPacket?)
          else
            u.pushed == x.pushed && u.r.accCnt == x.r.accCnt && u.r.state.DropPacket?)
  {
    hide Next, ToBits, Val, Conserved, Pow2;
    PacketEndsNext(w, x.r, t.tdi, |x.fifo| < length, word);
    var u := InStep(w, length, x, t);
    if |x.fifo| < length {
      PushConserves(x, u, word, t.drain);
    } else {
      DrainConserves(x, u, t.drain);
    }
  }

  /** The FSM at that clock, whatever the fifo holds. */
  lemma PacketEndsNext(w: nat, r: InReg, tdi: bool, ready: bool, word: Word)
    requires RegOk(w, r) && r.state.ReadPacket? && !r.jtagReset && r.bitCnt == w - 1
    requires Val(r.inRegCnt) > 0 && r.accCnt + 1 < Pow2(w)
    requires |word| == w && word[w - 1] == tdi && forall i :: 0 <= i < w - 1 ==> r.inRegData[i] == word[i]
    ensures var n := Next(w, r, InPins(false, tdi, true, false, false), ready);
      && n.r.bitCnt == 0 && !n.r.jtagReset && n.inValid == ready && (ready ==> n.inFlit == word)
      && (if ready then
            && n.r.accCnt == r.accCnt + 1 && Val(n.r.inRegCnt) == Val(r.inRegCnt) - 1
            && (if Val(r.inRegCnt) == 1 then n.r.state.DropPacket? else n.r.state.ReadPacket?)
          else n.r.accCnt == r.accCnt && n.r.state.DropPacket?)
  {
    assert r.inRegData[w - 1 := tdi] == word;
    PacketCounts(w, r, InPins(false, tdi, true, false, false), ready);
    hide ToBits, Val, Pow2, AnyOne, PacketNext, IdleNext, LengthNext, IgnoreNext, DropNext;
  }

  /** The registers alone. */
  lemma PacketCounts(w: nat, r: InReg, p: InPins, ready: bool)
    requires RegOk(w, r) && r.state.ReadPacket? && r.bitCnt == w - 1 && Val(r.inRegCnt) > 0 && r.accCnt + 1 < Pow2(w)
    ensures var n := PacketNext(w, r, p, ready);
      && n.bitCnt == 0 && n.jtagReset == r.jtagReset
      && (if ready then
            && n.accCnt == r.accCnt + 1 && Val(n.inRegCnt) == Val(r.inRegCnt) - 1
            && (if Val(r.inRegCnt) == 1 then n.state.DropPacket? else n.state.ReadPacket?)
          else n.accCnt == r.accCnt && n.state.DropPacket?)
  {
    hide ToBits, Val, Pow2, AnyOne;
    CountDown(r.inRegCnt, w);
    ModSmall(r.accCnt + 1, Pow2(w));
  }

  lemma PushConserves(s: InSys, u: InSys, word: Word, drain: bool)
    requires u.pushed == s.pushed + [word]
    requires var d := drain && s.fifo != [];
      && u.fifo == (if d then s.fifo[1..] else s.fifo) + [word]
      && u.drained == s.drained + (if d then [s.fifo[0]] else [])
    ensures Conserved(s) ==> Conserved(u)
  {
    if drain && s.fifo != [] {
      ConcatAssoc(s.drained, [s.fifo[0]], s.fifo[1..]);
      ConcatAssoc(s.drained + [s.fifo[0]], s.fifo[1..], [word]);
    } else {
      ConcatAssoc(s.drained, s.fifo, [word]);
    }
  }

  /** in_reg_cnt - 1 in w bits. */
  lemma CountDown(cnt: Word, w: nat)
    requires |cnt| == w && Val(cnt) > 0
    ensures var left := ToBits(Val(cnt) + Pow2(w) - 1, w);
      Val(left) == Val(cnt) - 1 && (AnyOne(left) <==> Val(cnt) > 1)
  {
    var n := Val(cnt) - 1;
    ToBitsIsModular(n, w);
    ValOfToBits(n, w);
    AnyOneIsPositive(ToBits(n, w));
  }

  lemma {:induction false} ToBitsIsModular(n: nat, w: nat)
    ensures ToBits(n + Pow2(w), w) == ToBits(n, w)
  {
    if w > 0 {
      assert (n + Pow2(w)) / 2 == n / 2 + Pow2(w - 1);
      ToBitsIsModular(n / 2, w - 1);
    }
  }

  // ---- Frames: sequences of whole words ----

  ghost predicate WordSized(w: nat, groups: seq<seq<InTick>>) {
    forall i :: 0 <= i < |groups| ==> |groups[i]| == w
  }

  function InFrame(w: nat, length: nat, s: InSys, groups: seq<seq<InTick>>): (u: InSys)
    requires Ok(w, length, s)
    ensures Ok(w, length, u)
    decreases |groups|
  {
    if groups == [] then s else InFrame(w, length, InRun(w, length, s, groups[0]), groups[1..])
  }

  function WordsOf(groups: seq<seq<InTick>>): (b: seq<Word>)
    ensures |b| == |groups|
  {
    seq(|groups|, i requires 0 <= i < |groups| => InTdi(groups[i]))
  }

  lemma {:induction false} InFrameAppend(w: nat, length: nat, s: InSys, a: seq<seq<InTick>>, b: seq<seq<InTick>>)
    requires Ok(w, length, s)
    ensures InFrame(w, length, s, a + b) == InFrame(w, length, InFrame(w, length, s, a), b)
    decreases |a|
  {
    hide InRun;
    if a == [] {
      assert a + b == b;
    } else {
      assert (a + b)[1..] == a[1..] + b && (a + b)[0] == a[0];
      InFrameAppend(w, length, InRun(w, length, s, a[0]), a[1..], b);
    }
  }

  /** Whether the fifo has room at the boundary that ends word `j` of the frame. */
  ghost predicate RoomAt(w: nat, length: nat, s: InSys, groups: seq<seq<InTick>>, j: nat)
    requires Ok(w, length, s) && WordSized(w, groups) && j < |groups|
  {
    Room(w, length, InFrame(w, length, s, groups[..j]), groups[j])
  }

  lemma RoomAtNext(w: nat, length: nat, s: InSys, groups: seq<seq<InTick>>, j: nat)
    requires Ok(w, length, s) && WordSized(w, groups) && j + 1 < |groups|
    ensures RoomAt(w, length, s, groups, j + 1) ==
      RoomAt(w, length, InRun(w, length, s, groups[0]), groups[1..], j)
  {
    hide InRun, Room;
    assert groups[..j + 1][1..] == groups[1..][..j];
  }

  /** What `n` accepted words out of `left` announced ones mean, word boundary by word boundary. */
  ghost predicate Accepts(w: nat, length: nat, s: InSys, groups: seq<seq<InTick>>, left: nat, n: nat)
    requires Ok(w, length, s) && WordSized(w, groups)
  {
    && n <= Min(left, |groups|)
    && (forall j :: 0 <= j < n ==> RoomAt(w, length, s, groups, j))
    && (n < Min(left, |groups|) ==> !RoomAt(w, length, s, groups, n))
  }

  lemma {:induction false} DroppedWords(w: nat, length: nat, s: InSys, groups: seq<seq<InTick>>)
    requires Ok(w, length, s) && s.r.state.DropPacket? && !s.r.jtagReset
    ensures var u := InFrame(w, length, s, groups);
      && u.r.state.DropPacket? && !u.r.jtagReset && u.pushed == s.pushed && u.r.accCnt == s.r.accCnt
      && (Conserved(s) ==> Conserved(u)) && (s.fifo == [] ==> u.fifo == [])
    decreases |groups|
  {
    if groups != [] {
      DropBits(w, length, s, groups[0]);
      DroppedWords(w, length, InRun(w, length, s, groups[0]), groups[1..]);
    }
  }

  /** The state of the FSM `n` words into the data, `left` of them announced. */
  ghost predicate DataRead(s: InSys, u: InSys, words: seq<Word>, left: nat, n: nat) {
    && n <= |words| && u.pushed == s.pushed + words[..n] && u.r.accCnt == s.r.accCnt + n && !u.r.jtagReset
    && (Conserved(s) ==> Conserved(u))
    && (if n == |words| && n < left then u.r.state.ReadPacket? else u.r.state.DropPacket?)
  }

  lemma {:induction false} DataWords(w: nat, length: nat, s: InSys, groups: seq<seq<InTick>>) returns (n: nat)
    requires Ok(w, length, s) && s.r.state.ReadPacket? && s.r.bitCnt == 0 && !s.r.jtagReset && WordSized(w, groups)
    requires Val(s.r.inRegCnt) > 0 && s.r.accCnt + Val(s.r.inRegCnt) < Pow2(w)
    ensures Accepts(w, length, s, groups, Val(s.r.inRegCnt), n)
    ensures DataRead(s, InFrame(w, length, s, groups), WordsOf(groups), Val(s.r.inRegCnt), n)
    ensures n >= Min(Min(Val(s.r.inRegCnt), |groups|), length - |s.fifo|)
    decreases |groups|
  {
    hide InRun, Room;
    n := 0;
    if groups != [] {
      PacketWord(w, length, s, groups[0]);
      RoomAtStart(w, length, s, groups[0]);
      FillsByPushes(w, length, s, groups[0]);
      var v := InRun(w, length, s, groups[0]);
      var rest := groups[1..];
      assert WordsOf(groups) == [InTdi(groups[0])] + WordsOf(rest);
      assert RoomAt(w, length, s, groups, 0) == Room(w, length, s, groups[0]);
      if v.r.state.DropPacket? {
        DroppedWords(w, length, v, rest);
        n := if Room(w, length, s, groups[0]) then 1 else 0;
      } else {
        var m := DataWords(w, length, v, rest);
        n := m + 1;
        DataGrows(s, v, InFrame(w, length, v, rest), InTdi(groups[0]), WordsOf(rest), Val(v.r.inRegCnt), m);
        forall j | 1 <= j < |groups| ensures RoomAt(w, length, s, groups, j) == RoomAt(w, length, v, rest, j - 1) {
          RoomAtNext(w, length, s, groups, j - 1);
        }
      }
    }
  }

  lemma DataGrows(s: InSys, v: InSys, u: InSys, first: Word, rest: seq<Word>, left: nat, m: nat)
    requires v.pushed == s.pushed + [first] && v.r.accCnt == s.r.accCnt + 1 && (Conserved(s) ==> Conserved(v))
    requires DataRead(v, u, rest, left, m)
    ensures DataRead(s, u, [first] + rest, left + 1, m + 1)
  {
    assert ([first] + rest)[..m + 1] == [first] + rest[..m];
    ConcatAssoc(s.pushed, [first], rest[..m]);
  }

  /** The whole frame. From the idle state, with the first word saying how many words follow:
      - all ones: nothing is pushed, and the fifo is emptied by the one-clock reset pulse;
      - otherwise exactly the first `n` of the data words are pushed and counted in acc_cnt, where `n`
        is the first word boundary that finds the fifo full, or all words announced (or sent); so at
        least as many as had room when the frame began. */
  lemma InputFrame(w: nat, length: nat, s: InSys, groups: seq<seq<InTick>>) returns (n: nat)
    requires Ok(w, length, s) && s.r.state.Idle? && !s.r.jtagReset && WordSized(w, groups) && |groups| >= 2
    ensures var u := InFrame(w, length, s, groups);
      var header := InTdi(groups[0]);
      var v := InFrame(w, length, s, groups[..2]);
      var data := groups[2..];
      && Ok(w, length, v) && WordSized(w, data)
      && (AllOnes(header) ==> n == 0 && u.pushed == s.pushed && u.fifo == [] && u.r.accCnt == 0)
      && (!AllOnes(header) ==>
            && Accepts(w, length, v, data, Val(header), n)
            && u.pushed == s.pushed + WordsOf(data)[..n] && u.r.accCnt == n && (Conserved(s) ==> Conserved(u))
            && n >= Min(Min(Val(header), |data|), length - |s.fifo|)
            && (|data| >= Val(header) ==> u.r.state.DropPacket?))
      && !u.r.jtagReset
  {
    hide InRun, Room;
    var header, data := InTdi(groups[0]), groups[2..];
    HeaderWord(w, length, s, groups[0]);
    var h := InRun(w, length, s, groups[0]);
    var v := InRun(w, length, h, groups[1]);
    assert groups == groups[..2] + data;
    InFrameAppend(w, length, s, groups[..2], data);
    assert groups[..2][1..] == [groups[1]] && [groups[1]][1..] == [];
    assert InFrame(w, length, h, [groups[1]]) == InFrame(w, length, v, []);
    assert InFrame(w, length, s, groups[..2]) == v;
    AnyOneIsPositive(header);
    if h.r.state.DropPacket? {
      n := 0;
      DropBits(w, length, h, groups[1]);
      DroppedWords(w, length, v, data);
    } else {
      IgnoreWord(w, length, h, groups[1]);
      FillsByPushes(w, length, s, groups[0]);
      FillsByPushes(w, length, h, groups[1]);
      n := DataWords(w, length, v, data);
    }
  }
}
