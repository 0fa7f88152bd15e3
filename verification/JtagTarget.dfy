/** The three state machines of the target in lockstep on one TDI stream, with the fifos between them
    and the logic. Whole frames are refined to one transaction. */
module JtagTarget {
  import opened Bits
  import opened JtagWords
  import opened JtagFifo
  import In = JtagInputFsm
  import InF = JtagInputFrame
  import Out = JtagOutputFsm
  import OutF = JtagOutputFrame
  import Conf = JtagConfigFsm

  /** WORD_WIDTH, NUM_WORDS; the synchronous fifo has NUM_WORDS places. */
  datatype Params = Params(w: nat, numWords: nat)

  datatype Target = Target(inp: InF.InSys, out: OutF.OutSys, conf: Conf.ConfReg)

  /** One clock of TCK: the bit on TDI, whether the input fifo's reader takes a word, what the logic
      adds to the output fifo, and what an empty output fifo shows on its data port. */
  datatype Tick = Tick(tdi: bool, drain: bool, arrived: seq<Word>, idleData: Word)

  ghost predicate Ok(p: Params, s: Target) {
    InF.Ok(p.w, p.numWords, s.inp) && OutF.Ok(p.w, s.out) && Conf.RegOk(p.w, s.conf)
  }

  ghost predicate TickOk(p: Params, t: Tick) { OutF.WordsOk(p.w, t.arrived) && |t.idleData| == p.w }

  ghost predicate TicksOk(p: Params, ts: seq<Tick>) { forall i :: 0 <= i < |ts| ==> TickOk(p, ts[i]) }

  // ---- One clock in Shift-DR ----

  function InTick(t: Tick): InF.InTick { InF.InTick(t.tdi, t.drain) }

  /** What the output FSM sees: the input FSM's registers before the edge; com_rst resets its fifo. */
  function OutTick(p: Params, s: Target, t: Tick): OutF.OutTick {
    OutF.OutTick(t.tdi, t.arrived, s.inp.r.jtagReset, ToBits(s.inp.r.accCnt, p.w), s.inp.r.error, t.idleData)
  }

  function Step(p: Params, s: Target, t: Tick): (u: Target)
    requires Ok(p, s) && TickOk(p, t)
    ensures Ok(p, u)
  {
    Target(InF.InStep(p.w, p.numWords, s.inp, InTick(t)),
           OutF.OutStep(p.w, s.out, OutTick(p, s, t)),
           Conf.ConfStep(p.w, p.numWords, s.conf, t.tdi))
  }

  /** The multiplexer in front of TDO. */
  function Tdo(p: Params, s: Target, t: Tick): bool
    requires Ok(p, s) && TickOk(p, t)
  {
    if s.conf.configDiscovery then Conf.Next(p.w, p.numWords, s.conf, Conf.ConfPins(t.tdi, true, false)).tdo
    else OutF.OutBit(p.w, s.out, OutTick(p, s, t))
  }

  function Run(p: Params, s: Target, ts: seq<Tick>): (u: Target)
    requires Ok(p, s) && TicksOk(p, ts)
    ensures Ok(p, u)
    decreases |ts|
  {
    if ts == [] then s else Run(p, Step(p, s, ts[0]), ts[1..])
  }

  function TdoBits(p: Params, s: Target, ts: seq<Tick>): (b: Word)
    requires Ok(p, s) && TicksOk(p, ts)
    ensures |b| == |ts|
    decreases |ts|
  {
    if ts == [] then [] else [Tdo(p, s, ts[0])] + TdoBits(p, Step(p, s, ts[0]), ts[1..])
  }

  function TdiBits(ts: seq<Tick>): (b: Word)
    ensures |b| == |ts|
  {
    seq(|ts|, i requires 0 <= i < |ts| => ts[i].tdi)
  }

  // ---- The clocks around a shift ----

  /** A clock outside Shift-DR: Capture-DR, Update-DR, or neither. */
  function Around(p: Params, s: Target, capture: bool, update: bool, t: Tick): (u: Target)
    requires Ok(p, s) && TickOk(p, t)
    ensures Ok(p, u)
  {
    var pins := In.InPins(s.inp.r.jtagReset, t.tdi, false, update, capture);
    var n := In.Next(p.w, s.inp.r, pins, |s.inp.fifo| < p.numWords);
    var o := Out.Next(p.w, s.out.r, OutF.Pins(s.out, OutTick(p, s, t)).(shift := false, update := update));
    var c := Conf.Next(p.w, p.numWords, s.conf, Conf.ConfPins(t.tdi, false, update));
    var pop := o.fifoReady && s.out.q != [];
    Target(
      InF.InSys(n.r, NextQueue(s.inp.fifo, p.numWords, s.inp.r.jtagReset, n.inFlit, n.inValid, t.drain),
                s.inp.pushed + (if n.inValid then [n.inFlit] else []),
                s.inp.drained + (if t.drain && s.inp.fifo != [] then [s.inp.fifo[0]] else [])),
      OutF.OutSys(o.r, if s.inp.r.jtagReset then [] else (if pop then s.out.q[1..] else s.out.q) + t.arrived,
                  if pop then s.out.popped + [s.out.q[0]] else s.out.popped),
      c.r)
  }

  /** Between frames all three machines wait. */
  ghost predicate Ready(p: Params, s: Target) {
    && Ok(p, s)
    && s.inp.r == In.InReg(In.DropPacket, false, false, 0, Zeros(p.w), 0, Zeros(p.w))
    && s.out.r == Out.Cleared(p.w) && s.conf == Conf.Cleared(p.w)
  }

  /** After Capture-DR the input FSM listens too. */
  ghost predicate Started(p: Params, s: Target) {
    && Ok(p, s)
    && s.inp.r == In.InReg(In.Idle, false, false, 0, Zeros(p.w), 0, Zeros(p.w))
    && s.out.r == Out.Cleared(p.w) && s.conf == Conf.Cleared(p.w)
  }

  ghost predicate SameTraffic(s: Target, u: Target) {
    u.inp.pushed == s.inp.pushed && u.out.popped == s.out.popped
  }

  /** Between frames the input fifo only drains and the output fifo only fills. */
  ghost predicate Settles(s: Target, u: Target) {
    && SameTraffic(s, u) && |u.inp.fifo| <= |s.inp.fifo| && |s.out.q| <= |u.out.q|
    && (InF.Conserved(s.inp) ==> InF.Conserved(u.inp))
  }

  ghost predicate AtRest(s: Target) {
    && s.inp.r.state.DropPacket? && !s.inp.r.jtagReset
    && (s.out.r.state.Idle? || s.out.r.state.SendCountRead? || s.out.r.state.ConfigDisc?)
  }

  /** The input side of a clock that offers nothing to the fifo. */
  lemma QueueWaits(s: InF.InSys, u: InF.InSys, length: nat, flit: Word, drain: bool)
    requires |s.fifo| <= length && u.fifo == NextQueue(s.fifo, length, false, flit, false, drain)
    requires u.pushed == s.pushed + []
    requires u.drained == s.drained + (if drain && s.fifo != [] then [s.fifo[0]] else [])
    ensures u.pushed == s.pushed && |u.fifo| <= |s.fifo| && (InF.Conserved(s) ==> InF.Conserved(u))
    ensures InF.OnlyDrained(s, u, if drain then 1 else 0)
  {
    if drain && s.fifo != [] {
      ConcatAssoc(s.drained, [s.fifo[0]], s.fifo[1..]);
    }
  }

  lemma AroundSettles(p: Params, s: Target, capture: bool, update: bool, t: Tick)
    requires Ok(p, s) && TickOk(p, t) && AtRest(s)
    ensures Settles(s, Around(p, s, capture, update, t))
    ensures Around(p, s, capture, update, t).out.q == s.out.q + t.arrived
    ensures InF.OnlyDrained(s.inp, Around(p, s, capture, update, t).inp, if t.drain then 1 else 0)
  {
    hide NextQueue, ToBits, In.Next, Out.Next, Conf.Next, InF.Conserved;
    var pins := In.InPins(false, t.tdi, false, update, capture);
    InputRests(p, s, pins);
    OutputRests(p, s, OutF.Pins(s.out, OutTick(p, s, t)).(shift := false, update := update));
    var flit := In.Next(p.w, s.inp.r, pins, |s.inp.fifo| < p.numWords).inFlit;
    QueueWaits(s.inp, Around(p, s, capture, update, t).inp, p.numWords, flit, t.drain);
  }

  lemma InputRests(p: Params, s: Target, pins: In.InPins)
    requires Ok(p, s) && AtRest(s) && !pins.shift && !pins.rst
    ensures !In.Next(p.w, s.inp.r, pins, |s.inp.fifo| < p.numWords).inValid
  {
    hide OutF.WordsOk, ToBits;
  }

  lemma OutputRests(p: Params, s: Target, pins: Out.OutPins)
    requires Ok(p, s) && AtRest(s) && !pins.shift && |pins.inWritten| == |pins.fifoData| == p.w
    ensures !Out.Next(p.w, s.out.r, pins).fifoReady
  {
    hide OutF.WordsOk, ToBits;
  }

  lemma IdleKeepsReady(p: Params, s: Target, t: Tick)
    requires Ready(p, s) && TickOk(p, t)
    ensures Ready(p, Around(p, s, false, false, t)) && Settles(s, Around(p, s, false, false, t))
    ensures Around(p, s, false, false, t).out.q == s.out.q + t.arrived
  {
    hide OutF.WordsOk, NextQueue, Settles;
    AroundSettles(p, s, false, false, t);
  }

  lemma CaptureStarts(p: Params, s: Target, t: Tick)
    requires Ready(p, s) && TickOk(p, t)
    ensures Started(p, Around(p, s, true, false, t)) && Settles(s, Around(p, s, true, false, t))
    ensures Around(p, s, true, false, t).out.q == s.out.q + t.arrived
  {
    hide OutF.WordsOk, NextQueue, Settles;
    AroundSettles(p, s, true, false, t);
  }

  /** The end of a frame: both machines have finished, or ignore the rest. */
  ghost predicate Finished(p: Params, s: Target) {
    && Ok(p, s) && s.inp.r.state.DropPacket? && !s.inp.r.error && !s.inp.r.jtagReset
    && (s.out.r.state.Idle? || s.out.r.state.SendCountRead? || s.out.r.state.ConfigDisc?)
  }

  lemma ExitKeepsFinished(p: Params, s: Target, t: Tick)
    requires Finished(p, s) && TickOk(p, t)
    ensures Finished(p, Around(p, s, false, false, t)) && Settles(s, Around(p, s, false, false, t))
  {
    hide OutF.WordsOk, ToBits, NextQueue, Settles;
    AroundSettles(p, s, false, false, t);
  }

  lemma UpdateMakesReady(p: Params, s: Target, t: Tick)
    requires Finished(p, s) && TickOk(p, t)
    ensures Ready(p, Around(p, s, false, true, t)) && Settles(s, Around(p, s, false, true, t))
  {
    hide OutF.WordsOk, ToBits, NextQueue, Settles;
    AroundSettles(p, s, false, true, t);
  }

  // ---- Projections ----

  function InTicks(ts: seq<Tick>): (r: seq<InF.InTick>)
    ensures |r| == |ts|
  {
    seq(|ts|, i requires 0 <= i < |ts| => InTick(ts[i]))
  }

  function OutTicks(p: Params, s: Target, ts: seq<Tick>): (r: seq<OutF.OutTick>)
    requires Ok(p, s) && TicksOk(p, ts)
    ensures |r| == |ts| && OutF.TicksOk(p.w, r)
    decreases |ts|
  {
    if ts == [] then [] else [OutTick(p, s, ts[0])] + OutTicks(p, Step(p, s, ts[0]), ts[1..])
  }

  /** Each machine runs as it would alone on its share of the clocks. */
  lemma {:induction false} RunProjects(p: Params, s: Target, ts: seq<Tick>)
    requires Ok(p, s) && TicksOk(p, ts)
    ensures var u := Run(p, s, ts);
      && u.inp == InF.InRun(p.w, p.numWords, s.inp, InTicks(ts))
      && u.out == OutF.OutRun(p.w, s.out, OutTicks(p, s, ts))
      && u.conf == Conf.ConfRun(p.w, p.numWords, s.conf, TdiBits(ts))
    decreases |ts|
  {
    hide InF.InStep, OutF.OutStep, Conf.ConfStep, OutTick, TickOk;
    if ts != [] {
      var v := Step(p, s, ts[0]);
      RunProjects(p, v, ts[1..]);
      assert InTicks(ts)[1..] == InTicks(ts[1..]) && TdiBits(ts)[1..] == TdiBits(ts[1..]);
    }
  }

  lemma TdiProjects(p: Params, s: Target, ts: seq<Tick>)
    requires Ok(p, s) && TicksOk(p, ts)
    ensures InF.InTdi(InTicks(ts)) == TdiBits(ts) == OutF.OutTdi(OutTicks(p, s, ts))
  {
    assert InF.InTdi(InTicks(ts)) == TdiBits(ts);
    OutTdiProjects(p, s, ts);
  }

  lemma {:induction false} OutTdiProjects(p: Params, s: Target, ts: seq<Tick>)
    requires Ok(p, s) && TicksOk(p, ts)
    ensures OutF.OutTdi(OutTicks(p, s, ts)) == TdiBits(ts)
    decreases |ts|
  {
    hide Step, TickOk, Ok;
    if ts != [] {
      OutTdiProjects(p, Step(p, s, ts[0]), ts[1..]);
      var rest := OutTicks(p, Step(p, s, ts[0]), ts[1..]);
      assert OutTicks(p, s, ts)[0].tdi == ts[0].tdi;
      forall i | 1 <= i < |ts| ensures OutTicks(p, s, ts)[i].tdi == ts[i].tdi {
        assert OutF.OutTdi(rest)[i - 1] == TdiBits(ts[1..])[i - 1];
      }
    }
  }

  // ---- No reset and no error during a data frame ----

  ghost predicate Calm(r: In.InReg) { !r.jtagReset && !r.error }

  ghost predicate PastHeader(r: In.InReg) {
    Calm(r) && (r.state.IgnoreReadLength? || r.state.ReadPacket? || r.state.DropPacket?)
  }

  lemma PastHeaderStays(p: Params, s: Target, t: Tick)
    requires Ok(p, s) && TickOk(p, t) && PastHeader(s.inp.r)
    ensures PastHeader(Step(p, s, t).inp.r)
  {
    hide OutF.OutStep, Conf.ConfStep, NextQueue, ToBits, Val;
  }

  lemma {:induction false} QuietRun(p: Params, s: Target, ts: seq<Tick>)
    requires Ok(p, s) && TicksOk(p, ts) && PastHeader(s.inp.r)
    ensures OutF.Quiet(OutTicks(p, s, ts)) && PastHeader(Run(p, s, ts).inp.r)
    decreases |ts|
  {
    hide Step, TickOk, Ok;
    if ts != [] {
      PastHeaderStays(p, s, ts[0]);
      QuietRun(p, Step(p, s, ts[0]), ts[1..]);
    }
  }

  /** So the count of accepted words is never replaced by the error code, whatever is shifted. */
  lemma {:induction false} NeverAnError(p: Params, s: Target, ts: seq<Tick>)
    requires Ok(p, s) && TicksOk(p, ts) && !s.inp.r.error
    ensures !Run(p, s, ts).inp.r.error
    decreases |ts|
  {
    if ts != [] {
      In.NoErrorIsRaised(p.w, s.inp.r, In.InPins(s.inp.r.jtagReset, ts[0].tdi, true, false, false),
                         |s.inp.fifo| < p.numWords);
      var v := Step(p, s, ts[0]);
      assert !v.inp.r.error;
      hide Step;
      NeverAnError(p, v, ts[1..]);
    }
  }

  ghost predicate InHeader(r: In.InReg) { Calm(r) && (r.state.Idle? || r.state.ReadPacketLength?) }

  lemma InHeaderStays(p: Params, s: Target, t: Tick)
    requires Ok(p, s) && TickOk(p, t) && InHeader(s.inp.r) && s.inp.r.bitCnt < p.w - 1
    ensures var r := Step(p, s, t).inp.r; InHeader(r) && r.bitCnt == s.inp.r.bitCnt + 1
  {
    hide OutF.OutStep, Conf.ConfStep, NextQueue, ToBits, Val;
  }

  /** The last bit of the header still sees no reset: the reset register is set by that clock. */
  lemma {:induction false} QuietHeader(p: Params, s: Target, ts: seq<Tick>)
    requires Ok(p, s) && TicksOk(p, ts) && InHeader(s.inp.r) && s.inp.r.bitCnt + |ts| <= p.w
    ensures OutF.Quiet(OutTicks(p, s, ts))
    decreases |ts|
  {
    hide Step, TickOk, Ok;
    if |ts| == 1 {
      assert ts[1..] == [];
    } else if ts != [] {
      InHeaderStays(p, s, ts[0]);
      QuietHeader(p, Step(p, s, ts[0]), ts[1..]);
    }
  }

  lemma {:induction false} HeaderHasNoError(p: Params, s: Target, ts: seq<Tick>)
    requires Ok(p, s) && TicksOk(p, ts) && InHeader(s.inp.r) && s.inp.r.bitCnt + |ts| == p.w && ts != []
    ensures !Run(p, s, ts).inp.r.error
    decreases |ts|
  {
    if |ts| == 1 {
      hide OutF.OutStep, Conf.ConfStep, NextQueue, ToBits, Val;
      assert ts[1..] == [];
    } else {
      hide Step;
      InHeaderStays(p, s, ts[0]);
      HeaderHasNoError(p, Step(p, s, ts[0]), ts[1..]);
    }
  }

  /** While the configuration FSM is silent the output FSM drives TDO. */
  lemma {:induction false} TdoIsOutput(p: Params, s: Target, ts: seq<Tick>)
    requires Ok(p, s) && TicksOk(p, ts)
    requires forall n :: 0 <= n < |ts| ==> !Conf.ConfRun(p.w, p.numWords, s.conf, TdiBits(ts)[..n]).configDiscovery
    ensures TdoBits(p, s, ts) == OutF.OutBits(p.w, s.out, OutTicks(p, s, ts))
    decreases |ts|
  {
    hide InF.InStep, OutF.OutStep, Conf.ConfStep, OutTick, TickOk;
    if ts != [] {
      assert !Conf.ConfRun(p.w, p.numWords, s.conf, TdiBits(ts)[..0]).configDiscovery;
      var v := Step(p, s, ts[0]);
      assert TdiBits(ts)[1..] == TdiBits(ts[1..]);
      forall n | 0 <= n < |ts| - 1
        ensures !Conf.ConfRun(p.w, p.numWords, v.conf, TdiBits(ts[1..])[..n]).configDiscovery
      {
        assert TdiBits(ts)[..n + 1][1..] == TdiBits(ts[1..])[..n];
        assert !Conf.ConfRun(p.w, p.numWords, s.conf, TdiBits(ts)[..n + 1]).configDiscovery;
      }
      TdoIsOutput(p, v, ts[1..]);
    }
  }

  // ---- Frames ----

  ghost predicate FrameOk(p: Params, groups: seq<seq<Tick>>) {
    forall i :: 0 <= i < |groups| ==> |groups[i]| == p.w && TicksOk(p, groups[i])
  }

  function Frame(p: Params, s: Target, groups: seq<seq<Tick>>): (u: Target)
    requires Ok(p, s) && FrameOk(p, groups)
    ensures Ok(p, u)
    decreases |groups|
  {
    if groups == [] then s else Frame(p, Run(p, s, groups[0]), groups[1..])
  }

  function TdoWords(p: Params, s: Target, groups: seq<seq<Tick>>): (b: seq<Word>)
    requires Ok(p, s) && FrameOk(p, groups)
    ensures |b| == |groups|
    decreases |groups|
  {
    if groups == [] then [] else [TdoBits(p, s, groups[0])] + TdoWords(p, Run(p, s, groups[0]), groups[1..])
  }

  function TdiWords(groups: seq<seq<Tick>>): (b: seq<Word>)
    ensures |b| == |groups|
  {
    seq(|groups|, i requires 0 <= i < |groups| => TdiBits(groups[i]))
  }

  function InGroups(groups: seq<seq<Tick>>): (r: seq<seq<InF.InTick>>)
    ensures |r| == |groups|
  {
    seq(|groups|, i requires 0 <= i < |groups| => InTicks(groups[i]))
  }

  function OutGroups(p: Params, s: Target, groups: seq<seq<Tick>>): (r: seq<seq<OutF.OutTick>>)
    requires Ok(p, s) && FrameOk(p, groups)
    ensures |r| == |groups|
    decreases |groups|
  {
    if groups == [] then [] else [OutTicks(p, s, groups[0])] + OutGroups(p, Run(p, s, groups[0]), groups[1..])
  }

  /** Once the header of a data frame is read: the input FSM is past it, the configuration FSM waits. */
  ghost predicate InData(s: Target) {
    PastHeader(s.inp.r) && s.conf.state.WaitForUpdate? && !s.conf.configDiscovery && !s.conf.ctrlLogicRst
  }

  lemma DataWordProjects(p: Params, s: Target, ts: seq<Tick>)
    requires Ok(p, s) && InData(s) && TicksOk(p, ts)
    ensures InData(Run(p, s, ts)) && OutF.Quiet(OutTicks(p, s, ts))
    ensures TdoBits(p, s, ts) == OutF.OutBits(p.w, s.out, OutTicks(p, s, ts))
  {
    hide Step, Ok, TickOk;
    QuietRun(p, s, ts);
    RunProjects(p, s, ts);
    Conf.Waiting(p.w, p.numWords, s.conf, TdiBits(ts));
    forall n | 0 <= n < |ts|
      ensures !Conf.ConfRun(p.w, p.numWords, s.conf, TdiBits(ts)[..n]).configDiscovery
    {
      Conf.Waiting(p.w, p.numWords, s.conf, TdiBits(ts)[..n]);
    }
    TdoIsOutput(p, s, ts);
  }

  /** The frame as each machine sees it, from a point behind the header. */
  lemma {:induction false} DataWordsProject(p: Params, s: Target, groups: seq<seq<Tick>>)
    requires Ok(p, s) && InData(s) && FrameOk(p, groups)
    ensures var u := Frame(p, s, groups); var og := OutGroups(p, s, groups);
      && OutF.FrameOk(p.w, og) && InData(u)
      && u.inp == InF.InFrame(p.w, p.numWords, s.inp, InGroups(groups))
      && u.out == OutF.OutFrame(p.w, s.out, og)
      && TdoWords(p, s, groups) == OutF.OutWords(p.w, s.out, og)
      && (forall j :: 0 <= j < |groups| ==> OutF.OutTdi(og[j]) == TdiBits(groups[j]))
    decreases |groups|
  {
    hide Run, TdoBits, OutTicks, InTicks, OutF.OutRun, OutF.OutBits, InF.InRun, OutF.OutTdi;
    hide TdiBits, TicksOk, InData, Ok;
    if groups != [] {
      DataWordProjects(p, s, groups[0]);
      RunProjects(p, s, groups[0]);
      TdiProjects(p, s, groups[0]);
      var v := Run(p, s, groups[0]);
      DataWordsProject(p, v, groups[1..]);
      assert InGroups(groups)[1..] == InGroups(groups[1..]);
    }
  }

  /** The header of a data frame, for all three machines: none of them takes it for configuration. */
  lemma DataHeader(p: Params, s: Target, ts: seq<Tick>)
    requires Started(p, s) && |ts| == p.w && TicksOk(p, ts) && !AllOnes(TdiBits(ts))
    ensures var u := Run(p, s, ts); var ot := OutTicks(p, s, ts);
      && InData(u) && OutF.Quiet(ot) && TdoBits(p, s, ts) == OutF.OutBits(p.w, s.out, ot)
  {
    RunProjects(p, s, ts);
    TdiProjects(p, s, ts);
    QuietHeader(p, s, ts);
    HeaderHasNoError(p, s, ts);
    InF.HeaderWord(p.w, p.numWords, s.inp, InTicks(ts));
    Conf.HeaderWord(p.w, p.numWords, s.conf, TdiBits(ts));
    TdoIsOutput(p, s, ts);
  }

  /** A whole data frame projects to the frame each machine would see alone. */
  lemma DataFrameProjects(p: Params, s: Target, groups: seq<seq<Tick>>)
    requires Started(p, s) && FrameOk(p, groups) && groups != [] && !AllOnes(TdiBits(groups[0]))
    ensures var u := Frame(p, s, groups); var og := OutGroups(p, s, groups);
      && OutF.FrameOk(p.w, og) && InData(u)
      && u.inp == InF.InFrame(p.w, p.numWords, s.inp, InGroups(groups))
      && u.out == OutF.OutFrame(p.w, s.out, og)
      && TdoWords(p, s, groups) == OutF.OutWords(p.w, s.out, og)
      && (forall j :: 0 <= j < |groups| ==> OutF.OutTdi(og[j]) == TdiBits(groups[j]))
  {
    hide Run, TdoBits, OutTicks, InTicks, OutF.OutRun, OutF.OutBits, InF.InRun, OutF.OutTdi;
    hide TdiBits, TicksOk, InData, Ok;
    DataHeader(p, s, groups[0]);
    RunProjects(p, s, groups[0]);
    TdiProjects(p, s, groups[0]);
    DataWordsProject(p, Run(p, s, groups[0]), groups[1..]);
    assert InGroups(groups)[1..] == InGroups(groups[1..]);
  }

  /** Its input side alone. */
  lemma InputProjects(p: Params, s: Target, groups: seq<seq<Tick>>)
    requires Started(p, s) && FrameOk(p, groups) && groups != [] && !AllOnes(TdiBits(groups[0]))
    ensures Frame(p, s, groups).inp == InF.InFrame(p.w, p.numWords, s.inp, InGroups(groups))
    ensures InF.Ok(p.w, p.numWords, s.inp) && s.inp.r.state.Idle? && !s.inp.r.jtagReset
    ensures InF.WordSized(p.w, InGroups(groups))
  {
    DataFrameProjects(p, s, groups);
  }

  /** Its output side alone. */
  lemma OutputProjects(p: Params, s: Target, groups: seq<seq<Tick>>)
    requires Started(p, s) && FrameOk(p, groups) && |groups| >= 2 && !AllOnes(TdiBits(groups[0]))
    ensures Ok(p, s) && OutF.Ok(p.w, s.out) && s.out.r.state.Idle? && p.w > 0
    ensures var og := OutGroups(p, s, groups);
      && OutF.FrameOk(p.w, og) && (forall i :: 0 <= i < |og| ==> og[i] != []) && InData(Frame(p, s, groups))
      && Frame(p, s, groups).out == OutF.OutFrame(p.w, s.out, og)
      && TdoWords(p, s, groups) == OutF.OutWords(p.w, s.out, og)
      && OutF.OutTdi(og[0]) == TdiBits(groups[0]) && OutF.OutTdi(og[1]) == TdiBits(groups[1])
  {
    hide Frame, OutGroups, InF.InFrame, OutF.OutFrame, TdoWords, OutF.OutWords, TdiBits, OutF.OutTdi, AllOnes;
    DataFrameProjects(p, s, groups);
  }

  /** The count reported at the first clock of word `j` is the input FSM's count after `j` words. */
  lemma {:induction false} ReportIsCount(p: Params, s: Target, groups: seq<seq<Tick>>, j: nat)
    requires Ok(p, s) && FrameOk(p, groups) && j < |groups| && p.w > 0
    ensures var og := OutGroups(p, s, groups);
      && og[j] != [] && OutF.Reported(og, j) == ToBits(Frame(p, s, groups[..j]).inp.r.accCnt, p.w)
    decreases j
  {
    hide Run, Step, TicksOk, ToBits;
    if j > 0 {
      ReportIsCount(p, Run(p, s, groups[0]), groups[1..], j - 1);
      assert groups[..j][1..] == groups[1..][..j - 1];
    }
  }

  // ---- Arrivals at the output fifo and room in the input fifo ----

  /** What the logic adds to the output fifo in the clocks of a shift is as counted. */
  ghost predicate Counted(groups: seq<seq<Tick>>, counts: OutF.Counts) {
    forall i, j :: 0 <= i < |groups| && 0 <= j < |groups[i]| ==> |groups[i][j].arrived| == counts(i, j)
  }

  function CountsOf(groups: seq<seq<Tick>>): OutF.Counts {
    (i: nat, j: nat) => if i < |groups| && j < |groups[i]| then |groups[i][j].arrived| else 0
  }

  lemma {:induction false} SameArrivals(p: Params, s: Target, ts: seq<Tick>, i: nat)
    requires Ok(p, s) && TicksOk(p, ts) && i < |ts|
    ensures OutTicks(p, s, ts)[i].arrived == ts[i].arrived
    decreases i
  {
    hide Step, TickOk, Ok;
    if i > 0 { SameArrivals(p, Step(p, s, ts[0]), ts[1..], i - 1); }
  }

  lemma {:induction false} GroupCounted(p: Params, s: Target, groups: seq<seq<Tick>>, i: nat,
                                        counts: OutF.Counts, at: nat)
    requires Ok(p, s) && FrameOk(p, groups) && i < |groups|
    requires forall j :: 0 <= j < |groups[i]| ==> |groups[i][j].arrived| == counts(at, j)
    ensures OutF.CountedWord(OutGroups(p, s, groups)[i], counts, at)
    decreases i
  {
    hide Run, Step, TickOk, Ok, OutTicks;
    if i > 0 {
      GroupCounted(p, Run(p, s, groups[0]), groups[1..], i - 1, counts, at);
    } else {
      forall j | 0 <= j < |groups[0]| ensures |OutTicks(p, s, groups[0])[j].arrived| == counts(at, j) {
        SameArrivals(p, s, groups[0], j);
      }
    }
  }

  lemma FrameCounted(p: Params, s: Target, groups: seq<seq<Tick>>, counts: OutF.Counts)
    requires Ok(p, s) && FrameOk(p, groups) && Counted(groups, counts)
    ensures OutF.Counted(OutGroups(p, s, groups), counts, 0)
  {
    hide OutF.CountedWord, OutGroups, Ok, TicksOk;
    forall i | 0 <= i < |groups| ensures OutF.CountedWord(OutGroups(p, s, groups)[i], counts, 0 + i) {
      GroupCounted(p, s, groups, i, counts, i);
    }
  }

  /** Whether the input fifo has room at the last clock of data word `k`, which is word `k + 2` of a frame. */
  ghost predicate HasRoom(p: Params, s: Target, groups: seq<seq<Tick>>, k: nat)
    requires Ok(p, s) && FrameOk(p, groups) && k + 2 < |groups| && p.w > 0
  {
    |Run(p, Frame(p, s, groups[..k + 2]), groups[k + 2][..p.w - 1]).inp.fifo| < p.numWords
  }

  /** Of the `wr` data words of a frame the first `n` are accepted: up to the first that ends when the
      input fifo is full. */
  ghost predicate AcceptsFirst(p: Params, s: Target, groups: seq<seq<Tick>>, wr: nat, n: nat)
    requires Ok(p, s) && FrameOk(p, groups) && wr + 2 <= |groups| && p.w > 0
  {
    && n <= wr
    && (forall k :: 0 <= k < n ==> HasRoom(p, s, groups, k))
    && (n < wr ==> !HasRoom(p, s, groups, n))
  }

  lemma StartedIsOk(p: Params, s: Target)
    requires Started(p, s)
    ensures Ok(p, s)
  {
  }

  lemma InputUpTo(p: Params, s: Target, groups: seq<seq<Tick>>, k: nat)
    requires Started(p, s) && FrameOk(p, groups) && k + 2 < |groups| && !AllOnes(TdiBits(groups[0]))
    ensures Ok(p, s) && InF.Ok(p.w, p.numWords, s.inp)
    ensures var v := InF.InFrame(p.w, p.numWords, s.inp, InGroups(groups)[..2]);
      Frame(p, s, groups[..k + 2]).inp == InF.InFrame(p.w, p.numWords, v, InGroups(groups)[2..][..k])
  {
    hide Frame, Run, InF.InRun, InF.InFrame, TdiBits, InTicks, AllOnes, Started, Ok, InF.Ok, TicksOk;
    StartedIsOk(p, s);
    InputProjects(p, s, groups[..k + 2]);
    var ig := InGroups(groups);
    assert InGroups(groups[..k + 2]) == ig[..2] + ig[2..][..k];
    InF.InFrameAppend(p.w, p.numWords, s.inp, ig[..2], ig[2..][..k]);
  }

  lemma InputInWord(p: Params, x: Target, ts: seq<Tick>, n: nat)
    requires Ok(p, x) && TicksOk(p, ts) && n <= |ts|
    ensures TicksOk(p, ts[..n]) && Run(p, x, ts[..n]).inp == InF.InRun(p.w, p.numWords, x.inp, InTicks(ts)[..n])
  {
    hide Run, InF.InRun, TickOk, Ok;
    RunProjects(p, x, ts[..n]);
    TicksOfFront(ts, n);
  }

  /** The input FSM alone sees the same. */
  lemma RoomProjects(p: Params, s: Target, groups: seq<seq<Tick>>, k: nat)
    requires Started(p, s) && FrameOk(p, groups) && k + 2 < |groups| && !AllOnes(TdiBits(groups[0])) && p.w > 0
    ensures var ig := InGroups(groups); var v := InF.InFrame(p.w, p.numWords, s.inp, ig[..2]);
      && InF.Ok(p.w, p.numWords, s.inp) && InF.Ok(p.w, p.numWords, v) && InF.WordSized(p.w, ig[2..])
      && (InF.RoomAt(p.w, p.numWords, v, ig[2..], k) <==> HasRoom(p, s, groups, k))
  {
    hide Frame, Run, InF.InRun, InF.InFrame, TdiBits, InTicks, AllOnes, Started, TicksOk;
    InputUpTo(p, s, groups, k);
    InputInWord(p, Frame(p, s, groups[..k + 2]), groups[k + 2], p.w - 1);
    assert InGroups(groups)[2..][k] == InTicks(groups[k + 2]);
  }

  lemma TicksOfFront(ts: seq<Tick>, n: nat)
    requires n <= |ts|
    ensures InTicks(ts[..n]) == InTicks(ts)[..n]
  {
  }

  // ---- The transaction ----

  /** The response of the target, behind its two header words, when it accepted `n` words and `taken`
      came from its fifo, of `rd` wanted ones, in a frame of `m` payload words. */
  function Response(w: nat, taken: seq<Word>, n: nat, m: nat, rd: nat): (r: seq<Word>)
    requires |taken| <= rd <= m
    ensures |r| == m + 2
  {
    if OutF.Overruns(rd, m, |taken|) then taken + OutF.Padding(w, m - rd + 1) + [ToBits(n, w)]
    else taken + OutF.Padding(w, m - |taken|) + [ToBits(n, w), ToBits(|taken|, w)]
  }

  /** A frame with WR_REQ_SIZE `wr` (not all ones), RD_REQ_SIZE `rd` and the right length. */
  ghost predicate Request(p: Params, groups: seq<seq<Tick>>, wr: nat, rd: nat) {
    && FrameOk(p, groups) && |groups| == Max(wr, rd) + 4
    && wr == Val(TdiBits(groups[0])) && rd == Val(TdiBits(groups[1])) && !AllOnes(TdiBits(groups[0]))
  }

  /** The input side up to the last payload word. */
  lemma FrontAccepted(p: Params, s: Target, front: seq<seq<Tick>>, wr: nat) returns (n: nat)
    requires Started(p, s) && FrameOk(p, front) && |front| >= wr + 2
    requires wr == Val(TdiBits(front[0])) && !AllOnes(TdiBits(front[0])) && p.w > 0
    ensures Ok(p, s) && AcceptsFirst(p, s, front, wr, n) && Min(wr, p.numWords - |s.inp.fifo|) <= n <= wr
    ensures var u := Frame(p, s, front);
      && u.inp.pushed == s.inp.pushed + TdiWords(front[2..])[..n] && (InF.Conserved(s.inp) ==> InF.Conserved(u.inp))
      && u.inp.r.state.DropPacket? && !u.inp.r.jtagReset && u.inp.r.accCnt == n
  {
    hide Frame, Run, InF.InRun, InF.InFrame, TdiBits, InF.InTdi, InTicks, Val;
    hide AllOnes, InF.Accepts, Started, InF.Room, InF.RoomAt, AcceptsFirst;
    InputProjects(p, s, front);
    GroupWords(front);
    n := InF.InputFrame(p.w, p.numWords, s.inp, InGroups(front));
    AcceptedAtFirst(p, s, front, wr, n);
    assert InF.WordsOf(InGroups(front)[2..])[..n] == TdiWords(front[2..])[..n];
  }

  /** Behind it everything is ignored. */
  lemma RestIsDropped(p: Params, s: Target, groups: seq<seq<Tick>>, k: nat, j: nat)
    requires Started(p, s) && FrameOk(p, groups) && 0 < k <= j <= |groups| && !AllOnes(TdiBits(groups[0]))
    requires var v := Frame(p, s, groups[..k]).inp; v.r.state.DropPacket? && !v.r.jtagReset
    ensures var v, u := Frame(p, s, groups[..k]).inp, Frame(p, s, groups[..j]).inp;
      && u.r.accCnt == v.r.accCnt && u.r.state.DropPacket? && u.pushed == v.pushed
      && (InF.Conserved(v) ==> InF.Conserved(u))
  {
    hide Frame, Run, InF.InRun, InF.InFrame, TdiBits, InTicks, AllOnes, TicksOk;
    InputProjects(p, s, groups[..k]);
    InputProjects(p, s, groups[..j]);
    var more := InGroups(groups[..j])[k..];
    assert InGroups(groups[..j]) == InGroups(groups[..k]) + more;
    InF.InFrameAppend(p.w, p.numWords, s.inp, InGroups(groups[..k]), more);
    InF.DroppedWords(p.w, p.numWords, Frame(p, s, groups[..k]).inp, more);
  }

  /** The input side: the first `n` data words go into the fifo, and from the last payload word on the
      count is `n`. */
  lemma AcceptedWords(p: Params, s: Target, groups: seq<seq<Tick>>, wr: nat, rd: nat) returns (n: nat)
    requires Started(p, s) && Request(p, groups, wr, rd)
    ensures Ok(p, s) && p.w > 0 && AcceptsFirst(p, s, groups, wr, n) && Min(wr, p.numWords - |s.inp.fifo|) <= n <= wr
    ensures var u := Frame(p, s, groups); var m := Max(wr, rd);
      && u.inp.pushed == s.inp.pushed + TdiWords(groups[2..])[..n]
      && (InF.Conserved(s.inp) ==> InF.Conserved(u.inp))
      && u.inp.r.state.DropPacket?
      && Frame(p, s, groups[..m + 2]).inp.r.accCnt == n && Frame(p, s, groups[..m + 3]).inp.r.accCnt == n
  {
    hide Frame, TdiBits, Val, AllOnes, AcceptsFirst;
    var m := Max(wr, rd);
    n := FrontAccepted(p, s, groups[..m + 2], wr);
    AcceptsInFront(p, s, groups, m + 2, wr, n);
    RestIsDropped(p, s, groups, m + 2, m + 3);
    RestIsDropped(p, s, groups, m + 2, m + 4);
    assert groups[..m + 4] == groups;
    assert TdiWords(groups[..m + 2][2..])[..n] == TdiWords(groups[2..])[..n];
  }

  /** The output side: what is taken from the fifo and what is answered. */
  lemma AnsweredWords(p: Params, s: Target, groups: seq<seq<Tick>>, wr: nat, rd: nat, n: nat, counts: OutF.Counts)
    returns (taken: seq<Word>)
    requires Started(p, s) && Request(p, groups, wr, rd) && Counted(groups, counts)
    requires var m := Max(wr, rd);
      Frame(p, s, groups[..m + 2]).inp.r.accCnt == n && Frame(p, s, groups[..m + 3]).inp.r.accCnt == n
    ensures p.w > 0 && OutF.Supplies(p.w, |s.out.q|, counts, rd, |taken|) && Min(rd, |s.out.q|) <= |taken| <= rd
    ensures var u := Frame(p, s, groups);
      && u.out.popped == s.out.popped + taken
      && TdoWords(p, s, groups)[2..] == Response(p.w, taken, n, Max(wr, rd), rd)
      && (u.out.r.state.Idle? || u.out.r.state.SendCountRead?) && InData(u)
  {
    hide Frame, TdiBits, OutF.OutTdi, Val, AllOnes, OutF.OutWords, OutF.OutFrame, ToBits, OutGroups, TicksOk;
    hide OutF.Response, Response, InData, Started, Ok, OutF.Ok, OutF.FrameOk, FrameOk, TdoWords, OutF.Overruns;
    hide Counted, OutF.Counted, OutF.Supplies, OutF.Arrived;
    var m := Max(wr, rd);
    OutputProjects(p, s, groups);
    var og := OutGroups(p, s, groups);
    FrameCounted(p, s, groups, counts);
    taken := OutF.OutputFrame(p.w, s.out, og, wr, rd, counts);
    ReportIsCount(p, s, groups, m + 2);
    ReportIsCount(p, s, groups, m + 3);
    ResponseAgrees(p.w, og[2..], taken, n, m, rd);
  }

  /** One transaction, whatever the fifos do meanwhile. The first `n` of the `wr` words sent are in the
      target's fifo, up to the first that ends with the fifo full, so at least as many as there was room
      for, and nothing else is; the `taken` words are the next ones of the output fifo, as many of `rd` as
      it supplies with what arrives, so no fewer than were waiting; the response says so, unless it
      overruns; and the machines are ready to end the frame. */
  lemma Transaction(p: Params, s: Target, groups: seq<seq<Tick>>, wr: nat, rd: nat, counts: OutF.Counts)
    returns (n: nat, taken: seq<Word>)
    requires Started(p, s) && Request(p, groups, wr, rd) && Counted(groups, counts)
    ensures Ok(p, s) && p.w > 0 && AcceptsFirst(p, s, groups, wr, n)
    ensures OutF.Supplies(p.w, |s.out.q|, counts, rd, |taken|)
    ensures Min(wr, p.numWords - |s.inp.fifo|) <= n <= wr && Min(rd, |s.out.q|) <= |taken| <= rd
    ensures var u := Frame(p, s, groups);
      && u.inp.pushed == s.inp.pushed + TdiWords(groups[2..])[..n]
      && u.out.popped == s.out.popped + taken
      && (InF.Conserved(s.inp) ==> InF.Conserved(u.inp))
      && TdoWords(p, s, groups)[2..] == Response(p.w, taken, n, Max(wr, rd), rd)
      && Finished(p, u)
  {
    hide Frame, TdiBits, TdiWords, TdoWords, Response, InF.Conserved, Started, Request, Counted, AcceptsFirst;
    hide OutF.Supplies;
    n := AcceptedWords(p, s, groups, wr, rd);
    taken := AnsweredWords(p, s, groups, wr, rd, n, counts);
  }

  lemma ResponseAgrees(w: nat, og: seq<seq<OutF.OutTick>>, taken: seq<Word>, n: nat, m: nat, rd: nat)
    requires |taken| <= rd <= m && |og| == m + 2 && forall i :: 0 <= i < |og| ==> og[i] != []
    requires OutF.Reported(og, m) == OutF.Reported(og, m + 1) == ToBits(n, w)
    ensures OutF.Response(w, og, taken, m, rd) == Response(w, taken, n, m, rd)
  {
  }

  lemma AcceptedAtFirst(p: Params, s: Target, front: seq<seq<Tick>>, wr: nat, n: nat)
    requires Started(p, s) && FrameOk(p, front) && |front| >= wr + 2 && !AllOnes(TdiBits(front[0])) && p.w > 0
    requires var v := InF.InFrame(p.w, p.numWords, s.inp, InGroups(front)[..2]);
      InF.Ok(p.w, p.numWords, v) && InF.WordSized(p.w, InGroups(front)[2..])
      && InF.Accepts(p.w, p.numWords, v, InGroups(front)[2..], wr, n)
    ensures Ok(p, s) && n <= wr && AcceptsFirst(p, s, front, wr, n)
  {
    hide InF.RoomAt, HasRoom, AllOnes, TdiBits, InF.InFrame, InTicks;
    var ig := InGroups(front);
    var v := InF.InFrame(p.w, p.numWords, s.inp, ig[..2]);
    forall k | 0 <= k < wr
      ensures InF.RoomAt(p.w, p.numWords, v, ig[2..], k) == HasRoom(p, s, front, k)
    {
      RoomProjects(p, s, front, k);
    }
  }

  lemma AcceptsInFront(p: Params, s: Target, groups: seq<seq<Tick>>, k: nat, wr: nat, n: nat)
    requires Ok(p, s) && FrameOk(p, groups) && wr + 2 <= k <= |groups| && p.w > 0 && FrameOk(p, groups[..k])
    requires AcceptsFirst(p, s, groups[..k], wr, n)
    ensures AcceptsFirst(p, s, groups, wr, n)
  {
    hide Ok, TicksOk, Frame, Run;
    forall i | 0 <= i < k - 2 ensures HasRoom(p, s, groups[..k], i) == HasRoom(p, s, groups, i) {
      assert groups[..k][..i + 2] == groups[..i + 2];
    }
  }

  lemma GroupWords(groups: seq<seq<Tick>>)
    ensures forall i :: 0 <= i < |groups| ==> InF.InTdi(InGroups(groups)[i]) == TdiBits(groups[i])
  {
    forall i | 0 <= i < |groups| ensures InF.InTdi(InGroups(groups)[i]) == TdiBits(groups[i]) {
    }
  }

  // ---- Configuration frames ----

  /** After the first word of any frame the three machines agree on what it is. */
  lemma HeaderAgreement(p: Params, s: Target, ts: seq<Tick>)
    requires Started(p, s) && |ts| == p.w && TicksOk(p, ts)
    ensures var u := Run(p, s, ts); var header := TdiBits(ts);
      && (u.inp.r.jtagReset <==> AllOnes(header))
      && (u.out.r.state.ConfigDisc? <==> AllOnes(header))
      && (u.conf.configDiscovery <==> AllOnes(header)) && (u.conf.state.SendWordWidth? <==> AllOnes(header))
      && (u.inp.r.state.DropPacket? <==> AllOnes(header) || Val(header) == 0)
      && SameTraffic(s, u) && !u.inp.r.error && !u.conf.ctrlLogicRst && u.conf.bitCnt == 0
      && InF.OnlyDrained(s.inp, u.inp, InF.Drains(InTicks(ts)))
  {
    RunProjects(p, s, ts);
    TdiProjects(p, s, ts);
    QuietHeader(p, s, ts);
    HeaderHasNoError(p, s, ts);
    AnyOneIsPositive(TdiBits(ts));
    hide OutF.OutRun, InF.InRun, Conf.ConfRun, OutTicks, InTicks, InF.InTdi, OutF.OutTdi, TdiBits, AllOnes, Val, AnyOne;
    InF.HeaderWord(p.w, p.numWords, s.inp, InTicks(ts));
    InF.HeaderDrains(p.w, p.numWords, s.inp, InTicks(ts));
    OutF.WriteLengthWord(p.w, s.out, OutTicks(p, s, ts));
    Conf.HeaderWord(p.w, p.numWords, s.conf, TdiBits(ts));
  }

  lemma {:induction false} TdoIsConfig(p: Params, s: Target, ts: seq<Tick>)
    requires Ok(p, s) && TicksOk(p, ts) && s.conf.configDiscovery && !s.conf.state.Idle?
    ensures TdoBits(p, s, ts) == Conf.ConfBits(p.w, p.numWords, s.conf, TdiBits(ts))
    decreases |ts|
  {
    hide InF.InStep, OutF.OutStep, OutTick, TickOk;
    if ts != [] {
      var v := Step(p, s, ts[0]);
      assert TdiBits(ts)[1..] == TdiBits(ts[1..]);
      hide ToBits;
      Conf.KeepsDriving(p.w, p.numWords, s.conf, [ts[0].tdi]);
      assert [ts[0].tdi][1..] == [];
      assert v.conf == Conf.ConfRun(p.w, p.numWords, s.conf, [ts[0].tdi]);
      TdoIsConfig(p, v, ts[1..]);
    }
  }

  /** The data paths during a configuration frame: the FSMs neither push nor take anything, and the
      reset pulse empties the synchronous fifo. */
  lemma ConfigWord(p: Params, s: Target, ts: seq<Tick>)
    requires Ok(p, s) && TicksOk(p, ts) && |ts| == p.w
    requires s.inp.r.state.DropPacket? && !s.inp.r.error && s.out.r.state.ConfigDisc?
    requires s.conf.configDiscovery && s.conf.bitCnt == 0
    requires s.conf.state.SendWordWidth? || s.conf.state.SendBufferSize?
    requires !s.inp.r.jtagReset ==> s.inp.fifo == []
    ensures var u := Run(p, s, ts);
      && SameTraffic(s, u) && u.inp.r.state.DropPacket? && !u.inp.r.jtagReset && u.inp.fifo == []
      && u.out.r.state.ConfigDisc? && u.conf.configDiscovery && u.conf.bitCnt == 0 && !u.inp.r.error
      && u.conf.state == (if s.conf.state.SendWordWidth? then Conf.SendBufferSize else Conf.WaitForUpdate)
    ensures TdoBits(p, s, ts) == if s.conf.state.SendWordWidth? then ToBits(p.w, p.w) else ToBits(p.numWords, p.w)
  {
    hide OutF.OutRun, InF.InRun, Conf.ConfRun, OutTicks, InTicks, TdiBits, ToBits, TdoBits, Conf.ConfBits;
    RunProjects(p, s, ts);
    InF.DropBits(p.w, p.numWords, s.inp, InTicks(ts));
    OutF.ConfigBits(p.w, s.out, OutTicks(p, s, ts));
    Conf.AnswerBits(p.w, p.numWords, s.conf, TdiBits(ts));
    TdoIsConfig(p, s, ts);
    ErrorStays(p, s, ts);
    var a := Conf.Answer(p.w, p.numWords, s.conf);
    assert a[0..] == a;
  }

  lemma {:induction false} ErrorStays(p: Params, s: Target, ts: seq<Tick>)
    requires Ok(p, s) && TicksOk(p, ts) && s.inp.r.state.DropPacket? && !s.inp.r.error
    ensures var u := Run(p, s, ts); u.inp.r.state.DropPacket? && !u.inp.r.error
    decreases |ts|
  {
    hide OutF.OutStep, Conf.ConfStep, NextQueue, ToBits, Val;
    if ts != [] { ErrorStays(p, Step(p, s, ts[0]), ts[1..]); }
  }

  function Arrivals(ts: seq<Tick>): seq<Word> {
    if ts == [] then [] else ts[0].arrived + Arrivals(ts[1..])
  }

  /** While the input FSM drops, the output fifo is flushed at the first clock if the reset pulse is
      there, and at no other; and what arrives is what the logic sends. */
  lemma {:induction false} DropTicks(p: Params, s: Target, ts: seq<Tick>)
    requires Ok(p, s) && TicksOk(p, ts) && s.inp.r.state.DropPacket?
    ensures var ot := OutTicks(p, s, ts);
      && (forall i :: 0 <= i < |ts| ==> ot[i].flush == (i == 0 && s.inp.r.jtagReset))
      && OutF.Arrived(ot) == Arrivals(ts)
    decreases |ts|
  {
    if ts != [] {
      var v := Step(p, s, ts[0]);
      DropStep(p, s, ts[0]);
      hide Step, TickOk, Ok;
      DropTicks(p, v, ts[1..]);
    }
  }

  lemma DropStep(p: Params, s: Target, t: Tick)
    requires Ok(p, s) && TickOk(p, t) && s.inp.r.state.DropPacket?
    ensures var v := Step(p, s, t); v.inp.r.state.DropPacket? && !v.inp.r.jtagReset
  {
    hide OutF.OutStep, Conf.ConfStep, NextQueue, ToBits, Val;
  }

  /** What the reset pulse and the reader leave of both fifos in a word of a configuration frame. */
  lemma ConfigFifos(p: Params, s: Target, ts: seq<Tick>)
    requires Ok(p, s) && TicksOk(p, ts) && ts != [] && s.inp.r.state.DropPacket? && s.out.r.state.ConfigDisc?
    requires s.inp.r.jtagReset || s.inp.fifo == []
    ensures var u := Run(p, s, ts);
      && u.inp.fifo == []
      && u.inp.drained == s.inp.drained + s.inp.fifo[..Min(if ts[0].drain then 1 else 0, |s.inp.fifo|)]
      && u.out.q == if s.inp.r.jtagReset then Arrivals(ts[1..]) else s.out.q + Arrivals(ts)
  {
    hide OutF.OutRun, InF.InRun, Conf.ConfRun, OutTicks, InTicks;
    RunProjects(p, s, ts);
    DropTicks(p, s, ts);
    FirstTicks(p, s, ts);
    var ot := OutTicks(p, s, ts);
    if s.inp.r.jtagReset {
      InF.FlushWord(p.w, p.numWords, s.inp, InTicks(ts));
      OutF.FlushedQueue(p.w, s.out, ot);
    } else {
      InF.EmptyStays(p.w, p.numWords, s.inp, InTicks(ts));
      OutF.ConfigQueue(p.w, s.out, ot);
    }
  }

  lemma FirstTicks(p: Params, s: Target, ts: seq<Tick>)
    requires Ok(p, s) && TicksOk(p, ts) && ts != [] && s.inp.r.state.DropPacket?
    ensures InTicks(ts)[0].drain == ts[0].drain && OutF.Arrived(OutTicks(p, s, ts)[1..]) == Arrivals(ts[1..])
  {
    DropStep(p, s, ts[0]);
    DropTicks(p, Step(p, s, ts[0]), ts[1..]);
    hide Step;
  }

  /** How many words the reader may take from the input fifo before a configuration frame empties it:
      one at each draining clock of the header and one more at the clock of the reset pulse. */
  function DrainsBeforeReset(header: seq<Tick>, side: seq<Tick>): nat
    requires side != []
  {
    InF.Drains(InTicks(header)) + (if side[0].drain then 1 else 0)
  }

  /** A configuration frame as a whole: nothing is pushed or taken, the answer is WORD_WIDTH, NUM_WORDS,
      and the reset pulse empties both fifos: the reader of the input fifo gets no more than what it
      drains up to the pulse, and the output fifo keeps only what arrives behind it. */
  lemma ConfigTransaction(p: Params, s: Target, groups: seq<seq<Tick>>)
    requires Started(p, s) && FrameOk(p, groups) && |groups| == 3 && AllOnes(TdiBits(groups[0]))
    ensures groups[1] != []
    ensures var u := Frame(p, s, groups);
      var k := Min(DrainsBeforeReset(groups[0], groups[1]), |s.inp.fifo|);
      && SameTraffic(s, u) && Finished(p, u)
      && u.inp.fifo == [] && u.inp.drained == s.inp.drained + s.inp.fifo[..k]
      && u.out.q == Arrivals(groups[1][1..]) + Arrivals(groups[2])
      && TdoWords(p, s, groups)[1..] == [ToBits(p.w, p.w), ToBits(p.numWords, p.w)]
  {
    hide Run, TdoBits, TdiBits, AllOnes, Val, ToBits, InF.OnlyDrained, Arrivals, DrainsBeforeReset;
    HeaderAgreement(p, s, groups[0]);
    var a := Run(p, s, groups[0]);
    ConfigWord(p, a, groups[1]);
    ConfigFifos(p, a, groups[1]);
    var b := Run(p, a, groups[1]);
    ConfigWord(p, b, groups[2]);
    ConfigFifos(p, b, groups[2]);
    var c := Run(p, b, groups[2]);
    DrainedInAll(p, s, a, b, groups[0], groups[1]);
    assert b.inp.fifo[..0] == [] && c.inp.drained == b.inp.drained + [];
    assert groups == [groups[0], groups[1], groups[2]];
    assert groups[1..] == [groups[1], groups[2]] && groups[1..][1..] == [groups[2]] && [groups[2]][1..] == [];
    assert Frame(p, b, [groups[2]]) == Frame(p, c, []);
    assert Frame(p, a, groups[1..]) == Frame(p, b, [groups[2]]);
    assert TdoWords(p, b, [groups[2]]) == [TdoBits(p, b, groups[2])] + TdoWords(p, c, []);
    assert TdoWords(p, a, groups[1..]) == [TdoBits(p, a, groups[1])] + TdoWords(p, b, [groups[2]]);
  }

  lemma DrainedInAll(p: Params, s: Target, a: Target, b: Target, header: seq<Tick>, side: seq<Tick>)
    requires side != [] && InF.OnlyDrained(s.inp, a.inp, InF.Drains(InTicks(header)))
    requires b.inp.drained == a.inp.drained + a.inp.fifo[..Min(if side[0].drain then 1 else 0, |a.inp.fifo|)]
    ensures b.inp.drained == s.inp.drained + s.inp.fifo[..Min(DrainsBeforeReset(header, side), |s.inp.fifo|)]
  {
    var n := if side[0].drain then 1 else 0;
    var k := Min(n, |a.inp.fifo|);
    var v := InF.InSys(a.inp.r, a.inp.fifo[k..], a.inp.pushed, a.inp.drained + a.inp.fifo[..k]);
    InF.DrainsAdd(s.inp, a.inp, v, InF.Drains(InTicks(header)), n);
  }

  /** Which words a configuration frame loses. Of those accepted before it, it loses none if and only if
      the reader takes them all up to the reset pulse; of those the logic sent, it loses none if and only
      if the output fifo was empty and nothing arrived up to and with the pulse. */
  lemma ConfigLosesNothing(p: Params, s: Target, groups: seq<seq<Tick>>)
    requires Started(p, s) && FrameOk(p, groups) && |groups| == 3 && AllOnes(TdiBits(groups[0]))
    ensures groups[1] != []
    ensures var u := Frame(p, s, groups);
      && (InF.Conserved(s.inp) ==>
            (InF.Conserved(u.inp) <==> |s.inp.fifo| <= DrainsBeforeReset(groups[0], groups[1])))
      && (u.out.popped + u.out.q ==
            s.out.popped + s.out.q + (Arrivals(groups[0]) + Arrivals(groups[1]) + Arrivals(groups[2])) <==>
          s.out.q == [] && Arrivals(groups[0]) == [] && groups[1][0].arrived == [])
  {
    ConfigTransaction(p, s, groups);
    hide Frame, Started, FrameOk, AllOnes, TdiBits, DrainsBeforeReset, Finished;
    var u := Frame(p, s, groups);
    var k := Min(DrainsBeforeReset(groups[0], groups[1]), |s.inp.fifo|);
    assert |s.inp.fifo[..k]| == k;
    if k == |s.inp.fifo| { assert s.inp.fifo[..k] == s.inp.fifo; }
    QueueKeptIff(u.out.popped, s.out.q, Arrivals(groups[0]), groups[1][0].arrived,
                 Arrivals(groups[1][1..]), Arrivals(groups[2]));
  }

  lemma QueueKeptIff(popped: seq<Word>, q: seq<Word>, a: seq<Word>, b: seq<Word>, c: seq<Word>, d: seq<Word>)
    ensures popped + (c + d) == popped + q + (a + (b + c) + d) <==> q == [] && a == [] && b == []
  {
    if q == [] && a == [] && b == [] {
      assert popped + q == popped && a + (b + c) == c;
    }
    assert |popped + (c + d)| == |popped| + |c| + |d|;
    assert |popped + q + (a + (b + c) + d)| == |popped| + |q| + |a| + |b| + |c| + |d|;
  }

  /** A target that loses a word: one word accepted and not yet drained, and nobody drains. */
  lemma ConfigLosesWord() returns (p: Params, s: Target, groups: seq<seq<Tick>>)
    ensures Started(p, s) && FrameOk(p, groups) && |groups| == 3 && AllOnes(TdiBits(groups[0]))
    ensures InF.Conserved(s.inp) && !InF.Conserved(Frame(p, s, groups).inp)
  {
    p := Params(2, 1);
    var word := Zeros(2);
    s := Target(InF.InSys(In.InReg(In.Idle, false, false, 0, Zeros(2), 0, Zeros(2)), [word], [word], []),
                OutF.OutSys(Out.Cleared(2), [], []), Conf.Cleared(2));
    SmallPowers();
    var t := Tick(true, false, [], word);
    var ts := [t, t];
    groups := [ts, ts, ts];
    InF.NoDrains(InTicks(ts));
    ConfigLosesNothing(p, s, groups);
  }

  // ---- The reset of the logic ----

  /** In any shift from the start of a frame on, the logic is reset for exactly one clock, behind the
      first bit of the second word, if the first word is all ones and that bit is set; otherwise never. */
  lemma LogicResetPulse(p: Params, s: Target, ts: seq<Tick>, n: nat)
    requires Started(p, s) && TicksOk(p, ts) && p.w <= |ts| && n <= |ts|
    ensures TicksOk(p, ts[..n])
    ensures Run(p, s, ts[..n]).conf.ctrlLogicRst <==> n == p.w + 1 && AllOnes(TdiBits(ts)[..p.w]) && ts[p.w].tdi
  {
    hide Run, Conf.ConfRun, TickOk, AllOnes, InF.InRun, OutF.OutRun, OutTicks, InTicks, TdiBits;
    RunProjects(p, s, ts[..n]);
    TdiOfFront(ts, n);
    var bits, header := TdiBits(ts), TdiBits(ts)[..p.w];
    assert bits == header + bits[p.w..];
    if AllOnes(header) {
      Conf.PulseInShift(p.w, p.numWords, s.conf, bits, n);
    } else {
      Conf.SilentFrame(p.w, p.numWords, s.conf, header, bits[p.w..], n);
    }
  }

  lemma TdiOfFront(ts: seq<Tick>, n: nat)
    requires n <= |ts|
    ensures TdiBits(ts[..n]) == TdiBits(ts)[..n] && forall i :: 0 <= i < |ts| ==> TdiBits(ts)[i] == ts[i].tdi
  {
  }

  /** A frame is the run of its clocks. */
  lemma {:induction false} FrameIsRun(p: Params, s: Target, groups: seq<seq<Tick>>)
    requires Ok(p, s) && FrameOk(p, groups)
    ensures TicksOk(p, Clocks(groups)) && Frame(p, s, groups) == Run(p, s, Clocks(groups))
    decreases |groups|
  {
    hide Step, TickOk, Ok;
    if groups != [] {
      FrameIsRun(p, Run(p, s, groups[0]), groups[1..]);
      RunAppend(p, s, groups[0], Clocks(groups[1..]));
    }
  }

  function Clocks(groups: seq<seq<Tick>>): seq<Tick> {
    if groups == [] then [] else groups[0] + Clocks(groups[1..])
  }

  lemma {:induction false} RunAppend(p: Params, s: Target, a: seq<Tick>, b: seq<Tick>)
    requires Ok(p, s) && TicksOk(p, a) && TicksOk(p, b)
    ensures TicksOk(p, a + b) && Run(p, s, a + b) == Run(p, Run(p, s, a), b)
    decreases |a|
  {
    hide Step, TickOk, Ok;
    if a == [] {
      assert a + b == b;
    } else {
      assert (a + b)[1..] == a[1..] + b && (a + b)[0] == a[0];
      RunAppend(p, Step(p, s, a[0]), a[1..], b);
    }
  }

  // ---- The header of a response ----

  /** What the two header words of a response show: bit 0 of the output fifo's data port at each clock.
      If a word waits, they are zero, as the protocol has it, if and only if its bit 0 is clear. */
  lemma HeaderShown(p: Params, s: Target, groups: seq<seq<Tick>>, wr: nat, rd: nat)
    requires Started(p, s) && Request(p, groups, wr, rd)
    ensures p.w > 0 && OutF.WordsOk(p.w, s.out.q)
    ensures var shown := TdoWords(p, s, groups);
      && shown[0] == OutF.PortBits(p.w, s.out.q, OutTicks(p, s, groups[0]))
      && (s.out.q != [] ==> shown[0] == shown[1] == seq(p.w, _ => s.out.q[0][0]))
      && (s.out.q != [] ==> (shown[0] == shown[1] == Zeros(p.w) <==> !s.out.q[0][0]))
  {
    hide Frame, TdiBits, OutF.OutTdi, Val, AllOnes, OutF.OutWords, OutF.OutFrame, ToBits, TicksOk;
    hide OutF.Response, Response, InData, OutF.PortBits, TdoWords, OutF.Overruns, OutF.Arrived;
    OutputProjects(p, s, groups);
    var og := OutGroups(p, s, groups);
    assert og[0] == OutTicks(p, s, groups[0]);
    var counts := CountsOf(groups);
    FrameCounted(p, s, groups, counts);
    hide OutF.Counted, OutF.Supplies, CountsOf;
    var taken := OutF.OutputFrame(p.w, s.out, og, wr, rd, counts);
    if s.out.q != [] {
      OutF.PortHeld(p.w, s.out.q, og[0]);
      OutF.PortHeld(p.w, s.out.q + OutF.Arrived(og[0]), og[1]);
      var bit := s.out.q[0][0];
      assert seq(p.w, _ => bit)[0] == bit && Zeros(p.w)[0] == false;
      if !bit { assert seq(p.w, _ => bit) == Zeros(p.w); }
    }
  }

  /** A response whose header is not zero. */
  lemma HeaderIsNotZero() returns (p: Params, s: Target, groups: seq<seq<Tick>>)
    ensures Started(p, s) && Request(p, groups, 0, 0) && TdoWords(p, s, groups)[0] != Zeros(p.w)
  {
    p := Params(2, 1);
    s := Target(InF.InSys(In.InReg(In.Idle, false, false, 0, Zeros(2), 0, Zeros(2)), [], [], []),
                OutF.OutSys(Out.Cleared(2), [[true, true]], []), Conf.Cleared(2));
    SmallPowers();
    var t := Tick(false, false, [], Zeros(2));
    var ts := [t, t];
    groups := [ts, ts, ts, ts];
    assert TdiBits(ts) == Zeros(2);
    ZerosAreZero(2);
    HeaderShown(p, s, groups, 0, 0);
  }
}
