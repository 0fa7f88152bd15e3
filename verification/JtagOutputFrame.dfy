/** A frame as the output FSM answers it: a contiguous shift of whole words, clock by clock, refined
    to one step per word and then to the whole response. */
module JtagOutputFrame {
  import opened Bits
  import opened JtagWords
  import opened JtagOutputFsm

  /** The FSM with the fifo it reads from, and the words it has taken. */
  datatype OutSys = OutSys(r: OutReg, q: seq<Word>, popped: seq<Word>)

  /** One clock in Shift-DR: the bit on TDI, what the logic adds to the fifo, whether the fifo is reset,
      the count and error of the input FSM, and what an empty fifo shows on its data port. */
  datatype OutTick = OutTick(tdi: bool, arrived: seq<Word>, flush: bool, written: Word, error: bool, idleData: Word)

  ghost predicate WordsOk(w: nat, words: seq<Word>) { forall i :: 0 <= i < |words| ==> |words[i]| == w }

  ghost predicate Ok(w: nat, s: OutSys) { RegOk(w, s.r) && WordsOk(w, s.q) }

  ghost predicate TickOk(w: nat, t: OutTick) {
    WordsOk(w, t.arrived) && |t.written| == w == |t.idleData|
  }

  ghost predicate TicksOk(w: nat, ts: seq<OutTick>) { forall i :: 0 <= i < |ts| ==> TickOk(w, ts[i]) }

  /** Clocks of a data frame: the fifo is not reset and the input FSM reports no error. */
  ghost predicate Quiet(ts: seq<OutTick>) { forall i :: 0 <= i < |ts| ==> !ts[i].flush && !ts[i].error }

  function Pins(s: OutSys, t: OutTick): OutPins {
    OutPins(t.tdi, true, false, t.error, t.written, if s.q != [] then s.q[0] else t.idleData, s.q != [])
  }

  function OutStep(w: nat, s: OutSys, t: OutTick): (u: OutSys)
    requires Ok(w, s) && TickOk(w, t)
    ensures Ok(w, u)
  {
    var n := Next(w, s.r, Pins(s, t));
    var pop := n.fifoReady && s.q != [];
    OutSys(n.r,
           if t.flush then [] else (if pop then s.q[1..] else s.q) + t.arrived,
           if pop then s.popped + [s.q[0]] else s.popped)
  }

  function OutBit(w: nat, s: OutSys, t: OutTick): bool
    requires Ok(w, s) && TickOk(w, t)
  {
    Next(w, s.r, Pins(s, t)).tdo
  }

  function OutRun(w: nat, s: OutSys, ts: seq<OutTick>): (u: OutSys)
    requires Ok(w, s) && TicksOk(w, ts)
    ensures Ok(w, u)
    decreases |ts|
  {
    if ts == [] then s else OutRun(w, OutStep(w, s, ts[0]), ts[1..])
  }

  function OutBits(w: nat, s: OutSys, ts: seq<OutTick>): (b: Word)
    requires Ok(w, s) && TicksOk(w, ts)
    ensures |b| == |ts|
    decreases |ts|
  {
    if ts == [] then [] else [OutBit(w, s, ts[0])] + OutBits(w, OutStep(w, s, ts[0]), ts[1..])
  }

  function OutTdi(ts: seq<OutTick>): (b: Word)
    ensures |b| == |ts|
  {
    seq(|ts|, i requires 0 <= i < |ts| => ts[i].tdi)
  }

  function Arrived(ts: seq<OutTick>): seq<Word> {
    if ts == [] then [] else ts[0].arrived + Arrived(ts[1..])
  }

  // ---- How many words come in ----

  /** How many words the logic adds at clock `j` of word `i` of a shift. */
  type Counts = (nat, nat) -> nat

  /** In the first `n` clocks of word `i`. */
  function Brought(counts: Counts, i: nat, n: nat): nat {
    if n == 0 then 0 else Brought(counts, i, n - 1) + counts(i, n - 1)
  }

  /** Before word `i`. */
  function Total(w: nat, counts: Counts, i: nat): nat {
    if i == 0 then 0 else Total(w, counts, i - 1) + Brought(counts, i - 1, w)
  }

  /** Before the last clock of word `i`. */
  function Came(w: nat, counts: Counts, i: nat): nat
    requires w > 0
  {
    Total(w, counts, i) + Brought(counts, i, w - 1)
  }

  /** Whether the clock at which the `k`-th word is due, the last of word `k + 1` of the shift, finds one: of
      the `have` words there at the start and those that came since, `k` have been taken. */
  ghost predicate Finds(w: nat, have: nat, counts: Counts, k: nat)
    requires w > 0
  {
    have + Came(w, counts, k + 1) > k
  }

  /** Of `rd` wanted words a shift takes `n` from a fifo that holds `have` at its start: one at the last
      clock of each word from word 1 on, until the fifo is found empty there. */
  ghost predicate Supplies(w: nat, have: nat, counts: Counts, rd: nat, n: nat)
    requires w > 0
  {
    && n <= rd
    && (forall k :: 0 <= k < n ==> Finds(w, have, counts, k))
    && (n < rd ==> !Finds(w, have, counts, n))
  }

  /** All wanted words are taken if and only if the fifo is empty at none of these clocks, and in any
      case no fewer than were there. */
  lemma SuppliesAll(w: nat, have: nat, counts: Counts, rd: nat, n: nat)
    requires w > 0 && Supplies(w, have, counts, rd, n)
    ensures n == rd <==> forall k :: 0 <= k < rd ==> Finds(w, have, counts, k)
    ensures Min(rd, have) <= n <= rd
  {
    hide Came;
  }

  ghost predicate CountedWord(ts: seq<OutTick>, counts: Counts, i: nat) {
    forall j :: 0 <= j < |ts| ==> |ts[j].arrived| == counts(i, j)
  }

  ghost predicate Counted(groups: seq<seq<OutTick>>, counts: Counts, from: nat) {
    forall i :: 0 <= i < |groups| ==> CountedWord(groups[i], counts, from + i)
  }

  lemma {:induction false} ArrivedCounted(ts: seq<OutTick>, counts: Counts, i: nat, n: nat)
    requires CountedWord(ts, counts, i) && n <= |ts|
    ensures |Arrived(ts[..n])| == Brought(counts, i, n)
    decreases n
  {
    if n > 0 {
      ArrivedCounted(ts, counts, i, n - 1);
      assert ts[..n] == ts[..n - 1] + [ts[n - 1]];
      ArrivedAppend(ts[..n - 1], ts[n - 1]);
    }
  }

  lemma {:induction false} ArrivedAppend(ts: seq<OutTick>, t: OutTick)
    ensures |Arrived(ts + [t])| == |Arrived(ts)| + |t.arrived|
  {
    if ts == [] {
      assert ([] + [t])[1..] == [];
    } else {
      assert (ts + [t])[1..] == ts[1..] + [t];
      ArrivedAppend(ts[1..], t);
    }
  }

  lemma CountedRest(groups: seq<seq<OutTick>>, counts: Counts, from: nat)
    requires Counted(groups, counts, from) && groups != []
    ensures CountedWord(groups[0], counts, from) && Counted(groups[1..], counts, from + 1)
  {
    hide CountedWord;
    forall i | 0 <= i < |groups| - 1 ensures CountedWord(groups[1..][i], counts, from + 1 + i) {
      assert CountedWord(groups[i + 1], counts, from + (i + 1));
    }
  }

  // ---- Runs ----

  lemma {:induction false} OutRunAppend(w: nat, s: OutSys, a: seq<OutTick>, b: seq<OutTick>)
    requires Ok(w, s) && TicksOk(w, a) && TicksOk(w, b)
    ensures TicksOk(w, a + b)
    ensures OutRun(w, s, a + b) == OutRun(w, OutRun(w, s, a), b)
    ensures OutBits(w, s, a + b) == OutBits(w, s, a) + OutBits(w, OutRun(w, s, a), b)
    decreases |a|
  {
    hide OutStep, OutBit, TickOk, Ok;
    if a == [] {
      assert a + b == b;
    } else {
      assert (a + b)[1..] == a[1..] + b && (a + b)[0] == a[0];
      OutRunAppend(w, OutStep(w, s, a[0]), a[1..], b);
    }
  }

  lemma OneClock(w: nat, s: OutSys, t: OutTick)
    requires Ok(w, s) && TickOk(w, t)
    ensures OutRun(w, s, [t]) == OutStep(w, s, t) && OutBits(w, s, [t]) == [OutBit(w, s, t)]
  {
    hide OutStep, OutBit, TickOk, Ok;
    assert [t][1..] == [];
  }

  lemma LastClock(w: nat, s: OutSys, ts: seq<OutTick>)
    requires Ok(w, s) && TicksOk(w, ts) && ts != []
    ensures var n := |ts| - 1; var x := OutRun(w, s, ts[..n]);
      && OutRun(w, s, ts) == OutStep(w, x, ts[n])
      && OutBits(w, s, ts) == OutBits(w, s, ts[..n]) + [OutBit(w, x, ts[n])]
  {
    hide OutStep, OutBit, TickOk, Ok, OutRun, OutBits;
    var n := |ts| - 1;
    FrontAndLast(ts);
    OutRunAppend(w, s, ts[..n], [ts[n]]);
    OneClock(w, OutRun(w, s, ts[..n]), ts[n]);
  }

  lemma StepLosesNothing(w: nat, s: OutSys, t: OutTick)
    requires Ok(w, s) && TickOk(w, t) && !t.flush
    ensures OutStep(w, s, t).popped + OutStep(w, s, t).q == s.popped + s.q + t.arrived
  {
    hide Next, WordsOk;
    if OutStep(w, s, t).popped != s.popped {
      assert s.popped + s.q == s.popped + [s.q[0]] + s.q[1..];
      ConcatAssoc(s.popped + [s.q[0]], s.q[1..], t.arrived);
    } else {
      ConcatAssoc(s.popped, s.q, t.arrived);
    }
  }

  /** Words taken and words waiting are, together, the words that were there and those that came. */
  lemma {:induction false} NothingLost(w: nat, s: OutSys, ts: seq<OutTick>)
    requires Ok(w, s) && TicksOk(w, ts) && Quiet(ts)
    ensures OutRun(w, s, ts).popped + OutRun(w, s, ts).q == s.popped + s.q + Arrived(ts)
    ensures s.popped <= OutRun(w, s, ts).popped
    decreases |ts|
  {
    if ts != [] {
      var v := OutStep(w, s, ts[0]);
      StepLosesNothing(w, s, ts[0]);
      assert s.popped <= v.popped;
      hide OutStep, TickOk, Ok;
      NothingLost(w, v, ts[1..]);
      ConcatAssoc(s.popped + s.q, ts[0].arrived, Arrived(ts[1..]));
    }
  }

  // ---- Inside a word: all clocks but the last ----

  /** What one clock inside a word does: it moves bit_cnt on, and nothing is taken from the fifo. The
      states that read the request store the bit, the others show theirs on TDO. */
  lemma InnerBit(w: nat, s: OutSys, t: OutTick)
    requires Ok(w, s) && TickOk(w, t) && s.r.bitCnt < w - 1 && !t.error
    requires !s.r.state.Idle? && !s.r.state.ConfigDisc? && (s.r.state.SendCountWrite? ==> s.r.bitCnt > 0)
    ensures var u := OutStep(w, s, t);
      && u.popped == s.popped
      && u.r == (if s.r.state.WriteLength? || s.r.state.ReadLength?
                 then s.r.(bitCnt := s.r.bitCnt + 1, inRegCnt := s.r.inRegCnt[s.r.bitCnt := t.tdi])
                 else s.r.(bitCnt := s.r.bitCnt + 1))
    ensures s.r.state.SendData? ==> OutBit(w, s, t) == s.r.outReg[s.r.bitCnt]
    ensures s.r.state.NoData? ==> !OutBit(w, s, t)
    ensures s.r.state.SendCountWrite? ==> OutBit(w, s, t) == s.r.free[s.r.bitCnt]
    ensures s.r.state.SendCountRead? ==> OutBit(w, s, t) == ToBits(s.r.packetCount, w)[s.r.bitCnt]
  {
    hide WordsOk, ToBits, Val;
  }

  lemma {:induction false} RequestBits(w: nat, s: OutSys, ts: seq<OutTick>)
    requires Ok(w, s) && TicksOk(w, ts) && Quiet(ts)
    requires (s.r.state.WriteLength? || s.r.state.ReadLength?) && s.r.bitCnt + |ts| < w
    ensures var u := OutRun(w, s, ts);
      && u.r == s.r.(bitCnt := s.r.bitCnt + |ts|, inRegCnt := u.r.inRegCnt) && u.popped == s.popped
      && Overwrites(u.r.inRegCnt, s.r.inRegCnt, s.r.bitCnt, OutTdi(ts))
    decreases |ts|
  {
    hide OutStep, OutBit, WordsOk;
    if ts != [] {
      InnerBit(w, s, ts[0]);
      RequestBits(w, OutStep(w, s, ts[0]), ts[1..]);
      assert OutTdi(ts[1..]) == OutTdi(ts)[1..];
    }
  }

  /** The word a state shows on TDO, apart from its last bit's state change. */
  function Shown(w: nat, r: OutReg): (b: Word)
    requires RegOk(w, r)
    ensures |b| == w
  {
    match r.state
    case SendData => r.outReg
    case SendCountWrite => r.free
    case SendCountRead => ToBits(r.packetCount, w)
    case _ => Zeros(w)
  }

  ghost predicate Answers(r: OutReg) {
    r.state.SendData? || r.state.NoData? || r.state.SendCountRead? || (r.state.SendCountWrite? && r.bitCnt > 0)
  }

  lemma AnswerBit(w: nat, s: OutSys, t: OutTick)
    requires Ok(w, s) && TickOk(w, t) && s.r.bitCnt < w - 1 && !t.error && Answers(s.r)
    ensures var v := OutStep(w, s, t);
      && v.r == s.r.(bitCnt := s.r.bitCnt + 1) && v.popped == s.popped && Answers(v.r)
      && Shown(w, v.r) == Shown(w, s.r) && OutBit(w, s, t) == Shown(w, s.r)[s.r.bitCnt]
  {
    InnerBit(w, s, t);
    hide OutStep, OutBit, ToBits;
  }

  lemma SliceCons(b: Word, at: nat, n: nat)
    requires at + n < |b|
    ensures [b[at]] + b[at + 1..at + 1 + n] == b[at..at + 1 + n]
  {
  }

  lemma {:induction false} AnswerBits(w: nat, s: OutSys, ts: seq<OutTick>)
    requires Ok(w, s) && TicksOk(w, ts) && Quiet(ts) && s.r.bitCnt + |ts| < w && Answers(s.r)
    ensures var u := OutRun(w, s, ts);
      && u.r == s.r.(bitCnt := s.r.bitCnt + |ts|) && u.popped == s.popped
      && OutBits(w, s, ts) == Shown(w, s.r)[s.r.bitCnt..s.r.bitCnt + |ts|]
    decreases |ts|
  {
    hide OutStep, OutBit, WordsOk, Shown, Answers;
    if ts != [] {
      AnswerBit(w, s, ts[0]);
      AnswerBits(w, OutStep(w, s, ts[0]), ts[1..]);
      SliceCons(Shown(w, s.r), s.r.bitCnt, |ts| - 1);
    }
  }

  // ---- What the header words show ----

  /** Bit 0 of the fifo's data port. */
  function PortBit(w: nat, q: seq<Word>, t: OutTick): bool
    requires w > 0 && WordsOk(w, q) && TickOk(w, t)
  {
    (if q != [] then q[0] else t.idleData)[0]
  }

  /** That bit at each of the clocks `ts`, when nothing is taken from the fifo. */
  function PortBits(w: nat, q: seq<Word>, ts: seq<OutTick>): (b: Word)
    requires w > 0 && WordsOk(w, q) && TicksOk(w, ts)
    ensures |b| == |ts|
    decreases |ts|
  {
    if ts == [] then [] else [PortBit(w, q, ts[0])] + PortBits(w, q + ts[0].arrived, ts[1..])
  }

  lemma {:induction false} ArrivedSized(w: nat, ts: seq<OutTick>)
    requires TicksOk(w, ts)
    ensures WordsOk(w, Arrived(ts))
    decreases |ts|
  {
    if ts != [] { ArrivedSized(w, ts[1..]); }
  }

  lemma {:induction false} PortBitAt(w: nat, q: seq<Word>, ts: seq<OutTick>, i: nat)
    requires w > 0 && WordsOk(w, q) && TicksOk(w, ts) && i < |ts|
    ensures WordsOk(w, q + Arrived(ts[..i])) && PortBits(w, q, ts)[i] == PortBit(w, q + Arrived(ts[..i]), ts[i])
    decreases i
  {
    hide PortBit;
    ArrivedSized(w, ts[..i]);
    if i == 0 {
      assert q + Arrived(ts[..0]) == q;
    } else {
      assert ts[..i][1..] == ts[1..][..i - 1];
      PortBitAt(w, q + ts[0].arrived, ts[1..], i - 1);
      ConcatAssoc(q, ts[0].arrived, Arrived(ts[..i][1..]));
    }
  }

  /** The clocks show zeros if and only if bit 0 of the data port is clear at each of them. */
  lemma PortIsZero(w: nat, q: seq<Word>, ts: seq<OutTick>)
    requires w > 0 && WordsOk(w, q) && TicksOk(w, ts) && WordsOk(w, Arrived(ts))
    ensures PortBits(w, q, ts) == Zeros(|ts|) <==>
      forall i :: 0 <= i < |ts| ==> WordsOk(w, q + Arrived(ts[..i])) && !PortBit(w, q + Arrived(ts[..i]), ts[i])
  {
    hide PortBit, PortBits, WordsOk;
    forall i | 0 <= i < |ts|
      ensures WordsOk(w, q + Arrived(ts[..i])) && PortBits(w, q, ts)[i] == PortBit(w, q + Arrived(ts[..i]), ts[i])
    {
      PortBitAt(w, q, ts, i);
    }
    if PortBits(w, q, ts) == Zeros(|ts|) {
      forall i | 0 <= i < |ts| ensures !PortBit(w, q + Arrived(ts[..i]), ts[i]) {
        assert !PortBits(w, q, ts)[i];
      }
    }
  }

  /** A word that waits in the fifo is on the port at every clock. */
  lemma {:induction false} PortHeld(w: nat, q: seq<Word>, ts: seq<OutTick>)
    requires w > 0 && WordsOk(w, q) && TicksOk(w, ts) && q != []
    ensures PortBits(w, q, ts) == seq(|ts|, _ => q[0][0])
    decreases |ts|
  {
    if ts != [] {
      PortHeld(w, q + ts[0].arrived, ts[1..]);
    }
  }

  ghost predicate ReadsRequest(r: OutReg) { r.state.Idle? || r.state.WriteLength? || r.state.ReadLength? }

  lemma RequestBitShown(w: nat, s: OutSys, t: OutTick)
    requires Ok(w, s) && TickOk(w, t) && ReadsRequest(s.r) && !t.flush
    ensures OutBit(w, s, t) == PortBit(w, s.q, t)
    ensures s.r.bitCnt < w - 1 ==>
      var u := OutStep(w, s, t); ReadsRequest(u.r) && u.r.bitCnt == s.r.bitCnt + 1 && u.q == s.q + t.arrived
  {
    hide WordsOk, Val, AllOnes, AnyOne, ToBits;
  }

  /** While a word of the request is read, TDO shows bit 0 of the data port, clock by clock. */
  lemma {:induction false} RequestShown(w: nat, s: OutSys, ts: seq<OutTick>)
    requires Ok(w, s) && TicksOk(w, ts) && Quiet(ts) && ReadsRequest(s.r) && s.r.bitCnt + |ts| <= w
    ensures OutBits(w, s, ts) == PortBits(w, s.q, ts)
    decreases |ts|
  {
    hide OutStep, OutBit, PortBit, ReadsRequest;
    if ts != [] {
      RequestBitShown(w, s, ts[0]);
      if |ts| > 1 {
        RequestShown(w, OutStep(w, s, ts[0]), ts[1..]);
      } else {
        assert ts[1..] == [];
      }
    }
  }

  lemma SameFront<T>(a: seq<T>, b: seq<T>, c: seq<T>)
    requires a + b == a + c
    ensures b == c
  {
    assert (a + b)[|a|..] == b && (a + c)[|a|..] == c;
  }

  /** Configuration discovery: this FSM is silent until update. */
  lemma {:induction false} ConfigBits(w: nat, s: OutSys, ts: seq<OutTick>)
    requires Ok(w, s) && TicksOk(w, ts) && s.r.state.ConfigDisc?
    ensures var u := OutRun(w, s, ts); u.r == s.r && u.popped == s.popped
    decreases |ts|
  {
    if ts != [] { ConfigBits(w, OutStep(w, s, ts[0]), ts[1..]); }
  }

  /** Nothing leaves the fifo meanwhile but by a flush, which also drops what arrives in its clock. */
  lemma {:induction false} ConfigQueue(w: nat, s: OutSys, ts: seq<OutTick>)
    requires Ok(w, s) && TicksOk(w, ts) && s.r.state.ConfigDisc? && forall i :: 0 <= i < |ts| ==> !ts[i].flush
    ensures OutRun(w, s, ts).q == s.q + Arrived(ts)
    decreases |ts|
  {
    if ts != [] {
      ConfigQueue(w, OutStep(w, s, ts[0]), ts[1..]);
      ConcatAssoc(s.q, ts[0].arrived, Arrived(ts[1..]));
    }
  }

  lemma FlushedQueue(w: nat, s: OutSys, ts: seq<OutTick>)
    requires Ok(w, s) && TicksOk(w, ts) && s.r.state.ConfigDisc? && ts != [] && ts[0].flush
    requires forall i :: 1 <= i < |ts| ==> !ts[i].flush
    ensures OutRun(w, s, ts).q == Arrived(ts[1..])
  {
    var v := OutStep(w, s, ts[0]);
    assert v.q == [] && v.r.state.ConfigDisc?;
    hide OutStep;
    ConfigQueue(w, v, ts[1..]);
  }

  // ---- Whole words ----

  lemma StoredWord(after: Word, before: Word, at: nat, ts: seq<OutTick>, w: nat)
    requires 2 <= |ts| == w == |before| && at <= 1 && Overwrites(after, before, at, OutTdi(ts[at..w - 1]))
    requires at == 1 ==> before[0] == ts[0].tdi
    ensures after[w - 1 := ts[w - 1].tdi] == OutTdi(ts)
  {
    var stored := after[w - 1 := ts[w - 1].tdi];
    forall i | 0 <= i < w ensures stored[i] == OutTdi(ts)[i] {
      if at <= i < w - 1 {
        assert after[at + (i - at)] == OutTdi(ts[at..w - 1])[i - at];
        assert ts[at..w - 1][i - at] == ts[i];
      }
    }
  }

  lemma FirstClock(w: nat, s: OutSys, t: OutTick)
    requires Ok(w, s) && TickOk(w, t) && s.r.state.Idle?
    ensures var v := OutStep(w, s, t);
      && v.popped == s.popped
      && v.r == OutReg(WriteLength, 0, 1, 0, s.r.outReg, Zeros(w), Zeros(w)[0 := t.tdi], 0, 0)
  {
    hide WordsOk;
  }

  /** After the first word: configuration discovery, or waiting for the second with WR_REQ_SIZE kept. */
  lemma WriteLengthWord(w: nat, s: OutSys, ts: seq<OutTick>)
    requires Ok(w, s) && TicksOk(w, ts) && Quiet(ts) && s.r.state.Idle? && |ts| == w
    ensures var u := OutRun(w, s, ts); var word := OutTdi(ts);
      && u.popped == s.popped && u.r.bitCnt == 0
      && (if AllOnes(word) then u.r.state.ConfigDisc?
          else u.r.state.ReadLength? && u.r.writeLength == Val(word) && u.r.wordCnt == 0 && u.r.packetCount == 0)
    ensures OutBits(w, s, ts) == PortBits(w, s.q, ts) && OutRun(w, s, ts).q == s.q + Arrived(ts)
  {
    hide OutStep, OutBit, WordsOk, OutRun, OutBits, Val, AllOnes, TickOk, OutTdi, PortBits;
    RequestShown(w, s, ts);
    var x := WriteLengthBits(w, s, ts);
    WriteLengthEnds(w, x, ts[w - 1]);
    NothingLost(w, s, ts);
    ConcatAssoc(s.popped, s.q, Arrived(ts));
    SameFront(s.popped, OutRun(w, s, ts).q, s.q + Arrived(ts));
  }

  /** All of the first word but its last bit. */
  lemma WriteLengthBits(w: nat, s: OutSys, ts: seq<OutTick>) returns (x: OutSys)
    requires Ok(w, s) && TicksOk(w, ts) && Quiet(ts) && s.r.state.Idle? && |ts| == w
    ensures Ok(w, x) && OutRun(w, s, ts) == OutStep(w, x, ts[w - 1]) && x.popped == s.popped
    ensures x.r.state.WriteLength? && x.r.bitCnt == w - 1 && x.r.wordCnt == 0 && x.r.packetCount == 0
    ensures x.r.inRegCnt[w - 1 := ts[w - 1].tdi] == OutTdi(ts)
  {
    hide OutStep, OutBit, WordsOk;
    FirstClock(w, s, ts[0]);
    var v := OutStep(w, s, ts[0]);
    var middle := ts[1..w - 1];
    RequestBits(w, v, middle);
    assert ts[1..][..w - 2] == middle;
    LastClock(w, v, ts[1..]);
    x := OutRun(w, v, middle);
    StoredWord(x.r.inRegCnt, v.r.inRegCnt, 1, ts, w);
  }

  lemma WriteLengthEnds(w: nat, x: OutSys, t: OutTick)
    requires Ok(w, x) && TickOk(w, t) && x.r.state.WriteLength? && x.r.bitCnt == w - 1
    ensures var u := OutStep(w, x, t); var word := x.r.inRegCnt[w - 1 := t.tdi];
      && u.popped == x.popped && u.r.bitCnt == 0 && u.r.wordCnt == x.r.wordCnt && u.r.packetCount == x.r.packetCount
      && (if AllOnes(word) then u.r.state.ConfigDisc? else u.r.state.ReadLength? && u.r.writeLength == Val(word))
  {
    hide WordsOk, Val;
  }

  /** What the end of the second word leads to: `m` payload words, `rd` of them wanted, with `waiting`
      words in the fifo. */
  ghost predicate PayloadBegins(w: nat, s: OutSys, u: OutSys, rd: nat, m: nat, waiting: nat) {
    && |u.r.inRegCnt| == w && u.r.bitCnt == 0 && u.r.wordCnt == s.r.wordCnt && u.r.packetCount == s.r.packetCount
    && Val(u.r.inRegCnt) == m && u.r.readLength == rd
    && (if m == 0 then u.r.state.SendCountWrite? && u.popped == s.popped
        else if rd > 0 && waiting > 0 then u.r.state.SendData? && u.popped == s.popped + [u.r.outReg]
        else u.r.state.NoData? && u.popped == s.popped)
  }

  /** What is taken from the fifo and what is in it grow, together, by what comes in. */
  lemma QueueBalance(w: nat, s: OutSys, ts: seq<OutTick>, counts: Counts, i: nat)
    requires Ok(w, s) && TicksOk(w, ts) && Quiet(ts) && CountedWord(ts, counts, i)
    ensures var u := OutRun(w, s, ts); |u.q| + |u.popped| == |s.q| + |s.popped| + Brought(counts, i, |ts|)
  {
    hide OutRun;
    NothingLost(w, s, ts);
    ArrivedCounted(ts, counts, i, |ts|);
    assert ts[..|ts|] == ts;
  }

  /** What the fifo holds at the last clock of a word, if nothing is taken before. */
  lemma WaitingAtEnd(w: nat, s: OutSys, ts: seq<OutTick>)
    requires Ok(w, s) && TicksOk(w, ts) && Quiet(ts) && OutRun(w, s, ts).popped == s.popped
    ensures |OutRun(w, s, ts).q| == |s.q| + |Arrived(ts)|
  {
    hide OutRun;
    NothingLost(w, s, ts);
  }

  lemma ReadLengthEnds(w: nat, x: OutSys, t: OutTick)
    requires Ok(w, x) && TickOk(w, t) && x.r.state.ReadLength? && x.r.bitCnt == w - 1
    ensures var word := x.r.inRegCnt[w - 1 := t.tdi];
      PayloadBegins(w, x, OutStep(w, x, t), Val(word), Max(x.r.writeLength, Val(word)), |x.q|)
  {
    hide WordsOk, Val, AnyOne, ToBits, Pow2;
    AnyOneIsPositive(x.r.inRegCnt[w - 1 := t.tdi]);
    ValOfToBits(x.r.writeLength, w);
  }

  lemma ReadLengthWord(w: nat, s: OutSys, ts: seq<OutTick>)
    requires Ok(w, s) && TicksOk(w, ts) && Quiet(ts) && s.r.state.ReadLength? && s.r.bitCnt == 0 && |ts| == w
    ensures var rd := Val(OutTdi(ts));
      PayloadBegins(w, s, OutRun(w, s, ts), rd, Max(s.r.writeLength, rd), |s.q| + |Arrived(ts[..w - 1])|)
    ensures OutBits(w, s, ts) == PortBits(w, s.q, ts)
  {
    hide OutStep, OutBit, WordsOk, OutRun, OutBits, Val, TickOk, OutTdi, PortBits, Arrived;
    RequestShown(w, s, ts);
    var x := ReadLengthBits(w, s, ts);
    ReadLengthEnds(w, x, ts[w - 1]);
  }

  /** All of the second word but its last bit. */
  lemma ReadLengthBits(w: nat, s: OutSys, ts: seq<OutTick>) returns (x: OutSys)
    requires Ok(w, s) && TicksOk(w, ts) && Quiet(ts) && s.r.state.ReadLength? && s.r.bitCnt == 0 && |ts| == w
    ensures Ok(w, x) && OutRun(w, s, ts) == OutStep(w, x, ts[w - 1]) && x.popped == s.popped
    ensures x.r == s.r.(bitCnt := w - 1, inRegCnt := x.r.inRegCnt) && |x.q| == |s.q| + |Arrived(ts[..w - 1])|
    ensures x.r.inRegCnt[w - 1 := ts[w - 1].tdi] == OutTdi(ts)
  {
    hide OutStep, OutBit, WordsOk, OutRun, OutBits, OutTdi, Arrived;
    RequestBits(w, s, ts[..w - 1]);
    LastClock(w, s, ts);
    x := OutRun(w, s, ts[..w - 1]);
    WaitingAtEnd(w, s, ts[..w - 1]);
    assert ts[0..w - 1] == ts[..w - 1];
    StoredWord(x.r.inRegCnt, s.r.inRegCnt, 0, ts, w);
  }

  /** All of a word but its last bit is on TDO, and the last clock decides what follows. */
  lemma AnswerWord(w: nat, s: OutSys, ts: seq<OutTick>)
    requires Ok(w, s) && TicksOk(w, ts) && Quiet(ts) && |ts| == w && s.r.bitCnt == 0 && Answers(s.r)
    ensures var x := OutRun(w, s, ts[..w - 1]);
      && x.r == s.r.(bitCnt := w - 1) && x.popped == s.popped
      && OutRun(w, s, ts) == OutStep(w, x, ts[w - 1])
      && OutBits(w, s, ts) == Shown(w, s.r)
  {
    hide OutStep, OutBit, WordsOk;
    AnswerBits(w, s, ts[..w - 1]);
    LastClock(w, s, ts);
    var x := OutRun(w, s, ts[..w - 1]);
    LastBit(w, x, ts[w - 1]);
    hide Shown;
    assert Shown(w, s.r)[0..w - 1] + [Shown(w, s.r)[w - 1]] == Shown(w, s.r);
  }

  lemma LastBit(w: nat, x: OutSys, t: OutTick)
    requires Ok(w, x) && TickOk(w, t) && !t.error && x.r.bitCnt == w - 1 && Answers(x.r)
    ensures OutBit(w, x, t) == Shown(w, x.r)[w - 1]
  {
    hide WordsOk, ToBits, Val;
  }

  /** After a data word: the counts, padding, or the next word if `waiting` words are in the fifo. */
  ghost predicate DataSent(s: OutSys, u: OutSys, waiting: nat) {
    var c := s.r.wordCnt;
    && u.r.bitCnt == 0 && u.r.inRegCnt == s.r.inRegCnt && u.r.readLength == s.r.readLength
    && (if c == Val(s.r.inRegCnt) - 1 then u.r.state.SendCountWrite? && u.r.packetCount == c + 1 && u.popped == s.popped
        else if c == s.r.readLength - 1 then
          u.r.state.NoData? && u.r.wordCnt == c && u.r.packetCount == c + 1 && u.popped == s.popped
        else if waiting > 0 then u.r.state.SendData? && u.r.wordCnt == c + 1 && u.popped == s.popped + [u.r.outReg]
        else u.r.state.NoData? && u.r.wordCnt == u.r.packetCount == c + 1 && u.popped == s.popped)
  }

  lemma SendDataEnds(w: nat, x: OutSys, t: OutTick)
    requires Ok(w, x) && TickOk(w, t) && x.r.state.SendData? && x.r.bitCnt == w - 1 && x.r.wordCnt + 1 < Pow2(w)
    ensures DataSent(x, OutStep(w, x, t), |x.q|)
  {
    hide WordsOk, Val, IdleNext, WriteLengthNext, ReadLengthNext, NoDataNext, SendCountWriteNext, SendCountReadNext;
    hide ConfigDiscNext;
    ModSmall(x.r.wordCnt + 1, Pow2(w));
    hide Pow2;
  }

  lemma SendDataWord(w: nat, s: OutSys, ts: seq<OutTick>)
    requires Ok(w, s) && TicksOk(w, ts) && Quiet(ts) && |ts| == w && s.r.bitCnt == 0
    requires s.r.state.SendData? && s.r.wordCnt + 1 < Pow2(w)
    ensures DataSent(s, OutRun(w, s, ts), |s.q| + |Arrived(ts[..w - 1])|) && OutBits(w, s, ts) == s.r.outReg
  {
    hide OutStep, OutBit, WordsOk, Val;
    AnswerWord(w, s, ts);
    SendDataEnds(w, OutRun(w, s, ts[..w - 1]), ts[w - 1]);
    WaitingAtEnd(w, s, ts[..w - 1]);
  }

  lemma NoDataEnds(w: nat, x: OutSys, t: OutTick)
    requires Ok(w, x) && TickOk(w, t) && x.r.state.NoData? && x.r.bitCnt == w - 1 && x.r.wordCnt < Val(x.r.inRegCnt)
    ensures var u := OutStep(w, x, t);
      && u.popped == x.popped && u.r.bitCnt == 0 && u.r.inRegCnt == x.r.inRegCnt && u.r.packetCount == x.r.packetCount
      && (if x.r.wordCnt == Val(x.r.inRegCnt) - 1 then u.r.state.SendCountWrite?
          else u.r.state.NoData? && u.r.wordCnt == x.r.wordCnt + 1)
  {
    var n := Val(x.r.inRegCnt);
    hide WordsOk, Val;
    ModSmall(x.r.wordCnt, Pow2(w));
    if x.r.wordCnt + 1 < n { ModSmall(x.r.wordCnt + 1, Pow2(w)); }
  }

  lemma NoDataWord(w: nat, s: OutSys, ts: seq<OutTick>)
    requires Ok(w, s) && TicksOk(w, ts) && Quiet(ts) && |ts| == w && s.r.bitCnt == 0
    requires s.r.state.NoData? && s.r.wordCnt < Val(s.r.inRegCnt)
    ensures var u := OutRun(w, s, ts);
      && u.popped == s.popped && u.r.bitCnt == 0 && u.r.inRegCnt == s.r.inRegCnt && u.r.packetCount == s.r.packetCount
      && (if s.r.wordCnt == Val(s.r.inRegCnt) - 1 then u.r.state.SendCountWrite?
          else u.r.state.NoData? && u.r.wordCnt == s.r.wordCnt + 1)
    ensures OutBits(w, s, ts) == Zeros(w)
  {
    hide OutStep, OutBit, WordsOk, Val;
    AnswerWord(w, s, ts);
    NoDataEnds(w, OutRun(w, s, ts[..w - 1]), ts[w - 1]);
  }

  lemma CountWriteBegins(w: nat, s: OutSys, t: OutTick)
    requires Ok(w, s) && TickOk(w, t) && !t.error && s.r.state.SendCountWrite? && s.r.bitCnt == 0
    ensures var v := OutStep(w, s, t);
      v.r == s.r.(bitCnt := 1, free := t.written) && v.popped == s.popped && OutBit(w, s, t) == t.written[0]
  {
    hide WordsOk, ToBits, Val;
  }

  lemma CountEnds(w: nat, x: OutSys, t: OutTick)
    requires Ok(w, x) && TickOk(w, t) && !t.error && x.r.bitCnt == w - 1
    ensures x.r.state.SendCountWrite? ==>
      OutStep(w, x, t).r == x.r.(bitCnt := 0, state := SendCountRead) && OutStep(w, x, t).popped == x.popped
    ensures x.r.state.SendCountRead? ==>
      OutStep(w, x, t).r == x.r.(bitCnt := 0, state := Idle) && OutStep(w, x, t).popped == x.popped
  {
    hide WordsOk, ToBits, Val;
  }

  lemma Rejoin(b: Word, w: nat)
    requires |b| == w >= 2
    ensures [b[0]] + (b[1..1 + (w - 2)] + [b[w - 1]]) == b
  {
  }

  /** WR_RESP_SIZE: what the input FSM has counted when the word begins. */
  lemma CountWriteWord(w: nat, s: OutSys, ts: seq<OutTick>)
    requires Ok(w, s) && TicksOk(w, ts) && Quiet(ts) && |ts| == w && s.r.state.SendCountWrite? && s.r.bitCnt == 0
    ensures var u := OutRun(w, s, ts);
      && u.popped == s.popped && u.r.state.SendCountRead? && u.r.bitCnt == 0 && u.r.packetCount == s.r.packetCount
      && OutBits(w, s, ts) == ts[0].written
  {
    hide OutStep, OutBit, WordsOk, ToBits, Val;
    CountWriteBegins(w, s, ts[0]);
    var v := OutStep(w, s, ts[0]);
    assert ts[1..][..w - 2] == ts[1..w - 1];
    AnswerBits(w, v, ts[1..w - 1]);
    LastClock(w, v, ts[1..]);
    var x := OutRun(w, v, ts[1..w - 1]);
    LastBit(w, x, ts[w - 1]);
    CountEnds(w, x, ts[w - 1]);
    Rejoin(ts[0].written, w);
  }

  ghost predicate Alarmed(ts: seq<OutTick>) { forall i :: 0 <= i < |ts| ==> ts[i].error }

  /** WR_RESP_SIZE while the input FSM reports an error: all ones. */
  lemma {:induction false} ErrorWord(w: nat, s: OutSys, ts: seq<OutTick>)
    requires Ok(w, s) && TicksOk(w, ts) && Alarmed(ts) && s.r.state.SendCountWrite?
    requires s.r.bitCnt + |ts| == w && ts != []
    ensures OutBits(w, s, ts) == seq(|ts|, _ => true)
    ensures var u := OutRun(w, s, ts); u.r == s.r.(bitCnt := 0, state := SendCountRead) && u.popped == s.popped
    decreases |ts|
  {
    hide ToBits, Val, AllOnes, AnyOne, WordsOk;
    ErrorBit(w, s, ts[0]);
    var v := OutStep(w, s, ts[0]);
    hide OutStep, OutBit;
    if |ts| > 1 {
      ErrorWord(w, v, ts[1..]);
    } else {
      assert ts[1..] == [];
    }
    assert [true] + seq(|ts| - 1, _ => true) == seq(|ts|, _ => true);
  }

  lemma ErrorBit(w: nat, s: OutSys, t: OutTick)
    requires Ok(w, s) && TickOk(w, t) && t.error && s.r.state.SendCountWrite?
    ensures OutBit(w, s, t)
    ensures var u := OutStep(w, s, t);
      && u.popped == s.popped
      && u.r == if s.r.bitCnt == w - 1 then s.r.(bitCnt := 0, state := SendCountRead)
                else s.r.(bitCnt := s.r.bitCnt + 1)
  {
    hide ToBits, Val, WordsOk;
  }

  /** RD_RESP_SIZE: the number of words taken from the fifo. */
  lemma CountReadWord(w: nat, s: OutSys, ts: seq<OutTick>)
    requires Ok(w, s) && TicksOk(w, ts) && Quiet(ts) && |ts| == w && s.r.state.SendCountRead? && s.r.bitCnt == 0
    ensures var u := OutRun(w, s, ts);
      u.popped == s.popped && u.r.state.Idle? && OutBits(w, s, ts) == ToBits(s.r.packetCount, w)
  {
    hide OutStep, OutBit, WordsOk, ToBits, Val;
    AnswerWord(w, s, ts);
    CountEnds(w, OutRun(w, s, ts[..w - 1]), ts[w - 1]);
  }

  // ---- Frames ----

  ghost predicate FrameOk(w: nat, groups: seq<seq<OutTick>>) {
    forall i :: 0 <= i < |groups| ==> |groups[i]| == w && TicksOk(w, groups[i]) && Quiet(groups[i])
  }

  function OutFrame(w: nat, s: OutSys, groups: seq<seq<OutTick>>): (u: OutSys)
    requires Ok(w, s) && FrameOk(w, groups)
    ensures Ok(w, u)
    decreases |groups|
  {
    if groups == [] then s else OutFrame(w, OutRun(w, s, groups[0]), groups[1..])
  }

  /** The words on TDO. */
  function OutWords(w: nat, s: OutSys, groups: seq<seq<OutTick>>): (b: seq<Word>)
    requires Ok(w, s) && FrameOk(w, groups)
    ensures |b| == |groups|
    decreases |groups|
  {
    if groups == [] then [] else [OutBits(w, s, groups[0])] + OutWords(w, OutRun(w, s, groups[0]), groups[1..])
  }

  function Padding(w: nat, n: nat): (b: seq<Word>)
    ensures |b| == n
  {
    seq(n, _ => Zeros(w))
  }

  /** The count the input FSM reports at the first clock of word `j`. */
  function Reported(groups: seq<seq<OutTick>>, j: nat): Word
    requires j < |groups| && groups[j] != []
  {
    groups[j][0].written
  }

  lemma {:induction false} OutFrameAppend(w: nat, s: OutSys, a: seq<seq<OutTick>>, b: seq<seq<OutTick>>)
    requires Ok(w, s) && FrameOk(w, a) && FrameOk(w, b)
    ensures FrameOk(w, a + b)
    ensures OutFrame(w, s, a + b) == OutFrame(w, OutFrame(w, s, a), b)
    ensures OutWords(w, s, a + b) == OutWords(w, s, a) + OutWords(w, OutFrame(w, s, a), b)
    decreases |a|
  {
    hide OutRun, OutBits, Ok, TicksOk, Quiet;
    if a == [] {
      assert a + b == b;
    } else {
      assert (a + b)[1..] == a[1..] + b && (a + b)[0] == a[0];
      OutFrameAppend(w, OutRun(w, s, a[0]), a[1..], b);
    }
  }

  /** Padding up to the last payload word. */
  lemma {:induction false} PaddingWords(w: nat, s: OutSys, groups: seq<seq<OutTick>>)
    requires Ok(w, s) && FrameOk(w, groups) && s.r.state.NoData? && s.r.bitCnt == 0 && groups != []
    requires s.r.wordCnt + |groups| == Val(s.r.inRegCnt)
    ensures var u := OutFrame(w, s, groups);
      && u.popped == s.popped && u.r.state.SendCountWrite? && u.r.bitCnt == 0 && u.r.packetCount == s.r.packetCount
      && OutWords(w, s, groups) == Padding(w, |groups|)
    decreases |groups|
  {
    hide OutRun, OutBits, TicksOk, Quiet, Val;
    NoDataWord(w, s, groups[0]);
    if |groups| > 1 {
      PaddingWords(w, OutRun(w, s, groups[0]), groups[1..]);
      assert [Zeros(w)] + Padding(w, |groups| - 1) == Padding(w, |groups|);
    } else {
      assert groups[1..] == [];
      assert [Zeros(w)] == Padding(w, 1);
    }
  }

  /** The two counts at the end of a response. */
  lemma CountWords(w: nat, s: OutSys, groups: seq<seq<OutTick>>)
    requires Ok(w, s) && FrameOk(w, groups) && s.r.state.SendCountWrite? && s.r.bitCnt == 0 && |groups| == 2
    ensures var u := OutFrame(w, s, groups);
      && u.popped == s.popped && u.r.state.Idle?
      && OutWords(w, s, groups) == [Reported(groups, 0), ToBits(s.r.packetCount, w)]
  {
    hide OutRun, OutBits, TicksOk, Quiet, ToBits;
    CountWriteWord(w, s, groups[0]);
    var v := OutRun(w, s, groups[0]);
    CountReadWord(w, v, groups[1]);
    assert groups[1..][0] == groups[1] && groups[1..][1..] == [];
    var t := OutRun(w, v, groups[1]);
    assert OutFrame(w, v, groups[1..]) == OutFrame(w, t, []);
    assert OutWords(w, v, groups[1..]) == [OutBits(w, v, groups[1])] + OutWords(w, t, []);
  }

  /** From padding to the end of the frame. */
  lemma PaddingThenCounts(w: nat, s: OutSys, groups: seq<seq<OutTick>>)
    requires Ok(w, s) && FrameOk(w, groups) && s.r.state.NoData? && s.r.bitCnt == 0
    requires s.r.wordCnt < Val(s.r.inRegCnt) && s.r.wordCnt + |groups| == Val(s.r.inRegCnt) + 2
    ensures var u := OutFrame(w, s, groups); var n := |groups| - 2;
      && u.popped == s.popped && u.r.state.Idle?
      && OutWords(w, s, groups) == Padding(w, n) + [Reported(groups, n), ToBits(s.r.packetCount, w)]
  {
    hide OutRun, OutBits, TicksOk, Quiet, ToBits, Val;
    var n := |groups| - 2;
    assert groups == groups[..n] + groups[n..];
    OutFrameAppend(w, s, groups[..n], groups[n..]);
    PaddingWords(w, s, groups[..n]);
    CountWords(w, OutFrame(w, s, groups[..n]), groups[n..]);
  }

  /** What happens when the shift ends one word too early for a response that runs one word long. */
  lemma PaddingThenWriteCount(w: nat, s: OutSys, groups: seq<seq<OutTick>>)
    requires Ok(w, s) && FrameOk(w, groups) && s.r.state.NoData? && s.r.bitCnt == 0
    requires s.r.wordCnt < Val(s.r.inRegCnt) && s.r.wordCnt + |groups| == Val(s.r.inRegCnt) + 1
    ensures var u := OutFrame(w, s, groups); var n := |groups| - 1;
      && u.popped == s.popped && u.r.state.SendCountRead?
      && OutWords(w, s, groups) == Padding(w, n) + [Reported(groups, n)]
  {
    hide OutRun, OutBits, TicksOk, Quiet, Val;
    var n := |groups| - 1;
    assert groups == groups[..n] + groups[n..];
    OutFrameAppend(w, s, groups[..n], groups[n..]);
    PaddingWords(w, s, groups[..n]);
    var v := OutFrame(w, s, groups[..n]);
    CountWriteWord(w, v, groups[n]);
    assert groups[n..][0] == groups[n] && groups[n..][1..] == [];
    var t := OutRun(w, v, groups[n]);
    assert OutFrame(w, v, groups[n..]) == OutFrame(w, t, []);
    assert OutWords(w, v, groups[n..]) == [OutBits(w, v, groups[n])] + OutWords(w, t, []);
  }

  /** The response of a frame with `m` payload words of which `rd` are wanted, when the words `taken`
      came from the fifo: the words, padding, the two counts. When the fifo supplies all of 0 < rd < m
      wanted words the payload runs one word long: the word that should carry the write count is
      padding, and the one that should carry the read count carries the write count. */
  predicate Overruns(rd: nat, m: nat, taken: nat) { 0 < rd < m && taken == rd }

  function Response(w: nat, groups: seq<seq<OutTick>>, taken: seq<Word>, m: nat, rd: nat): seq<Word>
    requires |taken| <= rd <= m && |groups| == m + 2 && forall i :: 0 <= i < |groups| ==> groups[i] != []
  {
    if Overruns(rd, m, |taken|) then taken + Padding(w, m - rd + 1) + [Reported(groups, m + 1)]
    else taken + Padding(w, m - |taken|) + [Reported(groups, m), ToBits(|taken|, w)]
  }

  /** From the `k0`-th word on the fifo supplies words up to the `k`-th of `rd`. */
  ghost predicate SuppliesOn(w: nat, have: nat, counts: Counts, rd: nat, k0: nat, k: nat)
    requires w > 0
  {
    && k0 <= k <= rd
    && (forall j :: k0 <= j < k ==> Finds(w, have, counts, j))
    && (k < rd ==> !Finds(w, have, counts, k))
  }

  lemma SuppliesStep(w: nat, have: nat, counts: Counts, rd: nat, k0: nat, k: nat)
    requires w > 0 && SuppliesOn(w, have, counts, rd, k0 + 1, k) && Finds(w, have, counts, k0)
    ensures SuppliesOn(w, have, counts, rd, k0, k)
  {
    hide Came;
  }

  lemma SuppliesNoMore(w: nat, have: nat, counts: Counts, rd: nat, k: nat)
    requires w > 0 && k <= rd && (k < rd ==> !Finds(w, have, counts, k))
    ensures SuppliesOn(w, have, counts, rd, k, k)
  {
    hide Finds;
  }

  lemma FindsWaiting(w: nat, have: nat, counts: Counts, k: nat, queued: nat)
    requires w > 0 && k > 0 && queued + k == have + Total(w, counts, k + 1)
    ensures Finds(w, have, counts, k) <==> queued + Brought(counts, k + 1, w - 1) > 0
  {
    hide Brought, Total;
  }

  /** The words of the data phase: the one loaded, those taken behind it, padding and the counts. */
  ghost predicate DataAnswered(w: nat, s: OutSys, u: OutSys, words: seq<Word>, groups: seq<seq<OutTick>>,
                               c: nat, m: nat, rd: nat, extra: seq<Word>)
    requires |s.r.outReg| == w && c + 1 + |extra| <= rd <= m && |groups| == m - c + 2
    requires forall i :: 0 <= i < |groups| ==> groups[i] != []
  {
    var k, n := c + 1 + |extra|, |groups|;
    && u.popped == s.popped + extra
    && (if k == rd && rd < m then
          && u.r.state.SendCountRead?
          && words == [s.r.outReg] + (extra + Padding(w, m - k + 1) + [Reported(groups, n - 1)])
        else
          && u.r.state.Idle?
          && words == [s.r.outReg] + (extra + Padding(w, m - k) + [Reported(groups, n - 2), ToBits(k, w)]))
  }

  /** Behind the last word taken: the counts, or padding and then the counts. */
  lemma SendLast(w: nat, s: OutSys, v: OutSys, groups: seq<seq<OutTick>>, c: nat, m: nat, rd: nat, waiting: nat)
    requires Ok(w, s) && Ok(w, v) && FrameOk(w, groups) && groups != [] && v == OutRun(w, s, groups[0])
    requires c == s.r.wordCnt && m == Val(s.r.inRegCnt) && rd == s.r.readLength && c < rd <= m && |groups| == m - c + 2
    requires DataSent(s, v, waiting) && !v.r.state.SendData? && OutBits(w, s, groups[0]) == s.r.outReg
    ensures DataAnswered(w, s, OutFrame(w, s, groups), OutWords(w, s, groups), groups, c, m, rd, [])
  {
    hide OutRun, OutBits, TicksOk, Quiet, ToBits, Val, Padding, DataAnswered, Reported, Pow2, WordsOk;
    hide OutFrame, OutWords;
    FrameUnfolds(w, s, groups);
    RestAnswered(w, v, groups, c, m, rd);
    NoneBehind(w, s, OutFrame(w, v, groups[1..]), OutWords(w, v, groups[1..]), groups, c, m, rd);
  }

  lemma RestAnswered(w: nat, v: OutSys, groups: seq<seq<OutTick>>, c: nat, m: nat, rd: nat)
    requires groups != [] && Ok(w, v) && FrameOk(w, groups) && FrameOk(w, groups[1..])
    requires v.r.bitCnt == 0 && v.r.packetCount == c + 1
    requires m == Val(v.r.inRegCnt) && c < rd <= m && |groups| == m - c + 2
    requires if c == m - 1 then v.r.state.SendCountWrite?
             else v.r.state.NoData? && v.r.wordCnt == if c == rd - 1 then c else c + 1
    ensures var u, tail := OutFrame(w, v, groups[1..]), OutWords(w, v, groups[1..]);
      && u.popped == v.popped
      && (if c + 1 == rd && rd < m
          then u.r.state.SendCountRead? && tail == Padding(w, m - c) + [Reported(groups, |groups| - 1)]
          else u.r.state.Idle? && tail == Padding(w, m - c - 1) + [Reported(groups, |groups| - 2), ToBits(c + 1, w)])
  {
    hide OutRun, OutBits, TicksOk, Quiet, ToBits, Val, Pow2, WordsOk, OutFrame, OutWords, Padding;
    var rest := groups[1..];
    if c == m - 1 {
      CountWords(w, v, rest);
      NoPadding(w, [Reported(rest, 0), ToBits(c + 1, w)]);
    } else if c == rd - 1 {
      PaddingThenWriteCount(w, v, rest);
    } else {
      PaddingThenCounts(w, v, rest);
    }
  }

  lemma FrameUnfolds(w: nat, s: OutSys, groups: seq<seq<OutTick>>)
    requires Ok(w, s) && FrameOk(w, groups) && groups != []
    ensures TicksOk(w, groups[0]) && FrameOk(w, groups[1..])
    ensures OutFrame(w, s, groups) == OutFrame(w, OutRun(w, s, groups[0]), groups[1..])
    ensures OutWords(w, s, groups) == [OutBits(w, s, groups[0])] + OutWords(w, OutRun(w, s, groups[0]), groups[1..])
  {
    hide OutRun, OutBits, TicksOk, Quiet;
  }

  lemma NoPadding(w: nat, counts: seq<Word>)
    ensures Padding(w, 0) + counts == counts
  {
  }

  lemma NoneBehind(w: nat, s: OutSys, u: OutSys, tail: seq<Word>, groups: seq<seq<OutTick>>, c: nat, m: nat, rd: nat)
    requires |s.r.outReg| == w && c + 1 <= rd <= m && |groups| == m - c + 2
    requires forall i :: 0 <= i < |groups| ==> groups[i] != []
    requires u.popped == s.popped
    requires if c + 1 == rd && rd < m
             then u.r.state.SendCountRead? && tail == Padding(w, m - c) + [Reported(groups, |groups| - 1)]
             else u.r.state.Idle? && tail == Padding(w, m - c - 1) + [Reported(groups, |groups| - 2), ToBits(c + 1, w)]
    ensures DataAnswered(w, s, u, [s.r.outReg] + tail, groups, c, m, rd, [])
  {
    hide ToBits, Padding, Reported;
    assert s.popped + [] == s.popped;
    assert [] + Padding(w, m - c) == Padding(w, m - c) && [] + Padding(w, m - c - 1) == Padding(w, m - c - 1);
  }

  lemma DataGrows(w: nat, s: OutSys, v: OutSys, u: OutSys, words: seq<Word>, groups: seq<seq<OutTick>>,
                  c: nat, m: nat, rd: nat, more: seq<Word>)
    requires |s.r.outReg| == w == |v.r.outReg| && c + 2 + |more| <= rd <= m && |groups| == m - c + 2
    requires forall i :: 0 <= i < |groups| ==> groups[i] != []
    requires DataAnswered(w, v, u, words, groups[1..], c + 1, m, rd, more) && v.popped == s.popped + [v.r.outReg]
    ensures DataAnswered(w, s, u, [s.r.outReg] + words, groups, c, m, rd, [v.r.outReg] + more)
  {
    hide ToBits, Padding;
    var k := c + 2 + |more|;
    var first := [v.r.outReg];
    ConcatAssoc(s.popped, first, more);
    if k == rd && rd < m {
      AssocThrice(first, more, Padding(w, m - k + 1), [Reported(groups, |groups| - 1)]);
    } else {
      AssocThrice(first, more, Padding(w, m - k), [Reported(groups, |groups| - 2), ToBits(k, w)]);
    }
  }

  lemma AssocThrice(a: seq<Word>, b: seq<Word>, c: seq<Word>, d: seq<Word>)
    ensures a + (b + c + d) == a + b + c + d
  {
  }

  /** The data phase from word `c` of `m` on, with the words before it already sent: word `c + 2` of the
      shift. `have` words were in the fifo at the start of the shift. */
  lemma {:induction false} SendWords(w: nat, s: OutSys, groups: seq<seq<OutTick>>, c: nat, m: nat, rd: nat,
                                     counts: Counts, have: nat)
    returns (extra: seq<Word>)
    requires Ok(w, s) && FrameOk(w, groups) && s.r.state.SendData? && s.r.bitCnt == 0
    requires c == s.r.wordCnt && m == Val(s.r.inRegCnt) && rd == s.r.readLength && c < rd <= m && |groups| == m - c + 2
    requires Counted(groups, counts, c + 2) && |s.q| + c + 1 == have + Total(w, counts, c + 2)
    ensures SuppliesOn(w, have, counts, rd, c + 1, c + 1 + |extra|)
    ensures c + 1 + |extra| <= rd
    ensures DataAnswered(w, s, OutFrame(w, s, groups), OutWords(w, s, groups), groups, c, m, rd, extra)
    decreases |groups|
  {
    hide OutRun, OutBits, TicksOk, Quiet, ToBits, Pow2, Brought, Counted, CountedWord, Arrived, SuppliesOn, Finds;
    hide DataAnswered;
    assert c + 1 < Pow2(w) || c + 1 == m;
    SendDataWord(w, s, groups[0]);
    hide Val;
    var v, rest := OutRun(w, s, groups[0]), groups[1..];
    CountedRest(groups, counts, c + 2);
    ArrivedCounted(groups[0], counts, c + 2, w - 1);
    FindsWaiting(w, have, counts, c + 1, |s.q|);
    if !v.r.state.SendData? {
      extra := [];
      SuppliesNoMore(w, have, counts, rd, c + 1);
      SendLast(w, s, v, groups, c, m, rd, |s.q| + |Arrived(groups[0][..w - 1])|);
    } else {
      QueueBalance(w, s, groups[0], counts, c + 2);
      var more := SendWords(w, v, rest, c + 1, m, rd, counts, have);
      SuppliesStep(w, have, counts, rd, c + 1, c + 2 + |more|);
      DataGrows(w, s, v, OutFrame(w, v, rest), OutWords(w, v, rest), groups, c, m, rd, more);
      extra := [v.r.outReg] + more;
    }
  }

  lemma Assembled(w: nat, first: Word, extra: seq<Word>, groups: seq<seq<OutTick>>, m: nat, rd: nat)
    requires 1 + |extra| <= rd <= m && |groups| == m + 2 && forall i :: 0 <= i < |groups| ==> groups[i] != []
    ensures var k := 1 + |extra|;
      Response(w, groups, [first] + extra, m, rd) ==
        if Overruns(rd, m, k) then [first] + (extra + Padding(w, m - k + 1) + [Reported(groups, m + 1)])
        else [first] + (extra + Padding(w, m - k) + [Reported(groups, m), ToBits(k, w)])
  {
  }

  lemma NoneTaken(w: nat, groups: seq<seq<OutTick>>, m: nat, rd: nat)
    requires rd <= m && |groups| == m + 2 && forall i :: 0 <= i < |groups| ==> groups[i] != []
    ensures Response(w, groups, [], m, rd) == Padding(w, m) + [Reported(groups, m), ToBits(0, w)]
    ensures m == 0 ==> Response(w, groups, [], m, rd) == [Reported(groups, m), ToBits(0, w)]
  {
    hide ToBits;
    assert [] + Padding(w, m) == Padding(w, m);
    if m == 0 { assert Padding(w, 0) + [Reported(groups, 0), ToBits(0, w)] == [Reported(groups, 0), ToBits(0, w)]; }
  }

  /** The payload and the counts, from the state at the end of the second header word, which began in
      `s`. */
  lemma PayloadWords(w: nat, s: OutSys, u: OutSys, groups: seq<seq<OutTick>>, rd: nat, m: nat,
                     counts: Counts, have: nat, waiting: nat)
    returns (taken: seq<Word>)
    requires Ok(w, s) && Ok(w, u) && PayloadBegins(w, s, u, rd, m, waiting) && s.r.wordCnt == s.r.packetCount == 0
    requires FrameOk(w, groups) && |groups| == m + 2 && rd <= m && Counted(groups, counts, 2)
    requires waiting == have + Came(w, counts, 1)
    requires |u.q| + |u.popped| == |s.popped| + have + Total(w, counts, 2)
    ensures Supplies(w, have, counts, rd, |taken|)
    ensures var t := OutFrame(w, u, groups);
      && t.popped == s.popped + taken
      && OutWords(w, u, groups) == Response(w, groups, taken, m, rd)
      && (if Overruns(rd, m, |taken|) then t.r.state.SendCountRead? else t.r.state.Idle?)
  {
    hide OutRun, OutBits, TicksOk, Quiet, ToBits, Val, Response, Padding, Came, Total;
    if u.r.state.SendData? {
      var extra := SendWords(w, u, groups, 0, m, rd, counts, have);
      taken := [u.r.outReg] + extra;
      ConcatAssoc(s.popped, [u.r.outReg], extra);
      Assembled(w, u.r.outReg, extra, groups, m, rd);
      FirstSupplied(w, have, counts, rd, |taken|);
    } else {
      taken := [];
      if u.r.state.NoData? { PaddingThenCounts(w, u, groups); } else { CountWords(w, u, groups); }
      NoneTaken(w, groups, m, rd);
      assert s.popped + taken == s.popped;
    }
  }

  lemma FirstSupplied(w: nat, have: nat, counts: Counts, rd: nat, n: nat)
    requires w > 0 && SuppliesOn(w, have, counts, rd, 1, n) && Finds(w, have, counts, 0)
    ensures Supplies(w, have, counts, rd, n)
  {
    SuppliesStep(w, have, counts, rd, 0, n);
  }

  /** The whole frame. With WR_REQ_SIZE `wr`, not all ones, and RD_REQ_SIZE `rd`, a shift of
      max(wr, rd) + 4 words answers, behind two header words that show bit 0 of the fifo's data port at
      each clock, with the response for exactly the words it took from the fifo: the next ones in order,
      and as many as what was there and what came in supplies. */
  lemma OutputFrame(w: nat, s: OutSys, groups: seq<seq<OutTick>>, wr: nat, rd: nat, counts: Counts)
    returns (taken: seq<Word>)
    requires Ok(w, s) && FrameOk(w, groups) && s.r.state.Idle? && Counted(groups, counts, 0)
    requires |groups| == Max(wr, rd) + 4 && !AllOnes(OutTdi(groups[0]))
    requires wr == Val(OutTdi(groups[0])) && rd == Val(OutTdi(groups[1]))
    ensures w > 0 && Supplies(w, |s.q|, counts, rd, |taken|)
    ensures var u := OutFrame(w, s, groups); var m := Max(wr, rd);
      && u.popped == s.popped + taken && Min(rd, |s.q|) <= |taken| <= rd
      && OutWords(w, s, groups)[2..] == Response(w, groups[2..], taken, m, rd)
      && WordsOk(w, s.q + Arrived(groups[0]))
      && OutWords(w, s, groups)[0] == PortBits(w, s.q, groups[0])
      && OutWords(w, s, groups)[1] == PortBits(w, s.q + Arrived(groups[0]), groups[1])
      && (if Overruns(rd, m, |taken|) then u.r.state.SendCountRead? else u.r.state.Idle?)
  {
    hide OutRun, OutBits, TicksOk, Quiet, ToBits, Val, Response, Supplies, CountedWord, Brought, Arrived;
    WriteLengthWord(w, s, groups[0]);
    var h := OutRun(w, s, groups[0]);
    ReadLengthWord(w, h, groups[1]);
    var v := OutRun(w, h, groups[1]);
    CountedFrame(groups, counts);
    QueueBalance(w, s, groups[0], counts, 0);
    QueueBalance(w, h, groups[1], counts, 1);
    ArrivedCounted(groups[1], counts, 1, w - 1);
    TotalOfHeader(w, counts);
    taken := PayloadWords(w, h, v, groups[2..], rd, Max(wr, rd), counts, |s.q|, |h.q| + |Arrived(groups[1][..w - 1])|);
    SuppliesAll(w, |s.q|, counts, rd, |taken|);
    assert groups[1..][0] == groups[1] && groups[1..][1..] == groups[2..];
    assert OutWords(w, s, groups) == [OutBits(w, s, groups[0]), OutBits(w, h, groups[1])] + OutWords(w, v, groups[2..]);
  }

  lemma TotalOfHeader(w: nat, counts: Counts)
    ensures Total(w, counts, 1) == Brought(counts, 0, w)
    ensures Total(w, counts, 2) == Brought(counts, 0, w) + Brought(counts, 1, w)
  {
    hide Brought;
    assert Total(w, counts, 0) == 0;
  }

  lemma CountedFrame(groups: seq<seq<OutTick>>, counts: Counts)
    requires Counted(groups, counts, 0) && |groups| >= 2
    ensures CountedWord(groups[0], counts, 0) && CountedWord(groups[1], counts, 1) && Counted(groups[2..], counts, 2)
  {
    CountedRest(groups, counts, 0);
    CountedRest(groups[1..], counts, 1);
    assert groups[1..][0] == groups[1] && groups[1..][1..] == groups[2..];
  }
}
