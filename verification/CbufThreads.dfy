/** One writer thread and one reader thread on a circular buffer, with every access to shared memory
    a step of its own: each load of the other side's position, each byte copied, each publication.
    A run is a sequence of actions in any interleaving (sequentially consistent memory). */
module CbufThreads {
  import opened Bits
  import opened CbufLevels

  datatype WriteOp = Write(bytes: seq<Byte>) | Reserve(n: nat)
  datatype ReadOp = Read(n: nat) | Peek(n: nat) | Discard(n: nat)

  /** Where the writer is: about to test for "full" (its first load of the read position), about to
      compute the difference (its second load), copying, or holding reserved space, with what it has
      stored there, by offset. */
  datatype Writer = WIdle | WFullTest(op: WriteOp) | WDifference(op: WriteOp)
                  | WCopying(bytes: seq<Byte>, done: nat) | WGranted(n: nat, stored: map<nat, Byte>)

  datatype Reader = RIdle | RFullTest(op: ReadOp) | RDifference(op: ReadOp)
                  | RCopying(n: nat, out: seq<Byte>) | RPeeking(n: nat, seen: seq<Byte>)

  /** `written` and `consumed` record what the two sides have published so far. */
  datatype State = State(
    k: nat, data: seq<Byte>, wr: nat, rd: nat, writer: Writer, reader: Reader,
    written: seq<Byte>, consumed: seq<Byte>)
  {
    function Size(): nat { Pow2(k) }

    ghost predicate Shape() {
      |data| == Size() && wr < 2 * Size() && rd < 2 * Size() && Distance(Size(), rd, wr) <= Size()
    }

    /** The true number of unread bytes. */
    ghost function TrueFill(): nat
      requires Shape()
    {
      Distance(Size(), rd, wr)
    }

    function ByteFrom(p: nat, i: nat): Byte
      requires |data| == Size() && p < 2 * Size() && i < Size()
    {
      data[SlotAt(Size(), p, i)]
    }

    function BytesFrom(p: nat, n: nat): (b: seq<Byte>)
      requires |data| == Size() && p < 2 * Size() && n <= Size()
      ensures |b| == n
    {
      seq(n, i requires 0 <= i < n => ByteFrom(p, i))
    }

    function Stored(p: nat, i: nat, b: Byte): State
      requires |data| == Size() && p < 2 * Size() && i < Size()
    {
      this.(data := data[SlotAt(Size(), p, i) := b])
    }

    ghost function Unread(): seq<Byte>
      requires Shape()
    {
      BytesFrom(rd, TrueFill())
    }
  }

  datatype Action =
    | StartWrite(writeOp: WriteOp) | WriterLoads | CopyByteIn | StoreByte(i: nat, b: Byte) | Publish(m: nat)
    | StartRead(readOp: ReadOp) | ReaderLoads | CopyByteOut | EndPeek | PublishRead

  function Requested(op: WriteOp): nat {
    match op case Write(bytes) => |bytes| case Reserve(n) => n
  }

  /** The writer's decision once it has computed a fill level. */
  function WriterDecides(op: WriteOp, size: nat, level: int): Writer {
    if Requested(op) > size - level then WIdle
    else match op case Write(bytes) => WCopying(bytes, 0) case Reserve(n) => WGranted(n, map[])
  }

  function ReaderDecides(s: State, op: ReadOp, level: int): State
    requires s.Shape()
  {
    match op
    case Read(n) => s.(reader := if level < n then RIdle else RCopying(n, []))
    case Peek(n) => s.(reader := if level < n then RIdle else RPeeking(n, []))
    case Discard(n) =>
      if level < n || n > s.Size() then s.(reader := RIdle)
      else s.(reader := RIdle, rd := PtrAdd(s.Size(), s.rd, n), consumed := s.consumed + s.BytesFrom(s.rd, n))
  }

  predicate Enabled(s: State, a: Action) {
    match a
    case StartWrite(_) => s.writer.WIdle?
    case WriterLoads => s.writer.WFullTest? || s.writer.WDifference?
    case CopyByteIn => s.writer.WCopying? && s.writer.done < |s.writer.bytes|
    case StoreByte(i, _) => s.writer.WGranted? && i < s.writer.n
    case Publish(m) =>
      (s.writer.WCopying? && m == s.writer.done == |s.writer.bytes|) || (s.writer.WGranted? && m <= s.writer.n)
    case StartRead(_) => s.reader.RIdle?
    case ReaderLoads => s.reader.RFullTest? || s.reader.RDifference?
    case CopyByteOut =>
      (s.reader.RCopying? && |s.reader.out| < s.reader.n) || (s.reader.RPeeking? && |s.reader.seen| < s.reader.n)
    case EndPeek => s.reader.RPeeking?
    case PublishRead => s.reader.RCopying? && |s.reader.out| == s.reader.n
  }

  ghost predicate WriterOk(s: State)
    requires s.Shape()
  {
    match s.writer
    case WDifference(_) => s.TrueFill() < s.Size()
    case WCopying(bytes, done) =>
      && done <= |bytes| <= s.Size() - s.TrueFill()
      && (forall j :: 0 <= j < done ==> s.ByteFrom(s.wr, j) == bytes[j])
    case WGranted(n, stored) =>
      && n <= s.Size() - s.TrueFill()
      && (forall i :: i in stored ==> i < n && s.ByteFrom(s.wr, i) == stored[i])
    case _ => true
  }

  ghost predicate ReaderOk(s: State)
    requires s.Shape()
  {
    match s.reader
    case RCopying(n, out) => |out| <= n <= s.TrueFill() && out == s.Unread()[..|out|]
    case RPeeking(n, seen) => |seen| <= n <= s.TrueFill() && seen == s.Unread()[..|seen|]
    case _ => true
  }

  /** What keeps the two threads out of each other's way. */
  ghost predicate Inv(s: State) {
    s.Shape() && s.written == s.consumed + s.Unread() && WriterOk(s) && ReaderOk(s)
  }

  function Effect(s: State, a: Action): State
    requires Inv(s) && Enabled(s, a)
  {
    match a
    case StartWrite(op) => s.(writer := WFullTest(op))
    case WriterLoads =>
      if s.writer.WFullTest? then
        s.(writer := if IsFull(s.Size(), s.wr, s.rd) then WriterDecides(s.writer.op, s.Size(), s.Size())
                     else WDifference(s.writer.op))
      else
        s.(writer := WriterDecides(s.writer.op, s.Size(), MaskedDifference(s.Size(), s.wr, s.rd)))
    case CopyByteIn =>
      s.Stored(s.wr, s.writer.done, s.writer.bytes[s.writer.done]).(writer := s.writer.(done := s.writer.done + 1))
    case StoreByte(i, b) =>
      s.Stored(s.wr, i, b).(writer := s.writer.(stored := s.writer.stored[i := b]))
    case Publish(m) =>
      s.(writer := WIdle, wr := PtrAdd(s.Size(), s.wr, m), written := s.written + s.BytesFrom(s.wr, m))
    case StartRead(op) => s.(reader := RFullTest(op))
    case ReaderLoads =>
      if s.reader.RFullTest? then
        if IsFull(s.Size(), s.wr, s.rd) then ReaderDecides(s, s.reader.op, s.Size())
        else s.(reader := RDifference(s.reader.op))
      else
        ReaderDecides(s, s.reader.op, MaskedDifference(s.Size(), s.wr, s.rd))
    case CopyByteOut =>
      if s.reader.RCopying? then
        s.(reader := s.reader.(out := s.reader.out + [s.ByteFrom(s.rd, |s.reader.out|)]))
      else
        s.(reader := s.reader.(seen := s.reader.seen + [s.ByteFrom(s.rd, |s.reader.seen|)]))
    case EndPeek => s.(reader := RIdle)
    case PublishRead =>
      s.(reader := RIdle, rd := PtrAdd(s.Size(), s.rd, s.reader.n), consumed := s.consumed + s.reader.out)
  }

  function Init(k: nat, data: seq<Byte>): (s: State)
    requires |data| == Pow2(k)
    ensures Inv(s)
  {
    assert State(k, data, 0, 0, WIdle, RIdle, [], []).Unread() == [];
    State(k, data, 0, 0, WIdle, RIdle, [], [])
  }

  /** A store into the free part leaves every unread byte as it is. */
  lemma StoreMissesUnread(s: State, i: nat, b: Byte)
    requires s.Shape() && i < s.Size() - s.TrueFill()
    ensures s.Stored(s.wr, i, b).Unread() == s.Unread()
    ensures forall j :: 0 <= j < s.Size() ==>
      s.Stored(s.wr, i, b).ByteFrom(s.wr, j) == if j == i then b else s.ByteFrom(s.wr, j)
  {
    forall j | 0 <= j < s.TrueFill() ensures SlotAt(s.Size(), s.rd, j) != SlotAt(s.Size(), s.wr, i) {
      SlotsAreDistinct(s.Size(), s.rd, s.wr, j, i);
    }
  }

  lemma PublishAppends(s: State, m: nat)
    requires s.Shape() && m <= s.Size() - s.TrueFill()
    ensures var t := s.(wr := PtrAdd(s.Size(), s.wr, m));
      t.Shape() && t.TrueFill() == s.TrueFill() + m && t.Unread() == s.Unread() + s.BytesFrom(s.wr, m)
  {
    var t := s.(wr := PtrAdd(s.Size(), s.wr, m));
    AdvanceMovesDistance(s.k, s.rd, s.wr, m);
    forall j | 0 <= j < t.TrueFill()
      ensures t.Unread()[j] == (s.Unread() + s.BytesFrom(s.wr, m))[j]
    {
      if j >= s.TrueFill() { SlotsOfWriter(s, j - s.TrueFill()); }
    }
  }

  lemma PublishKeepsInv(s: State, m: nat)
    requires Inv(s) && Enabled(s, Publish(m))
    ensures Inv(Effect(s, Publish(m)))
  {
    PublishAppends(s, m);
    var t := Effect(s, Publish(m));
    assert t.Unread() == s.(wr := t.wr).Unread();
    assert s.consumed + (s.Unread() + s.BytesFrom(s.wr, m)) == t.written;
  }

  lemma SlotsOfWriter(s: State, j: nat)
    requires s.Shape() && j < s.Size() - s.TrueFill()
    ensures SlotAt(s.Size(), s.wr, j) == SlotAt(s.Size(), s.rd, s.TrueFill() + j)
  {
  }

  /** Removing the next `n` bytes, which the reader has copied out or discards. */
  lemma RemoveKeepsQueue(s: State, n: nat)
    requires s.Shape() && n <= s.TrueFill()
    ensures var t := s.(rd := PtrAdd(s.Size(), s.rd, n));
      t.Shape() && t.TrueFill() == s.TrueFill() - n && s.Unread() == s.BytesFrom(s.rd, n) + t.Unread()
    ensures s.BytesFrom(s.rd, n) == s.Unread()[..n]
  {
    var t := s.(rd := PtrAdd(s.Size(), s.rd, n));
    AdvanceMovesDistance(s.k, s.rd, s.wr, n);
    PtrAddIsAdvance(s.k, s.rd, n);
    forall j | 0 <= j < s.TrueFill()
      ensures s.Unread()[j] == (s.BytesFrom(s.rd, n) + t.Unread())[j]
    {
      if j >= n { SlotAtAdvance(s.Size(), s.rd, n, j - n); }
    }
  }

  /** The level the writer acts on never underestimates the true fill: when its first load does not
      see "full", its second load yields the exact level of that moment, and later the reader only
      takes bytes away. */
  lemma WriterLevelIsSafe(s: State)
    requires Inv(s)
    ensures IsFull(s.Size(), s.wr, s.rd) <==> s.TrueFill() == s.Size()
    ensures s.writer.WDifference? ==> MaskedDifference(s.Size(), s.wr, s.rd) == s.TrueFill()
  {
    LevelsAreExact(s.k, s.wr, s.rd);
  }

  /** The level the reader acts on never overestimates the true fill. It is exact unless the writer
      fills the buffer between the two loads: then the reader computes 0. */
  lemma ReaderLevelIsSafe(s: State)
    requires Inv(s)
    ensures MaskedDifference(s.Size(), s.wr, s.rd) <= s.TrueFill()
    ensures MaskedDifference(s.Size(), s.wr, s.rd) == s.TrueFill() <==> s.TrueFill() < s.Size()
    ensures s.TrueFill() == s.Size() ==> MaskedDifference(s.Size(), s.wr, s.rd) == 0
  {
    LevelsAreExact(s.k, s.wr, s.rd);
  }

  lemma WriterStepKeepsInv(s: State, a: Action)
    requires Inv(s) && Enabled(s, a) && (a.StartWrite? || a.WriterLoads?)
    ensures Inv(Effect(s, a))
  {
    WriterLevelIsSafe(s);
    assert Effect(s, a).Unread() == s.Unread();
  }

  lemma CopyByteInKeepsInv(s: State)
    requires Inv(s) && Enabled(s, CopyByteIn)
    ensures Inv(Effect(s, CopyByteIn))
  {
    var u := s.Stored(s.wr, s.writer.done, s.writer.bytes[s.writer.done]);
    StoreMissesUnread(s, s.writer.done, s.writer.bytes[s.writer.done]);
    var t := Effect(s, CopyByteIn);
    assert t.Unread() == u.Unread();
    assert forall j :: 0 <= j < s.Size() ==> t.ByteFrom(t.wr, j) == u.ByteFrom(s.wr, j);
  }

  lemma StoreByteKeepsInv(s: State, i: nat, b: Byte)
    requires Inv(s) && Enabled(s, StoreByte(i, b))
    ensures Inv(Effect(s, StoreByte(i, b)))
  {
    var u := s.Stored(s.wr, i, b);
    StoreMissesUnread(s, i, b);
    var t := Effect(s, StoreByte(i, b));
    assert t.Unread() == u.Unread();
    assert forall j :: 0 <= j < s.Size() ==> t.ByteFrom(t.wr, j) == u.ByteFrom(s.wr, j);
  }

  lemma WriterSeesMoreRoom(s: State, t: State)
    requires Inv(s) && t.Shape() && t.TrueFill() <= s.TrueFill()
    requires t.k == s.k && t.data == s.data && t.wr == s.wr && t.writer == s.writer
    ensures WriterOk(t)
  {
    assert forall j :: 0 <= j < s.Size() ==> t.ByteFrom(t.wr, j) == s.ByteFrom(s.wr, j);
  }

  /** Taking the next `n` bytes out keeps the invariant. */
  lemma RemovalKeepsInv(s: State, n: nat)
    requires Inv(s) && n <= s.TrueFill()
    ensures Inv(s.(reader := RIdle, rd := PtrAdd(s.Size(), s.rd, n), consumed := s.consumed + s.Unread()[..n]))
  {
    RemoveKeepsQueue(s, n);
    var u := s.(rd := PtrAdd(s.Size(), s.rd, n));
    var t := u.(reader := RIdle, consumed := s.consumed + s.Unread()[..n]);
    WriterSeesMoreRoom(s, t);
    assert t.Unread() == u.Unread();
  }

  lemma ReaderDecidesKeepsInv(s: State, op: ReadOp, level: int)
    requires Inv(s) && level <= s.TrueFill()
    ensures Inv(ReaderDecides(s, op, level))
  {
    if op.Discard? && op.n <= level {
      RemovalKeepsInv(s, op.n);
      RemoveKeepsQueue(s, op.n);
    } else {
      var t := ReaderDecides(s, op, level);
      assert t.Unread() == s.Unread();
      WriterSeesMoreRoom(s, t);
    }
  }

  lemma ReaderStepKeepsInv(s: State, a: Action)
    requires Inv(s) && Enabled(s, a) && (a.StartRead? || a.CopyByteOut? || a.EndPeek?)
    ensures Inv(Effect(s, a))
  {
    var t := Effect(s, a);
    assert t.Unread() == s.Unread();
    assert forall j :: 0 <= j < s.Size() ==> t.ByteFrom(t.wr, j) == s.ByteFrom(s.wr, j);
  }

  lemma ReaderLoadsKeepsInv(s: State)
    requires Inv(s) && Enabled(s, ReaderLoads)
    ensures Inv(Effect(s, ReaderLoads))
  {
    ReaderLevelIsSafe(s);
    WriterLevelIsSafe(s);
    if s.reader.RDifference? {
      ReaderDecidesKeepsInv(s, s.reader.op, MaskedDifference(s.Size(), s.wr, s.rd));
    } else if IsFull(s.Size(), s.wr, s.rd) {
      ReaderDecidesKeepsInv(s, s.reader.op, s.Size());
    } else {
      var t := Effect(s, ReaderLoads);
      assert t.Unread() == s.Unread();
      WriterSeesMoreRoom(s, t);
    }
  }

  lemma StepKeepsInv(s: State, a: Action)
    requires Inv(s) && Enabled(s, a)
    ensures Inv(Effect(s, a))
  {
    if a.Publish? {
      PublishKeepsInv(s, a.m);
    } else if a.StoreByte? {
      StoreByteKeepsInv(s, a.i, a.b);
    } else if a.CopyByteIn? {
      CopyByteInKeepsInv(s);
    } else if a.StartWrite? || a.WriterLoads? {
      WriterStepKeepsInv(s, a);
    } else if a.ReaderLoads? {
      ReaderLoadsKeepsInv(s);
    } else if a.PublishRead? {
      RemovalKeepsInv(s, s.reader.n);
    } else {
      ReaderStepKeepsInv(s, a);
    }
  }

  /** One step of either thread. */
  function Step(s: State, a: Action): (t: State)
    requires Inv(s) && Enabled(s, a)
    ensures Inv(t)
  {
    StepKeepsInv(s, a);
    Effect(s, a)
  }

  /** A run from `s`: every action must be enabled where it is taken. */
  ghost predicate IsRun(s: State, actions: seq<Action>)
    requires Inv(s)
    decreases actions
  {
    actions == [] || (Enabled(s, actions[0]) && IsRun(Step(s, actions[0]), actions[1..]))
  }

  ghost function Final(s: State, actions: seq<Action>): (t: State)
    requires Inv(s) && IsRun(s, actions)
    ensures Inv(t)
    decreases actions
  {
    if actions == [] then s else Final(Step(s, actions[0]), actions[1..])
  }

  /** In every run of the two threads the bytes taken out are a prefix of the bytes put in, and the
      ring holds exactly the rest, in order. */
  lemma FirstInFirstOut(k: nat, data: seq<Byte>, actions: seq<Action>)
    requires |data| == Pow2(k) && IsRun(Init(k, data), actions)
    ensures var t := Final(Init(k, data), actions);
      t.consumed <= t.written && t.Unread() == t.written[|t.consumed|..] && |t.Unread()| <= t.Size()
  {
    var t := Final(Init(k, data), actions);
    assert t.written == t.consumed + t.Unread();
  }

  /** What a completed call adds or takes: cbuf_write publishes exactly the caller's bytes, cbuf_commit
      exactly the bytes that were stored in the reserved memory, at their offsets, a read or a peek has
      seen exactly the next bytes of the stream. */
  lemma CompletedCalls(s: State, a: Action)
    requires Inv(s) && Enabled(s, a)
    ensures a.Publish? && s.writer.WCopying? ==> Effect(s, a).written == s.written + s.writer.bytes
    ensures a.Publish? && s.writer.WGranted? ==>
      && |Effect(s, a).written| == |s.written| + a.m
      && (forall i :: i in s.writer.stored && i < a.m ==>
            Effect(s, a).written[|s.written| + i] == s.writer.stored[i])
    ensures a.PublishRead? ==>
      && Effect(s, a).consumed == s.consumed + s.reader.out
      && s.reader.out == s.written[|s.consumed|..][..s.reader.n]
    ensures s.reader.RPeeking? ==> s.reader.seen == s.written[|s.consumed|..][..|s.reader.seen|]
    ensures !a.Publish? ==> Effect(s, a).written == s.written
    ensures s.consumed <= Effect(s, a).consumed && s.written <= Effect(s, a).written
  {
    hide IsFull, MaskedDifference, PtrAdd;
    assert s.written[|s.consumed|..] == s.Unread();
    if a.Publish? && s.writer.WCopying? {
      assert s.BytesFrom(s.wr, a.m) == s.writer.bytes;
    }
  }

  // ---- What the decisions are ----

  /** The writer's call from its start to its end: which of its steps it is at. */
  ghost predicate InWrite(op: WriteOp, w: Writer) {
    || w == WFullTest(op) || w == WDifference(op)
    || (match op
        case Write(bytes) => w.WCopying? && w.bytes == bytes
        case Reserve(n) => w.WGranted? && w.n == n)
  }

  ghost predicate InRead(op: ReadOp, r: Reader) {
    || r == RFullTest(op) || r == RDifference(op)
    || (op.Read? && r.RCopying? && r.n == op.n) || (op.Peek? && r.RPeeking? && r.n == op.n)
  }

  ghost function Room(s: State): nat
    requires s.Shape()
  {
    s.Size() - s.TrueFill()
  }

  /** A load of the writer decides if it finds the buffer full or is the second one; then the call goes on
      with its argument if and only if it fits into the true room at that moment. */
  lemma WriterDecision(s: State)
    requires Inv(s) && Enabled(s, WriterLoads)
    ensures var op, t := s.writer.op, Effect(s, WriterLoads);
      && t.(writer := s.writer) == s
      && (if s.writer.WFullTest? && Room(s) > 0 then t.writer == WDifference(op)
          else if Requested(op) > Room(s) then t.writer == WIdle
          else InWrite(op, t.writer) && (op.Write? ==> t.writer.WCopying? && t.writer.done == 0)
               && (op.Reserve? ==> t.writer.WGranted? && t.writer.stored == map[]))
  {
    hide IsFull, MaskedDifference;
    WriterLevelIsSafe(s);
  }

  /** What a load of the reader makes of the level when it decides: the true one, or 0 if the buffer has
      become full since the first load. */
  ghost function LevelSeen(s: State): nat
    requires s.Shape()
  {
    if s.reader.RDifference? && s.TrueFill() == s.Size() then 0 else s.TrueFill()
  }

  /** A load of the reader decides if it finds the buffer full or is the second one; then the call goes on
      with its `n`, or removes the next `n` bytes, if and only if the level it sees is at least `n`. */
  lemma ReaderDecision(s: State)
    requires Inv(s) && Enabled(s, ReaderLoads)
    ensures var op, t := s.reader.op, Effect(s, ReaderLoads);
      && t.written == s.written
      && (if s.reader.RFullTest? && s.TrueFill() < s.Size() then t == s.(reader := RDifference(op))
          else if op.n > LevelSeen(s) then t == s.(reader := RIdle)
          else if op.Discard? then t.reader == RIdle && t.consumed == s.consumed + s.Unread()[..op.n]
          else t.consumed == s.consumed && (op.Read? ==> t.reader == RCopying(op.n, []))
               && (op.Peek? ==> t.reader == RPeeking(op.n, [])))
  {
    hide IsFull, MaskedDifference, PtrAdd;
    WriterLevelIsSafe(s);
    ReaderLevelIsSafe(s);
    if s.reader.op.n <= s.TrueFill() { RemoveKeepsQueue(s, s.reader.op.n); }
  }

  // ---- Whole calls ----

  predicate OfWriter(a: Action) { a.StartWrite? || a.WriterLoads? || a.CopyByteIn? || a.StoreByte? || a.Publish? }

  /** No other call of the writer begins in the run. */
  ghost predicate NoNewWrite(actions: seq<Action>) { forall i :: 0 <= i < |actions| ==> !actions[i].StartWrite? }

  ghost predicate NoNewRead(actions: seq<Action>) { forall i :: 0 <= i < |actions| ==> !actions[i].StartRead? }

  /** What the third party stored in granted memory that held `m`, by offset; later stores win. */
  function Stores(m: map<nat, Byte>, actions: seq<Action>): map<nat, Byte>
    decreases |actions|
  {
    if actions == [] then m
    else Stores(if actions[0].StoreByte? then m[actions[0].i := actions[0].b] else m, actions[1..])
  }

  /** How many bytes the run publishes, -1 if it publishes nothing. */
  function Published(actions: seq<Action>): int {
    if actions == [] then -1 else if actions[0].Publish? then actions[0].m else Published(actions[1..])
  }

  /** A load that decides, in the run, finds room for fewer than `n` bytes. */
  ghost predicate FindsLessRoom(s: State, actions: seq<Action>, n: nat)
    requires Inv(s) && IsRun(s, actions)
    decreases |actions|
  {
    actions != [] && (
      || (actions[0].WriterLoads? && (s.writer.WDifference? || Room(s) == 0) && Room(s) < n)
      || FindsLessRoom(Step(s, actions[0]), actions[1..], n))
  }

  /** A load that decides, in the run, sees a level below `n`. */
  ghost predicate SeesLess(s: State, actions: seq<Action>, n: nat)
    requires Inv(s) && IsRun(s, actions)
    decreases |actions|
  {
    actions != [] && (
      || (actions[0].ReaderLoads? && (s.reader.RDifference? || Room(s) == 0) && LevelSeen(s) < n)
      || SeesLess(Step(s, actions[0]), actions[1..], n))
  }

  lemma Sides(s: State, a: Action)
    requires Inv(s) && Enabled(s, a)
    ensures var t := Step(s, a);
      if OfWriter(a) then t.reader == s.reader && t.consumed == s.consumed
      else t.writer == s.writer && t.written == s.written
    ensures Step(s, a).k == s.k
    ensures s.written <= Step(s, a).written && s.consumed <= Step(s, a).consumed
  {
    hide Inv, IsFull, MaskedDifference, PtrAdd, State.BytesFrom, State.ByteFrom;
  }

  /** Between two calls the writer does nothing. */
  lemma {:induction false} WriterRests(s: State, actions: seq<Action>, m: map<nat, Byte>, n: nat)
    requires Inv(s) && IsRun(s, actions) && NoNewWrite(actions) && s.writer.WIdle?
    ensures var t := Final(s, actions); t.writer.WIdle? && t.written == s.written
    ensures Published(actions) == -1 && Stores(m, actions) == m && !FindsLessRoom(s, actions, n)
    decreases |actions|
  {
    hide Inv, Step;
    if actions != [] {
      Sides(s, actions[0]);
      WriterRests(Step(s, actions[0]), actions[1..], m, n);
    }
  }

  /** What a call that published `k` bytes added: all its bytes, or the first `k` of the granted memory, in
      which `m` was stored. */
  ghost predicate Added(op: WriteOp, before: seq<Byte>, after: seq<Byte>, k: nat, m: map<nat, Byte>) {
    match op
    case Write(bytes) => after == before + bytes
    case Reserve(n) =>
      && k <= n && before <= after && |after| == |before| + k
      && (forall i :: i in m && i < k ==> after[|before| + i] == m[i])
  }

  ghost function StoredIn(w: Writer): map<nat, Byte> { if w.WGranted? then w.stored else map[] }

  /** One step of a call that does not end it. */
  lemma WriteStep(s: State, op: WriteOp, a: Action)
    requires Inv(s) && Enabled(s, a) && InWrite(op, s.writer) && !a.StartWrite? && !a.Publish?
    ensures var t := Step(s, a);
      && t.written == s.written
      && (if a.WriterLoads? && (s.writer.WDifference? || Room(s) == 0) && Room(s) < Requested(op) then t.writer.WIdle?
          else
            && InWrite(op, t.writer)
            && StoredIn(t.writer) == if a.StoreByte? then StoredIn(s.writer)[a.i := a.b] else StoredIn(s.writer))
  {
    hide Inv, IsFull, MaskedDifference, PtrAdd, State.BytesFrom, State.ByteFrom;
    if a.WriterLoads? { WriterDecision(s); } else { Sides(s, a); }
  }

  lemma WriteEnds(s: State, op: WriteOp, a: Action)
    requires Inv(s) && Enabled(s, a) && InWrite(op, s.writer) && a.Publish?
    ensures var t := Step(s, a); t.writer.WIdle? && Added(op, s.written, t.written, a.m, StoredIn(s.writer))
  {
    hide Inv, PtrAdd, State.BytesFrom, State.ByteFrom;
    CompletedCalls(s, a);
  }

  /** The outcome of a call from a state `s` in it, after the run `actions` up to `t`. */
  ghost predicate WriteOutcome(s: State, op: WriteOp, actions: seq<Action>, m: map<nat, Byte>, t: State)
    requires Inv(s) && IsRun(s, actions)
  {
    if FindsLessRoom(s, actions, Requested(op)) then
      t.writer.WIdle? && t.written == s.written && Published(actions) == -1
    else if Published(actions) >= 0 then
      t.writer.WIdle? && Added(op, s.written, t.written, Published(actions), Stores(m, actions))
    else
      InWrite(op, t.writer) && t.written == s.written
  }

  lemma {:induction false} WriteGoesOn(s: State, op: WriteOp, actions: seq<Action>)
    requires Inv(s) && IsRun(s, actions) && NoNewWrite(actions) && InWrite(op, s.writer)
    ensures WriteOutcome(s, op, actions, StoredIn(s.writer), Final(s, actions))
    decreases |actions|
  {
    hide Inv, Step, InWrite, Room, Added;
    if actions != [] {
      var a, rest := actions[0], actions[1..];
      var u := Step(s, a);
      if a.Publish? {
        WriteEnds(s, op, a);
        WriterRests(u, rest, StoredIn(s.writer), Requested(op));
      } else {
        WriteStep(s, op, a);
        if !u.writer.WIdle? {
          WriteGoesOn(u, op, rest);
        } else {
          WriterRests(u, rest, StoredIn(s.writer), Requested(op));
        }
      }
    }
  }

  /** A call of the writer as a whole, with the reader's steps anywhere in between. If a load that decides
      finds room for fewer bytes, it is refused and adds nothing. Otherwise, when it has published, what was
      published so far has grown by exactly the bytes of the call (cbuf_write), or by as many as were
      committed, at most those reserved, with the stored bytes at their offsets (cbuf_reserve and
      cbuf_commit); until then nothing is added and it is under way with its argument. */
  lemma WriteCall(s: State, op: WriteOp, actions: seq<Action>)
    requires Inv(s) && IsRun(s, [StartWrite(op)] + actions) && NoNewWrite(actions)
    ensures var run := [StartWrite(op)] + actions;
      WriteOutcome(s, op, run, map[], Final(s, run))
  {
    hide Inv, InWrite, Room, Added, IsRun, Final;
    var run := [StartWrite(op)] + actions;
    assert run[1..] == actions && run[0] == StartWrite(op);
    var u := WriteStarts(s, op, run);
    WriteGoesOn(u, op, actions);
  }

  lemma WriteStarts(s: State, op: WriteOp, run: seq<Action>) returns (u: State)
    requires Inv(s) && run != [] && run[0] == StartWrite(op) && IsRun(s, run)
    ensures Inv(u) && IsRun(u, run[1..]) && Final(s, run) == Final(u, run[1..])
    ensures u.writer == WFullTest(op) && InWrite(op, u.writer) && StoredIn(u.writer) == map[] && u.written == s.written
    ensures Published(run) == Published(run[1..]) && Stores(map[], run) == Stores(map[], run[1..])
    ensures forall n: nat :: FindsLessRoom(u, run[1..], n) <==> FindsLessRoom(s, run, n)
  {
    hide Inv;
    u := Step(s, StartWrite(op));
  }

  /** What a reading call has taken out when it is complete. */
  function Takes(op: ReadOp): nat { if op.Peek? then 0 else op.n }

  /** The step ends a reading call that is not refused: the publication of a read, the end of the use of a
      peeked pointer, the load that lets a discard through. */
  ghost predicate Ends(s: State, op: ReadOp, a: Action)
    requires s.Shape()
  {
    match op
    case Read(_) => a.PublishRead?
    case Peek(_) => a.EndPeek?
    case Discard(n) => a.ReaderLoads? && (s.reader.RDifference? || Room(s) == 0) && LevelSeen(s) >= n
  }

  ghost predicate EndsRead(s: State, op: ReadOp, actions: seq<Action>)
    requires Inv(s) && IsRun(s, actions)
    decreases |actions|
  {
    actions != [] && (Ends(s, op, actions[0]) || EndsRead(Step(s, actions[0]), op, actions[1..]))
  }

  lemma {:induction false} ReaderRests(s: State, op: ReadOp, actions: seq<Action>)
    requires Inv(s) && IsRun(s, actions) && NoNewRead(actions) && s.reader.RIdle?
    ensures var t := Final(s, actions); t.reader.RIdle? && t.consumed == s.consumed && s.written <= t.written
    ensures !SeesLess(s, actions, op.n) && !EndsRead(s, op, actions)
    decreases |actions|
  {
    hide Inv, Step;
    if actions != [] {
      Sides(s, actions[0]);
      ReaderRests(Step(s, actions[0]), op, actions[1..]);
    }
  }

  lemma ReadStep(s: State, op: ReadOp, a: Action)
    requires Inv(s) && Enabled(s, a) && InRead(op, s.reader) && !a.StartRead?
    ensures var t := Step(s, a);
      if a.ReaderLoads? && (s.reader.RDifference? || Room(s) == 0) && LevelSeen(s) < op.n then
        t.reader.RIdle? && t.consumed == s.consumed
      else if Ends(s, op, a) then
        t.reader.RIdle? && s.consumed <= t.consumed && |t.consumed| == |s.consumed| + Takes(op)
      else
        InRead(op, t.reader) && t.consumed == s.consumed
  {
    hide Inv, IsFull, MaskedDifference, PtrAdd, State.BytesFrom, State.ByteFrom;
    if a.ReaderLoads? { ReaderDecision(s); } else { Sides(s, a); }
  }

  /** The outcome of a reading call from a state `s` in it, after the run `actions` up to `t`. */
  ghost predicate ReadOutcome(s: State, op: ReadOp, actions: seq<Action>, t: State)
    requires Inv(s) && IsRun(s, actions)
  {
    && t.consumed <= t.written
    && (if SeesLess(s, actions, op.n) then
          t.reader.RIdle? && t.consumed == s.consumed && !EndsRead(s, op, actions)
        else if EndsRead(s, op, actions) then
          t.reader.RIdle? && s.consumed <= t.consumed && |t.consumed| == |s.consumed| + Takes(op)
        else
          InRead(op, t.reader) && t.consumed == s.consumed
          && (t.reader.RPeeking? ==> t.consumed + t.reader.seen <= t.written))
  }

  lemma {:induction false} ReadGoesOn(s: State, op: ReadOp, actions: seq<Action>)
    requires Inv(s) && IsRun(s, actions) && NoNewRead(actions) && InRead(op, s.reader)
    ensures ReadOutcome(s, op, actions, Final(s, actions))
    decreases |actions|
  {
    if actions == [] {
      SeenIsNext(s);
    } else {
      hide Inv, Step, InRead, Room, LevelSeen;
      var a, rest := actions[0], actions[1..];
      var u := Step(s, a);
      ReadStep(s, op, a);
      if u.reader.RIdle? {
        ReaderRests(u, op, rest);
      } else {
        ReadGoesOn(u, op, rest);
      }
    }
  }

  lemma SeenIsNext(s: State)
    requires Inv(s)
    ensures s.consumed <= s.written && (s.reader.RPeeking? ==> s.consumed + s.reader.seen <= s.written)
  {
    assert s.Unread() == s.written[|s.consumed|..];
  }

  /** A call of the reader as a whole, with the writer's steps anywhere in between. If a load that decides
      sees a level below `n`, it is refused and takes nothing. Otherwise, when it has ended, exactly the next
      `n` bytes are taken out, or none by a peek; until then none are, it is under way with its `n`, and
      what a peek has looked at are the next bytes. */
  lemma ReadCall(s: State, op: ReadOp, actions: seq<Action>)
    requires Inv(s) && IsRun(s, [StartRead(op)] + actions) && NoNewRead(actions)
    ensures var run := [StartRead(op)] + actions; ReadOutcome(s, op, run, Final(s, run))
  {
    var run := [StartRead(op)] + actions;
    assert run[1..] == actions && run[0] == StartRead(op);
    var u := Step(s, StartRead(op));
    ReadGoesOn(u, op, actions);
  }

  // ---- A thread that is left alone completes its call ----

  lemma RunCons(s: State, a: Action, rest: seq<Action>)
    requires Inv(s) && Enabled(s, a) && IsRun(Step(s, a), rest)
    ensures IsRun(s, [a] + rest) && Final(s, [a] + rest) == Final(Step(s, a), rest)
  {
    hide Inv, Step, Enabled;
    assert ([a] + rest)[1..] == rest;
  }

  /** The copies that are left and the publication. */
  function Rest(n: nat, size: nat): seq<Action> { if n == 0 then [Publish(size)] else [CopyByteIn] + Rest(n - 1, size) }

  lemma {:induction false} CopiesRun(s: State, bytes: seq<Byte>)
    requires Inv(s) && s.writer.WCopying? && s.writer.bytes == bytes
    ensures s.writer.done <= |bytes|
    ensures var run := Rest(|bytes| - s.writer.done, |bytes|);
      IsRun(s, run) && Final(s, run).written == s.written + bytes && Final(s, run).writer.WIdle?
    decreases |bytes| - s.writer.done
  {
    hide Inv, Step, Enabled, IsRun, Final;
    var more := CopyingFits(s);
    if more {
      var u := Step(s, CopyByteIn);
      CopiesRun(u, bytes);
      RunCons(s, CopyByteIn, Rest(|bytes| - s.writer.done - 1, |bytes|));
    } else {
      RunOfNone(Step(s, Publish(|bytes|)));
      RunCons(s, Publish(|bytes|), []);
      assert [Publish(|bytes|)] + [] == [Publish(|bytes|)];
    }
  }

  lemma RunOfNone(s: State)
    requires Inv(s)
    ensures IsRun(s, []) && Final(s, []) == s
  {
  }

  /** While it copies, the writer can copy on, or publish. */
  lemma CopyingFits(s: State) returns (more: bool)
    requires Inv(s) && s.writer.WCopying?
    ensures var bytes := s.writer.bytes;
      && s.writer.done <= |bytes| && more == (s.writer.done < |bytes|)
      && (more ==> Enabled(s, CopyByteIn)) && (!more ==> Enabled(s, Publish(|bytes|)))
    ensures more ==>
      var u := Step(s, CopyByteIn); u.writer == WCopying(s.writer.bytes, s.writer.done + 1) && u.written == s.written
    ensures !more ==>
      var u := Step(s, Publish(|s.writer.bytes|)); u.writer.WIdle? && u.written == s.written + s.writer.bytes
  {
    more := s.writer.done < |s.writer.bytes|;
    if !more { CompletedCalls(s, Publish(|s.writer.bytes|)); }
    hide State.ByteFrom, State.BytesFrom, PtrAdd;
  }

  /** A write that fits, undisturbed: two loads, a copy of each byte, the publication. */
  lemma WriteAlone(s: State, bytes: seq<Byte>)
    requires Inv(s) && s.writer.WIdle? && 0 < |bytes| <= Room(s)
    ensures var run := [StartWrite(Write(bytes))] + ([WriterLoads] + ([WriterLoads] + Rest(|bytes|, |bytes|)));
      IsRun(s, run) && Final(s, run).written == s.written + bytes && Final(s, run).writer.WIdle?
  {
    hide Inv, IsFull, MaskedDifference, State.Stored, State.ByteFrom, State.BytesFrom, IsRun, Final, Rest;
    var start, copies := StartWrite(Write(bytes)), Rest(|bytes|, |bytes|);
    var s1 := Step(s, start);
    WriterDecision(s1);
    var s2 := Step(s1, WriterLoads);
    WriterDecision(s2);
    var s3 := Step(s2, WriterLoads);
    CopiesRun(s3, bytes);
    RunCons(s2, WriterLoads, copies);
    RunCons(s1, WriterLoads, [WriterLoads] + copies);
    RunCons(s, start, [WriterLoads] + ([WriterLoads] + copies));
  }

  /** The same for a read: one load if the buffer is full, otherwise two. */
  lemma ReadAlone(s: State, n: nat)
    requires Inv(s) && s.reader.RIdle? && 0 < n <= s.TrueFill()
    ensures var run := [StartRead(Read(n))] + LoadsAndCopies(Room(s) == 0, n);
      IsRun(s, run) && Final(s, run).consumed <= s.written && |Final(s, run).consumed| == |s.consumed| + n
  {
    var full := Room(s) == 0;
    var s1 := ReadStarts(s, n);
    if full { LoadedOnce(s1, n); } else { LoadedTwice(s1, n); }
    hide Inv, Step, IsRun, Final, LoadsAndCopies;
    RunCons(s, StartRead(Read(n)), LoadsAndCopies(full, n));
  }

  function LoadsAndCopies(full: bool, n: nat): seq<Action> {
    [ReaderLoads] + if full then CopiesOut(n) else [ReaderLoads] + CopiesOut(n)
  }

  lemma ReadStarts(s: State, n: nat) returns (s1: State)
    requires Inv(s) && s.reader.RIdle?
    ensures s1 == Step(s, StartRead(Read(n))) && s1 == s.(reader := RFullTest(Read(n)))
  {
    hide Inv;
    s1 := Step(s, StartRead(Read(n)));
  }

  lemma LoadedOnce(s: State, n: nat)
    requires Inv(s) && s.reader == RFullTest(Read(n)) && 0 < n <= s.TrueFill() == s.Size()
    ensures var run := LoadsAndCopies(true, n);
      IsRun(s, run) && Final(s, run).consumed <= s.written && |Final(s, run).consumed| == |s.consumed| + n
  {
    ReaderDecision(s);
    hide Inv, Effect, IsRun, Final, CopiesOut;
    var u := Step(s, ReaderLoads);
    CopiesOutRun(u);
    RunCons(s, ReaderLoads, CopiesOut(n));
  }

  lemma LoadedTwice(s: State, n: nat)
    requires Inv(s) && s.reader == RFullTest(Read(n)) && 0 < n <= s.TrueFill() < s.Size()
    ensures var run := LoadsAndCopies(false, n);
      IsRun(s, run) && Final(s, run).consumed <= s.written && |Final(s, run).consumed| == |s.consumed| + n
  {
    ReaderDecision(s);
    var u := Step(s, ReaderLoads);
    ReaderDecision(u);
    hide Inv, Effect, IsRun, Final, CopiesOut;
    var v := Step(u, ReaderLoads);
    CopiesOutRun(v);
    RunCons(u, ReaderLoads, CopiesOut(n));
    RunCons(s, ReaderLoads, [ReaderLoads] + CopiesOut(n));
  }

  function CopiesOut(n: nat): seq<Action> { if n == 0 then [PublishRead] else [CopyByteOut] + CopiesOut(n - 1) }

  lemma {:induction false} CopiesOutRun(s: State)
    requires Inv(s) && s.reader.RCopying?
    ensures |s.reader.out| <= s.reader.n
    ensures var run := CopiesOut(s.reader.n - |s.reader.out|);
      && IsRun(s, run)
      && Final(s, run).consumed <= s.written && |Final(s, run).consumed| == |s.consumed| + s.reader.n
    decreases s.reader.n - |s.reader.out|
  {
    hide Inv, Step, Enabled, IsRun, Final;
    var more := CopyingOutFits(s);
    if more {
      var u := Step(s, CopyByteOut);
      CopiesOutRun(u);
      RunCons(s, CopyByteOut, CopiesOut(s.reader.n - |s.reader.out| - 1));
    } else {
      RunOfNone(Step(s, PublishRead));
      RunCons(s, PublishRead, []);
      assert [PublishRead] + [] == [PublishRead];
    }
  }

  lemma CopyingOutFits(s: State) returns (more: bool)
    requires Inv(s) && s.reader.RCopying?
    ensures var n, k := s.reader.n, |s.reader.out|;
      && k <= n && more == (k < n)
      && (more ==> Enabled(s, CopyByteOut)) && (!more ==> Enabled(s, PublishRead))
    ensures more ==>
      var u := Step(s, CopyByteOut);
      && u.reader.RCopying? && u.reader.n == s.reader.n && |u.reader.out| == |s.reader.out| + 1
      && u.consumed == s.consumed && u.written == s.written
    ensures !more ==>
      var u := Step(s, PublishRead); u.consumed <= s.written && |u.consumed| == |s.consumed| + s.reader.n
  {
    more := |s.reader.out| < s.reader.n;
    if !more {
      CompletedCalls(s, PublishRead);
      SeenIsNext(Step(s, PublishRead));
    }
    hide State.ByteFrom, State.BytesFrom, PtrAdd;
  }

  /** A reading call ends without having taken or shown anything. */
  ghost predicate Fails(s: State, t: State) { t.reader.RIdle? && t.consumed == s.consumed }

  /** The exact price of the two loads: the second load of a read, a peek or a discard of `n > 0` bytes
      fails although `n` bytes are there if and only if the buffer has just become full. */
  lemma SpuriousFailureIffFull(s: State)
    requires Inv(s) && s.reader.RDifference? && 0 < s.reader.op.n <= s.TrueFill()
    ensures Fails(s, Effect(s, ReaderLoads)) <==> s.TrueFill() == s.Size()
  {
    ReaderLevelIsSafe(s);
  }

  lemma {:induction false} OnlyWriter(s: State, actions: seq<Action>)
    requires Inv(s) && IsRun(s, actions) && forall i :: 0 <= i < |actions| ==> OfWriter(actions[i])
    ensures var t := Final(s, actions); t.reader == s.reader && t.consumed == s.consumed && t.k == s.k
    decreases |actions|
  {
    hide Inv, Step;
    if actions != [] {
      Sides(s, actions[0]);
      OnlyWriter(Step(s, actions[0]), actions[1..]);
    }
  }

  lemma {:induction false} RestIsWriters(n: nat, size: nat)
    ensures forall i :: 0 <= i < |Rest(n, size)| ==> OfWriter(Rest(n, size)[i])
  {
    if n > 0 { RestIsWriters(n - 1, size); }
  }

  /** Such a run exists: the writer fills a buffer of one byte between the reader's two loads. */
  lemma SpuriousFailureHappens(b: Byte) returns (run: seq<Action>)
    ensures IsRun(Init(0, [0]), run)
    ensures var t := Final(Init(0, [0]), run);
      t.Unread() == [b] && t.reader == RDifference(Read(1)) && Step(t, ReaderLoads).reader.RIdle?
  {
    var s0 := Init(0, [0]);
    var s1 := ReadStarts(s0, 1);
    ReaderDecision(s1);
    var s2 := Step(s1, ReaderLoads);
    var fill := [StartWrite(Write([b]))] + ([WriterLoads] + ([WriterLoads] + Rest(1, 1)));
    WriteAlone(s2, [b]);
    RestIsWriters(1, 1);
    OnlyWriter(s2, fill);
    hide Effect, IsRun, Final, Rest;
    RunCons(s1, ReaderLoads, fill);
    run := [StartRead(Read(1))] + ([ReaderLoads] + fill);
    RunCons(s0, StartRead(Read(1)), [ReaderLoads] + fill);
    var t := Final(s2, fill);
    assert t.Unread() == [] + [b];
    ReaderDecision(t);
  }
}
