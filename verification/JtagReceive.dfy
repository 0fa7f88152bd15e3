/** jtag_drscan_read: the response of OpenOCD as it comes in, in pieces of any size, through a buffer
    from whose front complete fields are removed. */
module JtagReceive {
  import opened Bits
  import opened JtagHost
  import opened JtagDrscan

  const BUF_INITIAL_SIZE := 2048

  // ---- What has been read ----

  ghost predicate HasStop(text: string, from: nat, to: nat)
    requires from <= to <= |text|
  {
    exists i :: from <= i < to && Stops(text[i])
  }

  /** `ends[i]` is how many characters have come in with read `i`. */
  ghost predicate AreReads(text: string, ends: seq<nat>) {
    && (forall i :: 0 <= i < |ends| ==> 0 < ends[i] <= |text|)
    && (forall i :: 1 <= i < |ends| ==> ends[i - 1] < ends[i])
  }

  /** Once a read has brought the end of a field, every further read brings one too. */
  ghost predicate Steady(text: string, ends: seq<nat>)
    requires AreReads(text, ends)
  {
    forall i :: 1 <= i < |ends| && HasStop(text, 0, ends[i - 1]) ==> HasStop(text, ends[i - 1], ends[i])
  }

  ghost function Received(ends: seq<nat>): nat { if ends == [] then 0 else ends[|ends| - 1] }

  lemma ReadsGrow(text: string, ends: seq<nat>, to: nat)
    requires AreReads(text, ends) && Received(ends) < to <= |text|
    ensures Received(ends) <= |text| && AreReads(text, ends + [to])
  {
    var all, n := ends + [to], |ends|;
    assert all[n] == to && (n > 0 ==> all[n - 1] == Received(ends));
    forall i | 1 <= i < |all| ensures all[i - 1] < all[i] {
      if i < n { assert all[i - 1] == ends[i - 1] && all[i] == ends[i]; }
    }
  }

  lemma NextRead(text: string, ends: seq<nat>, to: nat)
    requires AreReads(text, ends) && Received(ends) < to <= |text|
    ensures Received(ends) <= |text| && AreReads(text, ends + [to]) && Received(ends + [to]) == to
    ensures Steady(text, ends + [to]) <==>
      Steady(text, ends) && (HasStop(text, 0, Received(ends)) ==> HasStop(text, Received(ends), to))
  {
    hide HasStop, AreReads;
    ReadsGrow(text, ends, to);
    var all, n := ends + [to], |ends|;
    if n == 0 {
      NoStopAtStart(text);
      assert all[0] == to;
    } else {
      assert all[n - 1] == Received(ends) && all[n] == to;
      ReadsAreReads(text, ends);
      ReadsAreReads(text, all);
      SteadyFront(text, ends, to);
    }
  }

  lemma ReadsAreReads(text: string, ends: seq<nat>)
    requires AreReads(text, ends)
    ensures forall i :: 0 <= i < |ends| ==> ends[i] <= |text|
    ensures forall i :: 1 <= i < |ends| ==> ends[i - 1] <= ends[i]
  {
  }

  lemma SteadyFront(text: string, ends: seq<nat>, to: nat)
    requires AreReads(text, ends) && AreReads(text, ends + [to]) && ends != []
    requires Received(ends) <= to <= |text|
    ensures Steady(text, ends + [to]) <==>
      Steady(text, ends) && (HasStop(text, 0, Received(ends)) ==> HasStop(text, Received(ends), to))
  {
    hide HasStop;
    var all, n := ends + [to], |ends|;
    assert all[n - 1] == Received(ends) && all[n] == to;
    if Steady(text, all) {
      forall i | 1 <= i < n && HasStop(text, 0, ends[i - 1]) ensures HasStop(text, ends[i - 1], ends[i]) {
        assert all[i - 1] == ends[i - 1] && all[i] == ends[i];
      }
    }
    if Steady(text, ends) && (HasStop(text, 0, Received(ends)) ==> HasStop(text, Received(ends), to)) {
      forall i | 1 <= i < |all| && HasStop(text, 0, all[i - 1]) ensures HasStop(text, all[i - 1], all[i]) {
        if i < n { assert all[i - 1] == ends[i - 1] && all[i] == ends[i]; }
      }
    }
  }

  lemma NoStopAtStart(text: string)
    ensures !HasStop(text, 0, 0)
  {
  }

  // ---- Which reads there are ----

  ghost predicate HasEof(text: string, from: nat, to: nat)
    requires from <= to <= |text|
  {
    EOF in text[from..to]
  }

  lemma EofInOneMore(text: string, from: nat, to: nat)
    requires from <= to < |text|
    ensures !HasEof(text, from, from) && (HasEof(text, from, to + 1) <==> HasEof(text, from, to) || text[to] == EOF)
  {
    assert text[from..to + 1] == text[from..to] + [text[to]];
  }

  lemma EofInParts(text: string, from: nat, mid: nat, to: nat)
    requires from <= mid <= to <= |text|
    ensures HasEof(text, from, to) <==> HasEof(text, from, mid) || HasEof(text, mid, to)
  {
    assert text[from..to] == text[from..mid] + text[mid..to];
  }

  /** Where the front of the buffer stands in the text: at the character that ended the last field. */
  ghost function Front(text: string, received: nat): (base: nat)
    requires received <= |text|
    ensures base <= received
  {
    if received == 0 then 0
    else if Stops(text[received - 1]) then received - 1
    else Front(text, received - 1)
  }

  lemma {:induction false} FrontIs(text: string, base: nat, received: nat)
    requires base < received <= |text| && Stops(text[base]) && !HasStop(text, base + 1, received)
    ensures Front(text, received) == base
    decreases received
  {
    if base + 1 < received {
      assert !Stops(text[received - 1]);
      FrontIs(text, base, received - 1);
    }
  }

  lemma {:induction false} FrontIsStart(text: string, received: nat)
    requires received <= |text| && !HasStop(text, 0, received)
    ensures Front(text, received) == 0
  {
    if received > 0 {
      assert !Stops(text[received - 1]);
      FrontIsStart(text, received - 1);
    }
  }

  lemma {:induction false} FrontAdvances(text: string, received: nat, later: nat)
    requires received <= later <= |text|
    ensures Front(text, received) <= Front(text, later)
    decreases later
  {
    if received < later { FrontAdvances(text, received, later - 1); }
  }

  /** The size of the buffer when a read begins. */
  function Capacity(len: nat, held: nat): (size: nat)
    requires held <= len && len > 0
    ensures held < size && size >= len
  {
    if held < len then len else GrowBuf(len)
  }

  /** How many characters have come in after the next read, if `arrived` and one more are there. */
  ghost function NextEnd(text: string, len: nat, received: nat, arrived: nat): (to: nat)
    requires received < |text| && received - Front(text, received) <= len && len > 0
    ensures received < to <= |text| && to - Front(text, to) <= Capacity(len, received - Front(text, received))
  {
    var held := received - Front(text, received);
    var to := received + Min(Min(1 + arrived, Capacity(len, held) - held), |text| - received);
    FrontAdvances(text, received, to);
    to
  }

  /** The reads from `received` on, up to the one that brings EOF: read `k` finds `1 + arrivals(k)`
      characters there, and takes what the buffer has room for. */
  ghost function ReadsFrom(text: string, arrivals: nat -> nat, round: nat, len: nat, received: nat): (ends: seq<nat>)
    requires received <= |text| && received - Front(text, received) <= len && len > 0
    ensures forall i :: 0 <= i < |ends| ==> received < ends[i] <= |text|
    ensures forall i :: 1 <= i < |ends| ==> ends[i - 1] < ends[i]
    decreases |text| - received
  {
    if HasEof(text, 0, received) || received == |text| then [] else
      var to := NextEnd(text, len, received, arrivals(round));
      [to] + ReadsFrom(text, arrivals, round + 1, Capacity(len, received - Front(text, received)), to)
  }

  ghost function Reads(text: string, arrivals: nat -> nat): (ends: seq<nat>)
    ensures AreReads(text, ends)
  {
    ReadsFrom(text, arrivals, 0, BUF_INITIAL_SIZE, 0)
  }

  /** A reply comes in steadily: a matter of the reply, and of how much of it is there at each read. */
  ghost predicate ComesSteadily(text: string, arrivals: nat -> nat) { Steady(text, Reads(text, arrivals)) }

  lemma SteadyPart(text: string, ends: seq<nat>, more: seq<nat>)
    requires AreReads(text, ends + more) && Steady(text, ends + more)
    ensures AreReads(text, ends) && Steady(text, ends)
  {
    hide HasStop;
    var all := ends + more;
    forall i | 0 <= i < |ends| ensures ends[i] == all[i] {}
    forall i | 1 <= i < |ends| ensures ends[i - 1] < ends[i] {
      assert all[i - 1] < all[i];
    }
    forall i | 1 <= i < |ends| && HasStop(text, 0, ends[i - 1]) ensures HasStop(text, ends[i - 1], ends[i]) {
      assert ends[i - 1] == all[i - 1] && ends[i] == all[i];
    }
  }

  /** `ends` are the first reads; with `len` characters of buffer and the EOF still to come, the others follow. */
  ghost predicate OnTrack(text: string, arrivals: nat -> nat, ends: seq<nat>, round: nat, len: nat, received: nat)
    requires received <= |text|
  {
    && !HasEof(text, 0, received) && received - Front(text, received) <= len && len > 0
    && ends + ReadsFrom(text, arrivals, round, len, received) == Reads(text, arrivals)
  }

  lemma TrackStarts(text: string, arrivals: nat -> nat)
    ensures OnTrack(text, arrivals, [], 0, BUF_INITIAL_SIZE, 0)
  {
    assert [] + Reads(text, arrivals) == Reads(text, arrivals);
  }

  lemma TrackGoesOn(text: string, arrivals: nat -> nat, ends: seq<nat>, round: nat, len: nat, received: nat, held: nat)
    requires received < |text| && OnTrack(text, arrivals, ends, round, len, received)
    requires held == received - Front(text, received)
    ensures held <= len && len > 0
    ensures var size := Capacity(len, held);
      var to := received + Min(Min(1 + arrivals(round), size - held), |text| - received);
      && (HasEof(text, received, to) ==> ends + [to] == Reads(text, arrivals))
      && (!HasEof(text, received, to) ==> OnTrack(text, arrivals, ends + [to], round + 1, size, to))
  {
    hide HasEof, Reads, Front;
    var size, to := Capacity(len, held), NextEnd(text, len, received, arrivals(round));
    var rest := ReadsFrom(text, arrivals, round + 1, size, to);
    EofInParts(text, 0, received, to);
    ConcatAssoc(ends, [to], rest);
    assert HasEof(text, 0, to) ==> rest == [];
  }

  lemma TrackTurnsUnsteady(text: string, arrivals: nat -> nat, ends: seq<nat>, round: nat, len: nat, received: nat)
    requires received <= |text| && OnTrack(text, arrivals, ends, round, len, received)
    requires AreReads(text, ends) && !Steady(text, ends)
    ensures !ComesSteadily(text, arrivals)
  {
    hide Steady, ReadsFrom, Reads;
    if ComesSteadily(text, arrivals) {
      SteadyPart(text, ends, ReadsFrom(text, arrivals, round, len, received));
    }
  }

  /** A reply of two fields that comes in in three reads, the second of which ends inside a field. */
  lemma UnsteadyReply()
    ensures var text := "01 0203" + [EOF]; WellFormed(text) && Reads(text, UnsteadyArrivals) == [4, 6, 8]
    ensures !ComesSteadily("01 0203" + [EOF], UnsteadyArrivals)
  {
    var text := "01 0203" + [EOF];
    TwoFields();
    hide WellFormed;
    UnsteadyReads();
    var ends := [4, 6, 8];
    assert text[2] == ' ' && HasStop(text, 0, ends[0]);
    assert !Stops(text[4]) && !Stops(text[5]) && !HasStop(text, ends[0], ends[1]);
  }

  /** Four characters are there at first, then two. */
  function UnsteadyArrivals(k: nat): nat { if k == 0 then 3 else 1 }

  lemma UnsteadyReads()
    ensures Reads("01 0203" + [EOF], UnsteadyArrivals) == [4, 6, 8]
  {
    var text := "01 0203" + [EOF];
    assert !HasEof(text, 0, 0) && !HasEof(text, 0, 4) && !HasEof(text, 0, 6) && text[0..8][7] == EOF;
    assert Front(text, 0) == 0;
    FrontIs(text, 2, 4);
    FrontIs(text, 2, 6);
    var n := BUF_INITIAL_SIZE;
    assert NextEnd(text, n, 0, 3) == 4 && NextEnd(text, n, 4, 1) == 6 && NextEnd(text, n, 6, 1) == 8;
    hide NextEnd, Front;
    assert ReadsFrom(text, UnsteadyArrivals, 2, n, 6) == [8];
    assert ReadsFrom(text, UnsteadyArrivals, 1, n, 4) == [6] + [8];
    assert ReadsFrom(text, UnsteadyArrivals, 0, n, 0) == [4] + ([6] + [8]);
  }

  lemma TwoFields()
    ensures WellFormed("01 0203" + [EOF])
  {
    hide WellFormed, DecodeReply;
    FirstField("0203", EOF, "");
    assert "0203" + ([EOF] + "") == "0203" + [EOF];
    FirstField("01", ' ', "0203" + [EOF]);
    assert "01" + ([' '] + ("0203" + [EOF])) == "01 0203" + [EOF];
  }

  // ---- The fields in the buffer ----

  /** The field that begins at `at` is next, and what `resp` holds is what came before it. */
  ghost predicate NextField(text: string, at: nat, resp: seq<Byte>)
    requires WellFormed(text)
  {
    at <= |text| && WellFormed(text[at..]) && resp + DecodeReply(text[at..]) == DecodeReply(text)
  }

  /** A field ends at `end`. */
  lemma FieldEnds(text: string, at: nat, end: nat, resp: seq<Byte>)
    requires WellFormed(text) && NextField(text, at, resp) && at <= end < |text| && Stops(text[end])
    requires !HasStop(text, at, end)
    ensures var field := text[at..end];
      && |field| >= 2 && |field| % 2 == 0 && AllHex(field)
      && |resp| + |field| / 2 <= |DecodeReply(text)|
      && (if text[end] == EOF then resp + DecodeField(field) == DecodeReply(text)
          else NextField(text, end + 1, resp + DecodeField(field)))
  {
    hide WellFormed, DecodeReply, DecodeField, AllHex;
    RestOfField(text, at, end);
    if text[end] != EOF { ConcatAssoc(resp, DecodeField(text[at..end]), DecodeReply(text[end + 1..])); }
  }

  /** A reply is not over before its last field is. */
  lemma MoreComes(text: string, at: nat, received: nat, resp: seq<Byte>)
    requires WellFormed(text) && NextField(text, at, resp) && at <= received <= |text| && !HasStop(text, at, received)
    ensures received < |text|
  {
    hide WellFormed, DecodeReply;
    EndsWithEof(text[at..]);
    var i :| 0 <= i < |text[at..]| && Stops(text[at..][i]);
    assert text[at + i] == text[at..][i];
  }

  /** `n` characters behind position `held` of the buffer have been looked at: `fieldStart` is where the
      next field begins, and it has moved, with `fieldEnd` before it, if some field ended there. */
  ghost predicate IsScanned(text: string, base: nat, held: nat, n: nat, start0: nat, end0: nat,
                            fieldStart: nat, fieldEnd: nat, resp: seq<Byte>)
    requires WellFormed(text) && base + held + n <= |text|
  {
    && fieldStart <= held + n && NextField(text, base + fieldStart, resp)
    && !HasStop(text, base + fieldStart, base + held + n)
    && (if HasStop(text, base + held, base + held + n)
        then fieldStart == fieldEnd + 1 && fieldEnd >= 2 && Stops(text[base + fieldEnd])
        else fieldStart == start0 && fieldEnd == end0)
  }

  /** The loop over the characters of one read: decodes every field that ends in it. `base` is where the
      front of the buffer stands in the whole text. */
  method ScanRead(buf: array<char>, bufPos: nat, n: nat, fieldStart0: nat, fieldEnd0: nat, resp0: seq<Byte>, size: nat,
                  ghost text: string, ghost base: nat)
    returns (done: bool, fieldStart: nat, fieldEnd: nat, resp: seq<Byte>)
    requires WellFormed(text) && |DecodeReply(text)| <= size
    requires bufPos + n <= buf.Length && base + bufPos + n <= |text|
    requires buf[..bufPos + n] == text[base..base + bufPos + n]
    requires fieldStart0 <= bufPos && NextField(text, base + fieldStart0, resp0)
    requires !HasStop(text, base + fieldStart0, base + bufPos)
    ensures done <==> HasEof(text, base + bufPos, base + bufPos + n)
    ensures done ==> resp == DecodeReply(text) && HasStop(text, base + bufPos, base + bufPos + n)
    ensures !done ==> IsScanned(text, base, bufPos, n, fieldStart0, fieldEnd0, fieldStart, fieldEnd, resp)
  {
    hide WellFormed, DecodeReply, DecodeField, AllHex, NextField, Stops, HasEof, HasStop, IsScanned;
    fieldStart, fieldEnd, resp := fieldStart0, fieldEnd0, resp0;
    NothingScanned(text, base, bufPos, fieldStart, fieldEnd, resp);
    for i := 0 to n
      invariant IsScanned(text, base, bufPos, i, fieldStart0, fieldEnd0, fieldStart, fieldEnd, resp)
      invariant !HasEof(text, base + bufPos, base + bufPos + i)
    {
      ghost var at := base + bufPos + i;
      var c := buf[bufPos + i];
      CharAt(buf[..bufPos + n], text, base, bufPos + i);
      WasScanned(text, base, bufPos, i, fieldStart0, fieldEnd0, fieldStart, fieldEnd, resp);
      EofInOneMore(text, base + bufPos, at);
      EofInParts(text, base + bufPos, at + 1, base + bufPos + n);
      if IsStop(c) {
        fieldEnd := bufPos + i;
        SliceOfFront(buf[..], bufPos + n, fieldStart, fieldEnd);
        SameSlice(buf[..bufPos + n], text, base, fieldStart, fieldEnd);
        resp := DecodeNext(buf[fieldStart..fieldEnd], resp, size, text, base + fieldStart, at);
        fieldStart := fieldEnd + 1;
        HasStopAt(text, base + bufPos, at, base + bufPos + n);
        if c != EOF { ScannedField(text, base, bufPos, i, fieldStart0, fieldEnd0, resp); }
      } else {
        ScannedPast(text, base, bufPos, i, fieldStart0, fieldEnd0, fieldStart, fieldEnd, resp);
      }
      if c == EOF { return true, fieldStart, fieldEnd, resp; }
    }
    done := false;
  }

  lemma NothingScanned(text: string, base: nat, held: nat, fieldStart: nat, fieldEnd: nat, resp: seq<Byte>)
    requires WellFormed(text) && base + held <= |text| && fieldStart <= held
    requires NextField(text, base + fieldStart, resp) && !HasStop(text, base + fieldStart, base + held)
    ensures IsScanned(text, base, held, 0, fieldStart, fieldEnd, fieldStart, fieldEnd, resp)
    ensures !HasEof(text, base + held, base + held)
  {
    hide WellFormed, DecodeReply, NextField;
    NoStopYet(text, base + held);
  }

  /** A character that ends no field changes nothing, one that ends a field starts the next behind it. */
  lemma ScannedPast(text: string, base: nat, held: nat, i: nat, start0: nat, end0: nat,
                    fieldStart: nat, fieldEnd: nat, resp: seq<Byte>)
    requires WellFormed(text) && base + held + i < |text| && !Stops(text[base + held + i])
    requires IsScanned(text, base, held, i, start0, end0, fieldStart, fieldEnd, resp)
    ensures IsScanned(text, base, held, i + 1, start0, end0, fieldStart, fieldEnd, resp)
  {
    hide WellFormed, DecodeReply, NextField, HasStop, Stops;
    OneMore(text, base + fieldStart, base + held + i);
    OneMore(text, base + held, base + held + i);
  }

  lemma ScannedField(text: string, base: nat, held: nat, i: nat, start0: nat, end0: nat, resp: seq<Byte>)
    requires WellFormed(text) && base + held + i < |text| && Stops(text[base + held + i]) && held + i >= 2
    requires NextField(text, base + held + i + 1, resp)
    ensures IsScanned(text, base, held, i + 1, start0, end0, held + i + 1, held + i, resp)
  {
    hide WellFormed, DecodeReply, NextField, HasStop, Stops;
    OneMore(text, base + held, base + held + i);
    NoStopYet(text, base + held + i + 1);
  }

  lemma SliceOfFront(b: string, m: nat, from: nat, to: nat)
    requires from <= to <= m <= |b|
    ensures b[..m][from..to] == b[from..to]
  {
  }

  lemma CharAt(b: string, text: string, base: nat, i: nat)
    requires i < |b| && base + |b| <= |text| && b == text[base..base + |b|]
    ensures b[i] == text[base + i]
  {
  }

  lemma SameSlice(b: string, text: string, base: nat, from: nat, to: nat)
    requires from <= to <= |b| && base + |b| <= |text| && b == text[base..base + |b|]
    ensures b[from..to] == text[base + from..base + to]
  {
    forall j | 0 <= j < to - from ensures b[from..to][j] == text[base + from..base + to][j] {
      assert b[from + j] == text[base..base + |b|][from + j];
    }
  }

  /** What is done at the end of a field. */
  method DecodeNext(field: string, resp0: seq<Byte>, size: nat, ghost text: string, ghost at: nat, ghost end: nat)
    returns (resp: seq<Byte>)
    requires WellFormed(text) && |DecodeReply(text)| <= size && NextField(text, at, resp0)
    requires at <= end < |text| && Stops(text[end]) && !HasStop(text, at, end) && field == text[at..end]
    ensures end - at >= 2
    ensures if text[end] == EOF then resp == DecodeReply(text) else NextField(text, end + 1, resp)
  {
    FieldEnds(text, at, end, resp0);
    hide WellFormed, DecodeReply, DecodeField, AllHex, NextField;
    assert |resp0| + |field| / 2 <= size;
    var bytes := HexstringToBinarrayLe(field);
    resp := resp0 + bytes;
  }

  predicate IsStop(c: char)
    ensures IsStop(c) <==> Stops(c)
    ensures c == EOF ==> IsStop(c)
  {
    c == ' ' || c == EOF
  }

  lemma OneMore(text: string, from: nat, to: nat)
    requires from <= to < |text|
    ensures HasStop(text, from, to + 1) <==> HasStop(text, from, to) || Stops(text[to])
  {
    hide Stops;
    if HasStop(text, from, to) {
      var i :| from <= i < to && Stops(text[i]);
      assert from <= i < to + 1;
    }
  }

  lemma NoStopYet(text: string, at: nat)
    requires at <= |text|
    ensures !HasStop(text, at, at) && !HasEof(text, at, at)
  {
  }

  lemma HasStopAt(text: string, from: nat, at: nat, to: nat)
    requires from <= at < to <= |text| && Stops(text[at])
    ensures HasStop(text, from, to)
  {
  }

  // ---- The loop over reads ----

  /** The buffer between two reads: it holds the text from `base` on. No field has ended yet, or the front
      of the buffer is the character that ended the last one. */
  ghost predicate Buffered(text: string, ends: seq<nat>, base: nat, held: string,
                           fieldStart: nat, fieldEnd: nat, resp: seq<Byte>)
    requires WellFormed(text) && AreReads(text, ends)
  {
    && base + |held| == Received(ends) <= |text| && held == text[base..base + |held|]
    && fieldStart <= |held| && NextField(text, base + fieldStart, resp)
    && !HasStop(text, base + fieldStart, Received(ends)) && base == Front(text, Received(ends))
    && (if HasStop(text, 0, Received(ends)) then fieldStart == 1 && fieldEnd >= 2
        else base == 0 && fieldStart == 0 && fieldEnd == 0)
  }

  lemma NothingBuffered(text: string)
    requires WellFormed(text)
    ensures AreReads(text, []) && Buffered(text, [], 0, "", 0, 0, []) && Steady(text, []) && Received([]) == 0
  {
    hide WellFormed, DecodeReply;
    assert text[0..] == text && [] + DecodeReply(text) == DecodeReply(text);
  }

  /** The end of a round, with the characters that end fields known: what comes before the last of them
      leaves the buffer, if the positions do not wrap. */
  lemma Shifted(text: string, ends: seq<nat>, base: nat, held: string, start0: nat, end0: nat, resp0: seq<Byte>,
                n: nat, to: nat, now: seq<nat>, fieldStart: nat, fieldEnd: nat, resp: seq<Byte>)
    requires WellFormed(text) && AreReads(text, ends) && AreReads(text, now)
    requires to == Received(ends) + n <= |text| && now == ends + [to]
    requires Buffered(text, ends, base, held, start0, end0, resp0)
    requires n > 0 && base + |held| + n <= |text|
    requires IsScanned(text, base, |held|, n, start0, end0, fieldStart, fieldEnd, resp)
    ensures if fieldStart >= fieldEnd then
              && base + fieldEnd <= to && (HasStop(text, 0, to - n) ==> HasStop(text, to - n, to))
              && Buffered(text, now, base + fieldEnd, text[base + fieldEnd..to], fieldStart - fieldEnd, fieldEnd, resp)
            else
              HasStop(text, 0, to - n) && !HasStop(text, to - n, to)
  {
    hide WellFormed, DecodeReply, NextField, HasStop, Steady, AreReads, Received, Buffered, IsScanned;
    NextRead(text, ends, to);
    Joined(text, to - n, to);
    WasBuffered(text, ends, base, held, start0, end0, resp0);
    WasScanned(text, base, |held|, n, start0, end0, fieldStart, fieldEnd, resp);
    if fieldStart >= fieldEnd {
      IsBuffered(text, now, to, base + fieldEnd, fieldStart - fieldEnd, fieldEnd, resp);
    }
  }

  lemma WasBuffered(text: string, ends: seq<nat>, base: nat, held: string, start: nat, end: nat, resp: seq<Byte>)
    requires WellFormed(text) && AreReads(text, ends) && Buffered(text, ends, base, held, start, end, resp)
    ensures base + |held| == Received(ends) <= |text|
    ensures if HasStop(text, 0, Received(ends)) then start == 1 && end >= 2 else base == 0 && start == 0 && end == 0
  {
    hide WellFormed, DecodeReply, NextField, HasStop, AreReads, Received;
  }

  lemma WasScanned(text: string, base: nat, held: nat, n: nat, start0: nat, end0: nat,
                   fieldStart: nat, fieldEnd: nat, resp: seq<Byte>)
    requires WellFormed(text) && base + held + n <= |text|
    requires IsScanned(text, base, held, n, start0, end0, fieldStart, fieldEnd, resp)
    ensures fieldStart <= held + n && NextField(text, base + fieldStart, resp)
    ensures !HasStop(text, base + fieldStart, base + held + n)
    ensures if HasStop(text, base + held, base + held + n)
            then fieldStart == fieldEnd + 1 && fieldEnd >= 2 && Stops(text[base + fieldEnd])
            else fieldStart == start0 && fieldEnd == end0
  {
    hide WellFormed, DecodeReply, NextField, HasStop;
  }

  lemma IsBuffered(text: string, now: seq<nat>, to: nat, base: nat, start: nat, end: nat, resp: seq<Byte>)
    requires WellFormed(text) && AreReads(text, now) && Received(now) == to <= |text| && base + start <= to
    requires NextField(text, base + start, resp) && !HasStop(text, base + start, to)
    requires if HasStop(text, 0, to) then start == 1 && end >= 2 && Stops(text[base])
             else base == 0 && start == 0 && end == 0
    ensures Buffered(text, now, base, text[base..to], start, end, resp)
  {
    hide WellFormed, DecodeReply, NextField, HasStop, AreReads, Received, Front, Stops;
    if HasStop(text, 0, to) { FrontIs(text, base, to); } else { FrontIsStart(text, to); }
  }

  lemma Joined(text: string, mid: nat, to: nat)
    requires mid <= to <= |text|
    ensures HasStop(text, 0, to) <==> HasStop(text, 0, mid) || HasStop(text, mid, to)
  {
    hide Stops;
    if HasStop(text, 0, to) {
      var i :| 0 <= i < to && Stops(text[i]);
      assert 0 <= i < mid || mid <= i < to;
    }
  }

  /** What Buffered means for the next read. */
  lemma InBuffer(text: string, ends: seq<nat>, base: nat, held: string, fieldStart: nat, fieldEnd: nat, resp: seq<Byte>)
    requires WellFormed(text) && AreReads(text, ends) && Buffered(text, ends, base, held, fieldStart, fieldEnd, resp)
    ensures base + |held| == Received(ends) < |text| && held == text[base..base + |held|]
    ensures |held| == Received(ends) - Front(text, Received(ends))
    ensures fieldStart <= |held| && NextField(text, base + fieldStart, resp)
    ensures !HasStop(text, base + fieldStart, base + |held|)
  {
    hide WellFormed, DecodeReply, AreReads, NextField, HasStop, Received;
    MoreComes(text, base + fieldStart, Received(ends), resp);
  }

  /** Everything the loop keeps: the reads so far, and what the buffer holds of them. */
  ghost predicate Reading(text: string, arrivals: nat -> nat, ends: seq<nat>, len: nat, received: nat,
                          base: nat, held: string, fieldStart: nat, fieldEnd: nat, resp: seq<Byte>)
    requires WellFormed(text)
  {
    && AreReads(text, ends) && Steady(text, ends) && received == Received(ends) <= |text|
    && Buffered(text, ends, base, held, fieldStart, fieldEnd, resp)
    && OnTrack(text, arrivals, ends, |ends|, len, received)
  }

  lemma ReadingStarts(text: string, arrivals: nat -> nat)
    requires WellFormed(text)
    ensures Reading(text, arrivals, [], BUF_INITIAL_SIZE, 0, 0, "", 0, 0, [])
  {
    hide WellFormed, Buffered, OnTrack;
    NothingBuffered(text);
    TrackStarts(text, arrivals);
  }

  /** What the next read finds. */
  lemma BeforeRead(text: string, arrivals: nat -> nat, ends: seq<nat>, len: nat, received: nat,
                   base: nat, held: string, fieldStart: nat, fieldEnd: nat, resp: seq<Byte>)
    requires WellFormed(text)
    requires Reading(text, arrivals, ends, len, received, base, held, fieldStart, fieldEnd, resp)
    ensures base + |held| == received < |text| && held == text[base..received]
    ensures fieldStart <= |held| && NextField(text, base + fieldStart, resp)
    ensures !HasStop(text, base + fieldStart, received)
  {
    hide WellFormed, DecodeReply, AreReads, Steady, NextField, HasStop, Buffered, OnTrack, Received;
    InBuffer(text, ends, base, held, fieldStart, fieldEnd, resp);
  }

  /** How many characters it gets. */
  function ReadSize(text: string, arrived: nat, size: nat, held: nat, received: nat): nat
    requires held <= size && received <= |text|
  {
    Min(Min(1 + arrived, size - held), |text| - received)
  }

  /** The read that brings EOF is the last. */
  lemma AfterLastRead(text: string, arrivals: nat -> nat, ends: seq<nat>, len: nat, received: nat,
                      base: nat, held: string, start0: nat, end0: nat, resp0: seq<Byte>, size: nat)
    requires WellFormed(text) && |held| <= len && len > 0 && size == Capacity(len, |held|)
    requires Reading(text, arrivals, ends, len, received, base, held, start0, end0, resp0) && received < |text|
    requires var to := received + ReadSize(text, arrivals(|ends|), size, |held|, received);
      HasEof(text, received, to) && HasStop(text, received, to)
    ensures ComesSteadily(text, arrivals)
  {
    hide WellFormed, DecodeReply, AreReads, Steady, NextField, HasStop, HasEof, Buffered, OnTrack, Received, Reads;
    InBuffer(text, ends, base, held, start0, end0, resp0);
    TrackGoesOn(text, arrivals, ends, |ends|, len, received, |held|);
    NextRead(text, ends, received + ReadSize(text, arrivals(|ends|), size, |held|, received));
  }

  /** Any other read, behind which the complete fields leave the buffer. */
  lemma AfterRead(text: string, arrivals: nat -> nat, ends: seq<nat>, len: nat, received: nat,
                  base: nat, held: string, start0: nat, end0: nat, resp0: seq<Byte>, size: nat,
                  n: nat, fieldStart: nat, fieldEnd: nat, resp: seq<Byte>)
    requires WellFormed(text) && |held| <= len && len > 0 && size == Capacity(len, |held|)
    requires Reading(text, arrivals, ends, len, received, base, held, start0, end0, resp0) && received < |text|
    requires n == ReadSize(text, arrivals(|ends|), size, |held|, received) && !HasEof(text, received, received + n)
    requires base + |held| + n <= |text|
    requires IsScanned(text, base, |held|, n, start0, end0, fieldStart, fieldEnd, resp)
    ensures var to := received + n;
      if fieldStart < fieldEnd then !ComesSteadily(text, arrivals)
      else base + fieldEnd <= to && Reading(text, arrivals, ends + [to], size, to, base + fieldEnd,
                                            text[base + fieldEnd..to], fieldStart - fieldEnd, fieldEnd, resp)
  {
    hide WellFormed, DecodeReply, AreReads, Steady, NextField, HasStop, HasEof, Buffered, OnTrack, Received, Reads;
    hide IsScanned, ComesSteadily;
    var to := received + n;
    InBuffer(text, ends, base, held, start0, end0, resp0);
    TrackGoesOn(text, arrivals, ends, |ends|, len, received, |held|);
    NextRead(text, ends, to);
    Shifted(text, ends, base, held, start0, end0, resp0, n, to, ends + [to], fieldStart, fieldEnd, resp);
    if fieldStart < fieldEnd {
      TrackTurnsUnsteady(text, arrivals, ends + [to], |ends| + 1, size, to);
    }
  }

  /** realloc with the next size, if the buffer is full. */
  method Grown(buf: array<char>, bufPos: nat) returns (grown: array<char>)
    requires bufPos <= buf.Length && buf.Length > 0
    ensures bufPos < grown.Length == Capacity(buf.Length, bufPos)
    ensures grown[..bufPos] == buf[..bufPos] && (grown == buf || fresh(grown))
  {
    if bufPos < buf.Length { return buf; }
    grown := new char[GrowBuf(buf.Length)](_ => ' ');
    forall i | 0 <= i < bufPos { grown[i] := buf[i]; }
  }

  /** What read() does: the next `n` characters stand behind those that are there. */
  method FromWire(buf: array<char>, bufPos: nat, n: nat, text: string, received: nat, ghost base: nat)
    requires bufPos + n <= buf.Length && received + n <= |text| && base + bufPos == received
    requires buf[..bufPos] == text[base..received]
    modifies buf
    ensures buf[..bufPos + n] == text[base..received + n]
  {
    forall i | 0 <= i < n { buf[bufPos + i] := text[received + i]; }
    assert text[base..received + n] == text[base..received] + text[received..received + n];
  }

  /** The memmove that drops what comes before `from`. */
  method MoveToFront(buf: array<char>, from: nat, ghost filled: nat, ghost text: string, ghost base: nat)
    requires from <= filled <= buf.Length && base + filled <= |text| && buf[..filled] == text[base..base + filled]
    modifies buf
    ensures buf[..filled - from] == text[base + from..base + filled]
  {
    forall i | 0 <= i < buf.Length - from { buf[i] := buf[from + i]; }
    assert old(buf[..filled])[from..] == text[base + from..base + filled];
  }

  /** jtag_drscan_read for a reply that comes in in pieces: read `k` finds `1 + arrivals(k)` characters there.
      `field_end` is not reset when complete fields are removed from the buffer, so a read that brings no
      end of a field after one that did makes `field_start` wrap below zero: then `rv` is left open and
      `steady` is false. That happens if and only if the reads are not steady; if they are, the whole reply
      is decoded. */
  method DrscanRead(text: string, size: nat, arrivals: nat -> nat) returns (steady: bool, rv: int, resp: seq<Byte>)
    requires WellFormed(text) && |DecodeReply(text)| <= size
    ensures steady <==> ComesSteadily(text, arrivals)
    ensures steady ==> rv == 0 && resp == DecodeReply(text)
  {
    hide WellFormed, DecodeReply, HasStop, HasEof, NextField, IsScanned, Reading, Capacity, ComesSteadily;
    var buf := new char[BUF_INITIAL_SIZE](_ => ' ');
    var bufPos: nat, fieldStart: nat, fieldEnd: nat := 0, 0, 0;
    var round: nat, received: nat := 0, 0;
    ghost var base: nat, ends: seq<nat> := 0, [];
    steady, rv, resp := true, 0, [];
    ReadingStarts(text, arrivals);
    while true
      invariant bufPos <= buf.Length && buf.Length > 0 && fresh(buf) && received <= |text| && round == |ends|
      invariant Reading(text, arrivals, ends, buf.Length, received, base, buf[..bufPos], fieldStart, fieldEnd, resp)
      decreases |text| - received
    {
      ghost var len, front, start0, end0, resp0 := buf.Length, buf[..bufPos], fieldStart, fieldEnd, resp;
      BeforeRead(text, arrivals, ends, len, received, base, front, start0, end0, resp0);
      buf := Grown(buf, bufPos);
      var n := ReadSize(text, arrivals(round), buf.Length, bufPos, received);
      FromWire(buf, bufPos, n, text, received, base);
      var done;
      done, fieldStart, fieldEnd, resp := ScanRead(buf, bufPos, n, fieldStart, fieldEnd, resp, size, text, base);
      if done {
        AfterLastRead(text, arrivals, ends, len, received, base, front, start0, end0, resp0, buf.Length);
        return true, 0, resp;
      }
      AfterRead(text, arrivals, ends, len, received, base, front, start0, end0, resp0, buf.Length,
                n, fieldStart, fieldEnd, resp);
      round, received, ends := round + 1, received + n, ends + [received + n];
      if fieldStart < fieldEnd { return false, rv, resp; }
      MoveToFront(buf, fieldEnd, bufPos + n, text, base);
      base := base + fieldEnd;
      bufPos := bufPos + n - fieldEnd;
      fieldStart := fieldStart - fieldEnd;
    }
  }

  /** A reply that is there as a whole when it is first looked for always comes steadily. */
  lemma WholeReplyIsSteady(text: string, arrivals: nat -> nat)
    requires WellFormed(text) && |text| <= BUF_INITIAL_SIZE && |text| <= 1 + arrivals(0)
    ensures ComesSteadily(text, arrivals)
  {
    hide WellFormed, HasStop;
    NoStopYet(text, 0);
    EndsWithEof(text);
    var n := |text|;
    assert text[0..n] == text && Front(text, 0) == 0 && NextEnd(text, BUF_INITIAL_SIZE, 0, arrivals(0)) == n;
    assert ReadsFrom(text, arrivals, 1, BUF_INITIAL_SIZE, n) == [];
    assert Reads(text, arrivals) == [n] + [];
  }

  /** That reply does make the run fail. */
  method ReadUnsteadyReply() returns (steady: bool)
    ensures !steady
  {
    UnsteadyReply();
    hide WellFormed, DecodeReply, ComesSteadily;
    var rv, resp;
    steady, rv, resp := DrscanRead("01 0203" + [EOF], |DecodeReply("01 0203" + [EOF])|, UnsteadyArrivals);
  }
}
