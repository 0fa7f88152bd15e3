/** Words as they travel over the TCP interface: most significant byte first, and the 64-bit values
    the simulation handles them in. */
module TcpWords {
  import opened Bits

  /** The number a sequence of bytes stands for. */
  function BigEndian(s: seq<Byte>): nat {
    if s == [] then 0 else 256 * BigEndian(s[..|s| - 1]) + s[|s| - 1] as int
  }

  /** The low `n` bytes of a value. */
  function Split(n: nat, v: nat): (s: seq<Byte>)
    ensures |s| == n
  {
    if n == 0 then [] else Split(n - 1, v / 256) + [v % 256]
  }

  lemma ShiftByByte(k: nat)
    ensures Pow2(k + 8) == 256 * Pow2(k)
  {
    hide Pow2;
    FourMore(k);
    FourMore(k + 4);
  }

  lemma DivDiv(v: nat, p: nat)
    requires p > 0
    ensures v / (256 * p) == v / 256 / p
  {
    var q, r := v / 256 / p, v / 256 % p;
    assert (256 * p) * q == 256 * (p * q);
    DivisionIsUnique(256 * p, v / (256 * p), v % (256 * p), q, 256 * r + v % 256);
  }

  /** A byte of a split value, as the shift and mask of the source find it. */
  lemma {:induction false} SplitAt(n: nat, v: nat, i: nat)
    requires i < n
    ensures Split(n, v)[i] == v / Pow2(8 * (n - i - 1)) % 256
  {
    if i < n - 1 {
      SplitAt(n - 1, v / 256, i);
      ShiftByByte(8 * (n - i - 2));
      DivDiv(v, Pow2(8 * (n - i - 2)));
    } else {
      assert Pow2(0) == 1;
    }
  }

  lemma {:induction false} SplitOfBigEndian(s: seq<Byte>)
    ensures Split(|s|, BigEndian(s)) == s
  {
    if s != [] {
      SplitOfBigEndian(s[..|s| - 1]);
      assert BigEndian(s) / 256 == BigEndian(s[..|s| - 1]);
    }
  }

  lemma {:induction false} BigEndianOfSplit(n: nat, v: nat)
    requires v < Pow2(8 * n)
    ensures BigEndian(Split(n, v)) == v
  {
    if n > 0 {
      ShiftByByte(8 * (n - 1));
      BigEndianOfSplit(n - 1, v / 256);
      assert Split(n, v)[..n - 1] == Split(n - 1, v / 256);
    }
  }

  // ---- The value of an item while it is assembled ----

  /** The bits above the low 32 when the sign of a 32-bit int is extended to 64 bits, seen from bit 24. */
  const SIGN := 0xFF_FFFF_FF00

  /** `data << bits` for a byte promoted to int, then converted to 64 bits: a set bit 31 is copied up. */
  function Shl(data: Byte, bits: nat): nat {
    (if bits == 24 && data >= 128 then SIGN + data else data as int) * Pow2(bits)
  }

  /** The leading bytes of an item, seen from the lowest bit of the last one. */
  function Lead(n: nat, s: seq<Byte>): nat {
    if s == [] then 0
    else if |s| == 1 then (if n == 4 && s[0] >= 128 then SIGN + s[0] else s[0] as int)
    else 256 * Lead(n, s[..|s| - 1]) + s[|s| - 1] as int
  }

  /** The value of an item of `n` bytes when the bytes `s` have arrived. */
  function Value(n: nat, s: seq<Byte>): nat
    requires |s| <= n
  {
    Lead(n, s) * Pow2(8 * (n - |s|))
  }

  /** One more byte: the source's OR with the shifted byte. */
  lemma NextByte(n: nat, s: seq<Byte>, d: Byte)
    requires |s| < n <= 4
    ensures BitOr(Value(n, s), Shl(d, (n - |s| - 1) * 8)) == Value(n, s + [d])
  {
    var k, lead := 8 * (n - |s| - 1), Lead(n, s);
    assert (s + [d])[..|s|] == s;
    if s != [] {
      ShiftByByte(k);
      Distribute(lead, d, Pow2(k));
      OrIsSum(lead, d * Pow2(k), k + 8);
    }
  }

  lemma Distribute(lead: nat, d: Byte, p: nat)
    requires p > 0
    ensures lead * (256 * p) + d * p == (256 * lead + d) * p && 0 <= d * p < 256 * p
  {
    assert (256 - d) * p > 0;
  }

  /** Whether an item holds the number its bytes stand for: up to three bytes always, four bytes if and
      only if the first one has its top bit clear. The low 32 bits are right in any case. */
  lemma ItemIsBigEndian(n: nat, s: seq<Byte>)
    requires 1 <= n <= 4 && |s| == n
    ensures Value(n, s) == BigEndian(s) <==> n < 4 || s[0] < 128
    ensures Value(n, s) < 0x1_0000_0000_0000_0000
    ensures Value(n, s) % 0x1_0000_0000 == BigEndian(s) < 0x1_0000_0000
  {
    hide Lead, BigEndian, Pow2, Value;
    WidePower();
    LeadValue(n, s);
    ItemBounds(n, s);
    WholeItem(n, s);
    var low := BigEndian(s);
    if n == 4 && s[0] >= 128 {
      SignIsHigh(low);
    } else {
      assert Value(n, s) == low;
    }
  }

  lemma WholeItem(n: nat, s: seq<Byte>)
    requires |s| == n
    ensures Value(n, s) == Lead(n, s)
  {
    hide Lead;
    assert 8 * (n - |s|) == 0 && Pow2(0) == 1;
  }

  lemma ItemBounds(n: nat, s: seq<Byte>)
    requires 1 <= n <= 4 && |s| == n && BigEndian(s) < Pow2(8 * n)
    ensures BigEndian(s) < 0x1_0000_0000
  {
    WidePower();
    PowersGrow(8 * n, 32);
  }

  /** The sign fills the upper half of the 64 bits. */
  lemma SignIsHigh(low: nat)
    requires low < 0x1_0000_0000
    ensures var v := low + SIGN * 0x100_0000;
      v != low && v < 0x1_0000_0000_0000_0000 && v % 0x1_0000_0000 == low
  {
  }

  lemma {:induction false} LeadValue(n: nat, s: seq<Byte>)
    requires 1 <= n <= 4 && 1 <= |s| <= n
    ensures BigEndian(s) < Pow2(8 * |s|)
    ensures Lead(n, s) == BigEndian(s) + (if n == 4 && s[0] >= 128 then SIGN * Pow2(8 * (|s| - 1)) else 0)
  {
    if |s| == 1 {
      SmallPowers();
      assert s[..0] == [] && Pow2(0) == 1;
    } else {
      LeadValue(n, s[..|s| - 1]);
      ShiftByByte(8 * (|s| - 1));
      ShiftByByte(8 * (|s| - 2));
    }
  }

  // ---- Streams ----

  /** The words a stream of bytes carries, and the bytes a stream of words is sent as. */
  function Group(n: nat, s: seq<Byte>): (words: seq<nat>)
    requires n > 0 && |s| % n == 0
  {
    if s == [] then [] else NonEmptyGroup(n, |s|); [Value(n, s[..n])] + Group(n, s[n..])
  }

  lemma NonEmptyGroup(n: nat, m: nat)
    requires n > 0 && m > 0 && m % n == 0
    ensures m >= n && (m - n) % n == 0
  {
    if m < n { assert false; }
    DivisionIsUnique(n, (m - n) / n, (m - n) % n, m / n - 1, 0);
  }

  function Expand(n: nat, words: seq<nat>): seq<Byte> {
    if words == [] then [] else Split(n, words[0]) + Expand(n, words[1..])
  }

  lemma {:induction false} ExpandAppend(n: nat, words: seq<nat>, v: nat)
    ensures Expand(n, words + [v]) == Expand(n, words) + Split(n, v)
  {
    hide Split;
    if words == [] {
      assert [v][1..] == [] && [] + [v] == [v];
    } else {
      assert (words + [v])[1..] == words[1..] + [v];
      ExpandAppend(n, words[1..], v);
      ConcatAssoc(Split(n, words[0]), Expand(n, words[1..]), Split(n, v));
    }
  }

  lemma {:induction false} GroupAppend(n: nat, s: seq<Byte>, t: seq<Byte>)
    requires n > 0 && |s| % n == 0 && |t| == n
    ensures (|s| + n) % n == 0 && Group(n, s + t) == Group(n, s) + [Value(n, t)]
    decreases |s|
  {
    hide Value;
    DivisionIsUnique(n, (|s| + n) / n, (|s| + n) % n, |s| / n + 1, 0);
    if s == [] {
      assert s + t == t && t[..n] == t && t[n..] == [];
    } else {
      NonEmptyGroup(n, |s|);
      assert (s + t)[..n] == s[..n] && (s + t)[n..] == s[n..] + t;
      GroupAppend(n, s[n..], t);
    }
  }

  /** Sending back the words read gives the bytes that arrived, for every width. */
  lemma {:induction false} ExpandOfGroup(n: nat, s: seq<Byte>)
    requires 1 <= n <= 4 && |s| % n == 0
    ensures Expand(n, Group(n, s)) == s
    decreases |s|
  {
    hide Value, Split;
    if s != [] {
      NonEmptyGroup(n, |s|);
      SplitOfItem(n, s[..n]);
      ExpandOfGroup(n, s[n..]);
    }
  }

  /** Reading the bytes of words that fit gives the words, if no four-byte word has its top bit set. */
  lemma {:induction false} GroupOfExpand(n: nat, words: seq<nat>)
    requires 1 <= n <= 4
    requires forall i :: 0 <= i < |words| ==> words[i] < (if n == 4 then 0x8000_0000 else Pow2(8 * n))
    ensures |Expand(n, words)| % n == 0 && Group(n, Expand(n, words)) == words
  {
    hide Value, Split, BigEndian, Pow2;
    if words != [] {
      GroupOfExpand(n, words[1..]);
      ItemOfSplit(n, words[0]);
      GroupCons(n, Split(n, words[0]), Expand(n, words[1..]));
    }
  }

  lemma GroupCons(n: nat, bytes: seq<Byte>, rest: seq<Byte>)
    requires n > 0 && |bytes| == n && |rest| % n == 0
    ensures |bytes + rest| % n == 0 && Group(n, bytes + rest) == [Value(n, bytes)] + Group(n, rest)
  {
    hide Value;
    DivisionIsUnique(n, (|rest| + n) / n, (|rest| + n) % n, |rest| / n + 1, 0);
    SplitsAt(bytes, rest);
  }

  lemma ItemOfSplit(n: nat, v: nat)
    requires 1 <= n <= 4 && v < if n == 4 then 0x8000_0000 else Pow2(8 * n)
    ensures Value(n, Split(n, v)) == v
  {
    hide Value, Split, BigEndian;
    if n == 4 {
      WidePower();
      SplitAt(4, v, 0);
    }
    BigEndianOfSplit(n, v);
    ItemIsBigEndian(n, Split(n, v));
  }

  lemma WidePower()
    ensures Pow2(0) == 1 && Pow2(8) == 0x100 && Pow2(16) == 0x1_0000
    ensures Pow2(24) == 0x100_0000 && Pow2(32) == 0x1_0000_0000
  {
    ShiftByByte(0);
    ShiftByByte(8);
    ShiftByByte(16);
    ShiftByByte(24);
  }

  lemma SplitOfItem(n: nat, s: seq<Byte>)
    requires 1 <= n <= 4 && |s| == n
    ensures Split(n, Value(n, s)) == s
  {
    hide Split, Value;
    ItemIsBigEndian(n, s);
    SplitOfBigEndian(s);
    if n == 4 {
      WidePower();
      SplitIgnoresHigh(4, BigEndian(s), Value(n, s) / 0x1_0000_0000);
    }
  }

  lemma {:induction false} SplitIgnoresHigh(n: nat, v: nat, q: nat)
    ensures Split(n, v + Pow2(8 * n) * q) == Split(n, v)
  {
    hide Pow2;
    if n > 0 {
      ShiftByByte(8 * (n - 1));
      assert 8 * n == 8 * (n - 1) + 8;
      HighPart(v, Pow2(8 * (n - 1)), q);
      SplitIgnoresHigh(n - 1, v / 256, q);
    }
  }

  lemma HighPart(v: nat, p: nat, q: nat)
    ensures (v + 256 * p * q) / 256 == v / 256 + p * q && (v + 256 * p * q) % 256 == v % 256
  {
    assert 256 * p * q == 256 * (p * q);
  }
}
