/** The text in which requests and responses travel to and from OpenOCD: a drscan command with one
    number per field of up to four bytes, and a line of hexadecimal numbers in return. */
module JtagDrscan {
  import opened Bits
  import opened JtagWords
  import opened JtagBytes
  import opened JtagHost

  const OOCD_CMDSTART := "drscan or1k.fifo "
  const OOCD_CMD_MAXLEN := 1 * 1024 * 1024
  const OOCD_MAX_LINESIZE := 4096 * 1024
  const OOCD_MAX_FIELD_SIZE := 4
  const EOF: char := 26 as char

  // ---- Numbers as text ----

  function Digit(n: nat, upper: bool): (c: char)
    requires n < 16
  {
    (if upper then "0123456789ABCDEF" else "0123456789abcdef")[n]
  }

  /** What strtol makes of a digit. */
  predicate IsHex(c: char) { '0' <= c <= '9' || 'a' <= c <= 'f' || 'A' <= c <= 'F' }

  function DigitValue(c: char): (n: nat)
    requires IsHex(c)
    ensures n < 16
  {
    if c <= '9' then c as int - '0' as int
    else if c <= 'F' then c as int - 'A' as int + 10
    else c as int - 'a' as int + 10
  }

  lemma DigitRoundTrip(n: nat, upper: bool)
    requires n < 16
    ensures IsHex(Digit(n, upper)) && DigitValue(Digit(n, upper)) == n
  {
  }

  /** "%02x" */
  function HexByte(b: Byte, upper: bool): (s: string)
    ensures |s| == 2
  {
    [Digit(b / 16, upper), Digit(b % 16, upper)]
  }

  /** A field as a number in text: most significant byte first. */
  function HexText(bytes: seq<Byte>, upper: bool): (s: string)
    ensures |s| == 2 * |bytes|
  {
    if bytes == [] then "" else HexText(bytes[1..], upper) + HexByte(bytes[0], upper)
  }

  predicate AllHex(s: string) { forall i :: 0 <= i < |s| ==> IsHex(s[i]) }

  lemma {:induction false} HexTextIsHex(bytes: seq<Byte>, upper: bool)
    ensures AllHex(HexText(bytes, upper))
  {
    if bytes != [] {
      HexTextIsHex(bytes[1..], upper);
      DigitRoundTrip(bytes[0] / 16, upper);
      DigitRoundTrip(bytes[0] % 16, upper);
    }
  }

  /** hexstring_to_byte on two digits */
  function HexToByte(hi: char, lo: char): (b: Byte)
    requires IsHex(hi) && IsHex(lo)
  {
    16 * DigitValue(hi) + DigitValue(lo)
  }

  lemma HexByteRoundTrip(b: Byte, upper: bool)
    ensures var s := HexByte(b, upper); IsHex(s[0]) && IsHex(s[1]) && HexToByte(s[0], s[1]) == b
  {
    DigitRoundTrip(b / 16, upper);
    DigitRoundTrip(b % 16, upper);
  }

  // ---- Decoding a field ----

  function DecodeField(s: string): (bytes: seq<Byte>)
    requires |s| % 2 == 0 && AllHex(s)
    ensures |bytes| == |s| / 2
  {
    if s == "" then [] else DecodeField(s[2..]) + [HexToByte(s[0], s[1])]
  }

  /** hexstring_to_binarray_le */
  method HexstringToBinarrayLe(in_: string) returns (out: seq<Byte>)
    requires |in_| % 2 == 0 && AllHex(in_)
    ensures out == DecodeField(in_)
  {
    hide IsHex, HexToByte, DecodeField, AllHex;
    out := [];
    var c := |in_| - 2;
    ghost var left := |in_| / 2;
    DecodeNothing(in_[c + 2..]);
    while c >= 0
      invariant c == 2 * left - 2 && 0 <= 2 * left <= |in_|
      invariant IsDecoded(in_, 2 * left, out)
    {
      DecodePair(in_, c, out);
      out := out + [HexToByte(in_[c], in_[c + 1])];
      left, c := left - 1, c - 2;
    }
    assert in_[0..] == in_;
  }

  ghost predicate IsDecoded(s: string, from: nat, out: seq<Byte>)
    requires from <= |s|
  {
    |s[from..]| % 2 == 0 && AllHex(s[from..]) && out == DecodeField(s[from..])
  }

  lemma DecodeNothing(s: string)
    requires s == ""
    ensures AllHex(s) && DecodeField(s) == []
  {
  }

  lemma DecodePair(s: string, c: nat, out: seq<Byte>)
    requires c + 2 <= |s| && AllHex(s) && IsDecoded(s, c + 2, out)
    ensures IsHex(s[c]) && IsHex(s[c + 1]) && IsDecoded(s, c, out + [HexToByte(s[c], s[c + 1])])
  {
    hide IsHex, HexToByte;
    assert s[c..][2..] == s[c + 2..];
  }

  lemma {:induction false} DecodeAppend(s: string, t: string)
    requires |s| % 2 == 0 && AllHex(s) && |t| % 2 == 0 && AllHex(t)
    ensures AllHex(s + t) && DecodeField(s + t) == DecodeField(t) + DecodeField(s)
  {
    if s == "" {
      assert s + t == t;
    } else {
      assert (s + t)[2..] == s[2..] + t;
      DecodeAppend(s[2..], t);
      ConcatAssoc(DecodeField(t), DecodeField(s[2..]), [HexToByte(s[0], s[1])]);
    }
  }

  /** Printing a field and decoding it gives the field back. */
  lemma {:induction false} FieldRoundTrip(bytes: seq<Byte>, upper: bool)
    ensures AllHex(HexText(bytes, upper)) && DecodeField(HexText(bytes, upper)) == bytes
  {
    HexTextIsHex(bytes, upper);
    if bytes != [] {
      var last := HexByte(bytes[0], upper);
      FieldRoundTrip(bytes[1..], upper);
      HexByteRoundTrip(bytes[0], upper);
      DecodeAppend(HexText(bytes[1..], upper), last);
      assert last[2..] == "";
      assert DecodeField(last) == [bytes[0]];
    }
  }

  // ---- The command ----

  class CmdBuf {
    const buf: array<char>
    var pos: nat

    ghost predicate Valid()
      reads this
    {
      pos <= buf.Length
    }

    ghost function Text(): string
      reads this, buf
      requires Valid()
    {
      buf[..pos]
    }

    constructor (bufSize: nat)
      ensures Valid() && fresh(this) && fresh(buf) && buf.Length == bufSize && Text() == ""
    {
      buf := new char[bufSize](_ => ' ');
      pos := 0;
    }

    /** cmdbuf_append; the precondition is the source's assertion. */
    method Append(data: string)
      requires Valid() && pos + |data| <= buf.Length
      modifies this`pos, buf
      ensures Valid() && Text() == old(Text()) + data
    {
      forall i | 0 <= i < |data| { buf[pos + i] := data[i]; }
      pos := pos + |data|;
    }
  }

  /** "%u" */
  function Decimal(n: nat): (s: string)
    ensures |s| > 0
  {
    if n < 10 then [Digit(n, false)] else Decimal(n / 10) + [Digit(n % 10, false)]
  }

  function FieldText(bytes: seq<Byte>): string { Decimal(|bytes| * 8) + " 0x" + HexText(bytes, false) + " " }

  function FieldsText(req: seq<Byte>): string {
    if req == [] then "" else
      var k := Min(|req|, OOCD_MAX_FIELD_SIZE);
      FieldText(req[..k]) + FieldsText(req[k..])
  }

  function CommandText(req: seq<Byte>): string { OOCD_CMDSTART + FieldsText(req) + [EOF] }

  lemma FieldTextLength(bytes: seq<Byte>)
    requires 1 <= |bytes| <= 4
    ensures |FieldText(bytes)| == 2 * |bytes| + (if |bytes| == 1 then 5 else 6)
  {
    assert |Decimal(8)| == 1 && |Decimal(16)| == |Decimal(24)| == |Decimal(32)| == 2;
  }

  lemma {:induction false} FieldsTextLength(req: seq<Byte>)
    ensures |FieldsText(req)| <= 14 * ((|req| + 3) / 4)
  {
    hide FieldText;
    if req != [] {
      var k := Min(|req|, OOCD_MAX_FIELD_SIZE);
      FieldTextLength(req[..k]);
      FieldsTextLength(req[k..]);
    }
  }

  /** The command of every request the host builds fits its buffer and OpenOCD's line. */
  lemma RequestTextFits(req: seq<Byte>)
    requires |req| <= ToBytes(BUFFER_SIZE / 2 + 4)
    ensures |CommandText(req)| <= OOCD_CMD_MAXLEN <= OOCD_MAX_LINESIZE
  {
    FieldsTextLength(req);
  }

  /** jtag_drscan_write up to the point where the command is sent. */
  method DrscanWrite(req: seq<Byte>) returns (text: string)
    requires |req| <= ToBytes(BUFFER_SIZE / 2 + 4)
    ensures text == CommandText(req) && |text| <= OOCD_MAX_LINESIZE
  {
    hide FieldText, FieldsText;
    RequestTextFits(req);
    var cmdbuf := new CmdBuf(OOCD_CMD_MAXLEN);
    cmdbuf.Append(OOCD_CMDSTART);
    var sizeSent := 0;
    while sizeSent < |req|
      invariant cmdbuf.Valid() && fresh(cmdbuf) && fresh(cmdbuf.buf) && cmdbuf.buf.Length == OOCD_CMD_MAXLEN
      invariant 0 <= sizeSent <= |req|
      invariant cmdbuf.Text() + FieldsText(req[sizeSent..]) == OOCD_CMDSTART + FieldsText(req)
      decreases |req| - sizeSent
    {
      var fieldSize := Min(|req| - sizeSent, OOCD_MAX_FIELD_SIZE);
      FieldsSplit(req[sizeSent..]);
      assert req[sizeSent..][..fieldSize] == req[sizeSent..sizeSent + fieldSize];
      assert req[sizeSent..][fieldSize..] == req[sizeSent + fieldSize..];
      ConcatAssoc(cmdbuf.Text(), FieldText(req[sizeSent..][..fieldSize]), FieldsText(req[sizeSent..][fieldSize..]));
      AppendField(cmdbuf, req, sizeSent, fieldSize);
      sizeSent := sizeSent + fieldSize;
    }
    assert req[sizeSent..] == [];
    FieldsSplit([]);
    cmdbuf.Append([EOF]);
    text := cmdbuf.buf[..cmdbuf.pos];
  }

  lemma FieldsSplit(req: seq<Byte>)
    ensures FieldsText(req) == if req == [] then "" else
      FieldText(req[..Min(|req|, OOCD_MAX_FIELD_SIZE)]) + FieldsText(req[Min(|req|, OOCD_MAX_FIELD_SIZE)..])
  {
  }

  /** The body of the loop: the size of a field in bits, and its bytes as hexadecimal digits, last byte
      first. */
  method AppendField(cmdbuf: CmdBuf, req: seq<Byte>, sizeSent: nat, fieldSize: nat)
    requires cmdbuf.Valid() && sizeSent + fieldSize <= |req|
    requires cmdbuf.pos + |FieldText(req[sizeSent..sizeSent + fieldSize])| <= cmdbuf.buf.Length
    modifies cmdbuf`pos, cmdbuf.buf
    ensures cmdbuf.Valid()
    ensures cmdbuf.Text() == old(cmdbuf.Text()) + FieldText(req[sizeSent..sizeSent + fieldSize])
  {
    hide HexText, Decimal;
    ghost var before, field := cmdbuf.Text(), req[sizeSent..sizeSent + fieldSize];
    var start := Decimal(fieldSize * 8) + " 0x";
    cmdbuf.Append(start);
    AppendHex(cmdbuf, req, sizeSent, fieldSize);
    cmdbuf.Append(" ");
    ConcatAssoc(before, start, HexText(field, false));
    ConcatAssoc(before, start + HexText(field, false), " ");
  }

  method AppendHex(cmdbuf: CmdBuf, req: seq<Byte>, sizeSent: nat, fieldSize: nat)
    requires cmdbuf.Valid() && sizeSent + fieldSize <= |req| && cmdbuf.pos + 2 * fieldSize <= cmdbuf.buf.Length
    modifies cmdbuf`pos, cmdbuf.buf
    ensures cmdbuf.Valid()
    ensures cmdbuf.Text() == old(cmdbuf.Text()) + HexText(req[sizeSent..sizeSent + fieldSize], false)
  {
    ghost var field := req[sizeSent..sizeSent + fieldSize];
    assert field[fieldSize..] == [];
    for i := 0 to fieldSize
      invariant cmdbuf.Valid() && cmdbuf.pos + 2 * (fieldSize - i) <= cmdbuf.buf.Length
      invariant cmdbuf.Text() == old(cmdbuf.Text()) + HexText(field[fieldSize - i..], false)
    {
      cmdbuf.Append(HexByte(req[sizeSent + (fieldSize - 1) - i], false));
      assert field[fieldSize - (i + 1)..][1..] == field[fieldSize - i..];
    }
    assert field[0..] == field;
  }

  // ---- What the command means ----

  datatype Option<T> = None | Some(value: T)

  /** A field of a drscan: a number and in how many bits it is shifted, least significant bit first. */
  datatype Field = Field(bits: nat, value: nat)

  function ShiftBits(fields: seq<Field>): Word {
    if fields == [] then [] else ToBits(fields[0].value, fields[0].bits) + ShiftBits(fields[1..])
  }

  predicate Stops(c: char) { c == ' ' || c == EOF }

  function TokenEnd(s: string): (k: nat)
    ensures k <= |s| && (k < |s| ==> Stops(s[k])) && forall i :: 0 <= i < k ==> !Stops(s[i])
  {
    if s == "" || Stops(s[0]) then 0 else 1 + TokenEnd(s[1..])
  }

  lemma {:induction false} TokenEndIs(token: string, rest: string)
    requires rest != "" && Stops(rest[0]) && forall i :: 0 <= i < |token| ==> !Stops(token[i])
    ensures TokenEnd(token + rest) == |token|
  {
    if token != "" {
      assert (token + rest)[1..] == token[1..] + rest;
      TokenEndIs(token[1..], rest);
    }
  }

  function HexValue(s: string): nat
    requires AllHex(s)
  {
    if s == "" then 0 else 16 * HexValue(s[..|s| - 1]) + DigitValue(s[|s| - 1])
  }

  predicate AllDecimal(s: string) { forall i :: 0 <= i < |s| ==> '0' <= s[i] <= '9' }

  function DecimalValue(s: string): nat
    requires AllDecimal(s)
  {
    if s == "" then 0 else 10 * DecimalValue(s[..|s| - 1]) + DigitValue(s[|s| - 1])
  }

  /** A size, and behind it a value of `l` characters that another blank ends. */
  predicate IsPair(size: string, t: string, l: nat) {
    2 <= l < |t| && t[l] != EOF && t[..2] == "0x" && AllDecimal(size) && AllHex(t[2..l])
  }

  /** How the fields of a drscan command are read: pairs of a decimal and a hexadecimal number, up to
      the end of the command. */
  function ReadFields(s: string): Option<seq<Field>>
    decreases |s|
  {
    var k := TokenEnd(s);
    if k >= |s| then None
    else if s[k] == EOF then (if k == 0 then Some([]) else None)
    else
      var t := s[k + 1..];
      var l := TokenEnd(t);
      if !IsPair(s[..k], t, l) then None
      else match ReadFields(t[l + 1..])
           case None => None
           case Some(rest) => Some([Field(DecimalValue(s[..k]), HexValue(t[2..l]))] + rest)
  }

  /** The number a field of bytes stands for. */
  function Number(bytes: seq<Byte>): nat {
    if bytes == [] then 0 else bytes[0] as int + 256 * Number(bytes[1..])
  }

  lemma {:induction false} HexTextValue(bytes: seq<Byte>)
    ensures AllHex(HexText(bytes, false)) && HexValue(HexText(bytes, false)) == Number(bytes)
  {
    HexTextIsHex(bytes, false);
    if bytes != [] {
      var front, last := HexText(bytes[1..], false), HexByte(bytes[0], false);
      HexTextValue(bytes[1..]);
      HexByteRoundTrip(bytes[0], false);
      HexValueOfTwo(front, last[0], last[1]);
      assert front + last == front + [last[0], last[1]];
    }
  }

  lemma HexValueOfTwo(s: string, hi: char, lo: char)
    requires AllHex(s) && IsHex(hi) && IsHex(lo)
    ensures AllHex(s + [hi, lo]) && HexValue(s + [hi, lo]) == 256 * HexValue(s) + HexToByte(hi, lo)
  {
    var t := s + [hi, lo];
    assert t[..|t| - 1] == s + [hi] && (s + [hi])[..|s|] == s;
  }

  lemma DecimalRoundTrip(n: nat)
    requires n in {8, 16, 24, 32}
    ensures AllDecimal(Decimal(n)) && DecimalValue(Decimal(n)) == n
    ensures forall i :: 0 <= i < |Decimal(n)| ==> !Stops(Decimal(n)[i])
  {
    if n == 8 {
      assert "8"[..0] == "";
      assert DecimalValue("8") == 10 * DecimalValue("8"[..0]) + 8;
    } else {
      DecimalOfTwo(n / 10, n % 10);
    }
  }

  lemma DecimalOfTwo(a: nat, b: nat)
    requires a < 10 && b < 10
    ensures var s := [Digit(a, false)] + [Digit(b, false)]; AllDecimal(s) && DecimalValue(s) == 10 * a + b
  {
    var s := [Digit(a, false)] + [Digit(b, false)];
    assert s[..1] == [Digit(a, false)] && s[..1][..0] == "";
    DigitRoundTrip(a, false);
    DigitRoundTrip(b, false);
    assert DecimalValue(s[..1]) == 10 * DecimalValue(s[..1][..0]) + a;
  }

  lemma HexHasNoStop(s: string)
    requires AllHex(s)
    ensures forall i :: 0 <= i < |s| ==> !Stops(s[i])
  {
  }

  lemma PairIsRead(size: string, hex: string, rest: string)
    requires AllDecimal(size) && AllHex(hex) && ReadFields(rest).Some?
    requires forall i :: 0 <= i < |size| ==> !Stops(size[i])
    ensures ReadFields(size + (" " + (("0x" + hex) + (" " + rest)))) ==
      Some([Field(DecimalValue(size), HexValue(hex))] + ReadFields(rest).value)
  {
    hide HexValue, DecimalValue, TokenEnd, DigitValue, AllDecimal, AllHex, Stops, ReadFields;
    var value := "0x" + hex;
    var t := value + (" " + rest);
    var s := size + (" " + t);
    TokenThenBlank(size, t);
    HexHasNoStop(hex);
    ValueHasNoStop(hex);
    TokenThenBlank(value, rest);
    assert value[..2] == "0x" && value[2..] == hex;
    assert t[..2] == value[..2] && t[2..|value|] == value[2..];
    ReadsPair(s, |size|, t, |value|);
  }

  lemma ReadsPair(s: string, k: nat, t: string, l: nat)
    requires k == TokenEnd(s) < |s| && s[k] == ' ' && t == s[k + 1..] && AllDecimal(s[..k])
    requires 2 <= l == TokenEnd(t) < |t| && t[l] == ' ' && t[..2] == "0x" && AllHex(t[2..l])
    requires ReadFields(t[l + 1..]).Some?
    ensures ReadFields(s) ==
      Some([Field(DecimalValue(s[..k]), HexValue(t[2..l]))] + ReadFields(t[l + 1..]).value)
  {
    hide HexValue, DecimalValue, TokenEnd, DigitValue, AllDecimal, AllHex, Stops;
    assert IsPair(s[..k], t, l);
    hide IsPair;
  }

  lemma ValueHasNoStop(hex: string)
    requires forall i :: 0 <= i < |hex| ==> !Stops(hex[i])
    ensures forall i :: 0 <= i < |"0x" + hex| ==> !Stops(("0x" + hex)[i])
  {
  }

  lemma TokenThenBlank(token: string, rest: string)
    requires forall i :: 0 <= i < |token| ==> !Stops(token[i])
    ensures var s := token + (" " + rest);
      && TokenEnd(s) == |token| < |s| && s[..|token|] == token && s[|token|] == ' ' && s[|token| + 1..] == rest
  {
    TokenEndIs(token, " " + rest);
  }

  lemma FieldIsRead(bytes: seq<Byte>, rest: string)
    requires 1 <= |bytes| <= 4 && ReadFields(rest).Some?
    ensures ReadFields(FieldText(bytes) + rest) == Some([Field(8 * |bytes|, Number(bytes))] + ReadFields(rest).value)
  {
    hide HexText, Decimal, HexValue, DecimalValue, Number, IsHex, ReadFields;
    var size, hex := Decimal(|bytes| * 8), HexText(bytes, false);
    DecimalRoundTrip(|bytes| * 8);
    HexTextValue(bytes);
    PairIsRead(size, hex, rest);
    assert FieldText(bytes) + rest == size + (" " + (("0x" + hex) + (" " + rest)));
  }

  // ---- The bits on the wire ----

  function BitsOf(bytes: seq<Byte>): (bits: Word)
    ensures |bits| == 8 * |bytes|
  {
    if bytes == [] then [] else ToBits(bytes[0], 8) + BitsOf(bytes[1..])
  }

  function Flat(words: seq<Word>): Word {
    if words == [] then [] else words[0] + Flat(words[1..])
  }

  lemma {:induction false} ToBitsSplits(low: nat, high: nat, k: nat, w: nat)
    requires low < Pow2(k)
    ensures ToBits(low + Pow2(k) * high, k + w) == ToBits(low, k) + ToBits(high, w)
  {
    if k > 0 {
      var n := low + Pow2(k) * high;
      HalfOfSum(low, Pow2(k - 1), high);
      ToBitsSplits(low / 2, high, k - 1, w);
      ConcatAssoc([low % 2 == 1], ToBits(low / 2, k - 1), ToBits(high, w));
    }
  }

  lemma HalfOfSum(low: nat, p: nat, high: nat)
    ensures (low + 2 * p * high) / 2 == low / 2 + p * high && (low + 2 * p * high) % 2 == low % 2
  {
    assert 2 * p * high == 2 * (p * high);
  }

  lemma {:induction false} NumberBits(bytes: seq<Byte>)
    ensures ToBits(Number(bytes), 8 * |bytes|) == BitsOf(bytes)
  {
    if bytes != [] {
      NumberBits(bytes[1..]);
      SmallPowers();
      ToBitsSplits(bytes[0], Number(bytes[1..]), 8, 8 * (|bytes| - 1));
    }
  }

  lemma {:induction false} BitsOfAppend(a: seq<Byte>, b: seq<Byte>)
    ensures BitsOf(a + b) == BitsOf(a) + BitsOf(b)
  {
    hide ToBits;
    if a == [] {
      assert a + b == b;
    } else {
      assert (a + b)[1..] == a[1..] + b;
      BitsOfAppend(a[1..], b);
      ConcatAssoc(ToBits(a[0], 8), BitsOf(a[1..]), BitsOf(b));
    }
  }

  lemma NumberOfTwo(bytes: seq<Byte>)
    requires |bytes| == 2
    ensures WordsOf(bytes) == [ToBits(Number(bytes), 16)]
  {
    hide ToBits;
    assert bytes[1..][1..] == [];
    assert Number(bytes[1..]) == bytes[1] as int + 256 * Number([]);
  }

  lemma {:induction false} WordBits(bytes: seq<Byte>)
    requires |bytes| % 2 == 0
    ensures Flat(WordsOf(bytes)) == BitsOf(bytes)
  {
    hide ToBits, BitsOf, WordsOf, Number;
    if bytes == [] {
      assert WordsOf(bytes) == [];
      assert BitsOf(bytes) == [];
    } else {
      var first, rest := bytes[..2], bytes[2..];
      assert bytes == first + rest;
      WordBits(rest);
      NumberOfTwo(first);
      WordsOfAppend(first, rest);
      NumberBits(first);
      BitsOfAppend(first, rest);
    }
  }

  lemma {:induction false} FieldsAreRead(req: seq<Byte>)
    ensures var r := ReadFields(FieldsText(req) + [EOF]); r.Some? && ShiftBits(r.value) == BitsOf(req)
  {
    hide FieldText, ToBits, BitsOf;
    if req == [] {
      assert FieldsText(req) + [EOF] == [EOF];
      assert BitsOf(req) == [];
    } else {
      var k := Min(|req|, OOCD_MAX_FIELD_SIZE);
      var field, rest := req[..k], req[k..];
      assert req == field + rest;
      FieldsAreRead(rest);
      ConcatAssoc(FieldText(field), FieldsText(rest), [EOF]);
      FieldIsRead(field, FieldsText(rest) + [EOF]);
      NumberBits(field);
      BitsOfAppend(field, rest);
    }
  }

  /** The command makes OpenOCD shift exactly the words of the request, bit by bit. */
  lemma CommandShiftsRequest(req: seq<Byte>)
    requires |req| % 2 == 0
    ensures OOCD_CMDSTART <= CommandText(req)
    ensures var r := ReadFields(CommandText(req)[|OOCD_CMDSTART|..]);
      r.Some? && ShiftBits(r.value) == Flat(WordsOf(req))
  {
    hide FieldsText, ReadFields, Flat;
    FieldsAreRead(req);
    WordBits(req);
    assert CommandText(req)[|OOCD_CMDSTART|..] == FieldsText(req) + [EOF];
  }

  // ---- The response ----

  /** OpenOCD's answer to a scan that returns `bytes`: one number per field, in digits of either case,
      separated by blanks. */
  function Reply(bytes: seq<Byte>, upper: bool): (text: string)
    requires bytes != []
    decreases |bytes|
  {
    if |bytes| <= OOCD_MAX_FIELD_SIZE then HexText(bytes, upper) + [EOF]
    else HexText(bytes[..OOCD_MAX_FIELD_SIZE], upper) + " " + Reply(bytes[OOCD_MAX_FIELD_SIZE..], upper)
  }

  /** Text that can be decoded: fields of a positive even number of digits, the last one ended by EOF. */
  predicate WellFormed(text: string)
    decreases |text|
  {
    var k := TokenEnd(text);
    0 < k < |text| && k % 2 == 0 && AllHex(text[..k]) && (text[k] == EOF || WellFormed(text[k + 1..]))
  }

  function DecodeReply(text: string): seq<Byte>
    requires WellFormed(text)
    decreases |text|
  {
    var k := TokenEnd(text);
    DecodeField(text[..k]) + (if text[k] == EOF then [] else DecodeReply(text[k + 1..]))
  }

  lemma FirstField(hex: string, stop: char, rest: string)
    requires hex != "" && |hex| % 2 == 0 && AllHex(hex) && Stops(stop) && (stop == EOF || WellFormed(rest))
    ensures WellFormed(hex + ([stop] + rest))
    ensures DecodeReply(hex + ([stop] + rest)) == DecodeField(hex) + (if stop == EOF then [] else DecodeReply(rest))
  {
    hide DecodeField, TokenEnd, AllHex;
    HexHasNoStop(hex);
    var text := hex + ([stop] + rest);
    TokenEndIs(hex, [stop] + rest);
    assert text[..|hex|] == hex && text[|hex|] == stop && text[|hex| + 1..] == rest;
  }

  /** Decoding field by field gives back what was scanned. */
  lemma {:induction false} ReplyRoundTrip(bytes: seq<Byte>, upper: bool)
    requires bytes != []
    ensures WellFormed(Reply(bytes, upper)) && DecodeReply(Reply(bytes, upper)) == bytes
    decreases |bytes|
  {
    hide HexText, DecodeField, WellFormed, DecodeReply;
    if |bytes| <= OOCD_MAX_FIELD_SIZE {
      FieldRoundTrip(bytes, upper);
      FirstField(HexText(bytes, upper), EOF, "");
      assert [EOF] + "" == [EOF];
    } else {
      var field, rest := bytes[..OOCD_MAX_FIELD_SIZE], bytes[OOCD_MAX_FIELD_SIZE..];
      FieldRoundTrip(field, upper);
      ReplyRoundTrip(rest, upper);
      FirstField(HexText(field, upper), ' ', Reply(rest, upper));
      ConcatAssoc(HexText(field, upper), " ", Reply(rest, upper));
      assert bytes == field + rest;
    }
  }

  lemma RestOfField(text: string, start: nat, end: nat)
    requires start <= end < |text| && WellFormed(text[start..]) && Stops(text[end])
    requires forall i :: start <= i < end ==> !Stops(text[i])
    ensures var field := text[start..end];
      && |field| >= 2 && |field| % 2 == 0 && AllHex(field)
      && (text[end] != EOF ==> WellFormed(text[end + 1..]))
      && DecodeReply(text[start..]) ==
           DecodeField(field) + (if text[end] == EOF then [] else DecodeReply(text[end + 1..]))
  {
    hide DecodeField, AllHex;
    var s, token, rest := text[start..], text[start..end], text[end..];
    assert s == token + rest;
    TokenEndIs(token, rest);
    assert s[..|token|] == token && s[|token|] == text[end] && s[|token| + 1..] == text[end + 1..];
  }

  lemma EndsWithEof(text: string)
    requires WellFormed(text)
    ensures exists i :: 0 <= i < |text| && Stops(text[i])
  {
    assert Stops(text[TokenEnd(text)]);
  }
}
