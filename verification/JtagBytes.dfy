/** Words of two bytes as the host stores them: least significant byte first. */
module JtagBytes {
  import opened Bits
  import opened JtagWords

  const WIDTH := 2

  function ToWords(bytes: nat): (words: nat)
    ensures 2 * words <= bytes < 2 * (words + 1)
  {
    bytes / WIDTH
  }

  function ToBytes(words: nat): (bytes: nat)
    ensures bytes == 2 * words
  {
    words * WIDTH
  }

  /** copy_to_word for two-byte words: both assignments truncate to a byte. */
  function CopyToWord(value: nat): (dest: seq<Byte>)
    ensures |dest| == 2
  {
    [value % 256, value / 256 % 256]
  }

  /** copy_from_word on a little-endian host. */
  function CopyFromWord(from: seq<Byte>, at: nat): (value: nat)
    requires at + 2 <= |from|
    ensures value < 0x1_0000
  {
    from[at] as int + 256 * from[at + 1] as int
  }

  lemma WordPower()
    ensures Pow2(16) == 0x1_0000
  {
    SmallPowers();
    hide Pow2;
    FourMore(8);
    FourMore(12);
  }

  ghost predicate WordsOk(words: seq<Word>) { forall i :: 0 <= i < |words| ==> |words[i]| == 16 }

  /** The words that `bytes` stand for on the wire, and back. */
  function WordsOf(bytes: seq<Byte>): (words: seq<Word>)
    requires |bytes| % 2 == 0
    ensures |words| == |bytes| / 2 && WordsOk(words)
  {
    seq(|bytes| / 2, i requires 0 <= i < |bytes| / 2 => ToBits(CopyFromWord(bytes, 2 * i), 16))
  }

  function BytesOf(words: seq<Word>): (bytes: seq<Byte>)
    requires WordsOk(words)
    ensures |bytes| == 2 * |words|
  {
    if words == [] then [] else CopyToWord(Val(words[0])) + BytesOf(words[1..])
  }

  lemma {:induction false} BytesAt(words: seq<Word>, i: nat)
    requires WordsOk(words) && i < |words|
    ensures CopyFromWord(BytesOf(words), 2 * i) == Val(words[i])
  {
    WordPower();
    if i > 0 {
      BytesAt(words[1..], i - 1);
    }
  }

  lemma {:induction false} BytesOfAppend(a: seq<Word>, b: seq<Word>)
    requires WordsOk(a) && WordsOk(b)
    ensures WordsOk(a + b) && BytesOf(a + b) == BytesOf(a) + BytesOf(b)
  {
    if a == [] {
      assert a + b == b;
    } else {
      hide CopyToWord, Val;
      assert (a + b)[1..] == a[1..] + b && (a + b)[0] == a[0];
      BytesOfAppend(a[1..], b);
      ConcatAssoc(CopyToWord(Val(a[0])), BytesOf(a[1..]), BytesOf(b));
    }
  }

  /** No word sequence is lost in bytes, and no byte sequence in words. */
  lemma WordsOfBytesOf(words: seq<Word>)
    requires WordsOk(words)
    ensures WordsOf(BytesOf(words)) == words
  {
    forall i | 0 <= i < |words| ensures WordsOf(BytesOf(words))[i] == words[i] {
      BytesAt(words, i);
      ToBitsOfVal(words[i]);
    }
  }

  lemma BytesOfWordsOf(bytes: seq<Byte>)
    requires |bytes| % 2 == 0
    ensures BytesOf(WordsOf(bytes)) == bytes
  {
    var words := WordsOf(bytes);
    forall j | 0 <= j < |bytes| ensures BytesOf(words)[j] == bytes[j] {
      BytesAt(words, j / 2);
      WordPower();
      ValOfToBits(CopyFromWord(bytes, 2 * (j / 2)), 16);
      PairAt(BytesOf(words), bytes, j);
    }
  }

  lemma PairAt(a: seq<Byte>, b: seq<Byte>, j: nat)
    requires j < |a| == |b| && |a| % 2 == 0
    requires CopyFromWord(a, 2 * (j / 2)) == CopyFromWord(b, 2 * (j / 2))
    ensures a[j] == b[j]
  {
    assert j == 2 * (j / 2) || j == 2 * (j / 2) + 1;
  }

  lemma WordValue(bytes: seq<Byte>, i: nat)
    requires |bytes| % 2 == 0 && i < |bytes| / 2
    ensures Val(WordsOf(bytes)[i]) == CopyFromWord(bytes, 2 * i)
  {
    hide Pow2, Val, ToBits;
    WordPower();
    ValOfToBits(CopyFromWord(bytes, 2 * i), 16);
  }

  lemma NotAllOnes(word: Word)
    requires |word| == 16
    ensures AllOnes(word) <==> Val(word) == 0xFFFF
  {
    hide Pow2, Val;
    WordPower();
    AllOnesIsMaximal(word);
  }

  lemma WordsOfAppend(a: seq<Byte>, b: seq<Byte>)
    requires |a| % 2 == 0 && |b| % 2 == 0
    ensures WordsOf(a + b) == WordsOf(a) + WordsOf(b)
  {
  }
}
