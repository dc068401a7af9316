/** The pure logic of the page's byte views: the hex rendering of a byte,
    the raw view and its parser, the unsigned-word view and the code-
    generation view. The DOM elements they read and write are left out: each
    view is the text it would hold, built from its lines as the page's loops
    build them and joined by line breaks. */
module ByteViews {
  import opened Wrappers
  import opened Bytes
  import opened Hex
  import opened Strings
  import opened BoxNameCodec

  /** Number of hex digits of a full record. */
  const BoxNamesNibbleLength: nat := 252

  /** `byteToHex`: two upper-case digits that read back as the byte. */
  function ByteToHex(b: Byte): (r: string)
    ensures |r| == 2 && AllUpperHex(r) && AllHex(r)
    ensures HexValue(r) == b
    ensures 16 * DigitValue(r[0]) + DigitValue(r[1]) == b
  {
    assert Pow16(2) == 256;
    var r := FixedHex(b, 2, true);
    HexValueTwo(r);
    r
  }

  /** The digits of a slot, byte by byte. */
  function SlotDigits(slot: Slot): seq<string>
  {
    seq(SlotLength, j requires 0 <= j < SlotLength => ByteToHex(slot[j]))
  }

  /** The raw view: each slot's bytes space-separated, one slot per line. */
  function RawViewText(rec: BoxNames): string
  {
    Join(seq(BoxCount, i requires 0 <= i < BoxCount => Join(SlotDigits(rec[i]), " ")), "\n")
  }

  /** What the raw view validates: the text with whitespace removed and
      upper-cased. */
  function RawViewDigits(text: string): string
  {
    ToUpperAscii(StripWhitespace(text))
  }

  /** The raw view's input handler up to `setNamesFromBytes`: `None` when
      the stripped, upper-cased text is not exactly 252 digits of
      [0-9A-F]; otherwise byte `k` is the value of digits `2k` and `2k+1`. */
  function ParseRawView(text: string): (r: Option<seq<Byte>>)
    ensures var digits := RawViewDigits(text);
            r.Some? <==> |digits| == BoxNamesNibbleLength && AllUpperHex(digits)
    ensures r.Some? ==>
              && |r.value| == StreamLength
              && forall k :: 0 <= k < StreamLength ==>
                   r.value[k] == 16 * DigitValue(RawViewDigits(text)[2 * k])
                                 + DigitValue(RawViewDigits(text)[2 * k + 1])
  {
    var digits := RawViewDigits(text);
    if |digits| != BoxNamesNibbleLength || !AllUpperHex(digits) then None
    else
      Some(seq(StreamLength, k requires 0 <= k < StreamLength =>
        PairValue(digits[2 * k], digits[2 * k + 1])))
  }

  /** `parseInt` of a two-digit slice. */
  function PairValue(hi: char, lo: char): (v: Byte)
    requires IsHexDigit(hi) && IsHexDigit(lo)
    ensures v == HexValue([hi, lo])
  {
    HexValueTwo([hi, lo]);
    16 * DigitValue(hi) + DigitValue(lo)
  }

  /** The raw view's input handler: an invalid text leaves the record as it
      was; a valid one replaces all 126 bytes. */
  function RawViewInput(rec: BoxNames, text: string): (r: BoxNames)
    ensures ParseRawView(text).None? ==> r == rec
    ensures ParseRawView(text).Some? ==> GetDataAsStream(r) == ParseRawView(text).value
  {
    match ParseRawView(text)
    case None => rec
    case Some(bytes) =>
      StreamAfterLoad(rec, bytes);
      SetNamesFromBytes(rec, bytes).data
  }

  /** Stripping one line of the raw view leaves its eighteen digits. */
  lemma SlotLineStripped(slot: Slot)
    ensures var digits := StripWhitespace(Join(SlotDigits(slot), " "));
            && |digits| == 18
            && forall j :: 0 <= j < SlotLength ==> digits[2 * j .. 2 * j + 2] == ByteToHex(slot[j])
  {
    var parts := SlotDigits(slot);
    assert StripWhitespace(" ") == "";
    StripJoin(parts, " ");
    DigitsUnstripped(parts);
    ConcatFixed(parts, 2);
  }

  /** Hexadecimal digit pairs hold no whitespace to strip. */
  lemma DigitsUnstripped(parts: seq<string>)
    requires forall k :: 0 <= k < |parts| ==> AllHex(parts[k])
    ensures seq(|parts|, k requires 0 <= k < |parts| => StripWhitespace(parts[k])) == parts
  {
    forall j | 0 <= j < |parts|
      ensures StripWhitespace(parts[j]) == parts[j]
    {
      StripNoWhitespace(parts[j]);
    }
  }

  /** Stripping the raw view leaves every slot's eighteen digits, in order. */
  lemma RawViewStripped(rec: BoxNames)
    ensures var digits := StripWhitespace(RawViewText(rec));
            && |digits| == BoxNamesNibbleLength
            && forall i :: 0 <= i < BoxCount ==>
                 digits[18 * i .. 18 * i + 18] == StripWhitespace(Join(SlotDigits(rec[i]), " "))
  {
    var lines := seq(BoxCount, i requires 0 <= i < BoxCount => Join(SlotDigits(rec[i]), " "));
    var stripped := seq(BoxCount, i requires 0 <= i < BoxCount => StripWhitespace(lines[i]));
    assert StripWhitespace("\n") == "";
    StripJoin(lines, "\n");
    forall i | 0 <= i < BoxCount
      ensures |stripped[i]| == 18
    {
      SlotLineStripped(rec[i]);
    }
    ConcatFixed(stripped, 18);
  }

  /** Byte `k` of the stream has its two digits at `2k` of the stripped
      raw view. */
  lemma RawViewDigitPair(rec: BoxNames, k: nat)
    requires k < StreamLength
    ensures var digits := StripWhitespace(RawViewText(rec));
            && |digits| == BoxNamesNibbleLength
            && digits[2 * k .. 2 * k + 2] == ByteToHex(GetDataAsStream(rec)[k])
  {
    var i, j := SlotPosition(k);
    var digits := StripWhitespace(RawViewText(rec));
    var line := StripWhitespace(Join(SlotDigits(rec[i]), " "));
    RawViewStripped(rec);
    assert digits[18 * i .. 18 * i + 18] == line;
    assert line[2 * j .. 2 * j + 2] == ByteToHex(rec[i][j]) by {
      SlotLineStripped(rec[i]);
    }
    var b := GetDataAsStream(rec)[k];
    assert b == rec[i][j];
    PairInLine(digits, line, i, j, k);
    assert digits[2 * k .. 2 * k + 2] == line[2 * j .. 2 * j + 2];
    assert line[2 * j .. 2 * j + 2] == ByteToHex(b);
  }

  lemma PairInLine(digits: string, line: string, i: nat, j: nat, k: nat)
    requires |digits| == BoxNamesNibbleLength && i < BoxCount && j < SlotLength
    requires k == 9 * i + j
    requires digits[18 * i .. 18 * i + 18] == line
    ensures digits[2 * k .. 2 * k + 2] == line[2 * j .. 2 * j + 2]
  {
    assert 2 * k == 18 * i + 2 * j;
    assert line[2 * j] == digits[2 * k] && line[2 * j + 1] == digits[2 * k + 1];
  }

  /** The slot and offset of stream position `k`. */
  lemma SlotPosition(k: nat) returns (i: nat, j: nat)
    requires k < StreamLength
    ensures i < BoxCount && j < SlotLength && k == SlotLength * i + j
  {
    i, j := k / SlotLength, k % SlotLength;
  }

  /** Round trip: the raw view of a record parses back to the record's
      126-byte stream, so feeding the view back in restores the record. */
  lemma RawViewRoundTrip(rec: BoxNames, other: BoxNames)
    ensures ParseRawView(RawViewText(rec)) == Some(GetDataAsStream(rec))
    ensures RawViewInput(other, RawViewText(rec)) == rec
  {
    var stream := GetDataAsStream(rec);
    RawViewDigitsExact(rec);
    var parsed := ParseRawView(RawViewText(rec));
    forall k | 0 <= k < StreamLength
      ensures parsed.value[k] == stream[k]
    {
      RawViewDigitPair(rec, k);
    }
    assert parsed.value == stream;
    LoadAfterStream(rec, other);
  }

  /** The raw view's digits are already upper case and exactly 252 long. */
  lemma RawViewDigitsExact(rec: BoxNames)
    ensures RawViewDigits(RawViewText(rec)) == StripWhitespace(RawViewText(rec))
    ensures |StripWhitespace(RawViewText(rec))| == BoxNamesNibbleLength
    ensures AllUpperHex(StripWhitespace(RawViewText(rec)))
  {
    var stripped := StripWhitespace(RawViewText(rec));
    RawViewStripped(rec);
    forall p | 0 <= p < |stripped|
      ensures IsUpperHexDigit(stripped[p])
    {
      RawViewDigitUpper(rec, p);
    }
    UpperIsFixed(stripped);
  }

  lemma RawViewDigitUpper(rec: BoxNames, p: nat)
    requires p < BoxNamesNibbleLength
    ensures var stripped := StripWhitespace(RawViewText(rec));
            p < |stripped| && IsUpperHexDigit(stripped[p])
  {
    var k := p / 2;
    RawViewDigitPair(rec, k);
    DigitInPair(StripWhitespace(RawViewText(rec)), k, p, ByteToHex(GetDataAsStream(rec)[k]));
  }

  lemma DigitInPair(digits: string, k: nat, p: nat, pair: string)
    requires 2 * k + 2 <= |digits| && digits[2 * k .. 2 * k + 2] == pair
    requires AllUpperHex(pair) && k == p / 2
    ensures p < |digits| && IsUpperHexDigit(digits[p])
  {
    assert digits[p] == pair[p - 2 * k];
  }

  /** Upper-casing leaves upper-case hex digits alone. */
  lemma UpperIsFixed(s: string)
    requires AllUpperHex(s)
    ensures ToUpperAscii(s) == s
  {
  }

  /** The word size chosen by the u16/u32 radio buttons. */
  datatype WordSize = U16 | U32

  /** The byte order chosen by the endianness radio buttons. */
  datatype Endianness = Little | Big

  function ByteLength(size: WordSize): (n: nat)
    ensures n == 2 || n == 4
  {
    if size == U16 then 2 else 4
  }

  /** One line of the word view: the chunk's bytes as hex, in stream order,
      or reversed for big endian. */
  function WordText(chunk: seq<Byte>, endianness: Endianness): (r: string)
    ensures |r| == 2 * |chunk| && AllHex(r) && AllUpperHex(r)
    ensures forall j :: 0 <= j < |chunk| ==>
              && 2 * j + 2 <= |r|
              && r[2 * j .. 2 * j + 2]
                 == ByteToHex(chunk[if endianness == Big then |chunk| - 1 - j else j])
  {
    var buffer := HexPairs(chunk);
    var ordered := if endianness == Big then Reverse(buffer) else buffer;
    ConcatFixed(ordered, 2);
    ConcatUpperHex(ordered);
    Concat(ordered)
  }

  /** The buffer of the word view: each byte as two upper-case digits. */
  function HexPairs(chunk: seq<Byte>): (r: seq<string>)
    ensures |r| == |chunk|
    ensures forall j :: 0 <= j < |chunk| ==> r[j] == ByteToHex(chunk[j])
  {
    seq(|chunk|, j requires 0 <= j < |chunk| => ByteToHex(chunk[j]))
  }

  lemma {:induction false} ConcatUpperHex(parts: seq<string>)
    requires forall k :: 0 <= k < |parts| ==> AllUpperHex(parts[k])
    ensures AllUpperHex(Concat(parts))
  {
    if |parts| > 0 {
      ConcatUpperHex(parts[1..]);
      var head, tail := parts[0], Concat(parts[1..]);
      assert Concat(parts) == head + tail;
      forall p | 0 <= p < |head + tail|
        ensures IsUpperHexDigit((head + tail)[p])
      {
        if p >= |head| {
          assert (head + tail)[p] == tail[p - |head|];
        }
      }
    }
  }

  /** The whole words of `b`, `n` bytes each, in order; trailing bytes that
      do not fill a word are dropped. */
  function Words(b: seq<Byte>, n: nat): (words: seq<seq<Byte>>)
    requires n == 2 || n == 4
    ensures |words| == |b| / n
    ensures forall k :: 0 <= k < |words| ==> |words[k]| == n
    decreases |b|
  {
    if |b| < n then []
    else
      DivStep(|b|, n);
      [b[..n]] + Words(b[n..], n)
  }

  /** Word `k` is bytes `n * k` to `n * k + n` of `b`. */
  lemma WordAt(b: seq<Byte>, n: nat, k: nat)
    requires n == 2 || n == 4
    requires k < |Words(b, n)|
    ensures n * k + n <= |b|
    ensures Words(b, n)[k] == b[n * k .. n * k + n]
  {
    WordAtOffset(b, n, k);
    OffsetIsProduct(n, k);
  }

  lemma {:induction false} WordAtOffset(b: seq<Byte>, n: nat, k: nat)
    requires n == 2 || n == 4
    requires k < |Words(b, n)|
    ensures Offset(n, k) + n <= |b|
    ensures Words(b, n)[k] == b[Offset(n, k) .. Offset(n, k) + n]
    decreases k
  {
    var words := Words(b, n);
    assert n <= |b|;
    assert words == [b[..n]] + Words(b[n..], n);
    if k > 0 {
      WordAtOffset(b[n..], n, k - 1);
      var a := Offset(n, k - 1);
      SliceShift(b, n, a);
      assert words[k] == Words(b[n..], n)[k - 1];
    }
  }

  /** The word view's loop (`i < |b| - |b| % L`, stepping by `L`): line `k`
      shows the `k`-th whole word in the chosen byte order; trailing bytes
      that do not fill a word are not shown. */
  function UIntViewLines(b: seq<Byte>, size: WordSize, endianness: Endianness): (lines: seq<string>)
    ensures |lines| == |b| / ByteLength(size)
    ensures forall k :: 0 <= k < |lines| ==> UIntLine(b, ByteLength(size), endianness, k, lines[k])
  {
    var n := ByteLength(size);
    var words := Words(b, n);
    var lines := seq(|words|, k requires 0 <= k < |words| => WordText(words[k], endianness));
    assert forall k :: 0 <= k < |lines| ==> UIntLine(b, n, endianness, k, lines[k]) by {
      forall k | 0 <= k < |lines|
        ensures UIntLine(b, n, endianness, k, lines[k])
      {
        WordLine(b, n, endianness, k);
      }
    }
    lines
  }

  /** The word view's text, `out.join("\n")`: split at line breaks it gives
      one line per whole word, line `k` showing the `k`-th word. */
  function UIntViewText(b: seq<Byte>, size: WordSize, endianness: Endianness): (text: string)
    ensures var lines := Split(text, '\n');
            |b| >= ByteLength(size) ==>
              && |lines| == |b| / ByteLength(size)
              && forall k :: 0 <= k < |lines| ==> UIntLine(b, ByteLength(size), endianness, k, lines[k])
  {
    var lines := UIntViewLines(b, size, endianness);
    assert forall k :: 0 <= k < |lines| ==> '\n' !in lines[k] by {
      forall k | 0 <= k < |lines|
        ensures '\n' !in lines[k]
      {
        HexHasNoBreak(lines[k]);
      }
    }
    JoinedLinesSplit(lines);
    Join(lines, "\n")
  }

  /** Lines without line breaks, joined by line breaks, split back into
      the same lines. */
  lemma JoinedLinesSplit(lines: seq<string>)
    requires forall k :: 0 <= k < |lines| ==> '\n' !in lines[k]
    ensures |lines| > 0 ==> Split(Join(lines, "\n"), '\n') == lines
  {
    if |lines| > 0 {
      SplitJoin(lines, '\n');
    }
  }

  /** Hexadecimal digits hold no line break. */
  lemma HexHasNoBreak(s: string)
    requires AllHex(s)
    ensures '\n' !in s
  {
  }

  /** Line `k` of the word view: the bytes `n * k` to `n * k + n` of `b` as
      `2 * n` digits. */
  ghost predicate UIntLine(b: seq<Byte>, n: nat, endianness: Endianness, k: nat, line: string)
  {
    && n * k + n <= |b|
    && |line| == 2 * n
    && line == WordText(b[n * k .. n * k + n], endianness)
  }

  lemma WordLine(b: seq<Byte>, n: nat, endianness: Endianness, k: nat)
    requires n == 2 || n == 4
    requires k < |Words(b, n)|
    ensures UIntLine(b, n, endianness, k, WordText(Words(b, n)[k], endianness))
  {
    WordAt(b, n, k);
    var chunk := b[n * k .. n * k + n];
    assert |chunk| == n;
    assert |WordText(chunk, endianness)| == 2 * n;
  }

  lemma SliceShift(b: seq<Byte>, n: nat, a: nat)
    requires n + a + n <= |b|
    ensures b[n + a .. n + a + n] == b[n..][a .. a + n]
  {
  }

  lemma DivStep(m: nat, n: nat)
    requires n == 2 || n == 4
    requires n <= m
    ensures m / n == 1 + (m - n) / n
  {
    if n == 2 {
    } else {
    }
  }

  /** A big-endian line reads, as one hexadecimal number, the unsigned
      little-endian value of its bytes. */
  lemma {:induction false} BigEndianValue(chunk: seq<Byte>)
    ensures HexValue(WordText(chunk, Big)) == LittleEndian(chunk)
  {
    if |chunk| > 0 {
      BigEndianValue(chunk[1..]);
      BigTextStep(chunk);
      HexValueAppendPair(WordText(chunk[1..], Big), ByteToHex(chunk[0]));
    } else {
      assert WordText(chunk, Big) == [];
    }
  }

  /** The big-endian text of a word is that of its upper bytes followed by
      the digits of its first byte. */
  lemma BigTextStep(chunk: seq<Byte>)
    requires |chunk| > 0
    ensures WordText(chunk, Big) == WordText(chunk[1..], Big) + ByteToHex(chunk[0])
  {
    var pairs := HexPairs(chunk);
    assert pairs[1..] == HexPairs(chunk[1..]);
    assert Reverse(pairs) == Reverse(HexPairs(chunk[1..])) + [ByteToHex(chunk[0])];
    ConcatAppend(Reverse(HexPairs(chunk[1..])), ByteToHex(chunk[0]));
  }

  /** The code-generation word: `(b3 << 24) | (b2 << 16) | (b1 << 8) |
      (b0 << 0)` on int32, made unsigned by `>>> 0`. */
  function CodeGenWord(b0: Byte, b1: Byte, b2: Byte, b3: Byte): (x: nat)
    ensures x == LittleEndian([b0, b1, b2, b3])
    ensures x < Uint32Modulus
  {
    var x := ToUint32(Or32(Or32(Or32(ShiftLeft32(b3, 24), ShiftLeft32(b2, 16)),
                                ShiftLeft32(b1, 8)), ShiftLeft32(b0, 0)));
    CodeGenWordValue(b0, b1, b2, b3);
    x
  }

  lemma CodeGenWordValue(b0: Byte, b1: Byte, b2: Byte, b3: Byte)
    ensures ToUint32(Or32(Or32(Or32(ShiftLeft32(b3, 24), ShiftLeft32(b2, 16)),
                              ShiftLeft32(b1, 8)), ShiftLeft32(b0, 0)))
            == LittleEndian([b0, b1, b2, b3])
    ensures LittleEndian([b0, b1, b2, b3]) < Uint32Modulus
  {
    ShiftBytes(b0, b1, b2, b3);
    OrHighPair(b2, b3);
    var hi2 := b2 + b3 * 0x100;
    OrMiddle(b1, hi2);
    var hi1 := b1 + hi2 * 0x100;
    OrLow(b0, hi1);
    var x := b0 + hi1 * 0x100;
    ModSmall(x, Uint32Modulus);
    LittleEndianFour(b0, b1, b2, b3);
  }

  lemma ShiftBytes(b0: Byte, b1: Byte, b2: Byte, b3: Byte)
    ensures ShiftLeft32(b3, 24) == b3 * Pow2(24)
    ensures ShiftLeft32(b2, 16) == b2 * Pow2(16)
    ensures ShiftLeft32(b1, 8) == b1 * Pow2(8)
    ensures ShiftLeft32(b0, 0) == b0 * Pow2(0)
  {
    ShiftByteLeft(b3, 24);
    ShiftByteLeft(b2, 16);
    ShiftByteLeft(b1, 8);
    ShiftByteLeft(b0, 0);
  }

  lemma OrHighPair(b2: Byte, b3: Byte)
    ensures Or32(b3 * Pow2(24), b2 * Pow2(16)) == (b2 + b3 * 0x100) * 0x1_0000
  {
    Pow2Values();
    Or32Disjoint(b2 * Pow2(16), b3, 24);
  }

  lemma OrMiddle(b1: Byte, hi: nat)
    requires hi < 0x1_0000
    ensures Or32(hi * 0x1_0000, b1 * Pow2(8)) == (b1 + hi * 0x100) * 0x100
  {
    Pow2Values();
    Or32Disjoint(b1 * 0x100, hi, 16);
  }

  lemma OrLow(b0: Byte, hi: nat)
    requires hi < 0x100_0000
    ensures Or32(hi * 0x100, b0 * Pow2(0)) == b0 + hi * 0x100
  {
    Pow2Values();
    Or32Disjoint(b0, hi, 8);
  }

  lemma LittleEndianFour(b0: Byte, b1: Byte, b2: Byte, b3: Byte)
    ensures LittleEndian([b0, b1, b2, b3]) == b0 + b1 * 0x100 + b2 * 0x1_0000 + b3 * 0x100_0000
  {
    assert [b3][1..] == [];
    assert LittleEndian([b3]) == b3;
    assert [b2, b3][1..] == [b3];
    assert LittleEndian([b2, b3]) == b2 + 256 * b3;
    assert [b1, b2, b3][1..] == [b2, b3];
    assert LittleEndian([b1, b2, b3]) == b1 + 256 * (b2 + 256 * b3);
    assert [b0, b1, b2, b3][1..] == [b1, b2, b3];
    assert LittleEndian([b0, b1, b2, b3]) == b0 + 256 * (b1 + 256 * (b2 + 256 * b3));
  }

  /** One entry of the code-generation view: "0x" and eight upper-case
      digits, zero-padded. */
  function CodeGenEntry(x: nat): (r: string)
    requires x < Uint32Modulus
    ensures |r| == 10 && r[..2] == "0x"
    ensures AllUpperHex(r[2..]) && AllHex(r[2..]) && HexValue(r[2..]) == x
  {
    assert Pow16(8) == Uint32Modulus;
    var digits := FixedHex(x, 8, true);
    assert ("0x" + digits)[2..] == digits;
    "0x" + digits
  }

  /** The code-generation view's loop: one entry per whole 4-byte word;
      trailing bytes that do not fill a word are not shown. */
  function CodeGenLines(b: seq<Byte>): (lines: seq<string>)
    ensures |lines| == |b| / 4
    ensures forall k :: 0 <= k < |lines| ==> CodeGenLine(b, k, lines[k])
  {
    var words := Words(b, 4);
    var lines := seq(|words|, k requires 0 <= k < |words| => CodeGenWordEntry(words[k]));
    assert forall k :: 0 <= k < |lines| ==> CodeGenLine(b, k, lines[k]) by {
      forall k | 0 <= k < |lines|
        ensures CodeGenLine(b, k, lines[k])
      {
        WordAt(b, 4, k);
      }
    }
    lines
  }

  /** The code-generation view's text, `out.join("\n")`: split at line
      breaks it gives one entry per whole 4-byte word. */
  function CodeGenText(b: seq<Byte>): (text: string)
    ensures var lines := Split(text, '\n');
            |b| >= 4 ==>
              && |lines| == |b| / 4
              && forall k :: 0 <= k < |lines| ==> CodeGenLine(b, k, lines[k])
  {
    var lines := CodeGenLines(b);
    assert forall k :: 0 <= k < |lines| ==> '\n' !in lines[k] by {
      forall k | 0 <= k < |lines|
        ensures '\n' !in lines[k]
      {
        EntryHasNoBreak(lines[k]);
      }
    }
    JoinedLinesSplit(lines);
    Join(lines, "\n")
  }

  /** "0x" and hexadecimal digits hold no line break. */
  lemma EntryHasNoBreak(line: string)
    requires |line| >= 2 && line[..2] == "0x" && AllHex(line[2..])
    ensures '\n' !in line
  {
    HexHasNoBreak(line[2..]);
    assert line == line[..2] + line[2..];
  }

  /** The entry for one 4-byte word. */
  function CodeGenWordEntry(w: seq<Byte>): (r: string)
    requires |w| == 4
    ensures |r| == 10 && r[..2] == "0x"
    ensures AllUpperHex(r[2..]) && AllHex(r[2..]) && HexValue(r[2..]) == LittleEndian(w)
  {
    assert w == [w[0], w[1], w[2], w[3]];
    CodeGenEntry(CodeGenWord(w[0], w[1], w[2], w[3]))
  }

  /** Entry `k` of the code-generation view: "0x" and eight upper-case
      digits whose value is the little-endian word at bytes `4 * k` to
      `4 * k + 4`. */
  ghost predicate CodeGenLine(b: seq<Byte>, k: nat, line: string)
  {
    && 4 * k + 4 <= |b|
    && |line| == 10 && line[..2] == "0x"
    && AllUpperHex(line[2..]) && AllHex(line[2..])
    && HexValue(line[2..]) == LittleEndian(b[4 * k .. 4 * k + 4])
  }
}
