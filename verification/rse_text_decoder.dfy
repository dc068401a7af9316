/** rse-text-decoder.ts: the converter from box names typed into the form
    to the bytes they are stored as, and three views of those bytes — raw
    rows of nine, Thumb opcodes (two bytes) and ARM opcodes (four bytes).
    The character tables are parameters: `substitute` stands for
    `substituteChar(_, lang)` and `charMap` for `getReverseCharacterMap(lang)`. */
module RseTextDecoder {
  import opened Wrappers
  import opened Bytes
  import opened Hex
  import opened Strings
  import opened LegacyCommon
  import BoxNameCodec

  /** The error `readInput` throws ("Invalid characters in input"). */
  datatype InputError = InvalidCharacters

  /** The three text areas the converter fills. */
  datatype Views = Views(raw: string, thumb: string, arm: string)

  /** A character the encoder takes: its substitute has an entry in the
      map and that entry is truthy, so a character mapped to 0x00 is
      refused like a missing one. */
  predicate Accepted(c: char, substitute: char -> string, charMap: map<string, Byte>)
  {
    substitute(c) in charMap && charMap[substitute(c)] != 0
  }

  /** The bytes of one character: its substitute through the map. */
  function CharByte(c: char, substitute: char -> string, charMap: map<string, Byte>): Byte
    requires Accepted(c, substitute, charMap)
  {
    charMap[substitute(c)]
  }

  /** Every character of a line through the map, or the error at the first
      character refused. */
  function EncodeChars(line: string, substitute: char -> string, charMap: map<string, Byte>)
    : (r: Result<seq<Byte>, InputError>)
    ensures r.Success? <==> forall k :: 0 <= k < |line| ==> Accepted(line[k], substitute, charMap)
    ensures r.Success? ==>
              && |r.value| == |line|
              && forall k :: 0 <= k < |line| ==>
                   r.value[k] == charMap[substitute(line[k])] && r.value[k] != 0
  {
    if |line| == 0 then Success([])
    else if !Accepted(line[0], substitute, charMap) then Failure(InvalidCharacters)
    else
      match EncodeChars(line[1..], substitute, charMap)
      case Failure(e) => Failure(e)
      case Success(rest) =>
        var bytes := [CharByte(line[0], substitute, charMap)] + rest;
        assert forall k :: 1 <= k < |line| ==> line[k] == line[1..][k - 1];
        Success(bytes)
  }

  /** What the loop body pushes after the padding for one line: the line's
      bytes, or nine 0xFF for an empty line. */
  function EncodeLine(line: string, substitute: char -> string, charMap: map<string, Byte>)
    : (r: Result<seq<Byte>, InputError>)
    ensures r.Success? <==> forall k :: 0 <= k < |line| ==> Accepted(line[k], substitute, charMap)
    ensures r.Success? && |line| > 0 ==>
              && |r.value| == |line|
              && forall k :: 0 <= k < |line| ==> r.value[k] == charMap[substitute(line[k])]
    ensures r.Success? && |line| == 0 ==> r.value == seq(RowLength, _ => Unused)
  {
    if |line| == 0 then Success(seq(RowLength, _ => Unused))
    else EncodeChars(line, substitute, charMap)
  }

  /** Every line of `names` accepted. */
  ghost predicate AllAccepted(names: seq<string>, substitute: char -> string, charMap: map<string, Byte>)
  {
    forall i, k :: 0 <= i < |names| && 0 <= k < |names[i]| ==> Accepted(names[i][k], substitute, charMap)
  }

  /** The bytes of each line, when all are accepted. */
  function Encodings(names: seq<string>, substitute: char -> string, charMap: map<string, Byte>)
    : (parts: seq<seq<Byte>>)
    requires AllAccepted(names, substitute, charMap)
    ensures |parts| == |names|
    ensures forall i :: 0 <= i < |names| ==>
              EncodeLine(names[i], substitute, charMap) == Success(parts[i])
  {
    seq(|names|, i requires 0 <= i < |names| => EncodeLine(names[i], substitute, charMap).value)
  }

  /** The loop of `readInput` from `data` on. */
  function ReadLines(data: seq<Byte>, names: seq<string>, substitute: char -> string,
                     charMap: map<string, Byte>): (r: Result<seq<Byte>, InputError>)
    ensures r.Success? <==> AllAccepted(names, substitute, charMap)
    ensures r.Success? ==> r.value == Layout(data, Encodings(names, substitute, charMap))
    decreases |names|
  {
    if |names| == 0 then Success(data)
    else
      match EncodeLine(names[0], substitute, charMap)
      case Failure(e) => Failure(e)
      case Success(bytes) =>
        var r := ReadLines(data + AddFFPadding(data, RowLength) + bytes, names[1..], substitute, charMap);
        assert forall i :: 1 <= i < |names| ==> names[i] == names[1..][i - 1];
        assert AllAccepted(names[1..], substitute, charMap) ==>
                 Encodings(names, substitute, charMap)[1..] == Encodings(names[1..], substitute, charMap);
        r
  }

  /** `readInput`: throws unless every character of every name is accepted;
      otherwise the names laid out nine bytes apart. */
  function ReadInput(names: seq<string>, substitute: char -> string, charMap: map<string, Byte>)
    : (r: Result<seq<Byte>, InputError>)
    ensures r.Success? <==> AllAccepted(names, substitute, charMap)
    ensures r.Success? ==> r.value == Layout([], Encodings(names, substitute, charMap))
  {
    ReadLines([], names, substitute, charMap)
  }

  /** The bytes of the raw view: the input padded with 0xFF to a multiple
      of nine (line 101). */
  function PaddedRawData(boxNames: seq<Byte>): (raw: seq<Byte>)
    ensures |raw| % RowLength == 0 && |boxNames| <= |raw| < |boxNames| + RowLength
    ensures raw[..|boxNames|] == boxNames
    ensures forall k :: |boxNames| <= k < |raw| ==> raw[k] == Unused
  {
    boxNames + AddFFPadding(boxNames, RowLength)
  }

  /** Names the form can hold (at most nine characters, the inputs'
      `maxLength`), all accepted: after the final padding name `k` occupies
      bytes `9 * k` to `9 * k + 9` — its characters' bytes, then 0xFF; an
      empty name is nine 0xFF. */
  lemma NamesInSlots(names: seq<string>, substitute: char -> string, charMap: map<string, Byte>)
    requires forall i :: 0 <= i < |names| ==> |names[i]| <= RowLength
    requires AllAccepted(names, substitute, charMap)
    ensures var padded := PaddedRawData(ReadInput(names, substitute, charMap).value);
            && |padded| == 9 * |names|
            && forall k, j :: 0 <= k < |names| && 0 <= j < RowLength ==>
                 padded[9 * k + j] == SlotByte(names[k], j, substitute, charMap)
  {
    var parts := Encodings(names, substitute, charMap);
    var raw := ReadInput(names, substitute, charMap).value;
    var padded := PaddedRawData(raw);
    LayoutSlots(parts);
    forall k, j | 0 <= k < |names| && 0 <= j < RowLength
      ensures padded[9 * k + j] == SlotByte(names[k], j, substitute, charMap)
    {
      assert padded[9 * k .. 9 * k + 9] == FillSlot(parts[k]);
      assert padded[9 * k + j] == padded[9 * k .. 9 * k + 9][j];
      FilledLineByte(names[k], parts[k], j, substitute, charMap);
    }
  }

  lemma FilledLineByte(name: string, part: seq<Byte>, j: nat, substitute: char -> string,
                       charMap: map<string, Byte>)
    requires |name| <= RowLength && j < RowLength
    requires forall k :: 0 <= k < |name| ==> Accepted(name[k], substitute, charMap)
    requires EncodeLine(name, substitute, charMap) == Success(part)
    ensures |part| <= RowLength && FillSlot(part)[j] == SlotByte(name, j, substitute, charMap)
  {
  }

  /** Byte `j` of the slot of an accepted name of at most nine characters. */
  function SlotByte(name: string, j: nat, substitute: char -> string, charMap: map<string, Byte>): Byte
    requires forall k :: 0 <= k < |name| ==> Accepted(name[k], substitute, charMap)
  {
    if j < |name| then
      assert Accepted(name[j], substitute, charMap);
      charMap[substitute(name[j])]
    else Unused
  }

  /** Fourteen such names give exactly the stream `BoxNames.setNamesFromBytes`
      accepts, and loading it puts name `k` in box `k`. */
  lemma NamesLoadIntoBoxes(rec: BoxNameCodec.BoxNames, names: seq<string>,
                           substitute: char -> string, charMap: map<string, Byte>)
    requires |names| == BoxNameCodec.BoxCount
    requires forall i :: 0 <= i < |names| ==> |names[i]| <= RowLength
    requires AllAccepted(names, substitute, charMap)
    ensures var padded := PaddedRawData(ReadInput(names, substitute, charMap).value);
            var loaded := BoxNameCodec.SetNamesFromBytes(rec, padded);
            && loaded.thrown.None?
            && forall k, j :: 0 <= k < BoxNameCodec.BoxCount && 0 <= j < BoxNameCodec.SlotLength ==>
                 loaded.data[k][j] == SlotByte(names[k], j, substitute, charMap)
  {
    NamesInSlots(names, substitute, charMap);
  }

  // The opcode views.

  /** `readOpcodes(rawData, L)`: one opcode per started word of `L` bytes.
      The loop runs over the padded length but slices the unpadded data, so
      the last word is built from the bytes that remain (the missing high
      bytes read as zero). */
  function ReadOpcodes(rawData: seq<Byte>, L: nat): (opcodes: seq<nat>)
    requires L > 0
    ensures L * |opcodes| == |rawData| + |AddFFPadding(rawData, L)|
    ensures forall k :: 0 <= k < |opcodes| ==> ReadsWord(opcodes[k], rawData, L, k)
  {
    var chunks := Chunks(rawData, L);
    ChunksCount(rawData, L);
    forall k | 0 <= k < |chunks|
      ensures ReadsWord(PackWord(chunks[k]), rawData, L, k)
    {
      ChunkWord(rawData, L, k);
    }
    seq(|chunks|, k requires 0 <= k < |chunks| => PackWord(chunks[k]))
  }

  /** Opcode `k` of `readOpcodes`: the packed bytes `L * k` up to
      `L * k + L`, cut at the end of the data; below 2^32, and their
      little-endian value when a word has at most four bytes. */
  ghost predicate ReadsWord(x: nat, rawData: seq<Byte>, L: nat, k: nat)
  {
    var start := L * k;
    && 0 < L && 0 <= start < |rawData|
    && var word := rawData[start .. Min(start + L, |rawData|)];
       && x == PackWord(word)
       && x < Uint32Modulus
       && (L <= 4 ==> x == LittleEndian(word))
  }

  lemma ChunkWord(rawData: seq<Byte>, L: nat, k: nat)
    requires L > 0 && k < |Chunks(rawData, L)|
    ensures ReadsWord(PackWord(Chunks(rawData, L)[k]), rawData, L, k)
  {
    ChunkAt(rawData, L, k);
  }

  /** The Thumb and ARM views: `writeOpcodeDisplay(opcodes, width)` pads
      with spaces, `padStart`'s default. */
  function OpcodeView(bytes: seq<Byte>, L: nat, width: nat): (text: string)
    requires L > 0
  {
    OpcodeDisplay(ReadOpcodes(bytes, L), width, ' ')
  }

  /** Line `k` of an opcode view, its spaces removed, reads back as the
      little-endian word at bytes `L * k` up to `L * k + L` (fewer at the
      end), and the line is `width` characters wide. */
  ghost predicate OpcodeLinesRead(lines: seq<string>, bytes: seq<Byte>, L: nat, width: nat)
    requires L > 0
  {
    && L * |lines| == |bytes| + |AddFFPadding(bytes, L)|
    && forall k :: 0 <= k < |lines| ==> OpcodeLineRead(lines[k], bytes, L, width, k)
  }

  ghost predicate OpcodeLineRead(line: string, bytes: seq<Byte>, L: nat, width: nat, k: nat)
  {
    var start := L * k;
    && 0 <= start < |bytes|
    && |line| == width
    && AllHex(StripWhitespace(line))
    && HexValue(StripWhitespace(line)) == LittleEndian(bytes[start .. Min(start + L, |bytes|)])
  }

  /** Both opcode views read back word by word: Thumb words of two bytes in
      four columns, ARM words of four bytes in eight. */
  lemma OpcodeViewReadsBack(bytes: seq<Byte>, L: nat, width: nat)
    requires |bytes| > 0
    requires (L == 2 && width == 4) || (L == 4 && width == 8)
    ensures OpcodeLinesRead(Split(OpcodeView(bytes, L, width), '\n'), bytes, L, width)
  {
    var opcodes := ReadOpcodes(bytes, L);
    assert |opcodes| > 0;
    OpcodeDisplayReadsBack(opcodes, width, ' ');
    var lines := Split(OpcodeView(bytes, L, width), '\n');
    forall k | 0 <= k < |lines|
      ensures OpcodeLineRead(lines[k], bytes, L, width, k)
    {
      OpcodeLineOfView(bytes, L, width, k, opcodes, lines[k]);
    }
  }

  lemma OpcodeLineOfView(bytes: seq<Byte>, L: nat, width: nat, k: nat, opcodes: seq<nat>, line: string)
    requires (L == 2 && width == 4) || (L == 4 && width == 8)
    requires opcodes == ReadOpcodes(bytes, L) && k < |opcodes|
    requires line == OpcodeText(opcodes[k], width, ' ')
    ensures OpcodeLineRead(line, bytes, L, width, k)
  {
    assert ReadsWord(opcodes[k], bytes, L, k);
    var start := L * k;
    OpcodeLineReads(opcodes[k], bytes[start .. Min(start + L, |bytes|)], L, width);
  }

  lemma OpcodeLineReads(x: nat, chunk: seq<Byte>, L: nat, width: nat)
    requires (L == 2 && width == 4) || (L == 4 && width == 8)
    requires |chunk| <= L && x == LittleEndian(chunk)
    ensures var line := OpcodeText(x, width, ' ');
            && |line| == width
            && AllHex(StripWhitespace(line))
            && HexValue(StripWhitespace(line)) == LittleEndian(chunk)
  {
    WordFitsColumns(chunk, L, width);
    SpacedWord(x, width);
  }

  lemma SpacedWord(x: nat, width: nat)
    requires 1 <= width && x < Pow16(width)
    ensures var line := OpcodeText(x, width, ' ');
            |line| == width && AllHex(StripWhitespace(line)) && HexValue(StripWhitespace(line)) == x
  {
  }

  /** A word of `L` bytes or fewer fits `width = 2 * L` hexadecimal columns. */
  lemma WordFitsColumns(chunk: seq<Byte>, L: nat, width: nat)
    requires (L == 2 && width == 4) || (L == 4 && width == 8)
    requires |chunk| <= L
    ensures LittleEndian(chunk) < Pow16(width)
  {
    LittleEndianBound(chunk);
    Pow2Values();
    assert Pow2(0) == 1;
    assert Pow16(4) == 0x1_0000;
    assert Pow16(8) == Uint32Modulus;
    assert |chunk| == 0 || |chunk| == 1 || |chunk| == 2 || |chunk| == 3 || |chunk| == 4;
  }

  /** A non-empty list of names gives a non-empty byte list. */
  lemma {:induction false} LayoutNonEmpty(data: seq<Byte>, parts: seq<seq<Byte>>)
    requires |parts| > 0 && |parts[0]| > 0
    ensures |Layout(data, parts)| > 0
    decreases |parts|
  {
    LayoutGrows(data + AddFFPadding(data, RowLength) + parts[0], parts[1..]);
  }

  lemma {:induction false} LayoutGrows(data: seq<Byte>, parts: seq<seq<Byte>>)
    ensures |Layout(data, parts)| >= |data|
    decreases |parts|
  {
    if |parts| > 0 {
      LayoutGrows(data + AddFFPadding(data, RowLength) + parts[0], parts[1..]);
    }
  }

  /** The convert button's handler: the alert when `readInput` throws,
      otherwise the three views. Each view reads back as the bytes of the
      names: the raw view row by row from the bytes padded to nine, the
      Thumb and ARM views word by word from the unpadded bytes. */
  function Convert(names: seq<string>, substitute: char -> string, charMap: map<string, Byte>)
    : (r: Result<Views, InputError>)
    requires |names| > 0
    ensures r.Failure? <==> !AllAccepted(names, substitute, charMap)
    ensures r.Success? ==>
              var bytes := ReadInput(names, substitute, charMap).value;
              && |bytes| > 0
              && (var rawLines := Split(r.value.raw, '\n');
                  |rawLines| == |PaddedRawData(bytes)| / RowLength &&
                  forall i :: 0 <= i < |rawLines| ==> LineReadsAs(rawLines[i], PaddedRawData(bytes), i))
              && OpcodeLinesRead(Split(r.value.thumb, '\n'), bytes, 2, 4)
              && OpcodeLinesRead(Split(r.value.arm, '\n'), bytes, 4, 8)
  {
    match ReadInput(names, substitute, charMap)
    case Failure(e) => Failure(e)
    case Success(bytes) =>
      var parts := Encodings(names, substitute, charMap);
      LayoutNonEmpty([], parts);
      RawDataReadsBack(PaddedRawData(bytes));
      RowCountExact(|Split(FormatRawData(PaddedRawData(bytes)), '\n')|, |PaddedRawData(bytes)|);
      OpcodeViewReadsBack(bytes, 2, 4);
      OpcodeViewReadsBack(bytes, 4, 8);
      Success(Views(FormatRawData(PaddedRawData(bytes)), OpcodeView(bytes, 2, 4), OpcodeView(bytes, 4, 8)))
  }
}
