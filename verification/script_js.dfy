/** script.js: the JavaScript version of the converter. It reads the same
    form, but differs from rse-text-decoder.ts in four places: a character
    passes when its substitute is a key of the map (so one mapped to 0x00
    passes), an empty name pushes one nested array where the TypeScript
    pushes nine 0xFF bytes (the handler here reads through the corrected
    reader; the code as written is modelled beside it), the opcodes are read
    from the bytes padded with 0xFF (so the last word has 0xFF, not zero, in
    its missing high bytes), and the opcode views are padded with '0'
    rather than spaces. The character tables are parameters, as in the
    TypeScript model; the two files load them through different functions. */
module ScriptJs {
  import opened Wrappers
  import opened Bytes
  import opened Hex
  import opened Strings
  import opened LegacyCommon
  import RseTextDecoder

  /** The error `getBoxNames` throws ("Invalid character"). */
  datatype InputError = InvalidCharacter

  // Reading the names.

  /** The test of line 79: the substitute is a key of the map, whatever
      byte it maps to. */
  predicate Known(c: char, substitute: char -> string, charMap: map<string, Byte>)
  {
    substitute(c) in charMap
  }

  ghost predicate AllKnown(names: seq<string>, substitute: char -> string, charMap: map<string, Byte>)
  {
    forall i, k :: 0 <= i < |names| && 0 <= k < |names[i]| ==> Known(names[i][k], substitute, charMap)
  }

  /** One line through the map: the whole line is checked before any byte
      is pushed, and a single unknown character rejects it. */
  function EncodeName(line: string, substitute: char -> string, charMap: map<string, Byte>)
    : (r: Result<seq<Byte>, InputError>)
    ensures r.Success? <==> forall k :: 0 <= k < |line| ==> Known(line[k], substitute, charMap)
    ensures r.Success? ==>
              && |r.value| == |line|
              && forall k :: 0 <= k < |line| ==> r.value[k] == charMap[substitute(line[k])]
  {
    if forall k :: 0 <= k < |line| ==> Known(line[k], substitute, charMap) then
      Success(seq(|line|, k requires 0 <= k < |line| => charMap[substitute(line[k])]))
    else
      Failure(InvalidCharacter)
  }

  /** The bytes a line stands for once its slot is filled: its characters,
      or nine 0xFF for an empty line. */
  function NameBytes(line: string, substitute: char -> string, charMap: map<string, Byte>)
    : (bytes: seq<Byte>)
    requires forall k :: 0 <= k < |line| ==> Known(line[k], substitute, charMap)
  {
    if |line| == 0 then seq(RowLength, _ => Unused) else EncodeName(line, substitute, charMap).value
  }

  function NameParts(names: seq<string>, substitute: char -> string, charMap: map<string, Byte>)
    : (parts: seq<seq<Byte>>)
    requires AllKnown(names, substitute, charMap)
  {
    seq(|names|, i requires 0 <= i < |names| => NameBytes(names[i], substitute, charMap))
  }

  /** The loop of `getBoxNames` from `data` on, with the empty line pushing
      nine separate 0xFF bytes. */
  function ReadNames(data: seq<Byte>, names: seq<string>, substitute: char -> string,
                     charMap: map<string, Byte>): (r: Result<seq<Byte>, InputError>)
    ensures r.Success? <==> AllKnown(names, substitute, charMap)
    ensures r.Success? ==> r.value == Layout(data, NameParts(names, substitute, charMap))
    decreases |names|
  {
    if |names| == 0 then Success(data)
    else
      match EncodeName(names[0], substitute, charMap)
      case Failure(e) => Failure(e)
      case Success(bytes) =>
        var pushed := if |names[0]| == 0 then bytes + seq(RowLength, _ => Unused) else bytes;
        assert pushed == NameBytes(names[0], substitute, charMap);
        var r := ReadNames(data + AddFFPadding(data, RowLength) + pushed, names[1..], substitute, charMap);
        assert forall i :: 1 <= i < |names| ==> names[i] == names[1..][i - 1];
        assert AllKnown(names[1..], substitute, charMap) ==>
                 NameParts(names, substitute, charMap)[1..] == NameParts(names[1..], substitute, charMap);
        r
  }

  /** `getBoxNames` as the form evidently means it: the names laid out
      nine bytes apart, or the error if a character is unknown. */
  function GetBoxNames(names: seq<string>, substitute: char -> string, charMap: map<string, Byte>)
    : (r: Result<seq<Byte>, InputError>)
    ensures r.Success? <==> AllKnown(names, substitute, charMap)
    ensures r.Success? ==> r.value == Layout([], NameParts(names, substitute, charMap))
  {
    ReadNames([], names, substitute, charMap)
  }

  /** Byte `j` of the slot of a known name of at most nine characters. */
  function KnownSlotByte(name: string, j: nat, substitute: char -> string, charMap: map<string, Byte>): Byte
    requires forall k :: 0 <= k < |name| ==> Known(name[k], substitute, charMap)
  {
    if j < |name| then
      assert Known(name[j], substitute, charMap);
      charMap[substitute(name[j])]
    else Unused
  }

  /** Names the form can hold, all known: once the raw view pads the
      bytes to nine, name `k` occupies bytes `9 * k` to `9 * k + 9` — its
      characters' bytes, then 0xFF; an empty name is nine 0xFF. */
  lemma NamesInSlots(names: seq<string>, substitute: char -> string, charMap: map<string, Byte>)
    requires forall i :: 0 <= i < |names| ==> |names[i]| <= RowLength
    requires AllKnown(names, substitute, charMap)
    ensures var padded := RseTextDecoder.PaddedRawData(GetBoxNames(names, substitute, charMap).value);
            && |padded| == 9 * |names|
            && forall k, j :: 0 <= k < |names| && 0 <= j < RowLength ==>
                 padded[9 * k + j] == KnownSlotByte(names[k], j, substitute, charMap)
  {
    var parts := NameParts(names, substitute, charMap);
    var padded := RseTextDecoder.PaddedRawData(GetBoxNames(names, substitute, charMap).value);
    LayoutSlots(parts);
    forall k, j | 0 <= k < |names| && 0 <= j < RowLength
      ensures padded[9 * k + j] == KnownSlotByte(names[k], j, substitute, charMap)
    {
      assert padded[9 * k .. 9 * k + 9] == FillSlot(parts[k]);
      assert padded[9 * k + j] == padded[9 * k .. 9 * k + 9][j];
      FilledNameByte(names[k], parts[k], j, substitute, charMap);
    }
  }

  lemma FilledNameByte(name: string, part: seq<Byte>, j: nat, substitute: char -> string,
                       charMap: map<string, Byte>)
    requires |name| <= RowLength && j < RowLength
    requires forall k :: 0 <= k < |name| ==> Known(name[k], substitute, charMap)
    requires part == NameBytes(name, substitute, charMap)
    ensures |part| <= RowLength && FillSlot(part)[j] == KnownSlotByte(name, j, substitute, charMap)
  {
  }

  /** Characters mapped to 0x00 are the only difference between the two
      acceptance tests. */
  ghost predicate NoZeroBytes(names: seq<string>, substitute: char -> string, charMap: map<string, Byte>)
  {
    forall i, k :: 0 <= i < |names| && 0 <= k < |names[i]| && Known(names[i][k], substitute, charMap) ==>
      charMap[substitute(names[i][k])] != 0
  }

  /** The TypeScript reader accepts exactly the inputs this one accepts
      that use no character mapped to 0x00, and then both give the same
      bytes. */
  lemma EncodersAgree(names: seq<string>, substitute: char -> string, charMap: map<string, Byte>)
    ensures RseTextDecoder.ReadInput(names, substitute, charMap).Success? <==>
              GetBoxNames(names, substitute, charMap).Success? && NoZeroBytes(names, substitute, charMap)
    ensures RseTextDecoder.ReadInput(names, substitute, charMap).Success? ==>
              RseTextDecoder.ReadInput(names, substitute, charMap).value ==
              GetBoxNames(names, substitute, charMap).value
  {
    if RseTextDecoder.AllAccepted(names, substitute, charMap) {
      var a := RseTextDecoder.Encodings(names, substitute, charMap);
      var b := NameParts(names, substitute, charMap);
      forall i | 0 <= i < |names|
        ensures a[i] == b[i]
      {
        assert RseTextDecoder.EncodeLine(names[i], substitute, charMap) == Success(a[i]);
      }
      assert a == b;
    }
  }

  // The code as written: line 83 pushes one element, an array.

  /** An element of the JavaScript array `data`: a byte, or the nine-element
      array that line 83 pushes whole. */
  datatype Cell = Value(b: Byte) | Nested(elements: seq<Byte>)

  function Cells(bytes: seq<Byte>): (cells: seq<Cell>)
    ensures |cells| == |bytes|
    ensures forall k :: 0 <= k < |bytes| ==> cells[k] == Value(bytes[k])
  {
    seq(|bytes|, k requires 0 <= k < |bytes| => Value(bytes[k]))
  }

  /** The loop of `getBoxNames` as written: `data.push(Array(9).fill(0xFF))`
      adds a single element, and the next padding counts it as one. */
  function ReadNamesAsWritten(data: seq<Cell>, names: seq<string>, substitute: char -> string,
                              charMap: map<string, Byte>): (r: Result<seq<Cell>, InputError>)
    ensures r.Success? <==> AllKnown(names, substitute, charMap)
    decreases |names|
  {
    if |names| == 0 then Success(data)
    else
      match EncodeName(names[0], substitute, charMap)
      case Failure(e) => Failure(e)
      case Success(bytes) =>
        var pushed := if |names[0]| == 0 then [Nested(seq(RowLength, _ => Unused))] else [];
        var r := ReadNamesAsWritten(data + Cells(AddFFPadding(data, RowLength)) + Cells(bytes) + pushed,
                                    names[1..], substitute, charMap);
        assert forall i :: 1 <= i < |names| ==> names[i] == names[1..][i - 1];
        r
  }

  function GetBoxNamesAsWritten(names: seq<string>, substitute: char -> string, charMap: map<string, Byte>)
    : (r: Result<seq<Cell>, InputError>)
    ensures r.Success? <==> AllKnown(names, substitute, charMap)
  {
    ReadNamesAsWritten([], names, substitute, charMap)
  }

  /** Without empty names the code as written is the corrected reader,
      element for element. */
  lemma {:induction false} AsWrittenWithoutEmptyNames(data: seq<Byte>, names: seq<string>,
                                                      substitute: char -> string, charMap: map<string, Byte>)
    requires forall i :: 0 <= i < |names| ==> |names[i]| > 0
    requires AllKnown(names, substitute, charMap)
    ensures ReadNamesAsWritten(Cells(data), names, substitute, charMap) ==
            Success(Cells(ReadNames(data, names, substitute, charMap).value))
    decreases |names|
  {
    if |names| > 0 {
      var bytes := EncodeName(names[0], substitute, charMap).value;
      var next := data + AddFFPadding(data, RowLength) + bytes;
      assert AddFFPadding(Cells(data), RowLength) == AddFFPadding(data, RowLength);
      assert Cells(data) + Cells(AddFFPadding(data, RowLength)) + Cells(bytes) + [] == Cells(next);
      assert ReadNamesAsWritten(Cells(data), names, substitute, charMap)
          == ReadNamesAsWritten(Cells(next), names[1..], substitute, charMap);
      assert ReadNames(data, names, substitute, charMap) == ReadNames(next, names[1..], substitute, charMap);
      assert forall i :: 1 <= i < |names| ==> names[i] == names[1..][i - 1];
      AsWrittenWithoutEmptyNames(next, names[1..], substitute, charMap);
    }
  }

  /** An empty box followed by a name: the code as written starts the
      stream with one nested array where the corrected reader has the
      first of nine 0xFF bytes, and the whole slot is then one element
      short of nine values. */
  lemma EmptyNameNestsArray(name: string, substitute: char -> string, charMap: map<string, Byte>)
    requires |name| > 0
    requires forall k :: 0 <= k < |name| ==> Known(name[k], substitute, charMap)
    ensures var bytes := EncodeName(name, substitute, charMap).value;
            && GetBoxNamesAsWritten(["", name], substitute, charMap) ==
               Success([Nested(seq(RowLength, _ => Unused))] + Cells(seq(RowLength - 1, _ => Unused)) + Cells(bytes))
            && GetBoxNames(["", name], substitute, charMap) ==
               Success(seq(RowLength, _ => Unused) + bytes)
  {
    var names := ["", name];
    var bytes := EncodeName(name, substitute, charMap).value;
    var nested := [Nested(seq(RowLength, _ => Unused))];
    var ones := seq(RowLength, _ => Unused);
    assert names[1..] == [name];
    assert [name][1..] == [];
    assert EncodeName("", substitute, charMap) == Success([]);
    var noCells: seq<Cell> := [];
    assert AddFFPadding(noCells, RowLength) == [];
    assert noCells + Cells([]) + Cells([]) + nested == nested;
    assert ReadNamesAsWritten(noCells, names, substitute, charMap)
        == ReadNamesAsWritten(nested, [name], substitute, charMap);
    assert AddFFPadding(nested, RowLength) == seq(RowLength - 1, _ => Unused);
    var cells := nested + Cells(seq(RowLength - 1, _ => Unused)) + Cells(bytes);
    assert cells + [] == cells;
    assert ReadNamesAsWritten(nested, [name], substitute, charMap)
        == ReadNamesAsWritten(cells, [], substitute, charMap);
    var noBytes: seq<Byte> := [];
    assert AddFFPadding(noBytes, RowLength) == [];
    assert noBytes + noBytes + (noBytes + ones) == ones;
    assert ReadNames([], names, substitute, charMap) == ReadNames(ones, [name], substitute, charMap);
    assert AddFFPadding(ones, RowLength) == [];
    assert ones + [] + bytes == ones + bytes;
  }

  // The opcodes.

  /** `extractOpcodes(rawBoxNames, L)`: the bytes padded with 0xFF to a
      multiple of `L`, read in whole words of `L` bytes. */
  function ExtractOpcodes(rawBoxNames: seq<Byte>, L: nat): (opcodes: seq<nat>)
    requires L > 0
    ensures var rawData := rawBoxNames + AddFFPadding(rawBoxNames, L);
            && L * |opcodes| == |rawData|
            && forall k :: 0 <= k < |opcodes| ==>
                 && 0 <= L * k && L * k + L <= |rawData|
                 && opcodes[k] == PackWord(rawData[L * k .. L * k + L])
                 && opcodes[k] < Uint32Modulus
  {
    var rawData := rawBoxNames + AddFFPadding(rawBoxNames, L);
    var chunks := Chunks(rawData, L);
    ChunksCount(rawData, L);
    assert |AddFFPadding(rawData, L)| == 0;
    forall k | 0 <= k < |chunks|
      ensures 0 <= L * k && L * k + L <= |rawData| && chunks[k] == rawData[L * k .. L * k + L]
    {
      ChunkAt(rawData, L, k);
      MulMono(L, 0, k);
      MulSucc(L, k);
      MulMono(L, k + 1, |chunks|);
    }
    seq(|chunks|, k requires 0 <= k < |chunks| => PackWord(chunks[k]))
  }

  /** What 0xFF in the top `m` of `L` bytes adds to a word whose top `m`
      bytes are zero. */
  function HighBytesSet(m: nat, L: nat): nat
    requires m <= L
  {
    (Pow2(8 * m) - 1) * Pow2(8 * (L - m))
  }

  /** The two versions read the same words except the last: where the
      TypeScript version leaves the missing high bytes zero, this one sets
      them to 0xFF. */
  lemma ExtractAgreesWithReadOpcodes(raw: seq<Byte>, L: nat)
    requires 0 < L <= 4
    ensures var ext := ExtractOpcodes(raw, L);
            var rd := RseTextDecoder.ReadOpcodes(raw, L);
            var pad := AddFFPadding(raw, L);
            && |ext| == |rd|
            && forall k :: 0 <= k < |ext| ==>
                 ext[k] == rd[k] + (if k == |ext| - 1 then HighBytesSet(|pad|, L) else 0)
  {
    var ext := ExtractOpcodes(raw, L);
    var rd := RseTextDecoder.ReadOpcodes(raw, L);
    var pad := AddFFPadding(raw, L);
    SameWordCount(raw, L);
    forall k | 0 <= k < |ext|
      ensures ext[k] == rd[k] + (if k == |ext| - 1 then HighBytesSet(|pad|, L) else 0)
    {
      WordOfBoth(raw, L, k, ext, rd);
    }
  }

  lemma SameWordCount(raw: seq<Byte>, L: nat)
    requires 0 < L <= 4
    ensures |ExtractOpcodes(raw, L)| == |RseTextDecoder.ReadOpcodes(raw, L)|
  {
    MulCancel(L, |ExtractOpcodes(raw, L)|, |RseTextDecoder.ReadOpcodes(raw, L)|);
  }

  lemma WordOfBoth(raw: seq<Byte>, L: nat, k: nat, ext: seq<nat>, rd: seq<nat>)
    requires 0 < L <= 4
    requires ext == ExtractOpcodes(raw, L) && rd == RseTextDecoder.ReadOpcodes(raw, L)
    requires k < |ext| == |rd|
    ensures var pad := AddFFPadding(raw, L);
            ext[k] == rd[k] + (if k == |ext| - 1 then HighBytesSet(|pad|, L) else 0)
  {
    var pad := AddFFPadding(raw, L);
    var start := L * k;
    assert start < |raw| && rd[k] == LittleEndian(raw[start .. Min(start + L, |raw|)]);
    assert ext[k] == PackWord((raw + pad)[start .. start + L]);
    MulSucc(L, k);
    if k < |ext| - 1 {
      MulMono(L, k + 1, |ext| - 1);
      MulSucc(L, |ext| - 1);
    }
    WordAgrees(raw, L, start, k == |ext| - 1, ext[k], rd[k]);
  }

  lemma MulCancel(L: nat, a: nat, b: nat)
    requires L > 0 && L * a == L * b
    ensures a == b
  {
    if a < b {
      MulStrict(a, b, L);
    } else if b < a {
      MulStrict(b, a, L);
    }
  }

  /** One word of both versions, starting at byte `start`: the last word
      (`last`) reaches into the padding, any other lies within `raw`. */
  lemma WordAgrees(raw: seq<Byte>, L: nat, start: nat, last: bool, e: nat, r: nat)
    requires 0 < L <= 4 && start < |raw|
    requires last ==> start + L == |raw| + |AddFFPadding(raw, L)|
    requires !last ==> start + L <= |raw|
    requires var rawData := raw + AddFFPadding(raw, L);
             start + L <= |rawData| && e == PackWord(rawData[start .. start + L])
    requires r == LittleEndian(raw[start .. Min(start + L, |raw|)])
    ensures var pad := AddFFPadding(raw, L);
            e == r + (if last then HighBytesSet(|pad|, L) else 0)
  {
    var pad := AddFFPadding(raw, L);
    var rawData := raw + pad;
    if last {
      var tail := raw[start ..];
      assert raw[start .. Min(start + L, |raw|)] == tail;
      assert rawData[start .. start + L] == tail + pad;
      LastWord(tail, pad, L, e, r);
    } else {
      assert rawData[start .. start + L] == raw[start .. start + L];
    }
  }

  lemma LastWord(tail: seq<Byte>, pad: seq<Byte>, L: nat, e: nat, r: nat)
    requires |tail| + |pad| == L
    requires forall k :: 0 <= k < |pad| ==> pad[k] == Unused
    requires e == LittleEndian(tail + pad) && r == LittleEndian(tail)
    ensures e == r + HighBytesSet(|pad|, L)
  {
    assert LittleEndian(pad) == Pow2(8 * |pad|) - 1 by {
      assert pad == seq(|pad|, _ => Unused);
      LittleEndianAllSet(|pad|);
    }
    LittleEndianAppend(tail, pad);
  }

  // The views.

  /** `writeDisplayOpcodes(opcodes, width)`: each opcode in `width`
      lower-case digits, zero-filled. */
  function DisplayOpcodes(opcodes: seq<nat>, width: nat): (text: string)
  {
    OpcodeDisplay(opcodes, width, '0')
  }

  /** Line `k` of a zero-filled opcode view is exactly `width` hexadecimal
      digits whose value is the little-endian word at bytes `L * k` up to
      `L * k + L` of the padded bytes. */
  ghost predicate ZeroFilledLinesRead(lines: seq<string>, bytes: seq<Byte>, L: nat, width: nat)
    requires L > 0
  {
    var rawData := bytes + AddFFPadding(bytes, L);
    && L * |lines| == |rawData|
    && forall k :: 0 <= k < |lines| ==> ZeroFilledLineRead(lines[k], rawData, L, width, k)
  }

  ghost predicate ZeroFilledLineRead(line: string, rawData: seq<Byte>, L: nat, width: nat, k: nat)
  {
    && 0 <= L * k && L * k + L <= |rawData|
    && |line| == width
    && AllLowerHex(line)
    && HexValue(line) == LittleEndian(rawData[L * k .. L * k + L])
  }

  lemma DisplayReadsBack(bytes: seq<Byte>, L: nat, width: nat)
    requires |bytes| > 0
    requires (L == 2 && width == 4) || (L == 4 && width == 8)
    ensures ZeroFilledLinesRead(Split(DisplayOpcodes(ExtractOpcodes(bytes, L), width), '\n'), bytes, L, width)
  {
    var opcodes := ExtractOpcodes(bytes, L);
    var rawData := bytes + AddFFPadding(bytes, L);
    assert |opcodes| > 0;
    OpcodeDisplayReadsBack(opcodes, width, '0');
    var lines := Split(DisplayOpcodes(opcodes, width), '\n');
    forall k | 0 <= k < |lines|
      ensures ZeroFilledLineRead(lines[k], rawData, L, width, k)
    {
      var chunk := rawData[L * k .. L * k + L];
      RseTextDecoder.WordFitsColumns(chunk, L, width);
    }
  }

  /** The convert handler with the corrected reader: the alert when a
      character is unknown, otherwise the raw view of the bytes padded to
      nine, and the Thumb and ARM views of the bytes padded to two and
      four bytes, each reading back as those bytes. */
  function Convert(names: seq<string>, substitute: char -> string, charMap: map<string, Byte>)
    : (r: Result<RseTextDecoder.Views, InputError>)
    requires |names| > 0
    ensures r.Failure? <==> !AllKnown(names, substitute, charMap)
    ensures r.Success? ==>
              var bytes := GetBoxNames(names, substitute, charMap).value;
              && |bytes| > 0
              && (var rawLines := Split(r.value.raw, '\n');
                  |rawLines| == |RseTextDecoder.PaddedRawData(bytes)| / RowLength &&
                  forall i :: 0 <= i < |rawLines| ==>
                    LineReadsAs(rawLines[i], RseTextDecoder.PaddedRawData(bytes), i))
              && ZeroFilledLinesRead(Split(r.value.thumb, '\n'), bytes, 2, 4)
              && ZeroFilledLinesRead(Split(r.value.arm, '\n'), bytes, 4, 8)
  {
    match GetBoxNames(names, substitute, charMap)
    case Failure(e) => Failure(e)
    case Success(bytes) =>
      var parts := NameParts(names, substitute, charMap);
      assert |parts[0]| > 0;
      RseTextDecoder.LayoutNonEmpty([], parts);
      var raw := RseTextDecoder.PaddedRawData(bytes);
      RawDataReadsBack(raw);
      RowCountExact(|Split(FormatRawData(raw), '\n')|, |raw|);
      DisplayReadsBack(bytes, 2, 4);
      DisplayReadsBack(bytes, 4, 8);
      Success(RseTextDecoder.Views(FormatRawData(raw),
                                   DisplayOpcodes(ExtractOpcodes(bytes, 2), 4),
                                   DisplayOpcodes(ExtractOpcodes(bytes, 4), 8)))
  }
}
