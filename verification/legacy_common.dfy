/** The helpers the two legacy converters, rse-text-decoder.ts and
    script.js, define alike: the 0xFF padding, the slicing of a byte list
    into opcodes, the packing of one slice into a word, the layout of
    names nine bytes apart, and the two text views of a byte list. */
module LegacyCommon {
  import opened Bytes
  import opened Hex
  import opened Strings

  /** Bytes per box name and per row of the raw-data view. */
  const RowLength: nat := 9

  /** `addFFPadding(data, targetLength)`: the 0xFF bytes that bring the
      length of `data` up to the next multiple of `targetLength`. Only the
      length of `data` matters. */
  function AddFFPadding<T>(data: seq<T>, targetLength: nat): (pad: seq<Byte>)
    requires targetLength > 0
    ensures forall k :: 0 <= k < |pad| ==> pad[k] == Unused
    ensures |pad| < targetLength
    ensures (|data| + |pad|) % targetLength == 0
    ensures |pad| == 0 <==> |data| % targetLength == 0
  {
    var remainder := |data| % targetLength;
    var neededPadding := (targetLength - remainder) % targetLength;
    PaddingArithmetic(|data|, targetLength);
    seq(neededPadding, _ => Unused)
  }

  lemma PaddingArithmetic(n: nat, t: nat)
    requires t > 0
    ensures var needed := (t - n % t) % t;
            && 0 <= needed < t
            && (n + needed) % t == 0
            && (needed == 0 <==> n % t == 0)
  {
    var q, r := n / t, n % t;
    assert n == t * q + r;
    if r == 0 {
      ModSelf(t);
    } else {
      ModSmall(t - r, t);
      MulSucc(t, q);
      DivModUnique(n + (t - r), t, q + 1, 0);
    }
  }

  /** No shorter run of padding reaches a multiple of `targetLength`. */
  lemma PaddingIsShortest<T>(data: seq<T>, targetLength: nat, m: nat)
    requires targetLength > 0
    requires m < |AddFFPadding(data, targetLength)|
    ensures (|data| + m) % targetLength != 0
  {
    var t := targetLength;
    var pad := AddFFPadding(data, t);
    var total := |data| + |pad|;
    var q := total / t;
    assert total == t * q;
    if (|data| + m) % t == 0 {
      var q' := (|data| + m) / t;
      assert |data| + m == t * q';
      assert t * q' < t * q < t * q' + t;
      MulSucc(t, q');
      if q <= q' {
        MulMono(t, q, q');
      } else {
        MulMono(t, q' + 1, q);
      }
    }
  }

  lemma ModSelf(t: nat)
    requires t > 0
    ensures t % t == 0
  {
    DivModUnique(t, t, 1, 0);
  }

  /** Division with remainder has one answer. */
  lemma DivModUnique(x: nat, t: nat, q: int, r: int)
    requires t > 0 && 0 <= r < t && x == t * q + r
    ensures x / t == q && x % t == r
  {
    var q', r' := x / t, x % t;
    assert t * q' + r' == t * q + r;
    assert t * (q' + 1) == t * q' + t && t * (q + 1) == t * q + t;
    if q' < q {
      MulMonoInt(t, q' + 1, q);
    } else if q < q' {
      MulMonoInt(t, q + 1, q');
    }
  }

  lemma MulMonoInt(t: nat, a: int, b: int)
    requires a <= b
    ensures t * a <= t * b
  {
  }

  /** The slices `data.slice(i, i + L)` for `i = 0, L, 2L, …` while
      `i < |data|`: whole slices of `L` elements and a shorter last one. */
  function Chunks<T>(data: seq<T>, L: nat): (chunks: seq<seq<T>>)
    requires L > 0
    ensures forall k :: 0 <= k < |chunks| ==> 0 < |chunks[k]| <= L
    ensures forall k :: 0 <= k < |chunks| - 1 ==> |chunks[k]| == L
    decreases |data|
  {
    if |data| == 0 then []
    else if |data| <= L then [data]
    else
      var rest := Chunks(data[L..], L);
      var chunks := [data[..L]] + rest;
      assert chunks[1..] == rest;
      chunks
  }

  /** There are as many slices as the padded data holds whole words. */
  lemma {:induction false} ChunksCount<T>(data: seq<T>, L: nat)
    requires L > 0
    ensures |data| + |AddFFPadding(data, L)| == L * |Chunks(data, L)|
    decreases |data|
  {
    if |data| == 0 {
      assert |Chunks(data, L)| == 0;
      assert |AddFFPadding(data, L)| == 0;
    } else if |data| <= L {
      assert |Chunks(data, L)| == 1;
      PaddingFillsWord(data, L);
    } else {
      var n := |Chunks(data[L..], L)|;
      assert |Chunks(data, L)| == n + 1;
      ChunksCount(data[L..], L);
      PaddingAfterWord(data, L);
      CountStep(|data|, |AddFFPadding(data, L)|, |data[L..]|, L, n);
    }
  }

  lemma CountStep(a: nat, p: nat, b: nat, L: nat, n: nat)
    requires a == b + L && b + p == L * n
    ensures a + p == L * (n + 1)
  {
    MulSucc(L, n);
  }

  /** A short non-empty list is padded to exactly one word. */
  lemma PaddingFillsWord<T>(data: seq<T>, L: nat)
    requires 0 < |data| <= L
    ensures |data| + |AddFFPadding(data, L)| == L
  {
    var total := |data| + |AddFFPadding(data, L)|;
    var q := total / L;
    DivModUnique(total, L, q, 0);
    assert total == L * q;
    if q <= 0 {
      MulMonoInt(L, q, 0);
    } else if q >= 2 {
      MulMonoInt(L, 2, q);
    }
  }

  /** Dropping one whole word leaves the padding unchanged. */
  lemma PaddingAfterWord<T>(data: seq<T>, L: nat)
    requires 0 < L <= |data|
    ensures AddFFPadding(data[L..], L) == AddFFPadding(data, L)
  {
    var n := |data|;
    var q, r := (n - L) / L, (n - L) % L;
    assert n - L == L * q + r;
    MulSucc(L, q);
    DivModUnique(n, L, q + 1, r);
  }

  /** Slice `k` holds elements `L * k` up to `L * k + L`, cut at the end. */
  lemma ChunkAt<T>(data: seq<T>, L: nat, k: nat)
    requires L > 0 && k < |Chunks(data, L)|
    ensures L * k < |data|
    ensures Chunks(data, L)[k] == data[L * k .. Min(L * k + L, |data|)]
  {
    ChunkAtOffset(data, L, k);
    OffsetIsProduct(L, k);
  }

  function Min(a: nat, b: nat): nat
  {
    if a <= b then a else b
  }

  lemma {:induction false} ChunkAtOffset<T>(data: seq<T>, L: nat, k: nat)
    requires L > 0 && k < |Chunks(data, L)|
    ensures Offset(L, k) < |data|
    ensures Chunks(data, L)[k] == data[Offset(L, k) .. Min(Offset(L, k) + L, |data|)]
    decreases k
  {
    if k == 0 {
      FirstChunk(data, L);
    } else {
      assert |data| > L;
      ChunkAtOffset(data[L..], L, k - 1);
      NextChunk(data, L, k);
    }
  }

  lemma FirstChunk<T>(data: seq<T>, L: nat)
    requires L > 0 && 0 < |Chunks(data, L)|
    ensures Chunks(data, L)[0] == data[0 .. Min(L, |data|)]
  {
  }

  lemma NextChunk<T>(data: seq<T>, L: nat, k: nat)
    requires 0 < L < |data| && 0 < k < |Chunks(data, L)|
    requires Offset(L, k - 1) < |data| - L
    requires Chunks(data[L..], L)[k - 1]
             == data[L..][Offset(L, k - 1) .. Min(Offset(L, k - 1) + L, |data| - L)]
    ensures Offset(L, k) < |data|
    ensures Chunks(data, L)[k] == data[Offset(L, k) .. Min(Offset(L, k) + L, |data|)]
  {
    var a := Offset(L, k - 1);
    assert Chunks(data, L) == [data[..L]] + Chunks(data[L..], L);
    DropThenSlice(data, L, a, Min(a + L, |data| - L));
  }

  lemma DropThenSlice<T>(data: seq<T>, L: nat, a: nat, b: nat)
    requires L <= |data| && a <= b <= |data| - L
    ensures data[L..][a .. b] == data[L + a .. L + b]
  {
  }

  /** `raw.reduce((acc, byte, i) => acc | byte << (8 * i))`: the first byte
      is the initial accumulator and byte `i` is shifted `8 * i` bits (the
      count taken modulo 32) and or-ed in, on 32-bit patterns. */
  function ReduceOr(raw: seq<Byte>): (x: nat)
    requires |raw| > 0
    decreases |raw|
  {
    if |raw| == 1 then raw[0]
    else Or32(ReduceOr(raw[..|raw| - 1]), ShiftLeft32(raw[|raw| - 1], 8 * (|raw| - 1)))
  }

  /** One opcode: `reduce(...) >>> 0`. Up to four bytes it is the slice read
      as an unsigned little-endian number. */
  function PackWord(raw: seq<Byte>): (x: nat)
    requires |raw| > 0
    ensures x < Uint32Modulus
    ensures |raw| <= 4 ==> x == LittleEndian(raw)
  {
    PackWordSmall(raw);
    ToUint32(ReduceOr(raw))
  }

  lemma PackWordSmall(raw: seq<Byte>)
    requires |raw| > 0
    ensures |raw| <= 4 ==> ToUint32(ReduceOr(raw)) == LittleEndian(raw)
  {
    if |raw| <= 4 {
      ReduceOrLittleEndian(raw);
      LittleEndianFits(raw);
      ModSmall(ReduceOr(raw), Uint32Modulus);
    }
  }

  lemma {:induction false} ReduceOrLittleEndian(raw: seq<Byte>)
    requires 0 < |raw| <= 4
    ensures ReduceOr(raw) == LittleEndian(raw)
    decreases |raw|
  {
    if |raw| == 1 {
      assert raw[1..] == [];
    } else {
      var n := |raw|;
      var init, b := raw[..n - 1], raw[n - 1];
      var k := 8 * (n - 1);
      assert LittleEndian(raw) == LittleEndian(init) + b * Pow2(k) by {
        assert init + [b] == raw;
        LittleEndianSnoc(init, b);
      }
      assert ReduceOr(raw) == Or32(ReduceOr(init), ShiftLeft32(b, k));
      ReduceOrLittleEndian(init);
      LittleEndianBound(init);
      OrInByte(LittleEndian(init), b, k);
    }
  }

  /** Or-ing a byte in above the bits already set adds it. */
  lemma OrInByte(lo: nat, b: Byte, k: nat)
    requires k == 8 || k == 16 || k == 24
    requires lo < Pow2(k)
    ensures Or32(lo, ShiftLeft32(b, k)) == lo + b * Pow2(k)
  {
    ShiftByteLeft(b, k);
    Pow2Values();
    Or32Disjoint(lo, b, k);
  }

  /** Four bytes or fewer fit in 32 bits. */
  lemma LittleEndianFits(raw: seq<Byte>)
    requires |raw| <= 4
    ensures LittleEndian(raw) < Uint32Modulus
  {
    LittleEndianBound(raw);
    Pow2Add(8 * |raw|, 32 - 8 * |raw|);
    Pow2Values();
  }

  /** The slices put back together are the data. */
  lemma {:induction false} ChunksConcat<T>(data: seq<T>, L: nat)
    requires L > 0
    ensures Concat(Chunks(data, L)) == data
    decreases |data|
  {
    var chunks := Chunks(data, L);
    if |data| == 0 {
    } else if |data| <= L {
      assert Concat(chunks) == data + Concat(chunks[1..]);
      assert chunks[1..] == [];
    } else {
      ChunksConcat(data[L..], L);
      assert chunks[1..] == Chunks(data[L..], L);
      assert Concat(chunks) == data[..L] + Concat(chunks[1..]);
    }
  }

  // The raw-data view.

  /** One byte of the raw-data view: `b.toString(16).padStart(2, '0')`. */
  function ByteField(b: Byte): (r: string)
    ensures |r| == 2 && AllLowerHex(r) && AllHex(r) && HexValue(r) == b
    ensures ' ' !in r && '\n' !in r
  {
    assert Pow16(2) == 256;
    FixedHex(b, 2, false)
  }

  /** One row: its bytes' fields joined by single spaces. */
  function RowText(row: seq<Byte>): (r: string)
    ensures '\n' !in r
  {
    var fields := seq(|row|, j requires 0 <= j < |row| => ByteField(row[j]));
    JoinWithout(fields, " ", '\n');
    Join(fields, " ")
  }

  /** A separator and parts without `c` join to a string without `c`. */
  lemma {:induction false} JoinWithout(parts: seq<string>, sep: string, c: char)
    requires c !in sep
    requires forall k :: 0 <= k < |parts| ==> c !in parts[k]
    ensures c !in Join(parts, sep)
  {
    if |parts| > 1 {
      JoinWithout(parts[1..], sep, c);
    }
  }

  /** `formatRawData` / `writeRawDataDisplay`: rows of nine bytes (the last
      one possibly shorter), one row per line. */
  function FormatRawData(data: seq<Byte>): (text: string)
  {
    var rows := Chunks(data, RowLength);
    Join(seq(|rows|, i requires 0 <= i < |rows| => RowText(rows[i])), "\n")
  }

  /** Line `i` of the raw-data view reads back as row `i`: split at
      spaces it gives one field per byte of the row, and field `j` is two
      lower-case digits whose value is byte `9 * i + j` of the data. */
  ghost predicate LineReadsAs(line: string, data: seq<Byte>, i: nat)
  {
    var fields := Split(line, ' ');
    && 9 * i + |fields| <= |data|
    && (9 * i + |fields| < |data| ==> |fields| == RowLength)
    && forall j :: 0 <= j < |fields| ==>
         && |fields[j]| == 2 && AllLowerHex(fields[j]) && AllHex(fields[j])
         && HexValue(fields[j]) == data[9 * i + j]
  }

  /** Reading the raw-data view back: one line per started row of nine
      bytes, and each line reads back as its row. */
  lemma RawDataReadsBack(data: seq<Byte>)
    requires |data| > 0
    ensures var lines := Split(FormatRawData(data), '\n');
            && 9 * (|lines| - 1) < |data| <= 9 * |lines|
            && forall i :: 0 <= i < |lines| ==> LineReadsAs(lines[i], data, i)
  {
    var rows := Chunks(data, RowLength);
    var texts := seq(|rows|, i requires 0 <= i < |rows| => RowText(rows[i]));
    SplitJoin(texts, '\n');
    ChunksCount(data, RowLength);
    ChunkAt(data, RowLength, |rows| - 1);
    forall i | 0 <= i < |rows|
      ensures LineReadsAs(texts[i], data, i)
    {
      RowReadsBack(data, i);
    }
  }

  /** Data filling whole rows shows exactly one line per row. */
  lemma RowCountExact(lines: nat, size: nat)
    requires size % RowLength == 0
    requires 9 * (lines - 1) < size <= 9 * lines
    ensures lines == size / RowLength
  {
    var q := size / RowLength;
    assert size == 9 * q;
  }

  lemma RowReadsBack(data: seq<Byte>, i: nat)
    requires i < |Chunks(data, RowLength)|
    ensures LineReadsAs(RowText(Chunks(data, RowLength)[i]), data, i)
  {
    var row := Chunks(data, RowLength)[i];
    ChunkAt(data, RowLength, i);
    RowPosition(data, i, row);
    var fields := seq(|row|, j requires 0 <= j < |row| => ByteField(row[j]));
    assert RowText(row) == Join(fields, " ");
    SplitJoin(fields, ' ');
    FieldsRead(data, i, row, fields);
  }

  lemma RowPosition(data: seq<Byte>, i: nat, row: seq<Byte>)
    requires 9 * i < |data| && row == data[9 * i .. Min(9 * i + 9, |data|)]
    ensures 9 * i + |row| <= |data|
    ensures 9 * i + |row| < |data| ==> |row| == RowLength
    ensures forall j :: 0 <= j < |row| ==> row[j] == data[9 * i + j]
  {
  }

  lemma FieldsRead(data: seq<Byte>, i: nat, row: seq<Byte>, fields: seq<string>)
    requires 9 * i + |row| <= |data|
    requires 9 * i + |row| < |data| ==> |row| == RowLength
    requires forall j :: 0 <= j < |row| ==> row[j] == data[9 * i + j]
    requires fields == seq(|row|, j requires 0 <= j < |row| => ByteField(row[j]))
    requires Split(Join(fields, " "), ' ') == fields
    ensures LineReadsAs(Join(fields, " "), data, i)
  {
  }

  // The opcode views.

  /** One opcode line: `opcode.toString(16).padStart(width, fill)`. A
      zero-filled line is exactly `width` digits reading back as the opcode;
      a space-filled one reads back as the opcode once the spaces are
      removed. */
  function OpcodeText(x: nat, width: nat, fill: char): (r: string)
    ensures ShowsOpcode(r, x, width, fill)
  {
    OpcodeTextFacts(x, width, fill);
    PadStart(ToHexString(x), width, fill)
  }

  /** What a line of an opcode view shows: `width` characters when the
      opcode fits; with '0' fill, lower-case digits of value `x`; with space
      fill, the same once the spaces are stripped; never a line break. */
  ghost predicate ShowsOpcode(r: string, x: nat, width: nat, fill: char)
  {
    && (1 <= width && x < Pow16(width) ==> |r| == width)
    && (fill == '0' && 1 <= width && x < Pow16(width) ==>
          AllLowerHex(r) && AllHex(r) && HexValue(r) == x)
    && (fill == ' ' ==>
          && AllLowerHex(StripWhitespace(r)) && AllHex(StripWhitespace(r))
          && HexValue(StripWhitespace(r)) == x)
    && (fill != '\n' ==> '\n' !in r)
  }

  lemma OpcodeTextFacts(x: nat, width: nat, fill: char)
    ensures ShowsOpcode(PadStart(ToHexString(x), width, fill), x, width, fill)
  {
    OpcodeWidth(x, width, fill);
    OpcodeZeroFilled(x, width, fill);
    OpcodeSpaceFilled(x, width, fill);
    OpcodeOneLine(x, width, fill);
  }

  lemma OpcodeWidth(x: nat, width: nat, fill: char)
    ensures 1 <= width && x < Pow16(width) ==> |PadStart(ToHexString(x), width, fill)| == width
  {
    if 1 <= width && x < Pow16(width) {
      ToHexStringLength(x, width);
    }
  }

  lemma OpcodeZeroFilled(x: nat, width: nat, fill: char)
    ensures var r := PadStart(ToHexString(x), width, fill);
            fill == '0' && 1 <= width && x < Pow16(width) ==>
              AllLowerHex(r) && AllHex(r) && HexValue(r) == x
  {
    if fill == '0' && 1 <= width && x < Pow16(width) {
      assert PadStart(ToHexString(x), width, fill) == FixedHex(x, width, false);
    }
  }

  lemma OpcodeSpaceFilled(x: nat, width: nat, fill: char)
    ensures var r := PadStart(ToHexString(x), width, fill);
            fill == ' ' ==>
              && AllLowerHex(StripWhitespace(r)) && AllHex(StripWhitespace(r))
              && HexValue(StripWhitespace(r)) == x
  {
    if fill == ' ' {
      ToHexStringCorrect(x);
      SpacePadStripped(ToHexString(x), width);
    }
  }

  lemma OpcodeOneLine(x: nat, width: nat, fill: char)
    ensures fill != '\n' ==> '\n' !in PadStart(ToHexString(x), width, fill)
  {
    var digits := ToHexString(x);
    var r := PadStart(digits, width, fill);
    ToHexStringCorrect(x);
    if fill != '\n' {
      forall k | 0 <= k < |r| ensures r[k] != '\n' {
        if k >= |r| - |digits| {
          assert r[k] == r[|r| - |digits|..][k - (|r| - |digits|)];
          assert IsHexDigit(digits[k - (|r| - |digits|)]);
        }
      }
    }
  }

  /** Removing the spaces of a space-padded digit string leaves the digits. */
  lemma SpacePadStripped(digits: string, width: nat)
    requires AllHex(digits)
    ensures StripWhitespace(PadStart(digits, width, ' ')) == digits
  {
    HexUnstripped(digits);
    if |digits| < width {
      var spaces := seq(width - |digits|, _ => ' ');
      assert PadStart(digits, width, ' ') == spaces + digits;
      StripAppend(spaces, digits);
      StripSpaces(spaces);
    }
  }

  /** Hexadecimal digits are not whitespace. */
  lemma HexUnstripped(digits: string)
    requires AllHex(digits)
    ensures StripWhitespace(digits) == digits
  {
    forall k | 0 <= k < |digits| ensures !IsWhitespace(digits[k]) {
      assert IsHexDigit(digits[k]);
    }
    StripNoWhitespace(digits);
  }

  lemma {:induction false} StripSpaces(s: string)
    requires forall k :: 0 <= k < |s| ==> s[k] == ' '
    ensures StripWhitespace(s) == ""
  {
    if |s| > 0 {
      StripSpaces(s[1..]);
    }
  }

  /** `writeOpcodeDisplay` / `writeDisplayOpcodes`: one line per opcode. */
  function OpcodeDisplay(opcodes: seq<nat>, width: nat, fill: char): (text: string)
  {
    Join(seq(|opcodes|, k requires 0 <= k < |opcodes| => OpcodeText(opcodes[k], width, fill)), "\n")
  }

  /** Reading an opcode view back: one line per opcode, in order, each line
      as `OpcodeText` describes it. */
  lemma OpcodeDisplayReadsBack(opcodes: seq<nat>, width: nat, fill: char)
    requires |opcodes| > 0 && fill != '\n'
    ensures var lines := Split(OpcodeDisplay(opcodes, width, fill), '\n');
            && |lines| == |opcodes|
            && forall k :: 0 <= k < |lines| ==> lines[k] == OpcodeText(opcodes[k], width, fill)
  {
    var lines := seq(|opcodes|, k requires 0 <= k < |opcodes| => OpcodeText(opcodes[k], width, fill));
    SplitJoin(lines, '\n');
  }

  // The name layout.

  /** A name's bytes followed by 0xFF up to the nine bytes of a slot. */
  function FillSlot(bytes: seq<Byte>): (slot: seq<Byte>)
    requires |bytes| <= RowLength
    ensures |slot| == RowLength && slot[..|bytes|] == bytes
    ensures forall j :: |bytes| <= j < RowLength ==> slot[j] == Unused
  {
    bytes + seq(RowLength - |bytes|, _ => Unused)
  }

  /** The encoders' loop: before each name, pad what has been written so
      far to a multiple of nine with 0xFF, then append the name's bytes. */
  function Layout(data: seq<Byte>, names: seq<seq<Byte>>): seq<Byte>
    decreases |names|
  {
    if |names| == 0 then data
    else Layout(data + AddFFPadding(data, RowLength) + names[0], names[1..])
  }

  /** Every name filled to its slot. */
  function FillSlots(names: seq<seq<Byte>>): (slots: seq<seq<Byte>>)
    requires forall k :: 0 <= k < |names| ==> |names[k]| <= RowLength
    ensures |slots| == |names|
    ensures forall k :: 0 <= k < |names| ==> slots[k] == FillSlot(names[k])
  {
    seq(|names|, k requires 0 <= k < |names| => FillSlot(names[k]))
  }

  /** With every name one to nine bytes long, the loop followed by the final
      padding to nine puts name `k` in bytes `9 * k` to `9 * k + 9`, followed
      by 0xFF up to the end of its slot. */
  lemma LayoutSlots(names: seq<seq<Byte>>)
    requires forall k :: 0 <= k < |names| ==> 0 < |names[k]| <= RowLength
    ensures var out := Layout([], names);
            out + AddFFPadding(out, RowLength) == Concat(FillSlots(names))
    ensures var out := Layout([], names);
            var padded := out + AddFFPadding(out, RowLength);
            && |padded| == 9 * |names|
            && forall k :: 0 <= k < |names| ==>
                 9 * k + 9 <= |padded| && padded[9 * k .. 9 * k + 9] == FillSlot(names[k])
  {
    LayoutConcat(names);
    ConcatFixed(FillSlots(names), 9);
  }

  lemma LayoutConcat(names: seq<seq<Byte>>)
    requires forall k :: 0 <= k < |names| ==> 0 < |names[k]| <= RowLength
    ensures var out := Layout([], names);
            out + AddFFPadding(out, RowLength) == Concat(FillSlots(names))
  {
    var slots := FillSlots(names);
    if |names| > 0 {
      assert Layout([], names) == Layout([] + names[0], names[1..]);
      LayoutFrom([], names[0], names[1..]);
      assert slots[1..] == FillSlots(names[1..]);
      assert Concat(slots) == slots[0] + Concat(slots[1..]);
    } else {
      ModSelf(RowLength);
      assert AddFFPadding(Layout([], names), RowLength) == [];
    }
  }

  lemma {:induction false} LayoutFrom(data: seq<Byte>, e: seq<Byte>, names: seq<seq<Byte>>)
    requires |data| % RowLength == 0 && 0 < |e| <= RowLength
    requires forall k :: 0 <= k < |names| ==> 0 < |names[k]| <= RowLength
    ensures var out := Layout(data + e, names);
            out + AddFFPadding(out, RowLength) == data + FillSlot(e) + Concat(FillSlots(names))
    decreases |names|
  {
    var pad := AddFFPadding(data + e, RowLength);
    PaddingAfterAligned(data, e, RowLength);
    assert data + e + pad == data + FillSlot(e);
    if |names| > 0 {
      var data' := data + FillSlot(e);
      assert |data'| == |data| + 9;
      AlignedStep(|data|);
      assert Layout(data + e, names) == Layout(data' + names[0], names[1..]);
      LayoutFrom(data', names[0], names[1..]);
      var slots := FillSlots(names);
      assert slots[1..] == FillSlots(names[1..]);
      assert Concat(slots) == slots[0] + Concat(slots[1..]);
    }
  }

  lemma AlignedStep(n: nat)
    requires n % RowLength == 0
    ensures (n + 9) % RowLength == 0
  {
  }

  /** After an aligned prefix and `e`, the padding completes `e`'s slot. */
  lemma PaddingAfterAligned(data: seq<Byte>, e: seq<Byte>, L: nat)
    requires L > 0 && |data| % L == 0 && 0 < |e| <= L
    ensures |AddFFPadding(data + e, L)| == L - |e|
  {
    var q := |data| / L;
    DivModUnique(|data|, L, q, 0);
    var total := |data| + |e|;
    if |e| == L {
      MulSucc(L, q);
      DivModUnique(total, L, q + 1, 0);
      ModSelf(L);
    } else {
      DivModUnique(total, L, q, |e|);
      ModSmall(L - |e|, L);
    }
  }
}
