/** The box-name record (14 slots of 9 bytes) and its codec to and from
    display strings. The mutable class of the program is modelled as a value:
    every mutator takes the record and returns the record as it stands after
    the call, together with the exception the call threw, if any. */
module BoxNameCodec {
  import opened Wrappers
  import opened Bytes
  import opened Strings
  import opened GameTypes

  const BoxCount: nat := 14
  const SlotLength: nat := 9
  const StreamLength: nat := 126

  /** One box name: exactly nine bytes. */
  type Slot = s: seq<Byte> | |s| == SlotLength witness seq(9, _ => 0xFF)

  /** The sealed array of fourteen slots held by a `BoxNames` object. */
  type BoxNames = r: seq<Slot> | |r| == BoxCount witness BlankSlots()

  /** A slot of nine unused bytes. */
  function BlankSlot(): Slot
  {
    seq(SlotLength, _ => Unused)
  }

  function BlankSlots(): seq<Slot>
  {
    seq(BoxCount, _ => BlankSlot())
  }

  /** The character tables of the (unshown) character-map module, taken as
      parameters: the forward table per version and language, the reverse
      table per version and language, and the writable bytes per language. */
  datatype CharacterTables = CharacterTables(
    characterMaps: (GameVersion, GameLanguage) -> map<Byte, string>,
    characterMapsR: (GameVersion, GameLanguage) -> map<string, Byte>,
    writableCharSet: GameLanguage -> set<Byte>)

  datatype BoxError =
    | MalformedByteArray
    | InvalidCharacter(position: nat)

  /** The record after a mutator returned or threw. */
  datatype Step = Step(data: BoxNames, thrown: Option<BoxError>)

  /** The glyph shown for a byte hidden as unwritable, as the literal reads
      in the source text. */
  const Placeholder: string := "\U{00E2}\U{2013}\U{00A1}"

  /** The terminator the decoder cuts at. */
  const Nul: char := '\0'

  /** A freshly constructed record. */
  function NewBoxNames(): (r: BoxNames)
    ensures forall i, j :: 0 <= i < BoxCount && 0 <= j < SlotLength ==> r[i][j] == Unused
  {
    BlankSlots()
  }

  /** The slots laid end to end, slot `i` at offset `9 * i`. */
  function Flatten(slots: seq<Slot>): (out: seq<Byte>)
    ensures |out| == SlotLength * |slots|
    ensures forall i, j :: 0 <= i < |slots| && 0 <= j < SlotLength ==>
              out[SlotLength * i + j] == slots[i][j]
  {
    if |slots| == 0 then []
    else
      Flatten(slots[..|slots| - 1]) + slots[|slots| - 1]
  }

  /** `getDataAsStream`: the 126-byte stream of the record. */
  function GetDataAsStream(rec: BoxNames): (out: seq<Byte>)
    ensures |out| == StreamLength
    ensures forall i, j :: 0 <= i < BoxCount && 0 <= j < SlotLength ==>
              out[SlotLength * i + j] == rec[i][j]
  {
    Flatten(rec)
  }

  /** `setNamesFromBytes`: throws and leaves the record alone unless given
      exactly 126 bytes; otherwise overwrites every slot. */
  function SetNamesFromBytes(rec: BoxNames, bytes: seq<Byte>): (r: Step)
    ensures r.thrown.Some? <==> |bytes| != StreamLength
    ensures r.thrown.Some? ==> r.thrown.value == MalformedByteArray && r.data == rec
    ensures r.thrown.None? ==>
              forall i, j :: 0 <= i < BoxCount && 0 <= j < SlotLength ==>
                r.data[i][j] == bytes[SlotLength * i + j]
  {
    if |bytes| != StreamLength then Step(rec, Some(MalformedByteArray))
    else Step(seq(BoxCount, i requires 0 <= i < BoxCount =>
                bytes[SlotLength * i .. SlotLength * i + SlotLength]), None)
  }

  /** Loading a stream and reading it back gives the same stream. */
  lemma StreamAfterLoad(rec: BoxNames, bytes: seq<Byte>)
    requires |bytes| == StreamLength
    ensures GetDataAsStream(SetNamesFromBytes(rec, bytes).data) == bytes
  {
    var out := GetDataAsStream(SetNamesFromBytes(rec, bytes).data);
    var data := SetNamesFromBytes(rec, bytes).data;
    forall k | 0 <= k < StreamLength
      ensures out[k] == bytes[k]
    {
      var i, j := k / SlotLength, k % SlotLength;
      assert k == SlotLength * i + j;
      assert out[SlotLength * i + j] == data[i][j] == bytes[SlotLength * i + j];
    }
  }

  /** Reading a record's stream and loading it into any record reproduces
      the record. */
  lemma LoadAfterStream(rec: BoxNames, other: BoxNames)
    ensures SetNamesFromBytes(other, GetDataAsStream(rec)) == Step(rec, None)
  {
    var r := SetNamesFromBytes(other, GetDataAsStream(rec)).data;
    forall i | 0 <= i < BoxCount
      ensures r[i] == rec[i]
    {
      assert forall j :: 0 <= j < SlotLength ==> r[i][j] == rec[i][j];
    }
  }

  /** The byte the encoder writes past the end of the name: the reverse
      table's entry for "" if it has one, otherwise 0xFF. */
  function PadByte(reverse: map<string, Byte>): Byte
  {
    if "" in reverse then reverse[""] else Unused
  }

  /** The loop of `setNameFromString` from position `i` on: each position
      takes `charAt(i)` through the reverse table, or 0xFF for "", and the
      first character missing from the table stops the loop with the
      earlier positions already written. */
  function WriteName(slot: Slot, sName: string, reverse: map<string, Byte>, i: nat)
    : (r: (Slot, Option<nat>))
    requires i <= SlotLength
    ensures forall m :: 0 <= m < i ==> r.0[m] == slot[m]
    ensures r.1.None? <==>
              forall m :: i <= m < SlotLength && m < |sName| ==> [sName[m]] in reverse
    ensures r.1.Some? ==>
              && i <= r.1.value < SlotLength && r.1.value < |sName|
              && [sName[r.1.value]] !in reverse
              && (forall m :: i <= m < r.1.value ==> [sName[m]] in reverse)
              && (forall m :: r.1.value <= m < SlotLength ==> r.0[m] == slot[m])
    ensures r.1.None? ==>
              && (forall m :: i <= m < SlotLength && m < |sName| ==> r.0[m] == reverse[[sName[m]]])
              && (forall m :: i <= m < SlotLength && |sName| <= m ==> r.0[m] == PadByte(reverse))
    ensures r.1.Some? ==>
              forall m :: i <= m < r.1.value ==> r.0[m] == reverse[[sName[m]]]
    decreases SlotLength - i
  {
    if i == SlotLength then (slot, None)
    else
      var c := CharAt(sName, i);
      if c in reverse then WriteName(slot[i := reverse[c]], sName, reverse, i + 1)
      else if c == "" then WriteName(slot[i := Unused], sName, reverse, i + 1)
      else (slot, Some(i))
  }

  /** `setNameFromString`: encodes the first nine characters of `sName`
      into slot `boxIndex`. It throws at the first character absent from
      the reverse table, and the slot then keeps what was written before
      that character: the update is not atomic. Other slots never change. */
  function SetNameFromString(rec: BoxNames, boxIndex: nat, sName: string,
                             tables: CharacterTables, version: GameVersion,
                             language: GameLanguage): (r: Step)
    requires boxIndex < BoxCount
    ensures forall b :: 0 <= b < BoxCount && b != boxIndex ==> r.data[b] == rec[b]
    ensures r.thrown.None? <==>
              forall m :: 0 <= m < SlotLength && m < |sName| ==>
                [sName[m]] in tables.characterMapsR(version, language)
    ensures r.thrown.None? ==>
              && (forall m :: 0 <= m < SlotLength && m < |sName| ==>
                    r.data[boxIndex][m] == tables.characterMapsR(version, language)[[sName[m]]])
              && (forall m :: |sName| <= m < SlotLength ==>
                    r.data[boxIndex][m] == PadByte(tables.characterMapsR(version, language)))
    ensures r.thrown.Some? ==>
              && r.thrown.value.InvalidCharacter?
              && r.thrown.value.position < SlotLength && r.thrown.value.position < |sName|
              && [sName[r.thrown.value.position]] !in tables.characterMapsR(version, language)
              && (forall m :: 0 <= m < r.thrown.value.position ==>
                    && [sName[m]] in tables.characterMapsR(version, language)
                    && r.data[boxIndex][m] == tables.characterMapsR(version, language)[[sName[m]]])
              && (forall m :: r.thrown.value.position <= m < SlotLength ==>
                    r.data[boxIndex][m] == rec[boxIndex][m])
  {
    var reverse := tables.characterMapsR(version, language);
    var (slot, failedAt) := WriteName(rec[boxIndex], sName, reverse, 0);
    Step(rec[boxIndex := slot], if failedAt.Some? then Some(InvalidCharacter(failedAt.value)) else None)
  }

  /** The string shown for one byte: the forward table's entry, " " when it
      has none, or the placeholder when unwritable bytes are hidden and the
      byte is not writable in the language. */
  function Glyph(forward: map<Byte, string>, writable: set<Byte>, showUnwritable: bool, b: Byte): string
  {
    if showUnwritable || b in writable then
      if b in forward then forward[b] else " "
    else Placeholder
  }

  /** The nine glyphs of a slot joined together. */
  function SlotText(slot: Slot, forward: map<Byte, string>, writable: set<Byte>, showUnwritable: bool): string
  {
    Concat(seq(SlotLength, j requires 0 <= j < SlotLength => Glyph(forward, writable, showUnwritable, slot[j])))
  }

  function DecodeSlot(slot: Slot, forward: map<Byte, string>, writable: set<Byte>, showUnwritable: bool): string
  {
    FirstSegment(SlotText(slot, forward, writable, showUnwritable), Nul)
  }

  /** `name` is the part of `text` before its first NUL (all of it if
      there is none). */
  predicate IsTextBeforeNul(name: string, text: string)
  {
    && |name| <= |text| && name == text[..|name|]
    && Nul !in name
    && (|name| < |text| ==> text[|name|] == Nul)
  }

  /** `getStringNames`: fourteen names, each the text of its slot's glyphs up
      to (not including) the first NUL character. */
  function GetStringNames(rec: BoxNames, tables: CharacterTables, version: GameVersion,
                          language: GameLanguage, showUnwritable: bool): (names: seq<string>)
    ensures |names| == BoxCount
    ensures forall i :: 0 <= i < BoxCount ==>
              IsTextBeforeNul(names[i], SlotText(rec[i], tables.characterMaps(version, language),
                                                 tables.writableCharSet(language), showUnwritable))
  {
    var forward := tables.characterMaps(version, language);
    var writable := tables.writableCharSet(language);
    seq(BoxCount, i requires 0 <= i < BoxCount => DecodeSlot(rec[i], forward, writable, showUnwritable))
  }

  /** Bytes after the first byte whose glyph holds a NUL do not affect the
      decoded name. */
  lemma {:induction false} DecodeIgnoresAfterTerminator(
    slot: Slot, other: Slot, k: nat,
    forward: map<Byte, string>, writable: set<Byte>, showUnwritable: bool)
    requires k < SlotLength
    requires slot[..k + 1] == other[..k + 1]
    requires Nul in Glyph(forward, writable, showUnwritable, slot[k])
    ensures DecodeSlot(slot, forward, writable, showUnwritable)
            == DecodeSlot(other, forward, writable, showUnwritable)
  {
    var g := seq(SlotLength, j requires 0 <= j < SlotLength => Glyph(forward, writable, showUnwritable, slot[j]));
    var h := seq(SlotLength, j requires 0 <= j < SlotLength => Glyph(forward, writable, showUnwritable, other[j]));
    assert g[..k + 1] == h[..k + 1] by {
      forall j | 0 <= j < k + 1 ensures g[j] == h[j] {
        assert slot[j] == slot[..k + 1][j] == other[..k + 1][j] == other[j];
      }
    }
    SharedPrefixSegment(g, h, k);
  }

  /** Two glyph sequences that agree up to one holding a NUL have the same
      text before the first NUL. */
  lemma SharedPrefixSegment(g: seq<string>, h: seq<string>, k: nat)
    requires k < |g| == |h| && g[..k + 1] == h[..k + 1] && Nul in g[k]
    ensures FirstSegment(Concat(g), Nul) == FirstSegment(Concat(h), Nul)
  {
    SegmentBeforeRest(g, k);
    assert h[k] == h[..k + 1][k];
    SegmentBeforeRest(h, k);
  }

  /** Glyphs after one holding a NUL do not reach the text before it. */
  lemma SegmentBeforeRest(g: seq<string>, k: nat)
    requires k < |g| && Nul in g[k]
    ensures FirstSegment(Concat(g), Nul) == FirstSegment(Concat(g[..k + 1]), Nul)
  {
    assert g == g[..k + 1] + g[k + 1..];
    ConcatSplit(g[..k + 1], g[k + 1..]);
    assert g[..k + 1][k] == g[k];
    NulInLast(g[..k + 1]);
    FirstSegmentAppend(Concat(g[..k + 1]), Concat(g[k + 1..]), Nul);
  }

  lemma NulInLast(parts: seq<string>)
    requires |parts| > 0 && Nul in parts[|parts| - 1]
    ensures Nul in Concat(parts)
  {
    var n := |parts| - 1;
    assert parts == parts[..n] + [parts[n]];
    ConcatSplit(parts[..n], [parts[n]]);
    assert Concat([parts[n]]) == parts[n] + Concat([]);
    var p :| 0 <= p < |parts[n]| && parts[n][p] == Nul;
    assert Concat(parts)[|Concat(parts[..n])| + p] == Nul;
  }

  /** The tables agree on a name when each of its characters encodes to a
      byte that decodes back to that character alone and is shown. */
  ghost predicate ConsistentFor(sName: string, tables: CharacterTables, version: GameVersion,
                                language: GameLanguage, showUnwritable: bool)
  {
    forall m :: 0 <= m < |sName| ==>
      EncodesBack(sName[m], tables.characterMaps(version, language),
                  tables.characterMapsR(version, language),
                  showUnwritable, tables.writableCharSet(language))
  }

  /** `c` has a reverse entry whose byte is shown as `c` alone. */
  ghost predicate EncodesBack(c: char, forward: map<Byte, string>, reverse: map<string, Byte>,
                              showUnwritable: bool, writable: set<Byte>)
  {
    && c != Nul
    && [c] in reverse
    && reverse[[c]] in forward
    && forward[reverse[[c]]] == [c]
    && (showUnwritable || reverse[[c]] in writable)
  }

  /** The terminator convention of the tables: "" has no reverse entry, so
      short names are padded with 0xFF, and 0xFF shows as NUL. */
  ghost predicate TerminatorConvention(tables: CharacterTables, version: GameVersion,
                                       language: GameLanguage, showUnwritable: bool)
  {
    && "" !in tables.characterMapsR(version, language)
    && Unused in tables.characterMaps(version, language)
    && tables.characterMaps(version, language)[Unused] == [Nul]
    && (showUnwritable || Unused in tables.writableCharSet(language))
  }

  /** Round trip: a name of at most nine characters that the tables encode
      and decode consistently is read back unchanged after being written. */
  lemma EncodeDecodeRoundTrip(rec: BoxNames, boxIndex: nat, sName: string, tables: CharacterTables,
                              version: GameVersion, language: GameLanguage, showUnwritable: bool)
    requires boxIndex < BoxCount && |sName| <= SlotLength
    requires ConsistentFor(sName, tables, version, language, showUnwritable)
    requires TerminatorConvention(tables, version, language, showUnwritable)
    ensures SetNameFromString(rec, boxIndex, sName, tables, version, language).thrown.None?
    ensures GetStringNames(SetNameFromString(rec, boxIndex, sName, tables, version, language).data,
                           tables, version, language, showUnwritable)[boxIndex] == sName
  {
    var forward := tables.characterMaps(version, language);
    var reverse := tables.characterMapsR(version, language);
    var writable := tables.writableCharSet(language);
    var step := SetNameFromString(rec, boxIndex, sName, tables, version, language);
    assert step.thrown.None?;
    var slot := step.data[boxIndex];
    forall m | 0 <= m < |sName|
      ensures Glyph(forward, writable, showUnwritable, slot[m]) == [sName[m]]
    {
      assert EncodesBack(sName[m], forward, reverse, showUnwritable, writable);
      assert slot[m] == reverse[[sName[m]]];
    }
    if |sName| < SlotLength {
      assert slot[|sName|] == PadByte(reverse) == Unused;
    }
    DecodeNameSlot(slot, sName, forward, writable, showUnwritable);
  }

  /** A slot whose first glyphs spell a NUL-free name, followed by a NUL
      glyph when the name is shorter than the slot, decodes to that name. */
  lemma DecodeNameSlot(slot: Slot, sName: string, forward: map<Byte, string>,
                       writable: set<Byte>, showUnwritable: bool)
    requires |sName| <= SlotLength && Nul !in sName
    requires forall m :: 0 <= m < |sName| ==> Glyph(forward, writable, showUnwritable, slot[m]) == [sName[m]]
    requires |sName| < SlotLength ==> Glyph(forward, writable, showUnwritable, slot[|sName|]) == [Nul]
    ensures DecodeSlot(slot, forward, writable, showUnwritable) == sName
  {
    var n := |sName|;
    var g := seq(SlotLength, j requires 0 <= j < SlotLength => Glyph(forward, writable, showUnwritable, slot[j]));
    assert g[..n] == seq(n, m requires 0 <= m < n => [sName[m]]);
    NameConcat(sName);
    assert g == g[..n] + g[n..];
    ConcatSplit(g[..n], g[n..]);
    if n < SlotLength {
      assert g[n..][0] == [Nul];
      assert Concat(g[n..]) == [Nul] + Concat(g[n..][1..]);
      assert sName + Concat(g[n..]) == sName + [Nul] + Concat(g[n..][1..]);
      FirstSegmentAtSeparator(sName, Concat(g[n..][1..]), Nul);
    } else {
      assert g[n..] == [];
      assert sName + Concat([]) == sName;
      FirstSegmentNoSeparator(sName, Nul);
    }
  }

  lemma {:induction false} NameConcat(s: string)
    ensures Concat(seq(|s|, m requires 0 <= m < |s| => [s[m]])) == s
  {
    if |s| > 0 {
      NameConcat(s[1..]);
      assert seq(|s|, m requires 0 <= m < |s| => [s[m]])[1..]
          == seq(|s[1..]|, m requires 0 <= m < |s[1..]| => [s[1..][m]]);
    }
  }
}
