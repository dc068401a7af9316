# rse-text-decoder in Dafny

rse-text-decoder edits the fourteen box names of a Pokémon Ruby/Sapphire,
FireRed/LeafGreen or Emerald save. Each name is 9 bytes in the game's own
character set. The tool shows the names in several forms: as text, as raw
hex bytes, as 16- and 32-bit words, and as code-generation constants. Two
earlier converters also turn typed names into Thumb and ARM opcode lists:
`rse-text-decoder.ts` and `script.js`.

This project models the pure logic of those files as functions over
sequences and proves the properties the code relies on.

- **`BoxNameCodec`** (`src/BoxNames.ts`)
  - The record: 14 slots of 9 bytes, all `0xFF` when fresh.
  - `getDataAsStream`: flattens the record to 126 bytes.
  - `setNamesFromBytes`: length-checked unflattening.
  - `setNameFromString`: the encoder. It fails at the first unknown character, and the slot keeps what was written before that character, so the update is not atomic.
  - `getStringNames`: the decoder. It maps each byte to a glyph, optionally masks unwritable bytes, and cuts at the first NUL character.
  - The mutable class is modelled as a value. Each mutator returns the record after the call, together with the error it threw, if any.
  - The character tables live in a module that is not part of this model. They are a parameter (`CharacterTables`).
- **`GameTypes`** (`src/types.ts`): the version and language unions and their two type guards.
- **`ByteViews`** (`src/index.ts`): the pure parts of the page's handlers.
  - `byteToHex`.
  - The raw view and its 252-digit parser.
  - The u16/u32 little- and big-endian word views.
  - The `0x…` code-generation view.
- **`LegacyCommon`**: helpers the two converters share, defined once.
  - `addFFPadding`.
  - The slicing loop and the `reduce`/`|`/`<<` word packing.
  - The raw-data rendering (`writeRawDataDisplay` / `formatRawData`).
  - The opcode rendering (`writeOpcodeDisplay` / `writeDisplayOpcodes`).
  - The layout of names nine bytes apart.
- **`RseTextDecoder`** (`rse-text-decoder.ts`) and **`ScriptJs`** (`script.js`): the two convert handlers. They differ in four places:
  - `rse-text-decoder.ts` refuses a character whose mapped byte is `0x00`, through a truthiness test. `script.js` only asks that the key exists. The two files load their tables through different functions (`getReverseCharacterMap` and `getCharacterMap`), both outside this model. Given the same table, `ScriptJs.EncodersAgree` proves this is the only difference between the TypeScript reader and the corrected `script.js` reader.
  - For an empty name, `rse-text-decoder.ts:85` pushes nine `0xFF` bytes, while `script.js:82-83` pushes one nested array of nine `0xFF`. The model of `script.js` uses the corrected reader, which pushes the nine bytes; the code as written is modelled separately (see Findings).
  - `readOpcodes` slices the unpadded bytes, so the missing high bytes of the last word are zero. `extractOpcodes` slices the padded bytes, so those bytes are `0xFF`. `ScriptJs.ExtractAgreesWithReadOpcodes` states the exact difference.
  - `writeOpcodeDisplay` pads with spaces, the default of `padStart`. `writeDisplayOpcodes` pads with `'0'`.
- **Supporting modules**
  - `Bytes`: little-endian values, and JavaScript's int32 `<<`, `|` and `>>> 0` written out on unbounded integers.
  - `Hex`: `toString(16)`, `padStart`, `toUpperCase`, and the values of digit strings.
  - `Strings`: `join`, `split`, `charAt`, and whitespace stripping.
  - `Wrappers`: `Option` and `Result`.

A thrown exception is a `Failure` (or `Step.thrown`). The error paths of the modelled functions are modelled, except those listed under "Left out", which depend on the page's controls.

Both `Convert` handlers require at least one name. The form starts with one
box, and the remove button disables itself at one box
(`rse-text-decoder.ts:57`, `:68`; `script.js:12`). `NamesInSlots` requires
names of at most nine characters, because each input has `maxLength` 9
(`rse-text-decoder.ts:50`).

## Model

| member | source | states |
|---|---|---|
| BoxNameCodec.NewBoxNames | src/BoxNames.ts:9-24 | a fresh record has 14 slots of 9 bytes, every byte 0xFF |
| BoxNameCodec.GetDataAsStream | src/BoxNames.ts:26-32 | the stream is 126 bytes and byte `9*i+j` is byte `j` of slot `i` |
| BoxNameCodec.SetNamesFromBytes | src/BoxNames.ts:72-81 | throws "Malformed bytearray" exactly when the input is not 126 bytes, and then leaves the record unchanged; otherwise slot `i` byte `j` becomes input byte `9*i+j` |
| BoxNameCodec.StreamAfterLoad | src/BoxNames.ts:76-81 | loading 126 bytes and reading the stream back gives the same bytes |
| BoxNameCodec.LoadAfterStream | src/BoxNames.ts:26-32 | loading a record's stream into any record reproduces the first record, without error |
| BoxNameCodec.WriteName | src/BoxNames.ts:60-69 | the loop writes `reverse[charAt(i)]` at each position, 0xFF (or the entry for "") past the end, and stops at the first character missing from the table; positions from there on keep their old bytes |
| BoxNameCodec.SetNameFromString | src/BoxNames.ts:53-70 | succeeds exactly when the first nine characters are all in the reverse table; on success the slot holds their bytes, then padding; on failure it names the first bad position, the bytes before it are already written and the rest are unchanged; other slots never change |
| BoxNameCodec.GetStringNames | src/BoxNames.ts:34-51 | 14 names, each the joined glyph text of its slot up to (not including) the first NUL, and holding no NUL |
| BoxNameCodec.DecodeIgnoresAfterTerminator | src/BoxNames.ts:41-49 | bytes after the first byte whose glyph holds a NUL do not affect the decoded name |
| BoxNameCodec.EncodeDecodeRoundTrip | src/BoxNames.ts:34-70 | with tables that encode and decode a name's characters consistently and show 0xFF as NUL, a name of at most nine characters is written without error and read back unchanged |
| GameTypes.IsGameVersion | src/types.ts:23-31 | true exactly for the tag of some `GameVersion` |
| GameTypes.IsGameLanguage | src/types.ts:33-44 | true exactly for the tag of some `GameLanguage` |
| GameTypes.ParseVersion | src/types.ts:23-31 | narrows a string to the version it is the tag of, and exactly when the guard holds |
| GameTypes.ParseLanguage | src/types.ts:33-44 | narrows a string to the language it is the tag of, and exactly when the guard holds |
| GameTypes.TagCounts | src/types.ts:10-44 | the guards accept exactly the three version and six language literals, and each literal names one member |
| GameTypes.VersionsAndLanguagesDisjoint | src/types.ts:10-44 | no string is both a version and a language |
| ByteViews.ByteToHex | src/index.ts:59-63 | two upper-case hex digits whose value is the byte |
| ByteViews.ParseRawView | src/index.ts:198-213 | accepted exactly when the text without whitespace, upper-cased, is 252 characters of [0-9A-F]; byte `k` is then the value of digits `2k` and `2k+1` |
| ByteViews.RawViewInput | src/index.ts:196-214 | an invalid text leaves the record as it was; a valid one replaces all 126 bytes with the parsed ones |
| ByteViews.RawViewRoundTrip | src/index.ts:87-91 | the raw view of a record parses back to the record's stream, and entering it into any record reproduces the record |
| ByteViews.WordText | src/index.ts:115-122 | a word line is two upper-case digits per byte: byte `j`'s digits sit at position `2j` for little endian, and in the mirrored position for big endian |
| ByteViews.UIntViewText | src/index.ts:110-124 | the view's text splits at line breaks into exactly one line per whole word, line `k` being the rendering of word `k` |
| ByteViews.UIntViewLines | src/index.ts:110-123 | one line per whole word of L bytes for L = 2 or 4; line `k` renders bytes `Lk` to `Lk+L` in `2L` digits; trailing bytes that fill no word are dropped |
| ByteViews.BigEndianValue | src/index.ts:117-122 | a big-endian line read as one hex number is the unsigned little-endian value of its bytes |
| ByteViews.CodeGenWordValue | src/index.ts:133-137 | `((b3<<24)\|(b2<<16)\|(b1<<8)\|(b0<<0))>>>0` is the little-endian value of the four bytes and fits in 32 bits |
| ByteViews.CodeGenEntry | src/index.ts:137-140 | "0x" then eight upper-case digits whose value is the word |
| ByteViews.CodeGenLines | src/index.ts:128-143 | one entry per whole 4-byte word; entry `k` is "0x" and eight upper-case digits of the little-endian word at bytes `4k` to `4k+4` |
| ByteViews.CodeGenText | src/index.ts:128-144 | the view's text splits at line breaks into exactly one entry per whole 4-byte word, entry `k` being the code for word `k` |
| LegacyCommon.AddFFPadding | rse-text-decoder.ts:17-21 | only 0xFF bytes, fewer than the target length, bringing the length to a multiple of it, and empty exactly when it already is one |
| LegacyCommon.PaddingIsShortest | script.js:14-18 | no shorter padding reaches a multiple of the target length |
| LegacyCommon.Chunks | rse-text-decoder.ts:30-33 | the slices are non-empty, at most L long, and all but the last exactly L |
| LegacyCommon.ChunksCount | rse-text-decoder.ts:30-32 | the loop runs once per word of the padded data: L times the slice count is the padded length |
| LegacyCommon.ChunkAt | rse-text-decoder.ts:30-33 | slice `k` starts inside the data at `Lk` and runs to `Lk+L` or the end of the data |
| LegacyCommon.ChunksConcat | script.js:23-24 | the slices put back together are the data |
| LegacyCommon.ReduceOrLittleEndian | rse-text-decoder.ts:34 | for one to four bytes, the `reduce` of `acc \| byte << 8i` is the little-endian value of the bytes |
| LegacyCommon.PackWord | script.js:25-26 | an opcode is below 2^32, and for up to four bytes it is their little-endian value |
| LegacyCommon.ByteField | rse-text-decoder.ts:99 | two lower-case hex digits with the byte's value, holding no space or line break |
| LegacyCommon.RawDataReadsBack | script.js:87-93 | one line per started row of nine bytes; line `i` split at spaces gives one field per byte of row `i`, each two lower-case digits with that byte's value, and every row but the last is full |
| LegacyCommon.OpcodeText | rse-text-decoder.ts:24 | a line is `width` characters when the opcode fits; with '0' fill it is lower-case digits of the opcode's value; with space fill it is that after removing the spaces; it holds no line break |
| LegacyCommon.OpcodeDisplayReadsBack | script.js:94 | the display splits back into one line per opcode, in order |
| LegacyCommon.SpacePadStripped | rse-text-decoder.ts:24 | removing the spaces `padStart` adds gives the digits back |
| LegacyCommon.LayoutSlots | script.js:76-84 | with names of one to nine bytes, the loop followed by the final padding puts name `k` at bytes `9k` to `9k+9`, filled with 0xFF, and is nine bytes per name |
| RseTextDecoder.EncodeChars | rse-text-decoder.ts:80-84 | succeeds exactly when every character's substitute maps to a non-zero byte; the bytes are those mappings, in order |
| RseTextDecoder.EncodeLine | rse-text-decoder.ts:80-85 | the same, and an empty line gives nine 0xFF |
| RseTextDecoder.ReadLines | rse-text-decoder.ts:78-86 | the loop succeeds exactly when every line is accepted, and then pads to nine before each line's bytes |
| RseTextDecoder.ReadInput | rse-text-decoder.ts:74-88 | `readInput` throws exactly when some character is not accepted; otherwise it gives the names laid out nine bytes apart |
| RseTextDecoder.PaddedRawData | rse-text-decoder.ts:101 | the bytes followed by fewer than nine 0xFF, reaching a multiple of nine |
| RseTextDecoder.NamesInSlots | rse-text-decoder.ts:78-101 | for accepted names of at most nine characters, name `k` occupies bytes `9k` to `9k+9` of the raw data: its characters' bytes, then 0xFF |
| RseTextDecoder.NamesLoadIntoBoxes | rse-text-decoder.ts:101 | fourteen such names give a stream that `setNamesFromBytes` accepts, and name `k` lands in box `k` |
| RseTextDecoder.ReadOpcodes | rse-text-decoder.ts:28-38 | one opcode per started word of L bytes; opcode `k` packs bytes `Lk` to `Lk+L` of the unpadded data, or to its end, so the last word has zero in its missing high bytes |
| RseTextDecoder.OpcodeViewReadsBack | rse-text-decoder.ts:102-106 | each line of the Thumb (2 bytes, 4 columns) and ARM (4 bytes, 8 columns) views is `width` wide, and without its spaces it is the hex of the little-endian word at its offset |
| RseTextDecoder.Convert | rse-text-decoder.ts:72-107 | fails (the alert) exactly when a character is not accepted; otherwise the raw view has exactly one line per nine-byte row of the names' bytes padded to nine, and reads back row by row as those bytes, and the Thumb and ARM views read back word by word from the unpadded bytes |
| ScriptJs.EncodeName | script.js:78-81 | a line is accepted exactly when every substitute is a key of the map, whatever the byte; it is checked whole before any byte is pushed, and the bytes are the mappings in order |
| ScriptJs.ReadNames | script.js:76-84 | the corrected loop succeeds exactly when every name is known, and then lays the names out nine bytes apart, an empty name as nine 0xFF |
| ScriptJs.GetBoxNames | script.js:70-86 | `getBoxNames` throws exactly when a character is unknown; otherwise the names are laid out nine bytes apart |
| ScriptJs.NamesInSlots | script.js:77 | for known names of at most nine characters, name `k` occupies bytes `9k` to `9k+9` of the raw data: its bytes, then 0xFF, and nine 0xFF for an empty name |
| ScriptJs.EncodersAgree | script.js:79-81 | the TypeScript reader accepts exactly the inputs this one accepts that use no character mapped to 0x00, and then both give the same bytes |
| ScriptJs.ReadNamesAsWritten | script.js:82-83 | the loop as written fails exactly when a character is unknown |
| ScriptJs.GetBoxNamesAsWritten | script.js:70-86 | `getBoxNames` as written fails exactly when a character is unknown |
| ScriptJs.AsWrittenWithoutEmptyNames | script.js:81-83 | with no empty name, the code as written gives exactly the corrected bytes, element for element |
| ScriptJs.EmptyNameNestsArray | script.js:82-83 | for the names "" then a known name, the code as written gives one nested array followed by eight 0xFF, where the corrected reader gives nine 0xFF bytes |
| ScriptJs.ExtractOpcodes | script.js:20-29 | the padded data holds exactly L times as many bytes as there are opcodes; opcode `k` packs the full word at bytes `Lk` to `Lk+L` of the padded data, and is below 2^32 |
| ScriptJs.ExtractAgreesWithReadOpcodes | script.js:21-26 | both versions give as many words, and equal words except the last, which here is larger by 0xFF in each padded high byte |
| ScriptJs.DisplayReadsBack | script.js:94 | each line of a zero-filled view is exactly `width` lower-case digits whose value is the little-endian word of the padded data at its offset |
| ScriptJs.Convert | script.js:68-108 | the handler with line 83 corrected (it reads through the corrected `getBoxNames`): fails (the alert) exactly when a character is unknown; otherwise the raw view has exactly one line per nine-byte row of the padded bytes and reads back row by row as them, and the Thumb and ARM views read back, word by word, as the bytes padded to two and four |
| Hex.ToHexStringCorrect | rse-text-decoder.ts:24 | `toString(16)` gives at least one lower-case digit, reading back as the number |
| Hex.FixedHex | src/index.ts:137-140 | a fitting number padded with '0' to `width` is `width` digits of the number's value, upper-case when asked |
| Hex.ToUpperValue | src/index.ts:199 | upper-casing hex digits keeps their value and makes them upper-case |
| Strings.FirstSegment | src/BoxNames.ts:49 | `split(d)[0]` is a prefix free of `d`, followed by `d` when shorter than the string |

## Left out

- DOM and UI wiring is not modelled. This covers event listeners, tab switching, fonts, `alert`, `setCustomValidity`, the cursor restore, and the add/remove-box buttons. It is I/O plumbing; only the at-least-one-box fact is used, as a precondition of both `Convert` handlers.
- The character tables and substitutions are parameters. Their contents come from modules outside this model: `characterMaps`, `characterMapsR`, `writableCharSet`, `substituteChar` and `getReverseCharacterMap`.
- The `throw`s for an unchecked radio button in the word view (`src/index.ts:101`, "Unconfigured bit length", and `:108`, "Unconfigured endianness") are not modelled. The model takes the word size and endianness as two-valued datatypes, so the case where no button is checked cannot arise.
- `getLangFromSelect` and `getVersionFromSelect` (`src/index.ts:43-57`) are not modelled as such. Reading the select is I/O; their check and "Invalid language"/"Invalid game version" throws are the type guards, and the `None` of `GameTypes.ParseLanguage`/`GameTypes.ParseVersion`.
- `readLang`'s "Unset language" error is not modelled. It depends on the page, and the language only selects the tables, which are parameters.
- `formatStringNameForPaste` and the paste view are not modelled. They are cosmetic layout.
- `updateBoxNameInputs` and the text inputs' handler are not modelled separately. They only feed `getStringNames` and `setNameFromString` into the page.
- Strings are sequences of abstract characters. UTF-16 code units versus code points (`charAt`, spread, `length`) are not distinguished.
- Hex.ToUpperAscii: upper-cases ASCII letters only. Non-ASCII characters whose upper case is a hex digit pair (such as U+FB00) are not modelled.
- AddFFPadding: requires a positive target length, because every call site passes 2, 4 or 9.
- ScriptJs.ExtractAgreesWithReadOpcodes: stated for words of at most four bytes, the only lengths the converters use (2 and 4).
- RseTextDecoder.OpcodeViewReadsBack: stated for the two views the page builds, 2 bytes in 4 columns and 4 bytes in 8.
- LegacyCommon.PackWord: gives the little-endian value only up to four bytes. Longer words are reduced modulo 2^32, and no converter uses them.
- `setNameFromString` with a box index outside 0..13 crashes on `undefined`. The model makes a valid index a precondition.
- ScriptJs.Convert: models the handler with `script.js:83` corrected. With an empty box, the code as written shows the nested array's text ("255,255,…") as the first raw field, and its first Thumb and ARM words differ because the array coerces to `NaN`, shifted as 0. That behaviour is not modelled.
- The downstream effects in `script.js` of the nested array that line 83 pushes are not modelled. These include its number coercion in `extractOpcodes` and its comma-joined text in `formatRawData`. The model records the array and stops there (see Findings).

## Findings

| source | as written | input that shows it | evidently intended | confidence | as-written member | corrected member |
|---|---|---|---|---|---|---|
| script.js:82-83 | an empty name pushes `Array(9).fill(0xFF)` as a single element of `data`, so the slot holds one nested array instead of nine 0xFF bytes, and the next padding counts it as one element | names `["", "A"]` with "A" known: as written `data` starts with one nested array followed by eight 0xFF, instead of nine 0xFF bytes | push the nine bytes (`data.push(...Array(9).fill(0xFF))`), as `rse-text-decoder.ts:85` does | not executed | ScriptJs.GetBoxNamesAsWritten, ScriptJs.EmptyNameNestsArray | ScriptJs.GetBoxNames, ScriptJs.NamesInSlots |
