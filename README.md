# u8gettext in Dafny

u8gettext prepares translated texts for u8glib displays on Arduino. Its
generator reads the gettext catalogs (`.po` files) of a firmware and a BDF font.
It then writes one C++ source file holding:

- a u8glib font blob with one glyph per character the catalogs use, and the
  blob's text as a C byte array;
- a table mapping every Unicode code point to its index in that font;
- one table of translated strings per language;
- the list of languages.

This project models three Python files:

- `gen_data` in `u8gettext/console_scripts.py`, the current generator;
- `scripts/u8gettext-gen-data.py`, its older stand-alone predecessor;
- `scripts/u8glib-po-to-c-font.py`, a converter that packs a font header and
  one fixed glyph.

## What the modules cover

| module | file | what it models |
|---|---|---|
| `Common` | `common.dfy` | Bytes. The exceptions the scripts can raise, one `Error` constructor per cause. The `Result` wrapper that carries them. |
| `Text` | `text.dfy` | Python's `%X`, `%0NX`, `hex()`, `%s` and `int()`, each with an inverse. `str.split()`. `join`. |
| `Utf8` | `utf8.dfy` | `str.encode("utf-8")` as in section 3 of RFC 3629, with a strict decoder. |
| `StructPack` | `struct_pack.dfy` | `struct.pack` and `struct.unpack` for the two big-endian formats the scripts use, including their range errors. |
| `BdfProperties` | `bdf_properties.dfy` | `get_font_properties`, which is the same in all three files. It is a loop over the lines of the font file, proved against a description of the whole input. |
| `Catalogs` | `catalog.dfy` | The catalogs as data. `gather_characters_from_po_files` (the same in both generators). The language name derived from a catalog path. |
| `LocalEncoding` | `local_encoding.dfy` | The sorted keys of the character dictionary, and the index each character gets. |
| `U8gFont` | `font.dfy` | The font header, the glyph records and the hex bitmap rows. The glyph loop shared by both generators. |
| `ByteArray` | `byte_array.dfy` | The loop that renders the blob as C text, sixteen bytes per line. It is the same in both generators. |
| `CString` | `cstring.dfy` | The octal C-string encoder of the current generator and the hex encoder of the older one. A C99 string-literal decoder as their partner. |
| `Languages` | `languages.dfy` | `generate_languages_source` of the current generator. |
| `GenData` | `gen_data.dfy` | The non-I/O body of `gen_data`. |
| `LegacyGenData` | `legacy_gen_data.dfy` | `generate_languages_source` and `main` of the older generator. |
| `PoToCFont` | `po_to_c_font.dfy` | `main` of the font converter after the font is loaded. |

### Conventions

- **Imperative code stays imperative.** The scripts build their results by
  appending to lists and sets in loops. Each such loop is a Dafny method
  with loop invariants. Its `ensures` ties the result to a specification
  function. The properties the scripts rely on are then proved about those
  functions as lemmas.
- **Failures are values.** A failure of the scripts is a `Result.Err`
  carrying the exception the Python code raises first.
- **Inputs that come from libraries** (the parsed catalogs from `polib`, the
  parsed font from `bdflib`) and the lines of the font file are parameters.

### What the scripts do, as modelled

- **Character numbering.** The current generator numbers the collected
  characters from 1 in ascending code-point order. The mapping table lists
  them in the same order. The proofs connect the two: line `k` of the table
  holds the `k`-th smallest character with index `k + 1`, and that index
  selects the `k`-th glyph record of the blob.
- **Older generator.** It numbers the characters in the dictionary's
  iteration order, but sorts the mapping table by code point.
  `LegacyGenData.ColumnAscendsIffSorted` shows that the index column of its
  table ascends exactly when that iteration order is the sorted order.
- **Glyph size field.** The older generator and the converter compute it
  with `/` instead of `//`.
- **Octal escapes.** The current encoder writes every non-printable byte as a
  three-digit octal escape. A C compiler that does not replace trigraphs (the
  GNU dialects, C++17) reads the text back as the original bytes whenever the
  text has no `"` and no `\`. A `??/` in a message passes through unchanged
  (`CString.TrigraphPassesThrough`), and a compiler that does replace
  trigraphs reads it as a backslash.
- **Unescaped `"` and `\`.** The encoders pass these two characters through
  unescaped, so a text holding either does not read back:
  `CString.BackslashIsMisread` and `CString.QuoteBreaksLiteral` give
  concrete inputs.
- **Older hex escapes.** These are shortest-form hex escapes. A C compiler
  merges such an escape with a following hex-digit character
  (`CString.HexEscapeMerges`). The round trip holds only when no escaped byte
  is followed by a hex digit (`CString.EncodeBytesOldRoundTrip`).
- **C text of the older generator.** Its translation rows carry no
  separating comma, and its length lines refer to an array
  `sU8GettextTranslations` that the text never declares. The model
  reproduces that text as written.
- **Converter bitmap rows.** The converter reads each bitmap row as two
  numbers: the first two hex digits, then all the remaining digits. For rows
  of four digits this agrees with the generators' two-digit chunks
  (`PoToCFont.FourDigitRowsAgree`). A wider row whose tail exceeds 255
  fails when the glyph data becomes bytes.

## Model

| member | source | states |
|---|---|---|
| `Text.HexDigitInverse` | u8gettext/console_scripts.py:277 | The value of the hex digit written for `d < 16` is `d`, in either case. |
| `Text.HexRoundTrip` | u8gettext/console_scripts.py:277 | The digits `%X` writes for `n` read back as `n`. |
| `Text.HexLength` | u8gettext/console_scripts.py:94 | `%X` of `n` takes at most `k` digits exactly when `n < 16^k`. |
| `Text.FormatHexRoundTrip` | u8gettext/console_scripts.py:94 | `%0NX` reads back as the value. It has exactly `N` digits when the value fits in `N` and never fewer than `N`. |
| `Text.ByteHex` | u8gettext/console_scripts.py:277 | `%02X` of a byte is two digits that read back as the byte. |
| `Text.FormatHexUpper` | u8gettext/console_scripts.py:94 | `%0NX` writes only digits and upper-case letters. |
| `Text.PyHex` | scripts/u8gettext-gen-data.py:90 | `hex(n)` starts with `0x` and has at least one digit. |
| `Text.PyHexRoundTrip` | scripts/u8gettext-gen-data.py:90 | The digits after `0x` in `hex(n)` read back as `n`. |
| `Text.Decimal` | u8gettext/console_scripts.py:112-113 | `%s` of a natural number is a non-empty string of decimal digits. |
| `Text.DecimalRoundTrip` | u8gettext/console_scripts.py:112-113 | `%s` of a natural number reads back as the number. |
| `Text.ParseInt` | u8gettext/console_scripts.py:233-235 | `int(s)` failing raises `ValueError` on that very text. |
| `Text.ParseIntRoundTrip` | u8gettext/console_scripts.py:233-235 | `int(str(n)) == n` for every integer, negative ones included. |
| `Text.WordLength` | u8gettext/console_scripts.py:61 | The leading run of non-space characters: none of them is white space, and the character after it is. |
| `Text.SplitWords` | u8gettext/console_scripts.py:61 | Every word of `str.split()` is non-empty and free of white space. |
| `Utf8.EncodeChar` | u8gettext/console_scripts.py:68 | One code point takes 1 to 4 bytes. It takes one byte, its own value, exactly when it is ASCII. Otherwise every byte is at least 0x80. |
| `Utf8.EncodeCharDecodes` | u8gettext/console_scripts.py:68 | The lead byte announces the sequence's length, and the sequence decodes to the code point. |
| `Utf8.DecodeEncode` | u8gettext/console_scripts.py:68 | Strict UTF-8 decoding undoes `str.encode("utf-8")`. |
| `Utf8.EncodeAscii` | u8gettext/console_scripts.py:68 | An ASCII string encodes to its own code points, one byte per character. |
| `StructPack.PackOne` | u8gettext/console_scripts.py:228-237 | A value that fits its code packs into that code's size. |
| `StructPack.UnpackPackOne` | u8gettext/console_scripts.py:228-237 | Unpacking a packed value gives the value back. |
| `StructPack.PackFromSpec` | u8gettext/console_scripts.py:228-237 | Packing a suffix succeeds exactly when every value fits its code. Otherwise it raises the range error. It produces exactly the suffix's size, and that unpacks to the values. |
| `StructPack.PackSpec` | u8gettext/console_scripts.py:228-237 | `struct.pack` succeeds exactly when the counts match and every value fits. It raises the arity error on a count mismatch and the range error otherwise. On success it yields the format's size, which unpacks to the values. |
| `StructPack.FormatSizes` | u8gettext/console_scripts.py:252-257 | `>BBBbbBHHBBbbbbb` takes 15 values into 17 bytes; `>BBBbbb` takes 6 values into 6 bytes. |
| `BdfProperties.FirstEnd` | u8gettext/console_scripts.py:49-50 | The index of the first line containing ENDPROPERTIES, or the input's length when there is none. |
| `BdfProperties.LastStart` | u8gettext/console_scripts.py:52-54 | The index of the last line containing STARTPROPERTIES, or -1 when there is none. |
| `BdfProperties.GetFontProperties` | u8gettext/console_scripts.py:43-64 | The line loop returns exactly the outcome `PropertiesOf` describes from the whole input. |
| `BdfProperties.StepStart` | u8gettext/console_scripts.py:52-54 | A STARTPROPERTIES line starts a new, empty dictionary. |
| `BdfProperties.StepBeforeStart` | u8gettext/console_scripts.py:56-57 | Before any STARTPROPERTIES line, a line is skipped. |
| `BdfProperties.StepAssign` | u8gettext/console_scripts.py:59-62 | Inside the block, a line of at least two words maps its first word to its second. |
| `BdfProperties.StepShortLine` | u8gettext/console_scripts.py:59-62 | Inside the block, a line of fewer than two words raises `IndexError`. |
| `BdfProperties.AtEnd` | u8gettext/console_scripts.py:49-50 | At the first ENDPROPERTIES line the function returns the dictionary built so far, or `None` when no block was opened. |
| `BdfProperties.AtEndOfInput` | u8gettext/console_scripts.py:47-48 | Without ENDPROPERTIES, `readline()` returns `""` for ever. Outside a block the loop never ends; inside one, `""` raises `IndexError`. |
| `BdfProperties.AssignmentsKeys` | u8gettext/console_scripts.py:62 | A key is in the dictionary exactly when it is the first word of some line of at least two words. |
| `BdfProperties.AssignmentsLastWins` | u8gettext/console_scripts.py:62 | A key's value is the second word of the last line that assigns that key. |
| `BdfProperties.PropertiesOfBlock` | u8gettext/console_scripts.py:43-64 | For a well-formed file, the result is the dictionary of the lines strictly between STARTPROPERTIES and ENDPROPERTIES. |
| `BdfProperties.PropertiesWithoutStart` | u8gettext/console_scripts.py:46-57 | With no STARTPROPERTIES before the first ENDPROPERTIES, the result is `None`. With neither marker, the loop runs for ever. |
| `BdfProperties.PropertiesShortLine` | u8gettext/console_scripts.py:59-62 | A short line inside the block raises `IndexError`. |
| `Catalogs.CharRangeMembers` | u8gettext/console_scripts.py:152-153 | `chr(lo) .. chr(hi - 1)` holds exactly the characters whose code points lie in `[lo, hi)`. |
| `Catalogs.EntriesCharsMembers` | u8gettext/console_scripts.py:157-162 | A character comes from a list of entries exactly when some entry's msgid or msgstr contains it. |
| `Catalogs.FilesCharsMembers` | u8gettext/console_scripts.py:155-169 | A character comes from the catalogs exactly when some translated or untranslated entry of some catalog contains it. |
| `Catalogs.CollectedMembers` | u8gettext/console_scripts.py:148-171 | The collected set is exactly: the visible ASCII characters 32..126, plus every character of every entry of every catalog. |
| `Catalogs.AddCharacters` | u8gettext/console_scripts.py:158-159 | Adding a text's characters one by one yields the old set united with the text's characters. |
| `Catalogs.AddEntries` | u8gettext/console_scripts.py:157-162 | The loop over entries adds the characters of every msgid and msgstr. |
| `Catalogs.GatherCharacters` | u8gettext/console_scripts.py:148-171 | `gather_characters_from_po_files` returns exactly the collected set. |
| `Catalogs.Basename` | u8gettext/console_scripts.py:102 | `os.path.basename` contains no `/`. |
| `Catalogs.LastDot` | u8gettext/console_scripts.py:102 | The index of the last `.` of a name, or -1 when there is none. |
| `Catalogs.LanguageName` | u8gettext/console_scripts.py:102 | The language name is `splitext(basename(path))[0]` and contains no `/`. |
| `Catalogs.BasenameAfterSlash` | u8gettext/console_scripts.py:102 | The base name of `dir/name` is `name`. |
| `Catalogs.LanguageOfPath` | u8gettext/console_scripts.py:102 | The language of `dir/lang.ext` is `lang` when `lang` is not all dots. |
| `Catalogs.LanguageNameExamples` | u8gettext/console_scripts.py:102 | `po/zh_CN.po` gives `zh_CN` and `en.po` gives `en`. `locale/.po` gives `.po`, since a leading dot does not start an extension. |
| `LocalEncoding.SortedBelowProps` | u8gettext/console_scripts.py:241-242 | The sorted characters below `n` are strictly increasing and all below `n`. They are exactly the set's characters below `n`, each once. |
| `LocalEncoding.SortedCharsProps` | u8gettext/console_scripts.py:241-242 | `sorted(keys)` is strictly increasing, has the same members as the set, and has the same length. |
| `LocalEncoding.SortedEnumerates` | u8gettext/console_scripts.py:241-242 | The sorted keys list every character of the set exactly once. |
| `LocalEncoding.Rank` | u8gettext/console_scripts.py:241-246 | The `k`-th sorted character has exactly `k` characters of the set below it. |
| `LocalEncoding.IndexMapProps` | u8gettext/console_scripts.py:244-246 | Numbering a duplicate-free key list from 1 gives a map with exactly those keys, and key `k` gets `k + 1`. |
| `LocalEncoding.IndexRange` | u8gettext/console_scripts.py:244-246 | The indices are pairwise distinct and are exactly `1 .. n`. |
| `LocalEncoding.SortedIndex` | u8gettext/console_scripts.py:240-246 | Each collected character gets one more than the number of collected characters below it, in `[1, n + 1)`. |
| `U8gFont.ChunkValue` | u8gettext/console_scripts.py:262 | `int(chunk, 16)` of at most two hex digits is one byte, the chunk's value. |
| `U8gFont.GlyphData` | u8gettext/console_scripts.py:259-264 | The row loop produces the bitmap bytes `RowsFrom` describes, or the first `ValueError`. |
| `U8gFont.ChunksSpec` | u8gettext/console_scripts.py:261-262 | A row decodes exactly when it is all hex, into `ceil(len / 2)` bytes. |
| `U8gFont.RowsSpec` | u8gettext/console_scripts.py:260-262 | The bitmap decodes exactly when every row is hex, into the sum of the rows' byte counts. |
| `U8gFont.RowBytesOfBox` | u8gettext/console_scripts.py:254-262 | Rows of `2 * ceil(W / 8)` digits give `ceil(W / 8)` bytes each. |
| `U8gFont.ChunksOfHexRow` | u8gettext/console_scripts.py:262 | A row written as `%02X` digits decodes back to those bytes. |
| `U8gFont.GlyphRecordLayout` | u8gettext/console_scripts.py:252-267 | A glyph record succeeds exactly when the six header fields fit and every row is hex. Its header unpacks to `W, H, size, W, X, Y` and the bitmap bytes follow. An out-of-range field raises `struct.error`. |
| `U8gFont.GlyphSizeConsistent` | u8gettext/console_scripts.py:254 | For a well-formed BDF glyph, the size field `(W + 7) // 8 * H` equals the number of bitmap bytes that follow it. |
| `U8gFont.RecordsSpec` | u8gettext/console_scripts.py:244-267 | The glyph loop succeeds exactly when the record of every key does. |
| `U8gFont.RecordsInOrder` | u8gettext/console_scripts.py:244-267 | The records are, in order, those of the keys before `k`, then key `k`'s record, then the rest. |
| `U8gFont.RecordsSplit` | u8gettext/console_scripts.py:244-267 | The records are those before `k` followed by those from `k`. |
| `U8gFont.RecordPlacement` | u8gettext/console_scripts.py:244-269 | In data that holds the records from offset `start`, key `k`'s record sits right after the records of the keys before it. |
| `U8gFont.MissingGlyphFails` | u8gettext/console_scripts.py:250 | A key the font lacks makes the glyph loop fail (`KeyError`). |
| `U8gFont.EncodeGlyphs` | u8gettext/console_scripts.py:240-269 | The glyph loop fails exactly when the records do, with the same error. On success the blob is the header followed by the records, and each key `k` gets index `k + 1`. |
| `U8gFont.IntProperty` | u8gettext/console_scripts.py:233-235 | `int(properties[name])`: `None` raises, a missing key raises `KeyError`, and otherwise the text is parsed. |
| `U8gFont.HeaderLayout` | u8gettext/console_scripts.py:209-237 | The header packs exactly when the properties block, a first glyph and both integer properties exist and every field fits. It is 17 bytes that unpack to the first glyph's box, the 'A' height, the index range, descent, ascent and descent. |
| `U8gFont.HeaderFailures` | u8gettext/console_scripts.py:209-237 | Each failure, in the script's order: the properties' own failure, an empty font, a missing block, a missing FONT_DESCENT, an index range end outside a byte. |
| `ByteArray.Spaces` | u8gettext/console_scripts.py:278 | `" " * n` is `n` spaces, and empty for `n <= 0`. |
| `ByteArray.ByteItemShape` | u8gettext/console_scripts.py:277-278 | The item for a byte is six characters: `0x`, two upper-case digits reading back as the byte, then `, `. |
| `ByteArray.ByteItemDigits` | u8gettext/console_scripts.py:277 | The digits of an item are `%02X` of the byte. |
| `ByteArray.FormatByteArray` | u8gettext/console_scripts.py:272-281 | The loop builds exactly the text `ByteArrayText` describes. |
| `ByteArray.ByteArrayLength` | u8gettext/console_scripts.py:272-281 | The text has six characters per byte plus three per started group of sixteen bytes. |
| `ByteArray.ByteArrayPrefix` | u8gettext/console_scripts.py:272-281 | The text of a prefix of the bytes is a prefix of the text. |
| `ByteArray.ByteArrayReadBack` | u8gettext/console_scripts.py:273-279 | Byte `i` is the item at offset `6i + 3(i div 16 + 1)`, whose digits are `%02X` of the byte. Every sixteenth byte is preceded by a new line and two spaces. |
| `CString.OctalEscape` | u8gettext/console_scripts.py:81 | An escape is a backslash and three octal digits. |
| `CString.EncodeAsCString` | u8gettext/console_scripts.py:66-83 | The encoder loop yields the encoding of the string's UTF-8 bytes. |
| `CString.NewlineIsOctal` | u8gettext/console_scripts.py:75-81 | A newline becomes `\012`, never a hex escape. |
| `CString.OctalEscapeValue` | u8gettext/console_scripts.py:81 | The three octal digits of an escape denote the byte. |
| `CString.EncodeBytesShape` | u8gettext/console_scripts.py:72-81 | The encoding has one character per printable byte and four per other byte, and is printable ASCII throughout. |
| `CString.OctalEscapeDecodes` | u8gettext/console_scripts.py:81 | Under the C99 escape rules, an octal escape reads as its byte, whatever follows it. |
| `CString.EncodeBytesRoundTrip` | u8gettext/console_scripts.py:66-83 | Bytes without `"` and `\` read back from their encoding under the C99 escape rules, without trigraph replacement. |
| `CString.BackslashIsMisread` | u8gettext/console_scripts.py:72-73 | The backslash is not escaped: the bytes `\123` come back as the single byte `S`. |
| `CString.QuoteBreaksLiteral` | u8gettext/console_scripts.py:72-73 | A `"` is not escaped and ends the literal. |
| `CString.TrigraphPassesThrough` | u8gettext/console_scripts.py:72-73 | `?` is printable and is not escaped, so the bytes `??/n` are emitted as the text `??/n`. |
| `CString.EncodeAvoidsQuoteAndBackslash` | u8gettext/console_scripts.py:68 | A string without `"` and `\` has no such byte in its UTF-8 encoding. |
| `CString.EncodeAsCStringRoundTrip` | u8gettext/console_scripts.py:66-83 | For text without `"` and `\`, the C literal reads back as the UTF-8 bytes under the C99 escape rules without trigraph replacement. The bytes decode back to the text. |
| `CString.HexEscape` | scripts/u8gettext-gen-data.py:75-76 | `"\\" + hex(b)[1:]` is `\x` followed by hex digits. |
| `CString.PyHexEscape` | scripts/u8gettext-gen-data.py:75-76 | The escape is built from Python's `hex()` of the byte. |
| `CString.EncodeAsCStringOld` | scripts/u8gettext-gen-data.py:66-79 | The older encoder loop yields the older encoding of the UTF-8 bytes. |
| `CString.OldEscapes` | scripts/u8gettext-gen-data.py:72-77 | DEL (127) passes through raw, a newline becomes `\xa` and NUL becomes `\x0`. An escape is three characters below 16 and four otherwise. |
| `CString.HexEscapeMerges` | scripts/u8gettext-gen-data.py:75-77 | A newline followed by `A` is written `\xaA`, which a C compiler reads as the one byte 0xAA. |
| `CString.HexEscapeDecodes` | scripts/u8gettext-gen-data.py:75-77 | A hex escape not followed by a hex digit reads back as its byte. |
| `CString.EncodeBytesOldRoundTrip` | scripts/u8gettext-gen-data.py:66-79 | The older encoding reads back when no `"` or `\` occurs and no escaped byte precedes a hex digit. |
| `Languages.MappingLinesAt` | u8gettext/console_scripts.py:93-95 | One mapping line per key, line `k` for key `k` and its index. |
| `Languages.MappingLineAt` | u8gettext/console_scripts.py:93-95 | Line `k` of the mapping table is that of key `k`. |
| `Languages.MappingLineReadBack` | u8gettext/console_scripts.py:94 | A mapping line is 22 characters. The code point sits as `%08X` at 4..12 and the index as `%02X` at 16..18, and both read back. |
| `Languages.DeclLineAt` | u8gettext/console_scripts.py:110-118 | Entry `i` declares `sMsgId<p>_<i>` with its escaped msgid at line `2i` and `sMsgStr<p>_<i>` with its escaped msgstr at `2i + 1`. |
| `Languages.DeclLinesAt` | u8gettext/console_scripts.py:110-118 | Two declarations per entry, at every `i` as above. |
| `Languages.DecimalNoUnderscore` | u8gettext/console_scripts.py:112 | A decimal number contains no `_`. |
| `Languages.IndexPairInjective` | u8gettext/console_scripts.py:112-116 | `<p>_<i>` determines both `p` and `i`. |
| `Languages.VariableNamesDistinct` | u8gettext/console_scripts.py:112-116 | No two declared string variables share a name. |
| `Languages.TranslationRowsAt` | u8gettext/console_scripts.py:121-125 | Row `i` of a translations table points at `sMsgId<p>_<i>` and `sMsgStr<p>_<i>`. |
| `Languages.FileLinesLayout` | u8gettext/console_scripts.py:101-131 | A catalog of `k` translated entries gives `3k + 3` lines: `2k` declarations, the table header, `k` rows, `};` and the length line. |
| `Languages.FileDeclsAt` | u8gettext/console_scripts.py:110-118 | The declarations open a catalog's section. |
| `Languages.FilesLinesInOrder` | u8gettext/console_scripts.py:100-131 | Catalog `p`'s section follows those of the catalogs before it, numbered `p`. |
| `Languages.FilesPrefix` | u8gettext/console_scripts.py:100-131 | The sections of the first `k` catalogs are a prefix of all sections. |
| `Languages.LanguageRowsAt` | u8gettext/console_scripts.py:134-140 | One languages row per catalog, in catalog order, naming its language. |
| `Languages.SortedKeys` | u8gettext/console_scripts.py:89-90 | The sorted code points of the mapping dictionary have exactly its keys. |
| `Languages.SourceMappingLine` | u8gettext/console_scripts.py:89-96 | Line `1 + k` of the generated text is the mapping line of the `k`-th smallest key. |
| `Languages.AppendDeclLines` | u8gettext/console_scripts.py:110-118 | The declaration loop appends exactly the declaration lines. |
| `Languages.AppendTranslationRows` | u8gettext/console_scripts.py:121-125 | The second entry loop appends exactly the table rows. |
| `Languages.AppendFileSection` | u8gettext/console_scripts.py:101-131 | One iteration of the catalog loop appends exactly that catalog's section. |
| `Languages.AppendMappingLines` | u8gettext/console_scripts.py:93-95 | The mapping loop appends exactly the mapping lines. |
| `Languages.AppendFileSections` | u8gettext/console_scripts.py:100-131 | The catalog loop appends every catalog's section, numbered from 0. |
| `Languages.AppendLanguageRows` | u8gettext/console_scripts.py:135-140 | The languages loop appends one row per catalog. |
| `Languages.AppendMappingSection` | u8gettext/console_scripts.py:88-98 | The mapping block is its header, the sorted lines, `};` and the count line. |
| `Languages.AppendLanguagesSection` | u8gettext/console_scripts.py:133-144 | The languages block is its header, the rows, `};` and the length line. |
| `Languages.GenerateLanguagesSource` | u8gettext/console_scripts.py:85-146 | `generate_languages_source` returns the section lines joined by new-lines. |
| `GenData.Generate` | u8gettext/console_scripts.py:199-281 | `gen_data` yields exactly the blob, its C text and the languages text, or the first exception. |
| `GenData.GeneratedLayout` | u8gettext/console_scripts.py:209-238 | A successful blob opens with the 17-byte header. The header shows the first glyph's box, the 'A' height, the range `[1, n + 1)`, descent and ascent. The sorted glyph records follow. |
| `GenData.TooManyCharacters` | u8gettext/console_scripts.py:217-232 | More than 254 characters cannot be numbered: the header's end index overflows its byte and packing fails. |
| `GenData.MissingCharacterFails` | u8gettext/console_scripts.py:250 | A collected character the font lacks makes the generator fail. |
| `GenData.KeyIndex` | u8gettext/console_scripts.py:240-246 | The `k`-th smallest collected character gets index `k + 1`, and exactly `k` collected characters lie below it. |
| `GenData.RecordOfIndex` | u8gettext/console_scripts.py:240-267 | The `k`-th glyph record of the blob is that of the character with index `k + 1`. It starts after the header and the records of the smaller characters. |
| `GenData.GeneratedIndices` | u8gettext/console_scripts.py:240-246 | The index map has exactly the collected characters as keys. A character's index is one plus the count of characters below it, in `[1, n + 1)`. No index is shared. |
| `GenData.SortedMappingKeys` | u8gettext/console_scripts.py:89-90 | The mapping table's own sort of the index map's keys gives the order the glyph loop used. |
| `GenData.MappingTable` | u8gettext/console_scripts.py:89-95 | Line `k` of the mapping table holds the `k`-th smallest character and index `k + 1`. That is line `1 + k` of the generated text. |
| `LegacyGenData.MappingLineRoundTrip` | scripts/u8gettext-gen-data.py:90 | A line `\t{hex(key), index,}, ` reads back as the code point and the index. |
| `LegacyGenData.MappingLinesAt` | scripts/u8gettext-gen-data.py:89-91 | One mapping line per key, line `k` for key `k` and its index. |
| `LegacyGenData.MappingLineAt` | scripts/u8gettext-gen-data.py:89-91 | Line `k` of the mapping table is that of key `k`. |
| `LegacyGenData.TranslationRowsAt` | scripts/u8gettext-gen-data.py:103-104 | Row `i` of a translations table holds entry `i`'s escaped msgid and msgstr. |
| `LegacyGenData.FileLinesLayout` | scripts/u8gettext-gen-data.py:96-107 | A catalog of `k` translated entries gives `k + 3` lines: the header, `k` rows, `};` and the length line. |
| `LegacyGenData.FilesLinesInOrder` | scripts/u8gettext-gen-data.py:96-107 | Catalog `p`'s section follows those of the catalogs before it. |
| `LegacyGenData.FilesPrefix` | scripts/u8gettext-gen-data.py:96-107 | The sections of the first `k` catalogs are a prefix of all sections. |
| `LegacyGenData.LanguageRowsAt` | scripts/u8gettext-gen-data.py:111-116 | One languages row per catalog, in catalog order. |
| `LegacyGenData.SourceMappingLine` | scripts/u8gettext-gen-data.py:85-91 | Line `1 + k` of the generated text is the mapping line of the `k`-th smallest key. |
| `LegacyGenData.AppendMappingLines` | scripts/u8gettext-gen-data.py:89-91 | The mapping loop appends exactly the mapping lines. |
| `LegacyGenData.AppendMappingSection` | scripts/u8gettext-gen-data.py:88-94 | The mapping block is its header, the sorted lines, `};` and the length line. |
| `LegacyGenData.AppendTranslationRows` | scripts/u8gettext-gen-data.py:103-104 | The entry loop appends exactly the rows. |
| `LegacyGenData.AppendFileSection` | scripts/u8gettext-gen-data.py:97-107 | One iteration of the catalog loop appends exactly that catalog's section. |
| `LegacyGenData.AppendFileSections` | scripts/u8gettext-gen-data.py:96-107 | The catalog loop appends every catalog's section. |
| `LegacyGenData.AppendLanguagesSection` | scripts/u8gettext-gen-data.py:109-120 | The languages block is its header, the rows, `};` and the length line. |
| `LegacyGenData.GenerateLanguagesSource` | scripts/u8gettext-gen-data.py:81-122 | `generate_languages_source` returns the section lines joined by new-lines. |
| `LegacyGenData.Generate` | scripts/u8gettext-gen-data.py:175-254 | `main` yields exactly the blob, its C text and the languages text for the dictionary's order, or the first exception. |
| `LegacyGenData.GeneratedLayout` | scripts/u8gettext-gen-data.py:185-214 | A successful blob opens with the 17-byte header. The header shows the first glyph's box, the 'A' height, the range `[1, n + 1)`, descent and ascent. |
| `LegacyGenData.LegacyIndices` | scripts/u8gettext-gen-data.py:216-219 | In dictionary order, the `k`-th character gets `k + 1`. The index map has exactly the collected characters as keys and exactly `1 .. n` as values. No index is shared. |
| `LegacyGenData.RecordOfIndex` | scripts/u8gettext-gen-data.py:216-240 | The `k`-th glyph record of the blob is that of the `k`-th character in dictionary order, which has index `k + 1`. |
| `LegacyGenData.MissingCharacterFails` | scripts/u8gettext-gen-data.py:223 | A collected character the font lacks makes the script fail. |
| `LegacyGenData.SortedMappingKeys` | scripts/u8gettext-gen-data.py:85-86 | The mapping table lists the collected characters sorted by code point, whatever the dictionary's order. |
| `LegacyGenData.MappingTable` | scripts/u8gettext-gen-data.py:85-91 | Line `1 + k` shows the `k`-th smallest character with the index it got: one plus its position in dictionary order. |
| `LegacyGenData.ColumnAscendsIffSorted` | scripts/u8gettext-gen-data.py:85-91 | The index column of the sorted table ascends exactly when the dictionary's order is the sorted order. |
| `LegacyGenData.SortedOrderAscends` | scripts/u8gettext-gen-data.py:216-219 | Numbering the sorted keys makes the column ascend. |
| `LegacyGenData.AscendingIsSorted` | scripts/u8gettext-gen-data.py:216-219 | An order whose numbering makes the sorted table's column ascend is the sorted order. |
| `LegacyGenData.ColumnIsSpan` | scripts/u8gettext-gen-data.py:216-219 | An ascending column of values in `1 .. n` over `n` lines is exactly `1, 2, .., n`. |
| `PoToCFont.RowCodesSpec` | scripts/u8glib-po-to-c-font.py:134-135 | A row yields its two numbers exactly when it is all hex, has at least three digits, and its tail is a code point. The numbers are the values of the first two digits and of the rest. |
| `PoToCFont.CodesSpec` | scripts/u8glib-po-to-c-font.py:132-135 | The row loop succeeds exactly when every row is good, giving two numbers per row in order. On failure it raises the error of the first bad row. |
| `PoToCFont.Latin1Spec` | scripts/u8glib-po-to-c-font.py:137 | `six.b` succeeds exactly when every value is at most 255. It then keeps them byte for byte; otherwise it fails at the first larger one. |
| `PoToCFont.GlyphBytesSpec` | scripts/u8glib-po-to-c-font.py:132-137 | The glyph data exists exactly when every row is good with a tail below 256. It is then two bytes per row: the head's value, then the tail's. |
| `PoToCFont.TwoByteRows` | scripts/u8glib-po-to-c-font.py:132-137 | The row loop and `six.b` yield exactly `GlyphBytes`. |
| `PoToCFont.TwoByteRowRoundTrip` | scripts/u8glib-po-to-c-font.py:132-137 | A row written as two `%02X` bytes reads back as those bytes. |
| `PoToCFont.FourDigitRowsAgree` | scripts/u8glib-po-to-c-font.py:132-137 | For rows of four digits, the converter's reading equals the generators' two-digit chunks, errors included. |
| `PoToCFont.ChunksOfFourDigits` | scripts/u8glib-po-to-c-font.py:134-135 | A four-digit row reads the same by head and tail as by two-digit chunks. |
| `PoToCFont.PackFont` | scripts/u8glib-po-to-c-font.py:86-139 | `main` after loading the font yields exactly `header + glyph_header + glyph_data`, or the first exception. |
| `PoToCFont.FontDataLayout` | scripts/u8glib-po-to-c-font.py:92-139 | The blob is `17 + 6 + 2 * rows` bytes. The header shows the first glyph's box with the encoding range 0, 0. The glyph header of U+521B shows its width, height, width again and offsets. Two bytes per row follow. |
| `PoToCFont.FontDataParts` | scripts/u8glib-po-to-c-font.py:139 | A successful result is the header, the packed glyph header and the glyph data, concatenated. |
| `PoToCFont.MissingGlyphFailsHere` | scripts/u8glib-po-to-c-font.py:121-123 | A font without U+521B raises `KeyError(0x521B)` once the header packs. |
| `PoToCFont.ShortRowFails` | scripts/u8glib-po-to-c-font.py:134-135 | A bitmap row of at most two digits makes `int("", 16)` raise. |

## Left out

- Reading and writing files, `argparse`, `glob` and the fixed C prologue and
  epilogue (`u8gettext/console_scripts.py:283-336`) are left out. They are
  I/O around the modelled text. The font file's lines are a parameter.
- The `.po` parsing of `polib` and the BDF parsing of `bdflib` are not
  modelled. Their results are supplied as data: the translated and
  untranslated entries, and the glyph list and the code-point lookup. A font
  that `bdflib` rejects is outside the model.
- `IteratorFixer` and the `six` shims for Python 2 are left out. The model
  follows Python 3: `str` is a sequence of code points, `six.b` encodes
  Latin-1, and `/` is true division.
- `Text.ParseInt` accepts an optional sign followed by decimal digits. It
  does not model the surrounding white space, the underscores or the other
  spellings Python's `int()` also accepts.
- Trigraph replacement (section 5.2.1.1 of ISO/IEC 9899:1999) is not part of
  `CString.CDecode`. The round-trip lemmas of `CString` hold for compilers
  that do not replace trigraphs; a message holding `??/`, `??(` and the like
  is read differently by one that does.
- Bitmap rows are the upper-case hex digits `bdflib` produces. The other
  spellings `int(text, 16)` accepts are not modelled: a sign, surrounding
  white space, a `0x` prefix, underscores and non-ASCII digits. The model
  treats them as errors, in `U8gFont.ChunksFrom`, `PoToCFont.RowCodes` and
  the lemmas about them.
- The `ChrRange` error stands for both exceptions `chr` raises past U+10FFFF:
  `ValueError`, and `OverflowError` past a C `int`.
- `os.path` is `posixpath`. Only `/` separates directories in
  `Catalogs.Basename` and `Catalogs.LanguageName`. On Windows, `ntpath` also
  splits at `\` and after a drive's `:`, and that is not modelled.
- `dict.fromkeys(characters, None)` leaves out the `None` values: the index
  map is built from the key list. In the older generator the dictionary's
  iteration order is not determined by the source, so it is the parameter
  `order`.
- `U8gFont.DataLength` with the `/` rule treats `int((W + 7) / 8 * H)` as an
  exact division truncated toward zero. Float rounding beyond 2^53 is not
  modelled, and no lemma relates that field to the bitmap length.
- `PoToCFont.FontDataLayout` leaves the glyph header's size field out of its
  statement, for the same reason.
- `BdfProperties.GetFontProperties`: a file without ENDPROPERTIES and
  without a properties block makes the Python loop run for ever. The model
  returns the `NeverTerminates` outcome instead of diverging.
- The font converter's `action=ReadableDirectoryAction` names a class that
  does not exist (`scripts/u8glib-po-to-c-font.py:70`), so the script raises
  `NameError` before reading anything. The model covers what `main` would
  do past that point. The `print` at line 90 is output only and is left out.
- The header file name computed at `u8gettext/console_scripts.py:284-288` is
  never used and is left out.
