/** The older generator script: the same pipeline as `gen_data`, but the
    characters are numbered in the dictionary's own key order, the glyph size
    field uses `/`, the C strings use hex escapes, and the tables are written
    with other names and inline string rows. The dictionary's iteration order is
    not visible in the source, so it is a parameter `order` listing every
    collected character once. */
module LegacyGenData {
  import opened Common
  import opened Text
  import opened Catalogs
  import opened BdfProperties
  import opened U8gFont
  import opened ByteArray
  import opened LocalEncoding
  import Utf8
  import CString
  import Languages

  /** `encode_as_c_string` of this script, as a function of the string. */
  function CTextOld(s: string): string
  {
    CString.EncodeBytesOld(Utf8.Encode(s))
  }

  // -------------------------------------------------------- mapping table

  const MappingHeader: string := "static const U8GettextCharMapping sU8GettextCharMappings[] = \n{"
  const MappingCount: string :=
    "static const size_t sU8GettextCharMappingsLength = sizeof(sU8GettextCharMappings) / sizeof(sU8GettextCharMappings[0]);"
  const TableEnd: string := "};"

  // The fixed pieces of a mapping line.
  const MappingOpen: string := "\t{"
  const MappingSep: string := ", "
  const MappingClose: string := ",}, "

  /** `"\t{%s, %s,}, " % (hex(key), index)`: the code point in Python's `hex`
      form, the index in decimal. */
  function MappingLine(c: char, index: nat): string
  {
    MappingOpen + PyHex(c as int) + MappingSep + Decimal(index) + MappingClose
  }

  /** Reads a mapping line back: `\t{0x`, hex digits up to the first comma, a
      space, decimal digits, then `,}, `. */
  function ReadMappingLine(line: string): Option<(nat, nat)>
  {
    if |line| < 8 || line[..4] != "\t{0x" || line[|line| - 4..] != MappingClose then None
    else
      var body := line[4..|line| - 4];
      var k := Languages.FirstOf(body, ',');
      if 0 < k && k + 2 < |body| && body[k + 1] == ' ' && AllHex(body[..k]) && AllDecimal(body[k + 2..])
      then Some((HexValue(body[..k]), DecimalValue(body[k + 2..])))
      else None
  }

  /** Every mapping line reads back as its code point and its index, however
      many digits either takes. */
  lemma MappingLineRoundTrip(c: char, index: nat)
    ensures ReadMappingLine(MappingLine(c, index)) == Some((c as int, index))
  {
    var h := Hex(c as int, false);
    var d := Decimal(index);
    var line := MappingLine(c, index);
    assert line == "\t{0x" + h + ", " + d + ",}, ";
    var body := h + ", " + d;
    assert line[..4] == "\t{0x";
    assert line[|line| - 4..] == MappingClose;
    assert line[4..|line| - 4] == body;
    assert forall i :: 0 <= i < |h| ==> h[i] != ',';
    assert h + [','] + (" " + d) == body;
    Languages.FirstOfJoin(h, " " + d, ',');
    assert body[..|h|] == h;
    assert body[|h| + 2..] == d;
    HexRoundTrip(c as int, false);
    DecimalRoundTrip(index);
  }

  /** One mapping line per key, in the order of `keys`. */
  function MappingLines(keys: seq<char>, mapping: map<char, nat>): seq<string>
    requires forall c :: c in keys ==> c in mapping
  {
    if keys == [] then []
    else
      var c := keys[|keys| - 1];
      MappingLines(keys[..|keys| - 1], mapping) + [MappingLine(c, mapping[c])]
  }

  lemma {:induction false} MappingLinesAt(keys: seq<char>, mapping: map<char, nat>)
    requires forall c :: c in keys ==> c in mapping
    ensures |MappingLines(keys, mapping)| == |keys|
    ensures forall k :: 0 <= k < |keys| ==> MappingLines(keys, mapping)[k] == MappingLine(keys[k], mapping[keys[k]])
  {
    if keys != [] {
      var init := keys[..|keys| - 1];
      MappingLinesAt(init, mapping);
      forall k | 0 <= k < |init|
        ensures MappingLines(keys, mapping)[k] == MappingLine(keys[k], mapping[keys[k]])
      {
        assert init[k] == keys[k];
      }
    }
  }

  /** Line `k` of the mapping table, on its own. */
  lemma MappingLineAt(keys: seq<char>, mapping: map<char, nat>, k: nat)
    requires (forall c :: c in keys ==> c in mapping) && k < |keys|
    ensures |MappingLines(keys, mapping)| == |keys|
    ensures MappingLines(keys, mapping)[k] == MappingLine(keys[k], mapping[keys[k]])
  {
    MappingLinesAt(keys, mapping);
  }

  // --------------------------------------------------- translation tables

  // The fixed pieces of a language's table head, rows and length line.
  const TableHeadOpen: string := "static const U8GettextTranslation sU8GettextTranslations"
  const TableHeadClose: string := "[] = \n{"
  const RowOpen: string := "\t{\""
  const RowSep: string := "\", \""
  const RowClose: string := "\"}"
  const LengthOpen: string := "static const size_t sU8GettextTranslationsLength"
  const LengthClose: string := " = sizeof(sU8GettextTranslations) / sizeof(sU8GettextTranslations[0]);"

  function TableHeader(language: string): string
  {
    TableHeadOpen + language + TableHeadClose
  }

  /** `'\t{"%s", "%s"}'` of the escaped msgid and msgstr: the strings sit inside
      the table row itself. */
  function TranslationRow(e: Entry): string
  {
    RowOpen + CTextOld(e.msgid) + RowSep + CTextOld(e.msgstr) + RowClose
  }

  function LengthLine(language: string): string
  {
    LengthOpen + language + LengthClose
  }

  /** One row per entry, in entry order. */
  function TranslationRows(entries: seq<Entry>): seq<string>
  {
    if entries == [] then []
    else TranslationRows(entries[..|entries| - 1]) + [TranslationRow(entries[|entries| - 1])]
  }

  lemma TranslationRowsStep(entries: seq<Entry>, i: nat)
    requires i < |entries|
    ensures TranslationRows(entries[..i + 1]) == TranslationRows(entries[..i]) + [TranslationRow(entries[i])]
  {
    assert entries[..i + 1][..i] == entries[..i];
  }

  lemma {:induction false} TranslationRowsAt(entries: seq<Entry>)
    ensures |TranslationRows(entries)| == |entries|
    ensures forall i :: 0 <= i < |entries| ==> TranslationRows(entries)[i] == TranslationRow(entries[i])
  {
    if entries != [] {
      var init := entries[..|entries| - 1];
      TranslationRowsAt(init);
      forall i | 0 <= i < |init|
        ensures TranslationRows(entries)[i] == TranslationRow(entries[i])
      {
        assert init[i] == entries[i];
      }
    }
  }

  /** The lines of one catalog: the table head, one row per translated entry,
      the closing brace and the length constant. */
  function FileLines(f: PoFile): seq<string>
  {
    var language := LanguageName(f.path);
    [TableHeader(language)] + TranslationRows(f.translated) + [TableEnd, LengthLine(language)]
  }

  /** With `k` translated entries the section has `k + 3` lines: the head, row
      `i` holding the escaped texts of translated entry `i`, then the closing
      lines. */
  lemma FileLinesLayout(f: PoFile)
    ensures var lines := FileLines(f); var k := |f.translated|; var language := LanguageName(f.path);
      |lines| == k + 3 &&
      lines[0] == TableHeader(language) &&
      (forall i :: 0 <= i < k ==> lines[1 + i] == TranslationRow(f.translated[i])) &&
      lines[k + 1] == TableEnd && lines[k + 2] == LengthLine(language)
  {
    var language := LanguageName(f.path);
    var rows := TranslationRows(f.translated);
    TranslationRowsAt(f.translated);
    HeadedSection(TableHeader(language), rows, TableEnd, LengthLine(language));
  }

  lemma HeadedSection(h: string, b: seq<string>, e: string, l: string)
    ensures var lines := [h] + b + [e, l];
      |lines| == |b| + 3 && lines[0] == h &&
      (forall i :: 0 <= i < |b| ==> lines[1 + i] == b[i]) &&
      lines[|b| + 1] == e && lines[|b| + 2] == l
  {
  }

  /** The sections of all catalogs, in catalog order. */
  function FilesLines(files: seq<PoFile>): seq<string>
  {
    if files == [] then [] else FilesLines(files[..|files| - 1]) + FileLines(files[|files| - 1])
  }

  lemma FilesLinesStep(files: seq<PoFile>, p: nat)
    requires p < |files|
    ensures FilesLines(files[..p + 1]) == FilesLines(files[..p]) + FileLines(files[p])
  {
    assert files[..p + 1][..p] == files[..p];
  }

  lemma {:induction false} FilesPrefix(files: seq<PoFile>, k: nat)
    requires k <= |files|
    ensures FilesLines(files[..k]) <= FilesLines(files)
    decreases |files| - k
  {
    if k < |files| {
      FilesPrefix(files, k + 1);
      assert files[..k + 1][..k] == files[..k];
    } else {
      assert files[..k] == files;
    }
  }

  /** The section of catalog `p` follows those of the catalogs before it. */
  lemma {:induction false} FilesLinesInOrder(files: seq<PoFile>, p: nat)
    requires p < |files|
    ensures FilesLines(files[..p]) + FileLines(files[p]) <= FilesLines(files)
  {
    FilesLinesStep(files, p);
    FilesPrefix(files, p + 1);
  }

  // ------------------------------------------------------------ languages

  const LanguagesHeader: string := "const U8GettextLanguage gU8GettextLanguages[] = \n{"
  const LanguagesCount: string :=
    "const size_t gU8GettextLanguagesLength = sizeof(gU8GettextLanguages) / sizeof(gU8GettextLanguages[0]);"

  // The fixed pieces of a languages row.
  const LanguageOpen: string := "\t{\""
  const LanguageTable: string := "\", sU8GettextTranslations"
  const LanguageLength: string := ", &sU8GettextTranslationsLength"
  const LanguageClose: string := "}"

  function LanguageRow(language: string): string
  {
    LanguageOpen + language + LanguageTable + language + LanguageLength + language + LanguageClose
  }

  function LanguageRows(files: seq<PoFile>): seq<string>
  {
    if files == [] then []
    else LanguageRows(files[..|files| - 1]) + [LanguageRow(LanguageName(files[|files| - 1].path))]
  }

  /** One row per catalog, in catalog order, naming the catalog's language. */
  lemma {:induction false} LanguageRowsAt(files: seq<PoFile>)
    ensures |LanguageRows(files)| == |files|
    ensures forall p :: 0 <= p < |files| ==> LanguageRows(files)[p] == LanguageRow(LanguageName(files[p].path))
  {
    if files != [] {
      var init := files[..|files| - 1];
      LanguageRowsAt(init);
      forall p | 0 <= p < |init|
        ensures LanguageRows(files)[p] == LanguageRow(LanguageName(files[p].path))
      {
        assert init[p] == files[p];
      }
    }
  }

  // ------------------------------------------------------- the whole text

  function MappingSection(mapping: map<char, nat>): seq<string>
  {
    [MappingHeader] + MappingLines(Languages.SortedKeys(mapping), mapping) + [TableEnd, MappingCount]
  }

  function LanguagesSection(files: seq<PoFile>): seq<string>
  {
    [LanguagesHeader] + LanguageRows(files) + [TableEnd, LanguagesCount]
  }

  /** All the lines of the generated text, in order. */
  function SourceLines(files: seq<PoFile>, mapping: map<char, nat>): seq<string>
  {
    MappingSection(mapping) + FilesLines(files) + LanguagesSection(files)
  }

  /** Line `1 + k` of the text is the mapping line of the `k`-th smallest key. */
  lemma SourceMappingLine(files: seq<PoFile>, mapping: map<char, nat>, k: nat)
    requires k < |Languages.SortedKeys(mapping)|
    ensures Languages.SortedKeys(mapping)[k] in mapping
    ensures 1 + k < |SourceLines(files, mapping)| &&
      SourceLines(files, mapping)[1 + k] ==
        MappingLine(Languages.SortedKeys(mapping)[k], mapping[Languages.SortedKeys(mapping)[k]])
  {
    var keys := Languages.SortedKeys(mapping);
    MappingLineAt(keys, mapping, k);
    var section := MappingSection(mapping);
    assert section[1 + k] == MappingLines(keys, mapping)[k];
    assert SourceLines(files, mapping)[1 + k] == section[1 + k];
  }

  /** The mapping lines of `keys`, appended to `result`. */
  method AppendMappingLines(result: seq<string>, keys: seq<char>, mapping: map<char, nat>) returns (r: seq<string>)
    requires forall c :: c in keys ==> c in mapping
    ensures r == result + MappingLines(keys, mapping)
  {
    r := result;
    for k := 0 to |keys|
      invariant r == result + MappingLines(keys[..k], mapping)
    {
      assert keys[..k + 1][..k] == keys[..k];
      var line := MappingLine(keys[k], mapping[keys[k]]);
      Languages.AppendAssoc(result, MappingLines(keys[..k], mapping), [line]);
      r := r + [line];
    }
    assert keys[..|keys|] == keys;
  }

  method AppendMappingSection(result: seq<string>, mapping: map<char, nat>) returns (r: seq<string>)
    ensures r == result + MappingSection(mapping)
  {
    var keys := Languages.SortedKeys(mapping);
    r := result + [MappingHeader];
    r := AppendMappingLines(r, keys, mapping);
    r := r + [TableEnd, MappingCount];
    Languages.SectionAssoc(result, [MappingHeader], MappingLines(keys, mapping), [TableEnd, MappingCount], []);
  }

  /** The rows of one language table, each entry's texts escaped on the way. */
  method AppendTranslationRows(result: seq<string>, entries: seq<Entry>) returns (r: seq<string>)
    ensures r == result + TranslationRows(entries)
  {
    r := result;
    for i := 0 to |entries|
      invariant r == result + TranslationRows(entries[..i])
    {
      TranslationRowsStep(entries, i);
      var id := CString.EncodeAsCStringOld(entries[i].msgid);
      var str := CString.EncodeAsCStringOld(entries[i].msgstr);
      var row := RowOpen + id + RowSep + str + RowClose;
      Languages.AppendAssoc(result, TranslationRows(entries[..i]), [row]);
      r := r + [row];
    }
    assert entries[..|entries|] == entries;
  }

  method AppendFileSection(result: seq<string>, f: PoFile) returns (r: seq<string>)
    ensures r == result + FileLines(f)
  {
    var language := LanguageName(f.path);
    r := result + [TableHeader(language)];
    r := AppendTranslationRows(r, f.translated);
    r := r + [TableEnd, LengthLine(language)];
    Languages.SectionAssoc(result, [TableHeader(language)], TranslationRows(f.translated), [TableEnd, LengthLine(language)], []);
  }

  method AppendFileSections(result: seq<string>, files: seq<PoFile>) returns (r: seq<string>)
    ensures r == result + FilesLines(files)
  {
    r := result;
    for p := 0 to |files|
      invariant r == result + FilesLines(files[..p])
    {
      FilesLinesStep(files, p);
      r := AppendFileSection(r, files[p]);
      Languages.AppendAssoc(result, FilesLines(files[..p]), FileLines(files[p]));
    }
    assert files[..|files|] == files;
  }

  method AppendLanguagesSection(result: seq<string>, files: seq<PoFile>) returns (r: seq<string>)
    ensures r == result + LanguagesSection(files)
  {
    r := result + [LanguagesHeader];
    ghost var start := r;
    for p := 0 to |files|
      invariant r == start + LanguageRows(files[..p])
    {
      assert files[..p + 1][..p] == files[..p];
      var language := LanguageName(files[p].path);
      Languages.AppendAssoc(start, LanguageRows(files[..p]), [LanguageRow(language)]);
      r := r + [LanguageRow(language)];
    }
    assert files[..|files|] == files;
    r := r + [TableEnd, LanguagesCount];
    Languages.SectionAssoc(result, [LanguagesHeader], LanguageRows(files), [TableEnd, LanguagesCount], []);
  }

  /** `generate_languages_source` of this script. */
  method GenerateLanguagesSource(files: seq<PoFile>, mapping: map<char, nat>) returns (text: string)
    ensures text == Join(SourceLines(files, mapping), "\n")
  {
    var result := AppendMappingSection([], mapping);
    result := AppendFileSections(result, files);
    result := AppendLanguagesSection(result, files);
    assert [] + MappingSection(mapping) == MappingSection(mapping);
    text := Join(result, "\n");
  }

  // ------------------------------------------------------------ main body

  /** What the script writes between its fixed prologue and epilogue. */
  datatype Output = Output(fontData: seq<Byte>, fontText: string, languagesText: string)

  /** The keys of the character dictionary, sorted (the mapping table's order). */
  function Keys(files: seq<PoFile>): seq<char>
  {
    SortedChars(Collected(files))
  }

  /** The font blob: the header for the index range `[1, n + 1)`, then the
      glyph records in dictionary order, with the size field computed by `/`. */
  function Blob(files: seq<PoFile>, font: Font, fontLines: seq<string>, order: seq<char>): Result<seq<Byte>>
  {
    var header := Header(font, PropertiesOf(fontLines), 1, 1 + |Collected(files)|);
    if header.Err? then Err(header.error)
    else
      var records := RecordsFrom(font, order, 0, FloatDivision);
      if records.Err? then Err(records.error) else Ok(header.value + records.value)
  }

  function LanguagesText(files: seq<PoFile>, order: seq<char>): string
  {
    Join(SourceLines(files, IndexMap(order)), "\n")
  }

  function Generated(files: seq<PoFile>, font: Font, fontLines: seq<string>, order: seq<char>): Result<Output>
  {
    match Blob(files, font, fontLines, order)
    case Err(e) => Err(e)
    case Ok(data) => Ok(Output(data, ByteArrayText(data), LanguagesText(files, order)))
  }

  /** `main` of the script between reading its inputs and writing its output;
      `order` is the key order of `dict.fromkeys(characters)`. */
  method Generate(files: seq<PoFile>, font: Font, fontLines: seq<string>, order: seq<char>) returns (r: Result<Output>)
    requires Enumerates(order, Collected(files))
    ensures r == Generated(files, font, fontLines, order)
  {
    var characters := GatherCharacters(files);
    var properties := GetFontProperties(fontLines);
    var encodingStart := 1;
    var encodingEnd := encodingStart + |characters|;
    var header := Header(font, properties, encodingStart, encodingEnd);
    if header.Err? {
      return Err(header.error);
    }
    var encoded := EncodeGlyphs(font, order, header.value, FloatDivision);
    if encoded.Err? {
      return Err(encoded.error);
    }
    var fontText := FormatByteArray(encoded.value.blob);
    var languagesText := GenerateLanguagesSource(files, encoded.value.indices);
    return Ok(Output(encoded.value.blob, fontText, languagesText));
  }

  /** The blob is the 17-byte header followed by exactly the glyph records. */
  lemma BlobParts(files: seq<PoFile>, font: Font, fontLines: seq<string>, order: seq<char>)
    ensures var header := Header(font, PropertiesOf(fontLines), 1, 1 + |Collected(files)|);
      var records := RecordsFrom(font, order, 0, FloatDivision);
      var r := Blob(files, font, fontLines, order);
      r.Ok? ==>
        header.Ok? && records.Ok? && |r.value| >= 17 &&
        r.value[..17] == header.value && r.value[17..] == records.value
  {
    HeaderSize(font, PropertiesOf(fontLines), 1, 1 + |Collected(files)|);
  }

  /** The header is the same as the current generator's: the first glyph's box,
      the 'A' height, the index range `[1, n + 1)`, descent and ascent. */
  lemma GeneratedLayout(files: seq<PoFile>, font: Font, fontLines: seq<string>, order: seq<char>)
    ensures StructPack.FormatSize(StructPack.HeaderFormat) == 17
    ensures var r := Blob(files, font, fontLines, order); var props := PropertiesOf(fontLines);
      r.Ok? ==>
        props.Properties? && |font.glyphs| > 0 &&
        "FONT_DESCENT" in props.props && ParseInt(props.props["FONT_DESCENT"]).Ok? &&
        "FONT_ASCENT" in props.props && ParseInt(props.props["FONT_ASCENT"]).Ok? &&
        |r.value| >= 17 &&
        StructPack.Unpack(StructPack.HeaderFormat, r.value[..17]) ==
          HeaderFields(font.glyphs[0], UppercaseAHeight(font), 1, 1 + |Collected(files)|,
            ParseInt(props.props["FONT_DESCENT"]).value, ParseInt(props.props["FONT_ASCENT"]).value)
  {
    BlobParts(files, font, fontLines, order);
    HeaderLayout(font, PropertiesOf(fontLines), 1, 1 + |Collected(files)|);
  }

  /** Numbering in dictionary order still gives a bijection from the collected
      characters onto `1..n`: the `k`-th key in that order gets `k + 1`. */
  lemma LegacyIndices(files: seq<PoFile>, order: seq<char>)
    requires Enumerates(order, Collected(files))
    ensures var m := IndexMap(order); var chars := Collected(files);
      m.Keys == chars && |order| == |chars| &&
      (forall k :: 0 <= k < |order| ==> m[order[k]] == k + 1) &&
      m.Values == Span(|chars|) &&
      (forall c, d :: c in m && d in m && c != d ==> m[c] != m[d])
  {
    var chars := Collected(files);
    IndexMapProps(order);
    IndexRange(order);
    EnumerationLength(order, chars);
  }

  /** An enumeration of a set is as long as the set is large. */
  lemma EnumerationLength(order: seq<char>, s: set<char>)
    requires Enumerates(order, s)
    ensures |order| == |s|
  {
    DistinctCard(order);
    assert Elements(order) == s;
  }

  /** The records follow the dictionary order: the `k`-th record is that of
      `order[k]`, the character numbered `k + 1`. */
  lemma RecordOfIndex(files: seq<PoFile>, font: Font, fontLines: seq<string>, order: seq<char>, k: nat)
    requires Enumerates(order, Collected(files))
    requires Blob(files, font, fontLines, order).Ok? && k < |order|
    ensures order[k] in IndexMap(order) && IndexMap(order)[order[k]] == k + 1
    ensures RecordsBefore(font, order, k, FloatDivision).Ok? && Record(font, order[k], FloatDivision).Ok?
    ensures var data := Blob(files, font, fontLines, order).value;
      var offset := 17 + |RecordsBefore(font, order, k, FloatDivision).value|;
      var record := Record(font, order[k], FloatDivision).value;
      offset + |record| <= |data| && data[offset..offset + |record|] == record
  {
    IndexMapProps(order);
    BlobParts(files, font, fontLines, order);
    RecordAfterHeader(font, order, k, Blob(files, font, fontLines, order).value);
  }

  lemma RecordAfterHeader(font: Font, keys: seq<char>, k: nat, data: seq<Byte>)
    requires k < |keys| && |data| >= 17 && RecordsFrom(font, keys, 0, FloatDivision).Ok?
    requires data[17..] == RecordsFrom(font, keys, 0, FloatDivision).value
    ensures RecordsBefore(font, keys, k, FloatDivision).Ok? && Record(font, keys[k], FloatDivision).Ok?
    ensures var offset := 17 + |RecordsBefore(font, keys, k, FloatDivision).value|;
      var record := Record(font, keys[k], FloatDivision).value;
      offset + |record| <= |data| && data[offset..offset + |record|] == record
  {
    RecordPlacement(font, keys, k, FloatDivision, data, 17);
  }

  /** A collected character missing from the font makes the script fail. */
  lemma MissingCharacterFails(files: seq<PoFile>, font: Font, fontLines: seq<string>, order: seq<char>, c: char)
    requires Enumerates(order, Collected(files))
    requires c in Collected(files) && c as int !in font.byCode
    ensures Blob(files, font, fontLines, order).Err?
  {
    var k :| 0 <= k < |order| && order[k] == c;
    MissingGlyphFails(font, order, k, FloatDivision);
  }

  // ------------------------------------------- the mapping table's index column

  /** The index column of the mapping table, top to bottom, only ever grows. */
  predicate ColumnAscends(keys: seq<char>, m: map<char, nat>)
    requires forall c :: c in keys ==> c in m
  {
    forall i, j :: 0 <= i < j < |keys| ==> m[keys[i]] < m[keys[j]]
  }

  /** The keys of the index map, sorted again by the table emitter, are the
      sorted collected characters. */
  lemma SortedMappingKeys(files: seq<PoFile>, order: seq<char>)
    requires Enumerates(order, Collected(files))
    ensures |Keys(files)| == |Collected(files)| && |order| == |Collected(files)|
    ensures forall c :: c in Keys(files) <==> c in IndexMap(order)
    ensures Languages.SortedKeys(IndexMap(order)) == Keys(files)
  {
    SortedCharsProps(Collected(files));
    IndexMapProps(order);
    EnumerationLength(order, Collected(files));
    assert IndexMap(order).Keys == Collected(files);
  }

  /** The mapping table is sorted by code point while the indices follow the
      dictionary order: line `k` holds the `k`-th smallest character and the
      index it got, one more than its position in `order`. */
  lemma MappingTable(files: seq<PoFile>, order: seq<char>, k: nat)
    requires Enumerates(order, Collected(files)) && k < |Collected(files)|
    ensures var keys := Keys(files); var m := IndexMap(order);
      |keys| == |Collected(files)| && keys[k] in m && Languages.SortedKeys(m) == keys &&
      1 + k < |SourceLines(files, m)| &&
      SourceLines(files, m)[1 + k] == MappingLine(keys[k], m[keys[k]]) &&
      forall j :: 0 <= j < |order| && order[j] == keys[k] ==> m[keys[k]] == j + 1
  {
    SortedMappingKeys(files, order);
    IndexMapProps(order);
    SourceMappingLine(files, IndexMap(order), k);
  }

  /** The index column ascends exactly when the dictionary order is the sorted
      order; any other order puts a larger index above a smaller one. */
  lemma ColumnAscendsIffSorted(files: seq<PoFile>, order: seq<char>)
    requires Enumerates(order, Collected(files))
    ensures forall c :: c in Keys(files) ==> c in IndexMap(order)
    ensures ColumnAscends(Keys(files), IndexMap(order)) <==> order == Keys(files)
  {
    var keys := Keys(files);
    SortedMappingKeys(files, order);
    if order == keys {
      SortedOrderAscends(keys);
    }
    if ColumnAscends(keys, IndexMap(order)) {
      AscendingIsSorted(order, keys);
    }
  }

  /** Numbering the sorted keys themselves gives the column `1, 2, .., n`. */
  lemma SortedOrderAscends(keys: seq<char>)
    requires Distinct(keys)
    ensures forall c :: c in keys ==> c in IndexMap(keys)
    ensures ColumnAscends(keys, IndexMap(keys))
  {
    IndexMapProps(keys);
  }

  /** If listing `keys` shows the indices `order` gave them in ascending order,
      then `order` is `keys`. */
  lemma AscendingIsSorted(order: seq<char>, keys: seq<char>)
    requires Distinct(order) && |order| == |keys|
    requires forall c :: c in keys <==> c in IndexMap(order)
    requires ColumnAscends(keys, IndexMap(order))
    ensures order == keys
  {
    var m := IndexMap(order);
    IndexRange(order);
    ColumnIsSpan(keys, m);
    IndexMapProps(order);
    forall i | 0 <= i < |keys|
      ensures order[i] == keys[i]
    {
      assert m[keys[i]] == i + 1 == m[order[i]];
    }
  }

  /** An ascending column of `n` indices drawn from `1..n` reads `1, 2, .., n`. */
  lemma ColumnIsSpan(keys: seq<char>, m: map<char, nat>)
    requires forall c :: c in keys ==> c in m && 1 <= m[c] <= |keys|
    requires ColumnAscends(keys, m)
    ensures forall i :: 0 <= i < |keys| ==> m[keys[i]] == i + 1
  {
    var v := seq(|keys|, i requires 0 <= i < |keys| => m[keys[i]] as int);
    forall i | 0 <= i < |keys|
      ensures m[keys[i]] == i + 1
    {
      Squeezed(v, i);
    }
  }

  /** A strictly increasing sequence of `n` integers drawn from `1..n` is `1, 2, .., n`. */
  lemma Squeezed(v: seq<int>, i: nat)
    requires forall a, b :: 0 <= a < b < |v| ==> v[a] < v[b]
    requires forall a :: 0 <= a < |v| ==> 1 <= v[a] <= |v|
    requires i < |v|
    ensures v[i] == i + 1
  {
    RisesFromOne(v, i);
    StaysBelowTop(v, i);
  }

  lemma {:induction false} RisesFromOne(v: seq<int>, i: nat)
    requires forall a, b :: 0 <= a < b < |v| ==> v[a] < v[b]
    requires forall a :: 0 <= a < |v| ==> 1 <= v[a]
    requires i < |v|
    ensures v[i] >= i + 1
  {
    if i > 0 {
      RisesFromOne(v, i - 1);
    }
  }

  lemma {:induction false} StaysBelowTop(v: seq<int>, i: nat)
    requires forall a, b :: 0 <= a < b < |v| ==> v[a] < v[b]
    requires forall a :: 0 <= a < |v| ==> v[a] <= |v|
    requires i < |v|
    ensures v[i] <= i + 1
    decreases |v| - i
  {
    if i + 1 < |v| {
      StaysBelowTop(v, i + 1);
    }
  }
}
