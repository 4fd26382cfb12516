/** The non-I/O body of `gen_data` in the current generator: collect the
    characters, read the font properties, pack the font header, give every
    character its index in ascending code point order while packing its glyph
    record, and render the blob and the language tables as C text. */
module GenData {
  import opened Common
  import opened StructPack
  import opened Catalogs
  import opened BdfProperties
  import opened U8gFont
  import opened ByteArray
  import opened Languages
  import opened LocalEncoding
  import Text

  /** What the generator writes between its fixed prologue and epilogue: the
      font blob, its C text, and the character-mapping and translation text. */
  datatype Output = Output(fontData: seq<Byte>, fontText: string, languagesText: string)

  /** The keys of the character dictionary, sorted. */
  function Keys(files: seq<PoFile>): seq<char>
  {
    SortedChars(Collected(files))
  }

  /** The font blob: the header for the index range `[1, n + 1)`, then the
      glyph records of the sorted characters, failing with the first exception
      the script would raise. */
  function Blob(files: seq<PoFile>, font: Font, fontLines: seq<string>): Result<seq<Byte>>
  {
    var chars := Collected(files);
    var header := Header(font, PropertiesOf(fontLines), 1, 1 + |chars|);
    if header.Err? then Err(header.error)
    else
      var records := RecordsFrom(font, SortedChars(chars), 0, FloorDivision);
      if records.Err? then Err(records.error) else Ok(header.value + records.value)
  }

  /** The mapping and translation text for the indices the glyph loop hands out. */
  function LanguagesText(files: seq<PoFile>): string
  {
    Text.Join(SourceLines(files, IndexMap(Keys(files))), "\n")
  }

  /** The generator's result. */
  function Generated(files: seq<PoFile>, font: Font, fontLines: seq<string>): Result<Output>
  {
    match Blob(files, font, fontLines)
    case Err(e) => Err(e)
    case Ok(data) => Ok(Output(data, ByteArrayText(data), LanguagesText(files)))
  }

  /** `gen_data` from the gathered characters to the generated text. */
  method Generate(files: seq<PoFile>, font: Font, fontLines: seq<string>) returns (r: Result<Output>)
    ensures r == Generated(files, font, fontLines)
  {
    var characters := GatherCharacters(files);
    var properties := GetFontProperties(fontLines);
    // The first index is 1: u8glib ends a string at 0.
    var encodingStart := 1;
    var encodingEnd := encodingStart + |characters|;
    var header := Header(font, properties, encodingStart, encodingEnd);
    if header.Err? {
      return Err(header.error);
    }
    var keys := SortedChars(characters);
    var encoded := EncodeGlyphs(font, keys, header.value, FloorDivision);
    if encoded.Err? {
      return Err(encoded.error);
    }
    var fontText := FormatByteArray(encoded.value.blob);
    var languagesText := GenerateLanguagesSource(files, encoded.value.indices);
    return Ok(Output(encoded.value.blob, fontText, languagesText));
  }

  /** The blob opens with the 17-byte header holding the first glyph's box, the
      'A' height, the index range `[1, n + 1)` and the font's descent and
      ascent; the glyph records of the sorted characters follow it. */
  lemma GeneratedLayout(files: seq<PoFile>, font: Font, fontLines: seq<string>)
    ensures FormatSize(HeaderFormat) == 17
    ensures var r := Blob(files, font, fontLines); var props := PropertiesOf(fontLines);
      r.Ok? ==>
        props.Properties? && |font.glyphs| > 0 &&
        "FONT_DESCENT" in props.props && Text.ParseInt(props.props["FONT_DESCENT"]).Ok? &&
        "FONT_ASCENT" in props.props && Text.ParseInt(props.props["FONT_ASCENT"]).Ok? &&
        |r.value| >= 17 &&
        Unpack(HeaderFormat, r.value[..17]) ==
          HeaderFields(font.glyphs[0], UppercaseAHeight(font), 1, 1 + |Collected(files)|,
            Text.ParseInt(props.props["FONT_DESCENT"]).value, Text.ParseInt(props.props["FONT_ASCENT"]).value) &&
        r.value[17..] == RecordsFrom(font, Keys(files), 0, FloorDivision).value
  {
    BlobParts(files, font, fontLines);
    HeaderLayout(font, PropertiesOf(fontLines), 1, 1 + |Collected(files)|);
  }

  /** More than 254 distinct characters cannot be indexed: the last index does
      not fit the header's unsigned byte and packing fails. */
  lemma TooManyCharacters(files: seq<PoFile>, font: Font, fontLines: seq<string>)
    requires |Collected(files)| > 254
    ensures Blob(files, font, fontLines).Err? && Generated(files, font, fontLines).Err?
  {
    HeaderFailures(font, PropertiesOf(fontLines), 1, 1 + |Collected(files)|);
  }

  /** A collected character the font lacks makes the generator fail. */
  lemma MissingCharacterFails(files: seq<PoFile>, font: Font, fontLines: seq<string>, c: char)
    requires c in Collected(files) && c as int !in font.byCode
    ensures Blob(files, font, fontLines).Err? && Generated(files, font, fontLines).Err?
  {
    var keys := Keys(files);
    SortedCharsProps(Collected(files));
    var k :| 0 <= k < |keys| && keys[k] == c;
    MissingGlyphFails(font, keys, k, FloorDivision);
  }

  lemma KeysLength(files: seq<PoFile>)
    ensures |Keys(files)| == |Collected(files)|
  {
    SortedCharsProps(Collected(files));
  }

  /** The `k`-th smallest collected character gets index `k + 1`. */
  lemma KeyIndex(files: seq<PoFile>, k: nat)
    requires k < |Collected(files)|
    ensures |Keys(files)| == |Collected(files)|
    ensures Keys(files)[k] in IndexMap(Keys(files)) && IndexMap(Keys(files))[Keys(files)[k]] == k + 1
    ensures |Below(Collected(files), Keys(files)[k] as int)| == k
  {
    var chars := Collected(files);
    var keys := Keys(files);
    SortedCharsProps(chars);
    StrictlyIncreasingDistinct(keys);
    IndexMapProps(keys);
    Rank(chars, keys, k);
  }

  /** The `k`-th glyph record belongs to the `k`-th smallest collected
      character, the one with index `k + 1` (`KeyIndex`): it sits right after
      the header and the records of the smaller characters. */
  lemma RecordOfIndex(files: seq<PoFile>, font: Font, fontLines: seq<string>, k: nat)
    requires Blob(files, font, fontLines).Ok? && k < |Collected(files)|
    ensures |Keys(files)| == |Collected(files)|
    ensures RecordsBefore(font, Keys(files), k, FloorDivision).Ok? && Record(font, Keys(files)[k], FloorDivision).Ok?
    ensures var data := Blob(files, font, fontLines).value;
      var offset := 17 + |RecordsBefore(font, Keys(files), k, FloorDivision).value|;
      var record := Record(font, Keys(files)[k], FloorDivision).value;
      offset + |record| <= |data| && data[offset..offset + |record|] == record
  {
    KeysLength(files);
    BlobParts(files, font, fontLines);
    RecordAfterHeader(font, Keys(files), k, Blob(files, font, fontLines).value);
  }

  lemma RecordAfterHeader(font: Font, keys: seq<char>, k: nat, data: seq<Byte>)
    requires k < |keys| && |data| >= 17 && RecordsFrom(font, keys, 0, FloorDivision).Ok?
    requires data[17..] == RecordsFrom(font, keys, 0, FloorDivision).value
    ensures RecordsBefore(font, keys, k, FloorDivision).Ok? && Record(font, keys[k], FloorDivision).Ok?
    ensures var offset := 17 + |RecordsBefore(font, keys, k, FloorDivision).value|;
      var record := Record(font, keys[k], FloorDivision).value;
      offset + |record| <= |data| && data[offset..offset + |record|] == record
  {
    RecordPlacement(font, keys, k, FloorDivision, data, 17);
  }

  /** The blob is the 17-byte header followed by exactly the glyph records. */
  lemma BlobParts(files: seq<PoFile>, font: Font, fontLines: seq<string>)
    ensures var header := Header(font, PropertiesOf(fontLines), 1, 1 + |Collected(files)|);
      var records := RecordsFrom(font, Keys(files), 0, FloorDivision);
      var r := Blob(files, font, fontLines);
      r.Ok? ==>
        header.Ok? && records.Ok? && |r.value| >= 17 &&
        r.value[..17] == header.value && r.value[17..] == records.value
  {
    HeaderSize(font, PropertiesOf(fontLines), 1, 1 + |Collected(files)|);
  }

  /** The index map the generator hands to the table emitter is keyed by the
      collected characters; each gets one more than the number of collected
      characters below it, all indices lie in `[1, n + 1)`, and no two
      characters share one. */
  lemma GeneratedIndices(files: seq<PoFile>)
    ensures var m := IndexMap(Keys(files)); var chars := Collected(files);
      m.Keys == chars &&
      (forall c :: c in chars ==> m[c] == 1 + |Below(chars, c as int)| && 1 <= m[c] < |chars| + 1) &&
      (forall c, d :: c in m && d in m && c != d ==> m[c] != m[d])
  {
    var chars := Collected(files);
    var keys := Keys(files);
    SortedCharsProps(chars);
    StrictlyIncreasingDistinct(keys);
    IndexMapProps(keys);
    IndexRange(keys);
    forall c | c in chars
      ensures IndexMap(keys)[c] == 1 + |Below(chars, c as int)|
    {
      SortedIndex(chars, c);
    }
  }

  /** The keys of the index map, sorted again by the table emitter, are the
      generator's sorted characters. */
  lemma SortedMappingKeys(files: seq<PoFile>)
    ensures |Keys(files)| == |Collected(files)| && StrictlyIncreasing(Keys(files))
    ensures SortedKeys(IndexMap(Keys(files))) == Keys(files)
  {
    var chars := Collected(files);
    var keys := Keys(files);
    SortedCharsProps(chars);
    StrictlyIncreasingDistinct(keys);
    IndexMapProps(keys);
    assert IndexMap(keys).Keys == chars;
  }

  /** The mapping table the generator writes has one line per collected
      character in strictly ascending code point order, line `k` holding the
      `k`-th smallest character and index `k + 1`. */
  lemma MappingTable(files: seq<PoFile>, k: nat)
    requires k < |Collected(files)|
    ensures var keys := Keys(files); var m := IndexMap(keys);
      |keys| == |Collected(files)| && SortedKeys(m) == keys && StrictlyIncreasing(keys) &&
      |MappingLines(keys, m)| == |Collected(files)| &&
      MappingLines(keys, m)[k] == MappingLine(keys[k], k + 1) &&
      SourceLines(files, m)[1 + k] == MappingLine(keys[k], k + 1)
  {
    var keys := Keys(files);
    var m := IndexMap(keys);
    SortedMappingKeys(files);
    IndexMapProps(keys);
    MappingLinesAt(keys, m);
    SourceMappingLine(files, m, k);
  }
}
