/** The u8glib font blob built from a BDF font: the 17-byte font header, and for
    each character a glyph record made of a 6-byte header and the bitmap bytes
    read from the glyph's hex rows. The font itself is supplied as data, the way
    `bdflib` presents it: the glyphs in file order and the lookup by code point. */
module U8gFont {
  import opened Common
  import opened Text
  import opened StructPack
  import opened BdfProperties
  import LocalEncoding

  /** A BDF glyph: its bounding box and its bitmap rows as hex strings. */
  datatype Glyph = Glyph(bbW: int, bbH: int, bbX: int, bbY: int, rows: seq<string>)

  /** `font.glyphs` and `font[code_point]`. */
  datatype Font = Font(glyphs: seq<Glyph>, byCode: map<int, Glyph>)

  /** The bytes of two steps one after the other; the first failure wins, as
      the first exception raised ends the script. */
  function Cat(a: Result<seq<Byte>>, b: Result<seq<Byte>>): (r: Result<seq<Byte>>)
    ensures r.Ok? <==> a.Ok? && b.Ok?
    ensures r.Ok? ==> r.value == a.value + b.value
    ensures a.Err? ==> r == a
    ensures a.Ok? && b.Err? ==> r == b
  {
    if a.Err? then a else if b.Err? then b else Ok(a.value + b.value)
  }

  lemma CatAssoc(a: Result<seq<Byte>>, b: Result<seq<Byte>>, c: Result<seq<Byte>>)
    ensures Cat(Cat(a, b), c) == Cat(a, Cat(b, c))
  {
    if a.Ok? && b.Ok? && c.Ok? {
      assert (a.value + b.value) + c.value == a.value + (b.value + c.value);
    }
  }

  lemma CatUnit(a: Result<seq<Byte>>)
    ensures Cat(Ok([]), a) == a
  {
    if a.Ok? {
      assert [] + a.value == a.value;
    }
  }

  // ---------------------------------------------------------- bitmap rows

  function Min(a: int, b: int): int { if a < b then a else b }

  /** The value of a chunk of at most two hex digits is one byte. */
  function ChunkValue(chunk: string): (v: Byte)
    requires AllHex(chunk) && |chunk| <= 2
    ensures v == HexValue(chunk)
  {
    HexValueBound(chunk);
    PowMonotone(|chunk|, 2);
    assert Pow16(2) == 256;
    HexValue(chunk)
  }

  /** `for i in range(start, len(row), 2): chr(int(row[i:i+2], 16))`: one byte
      per two-digit chunk, the last chunk of an odd-length row being one digit. */
  function ChunksFrom(row: string, i: nat): Result<seq<Byte>>
    decreases |row| - i
  {
    if i >= |row| then Ok([])
    else
      var chunk := row[i..Min(i + 2, |row|)];
      if !AllHex(chunk) then Err(BadHex(chunk))
      else Cat(Ok([ChunkValue(chunk)]), ChunksFrom(row, i + 2))
  }

  /** The bitmap bytes of rows `j..`, row after row. */
  function RowsFrom(rows: seq<string>, j: nat): Result<seq<Byte>>
    requires j <= |rows|
    decreases |rows| - j
  {
    if j == |rows| then Ok([]) else Cat(ChunksFrom(rows[j], 0), RowsFrom(rows, j + 1))
  }

  /** The nested loop over `glyph.get_data()` building `glyph_data`. */
  method GlyphData(rows: seq<string>) returns (r: Result<seq<Byte>>)
    ensures r == RowsFrom(rows, 0)
  {
    var glyphData: seq<Byte> := [];
    CatUnit(RowsFrom(rows, 0));
    for j := 0 to |rows|
      invariant Cat(Ok(glyphData), RowsFrom(rows, j)) == RowsFrom(rows, 0)
    {
      var row := rows[j];
      var i := 0;
      while i < |row|
        invariant Cat(Ok(glyphData), Cat(ChunksFrom(row, i), RowsFrom(rows, j + 1))) == RowsFrom(rows, 0)
        decreases |row| - i
      {
        var chunk := row[i..Min(i + 2, |row|)];
        if !AllHex(chunk) {
          return Err(BadHex(chunk));
        }
        var v := ChunkValue(chunk);
        CatAssoc(Ok([v]), ChunksFrom(row, i + 2), RowsFrom(rows, j + 1));
        CatAssoc(Ok(glyphData), Ok([v]), Cat(ChunksFrom(row, i + 2), RowsFrom(rows, j + 1)));
        glyphData := glyphData + [v];
        i := i + 2;
      }
      CatUnit(RowsFrom(rows, j + 1));
    }
    assert glyphData + [] == glyphData;
    return Ok(glyphData);
  }

  /** A row reads without error exactly when it is all hex digits, and then
      gives one byte per started pair of digits. */
  lemma {:induction false} ChunksSpec(row: string, i: nat)
    requires i <= |row|
    ensures ChunksFrom(row, i).Ok? <==> AllHex(row[i..])
    ensures ChunksFrom(row, i).Ok? ==> |ChunksFrom(row, i).value| == (|row| - i + 1) / 2
    decreases |row| - i
  {
    if i < |row| {
      var n := Min(i + 2, |row|);
      var chunk := row[i..n];
      ChunksSpec(row, n);
      if n < i + 2 {
        assert ChunksFrom(row, i + 2) == Ok([]);
      }
      assert row[i..] == chunk + row[n..];
      if !AllHex(chunk) {
        var k :| 0 <= k < |chunk| && !IsHexDigit(chunk[k]);
        assert row[i..][k] == chunk[k];
      }
      if AllHex(chunk) && !AllHex(row[n..]) {
        var k :| 0 <= k < |row[n..]| && !IsHexDigit(row[n..][k]);
        assert row[i..][|chunk| + k] == row[n..][k];
      }
    }
  }

  predicate RowsHex(rows: seq<string>)
  {
    forall j :: 0 <= j < |rows| ==> AllHex(rows[j])
  }

  /** The total number of bytes the rows `j..` give. */
  function RowBytes(rows: seq<string>, j: nat): nat
    requires j <= |rows|
    decreases |rows| - j
  {
    if j == |rows| then 0 else (|rows[j]| + 1) / 2 + RowBytes(rows, j + 1)
  }

  /** The bitmap reads without error exactly when every row is hex digits, and
      then has one byte per started pair of digits of each row. */
  lemma {:induction false} RowsSpec(rows: seq<string>, j: nat)
    requires j <= |rows|
    ensures RowsFrom(rows, j).Ok? <==> RowsHex(rows[j..])
    ensures RowsFrom(rows, j).Ok? ==> |RowsFrom(rows, j).value| == RowBytes(rows, j)
    decreases |rows| - j
  {
    if j < |rows| {
      RowsSpec(rows, j + 1);
      ChunksSpec(rows[j], 0);
      assert rows[j][0..] == rows[j];
      assert rows[j..] == [rows[j]] + rows[j + 1..];
    }
  }

  /** Rows of `2 * ((W + 7) / 8)` digits each, `H` of them, give exactly the
      `((W + 7) // 8) * H` bytes the glyph header announces. */
  lemma {:induction false} RowBytesOfBox(rows: seq<string>, j: nat, width: int)
    requires j <= |rows| && width >= 0
    requires forall t :: 0 <= t < |rows| ==> |rows[t]| == 2 * ((width + 7) / 8)
    ensures RowBytes(rows, j) == (width + 7) / 8 * (|rows| - j)
    decreases |rows| - j
  {
    if j < |rows| {
      RowBytesOfBox(rows, j + 1, width);
      assert (|rows[j]| + 1) / 2 == (width + 7) / 8;
    }
  }

  /** `"%02X" % b` for each byte, concatenated: how a BDF bitmap row is written. */
  function HexRow(bs: seq<Byte>): string
  {
    if bs == [] then "" else FormatHex(bs[0], 2, true) + HexRow(bs[1..])
  }

  /** Reading a row undoes writing it: the chunks of `HexRow(bs)` are `bs`. */
  lemma {:induction false} ChunksOfHexRow(row: string, i: nat, bs: seq<Byte>)
    requires i <= |row| && row[i..] == HexRow(bs)
    ensures ChunksFrom(row, i) == Ok(bs)
    decreases |bs|
  {
    if bs != [] {
      var digits := FormatHex(bs[0], 2, true);
      ByteHex(bs[0]);
      assert row[i..i + 2] == digits by {
        assert row[i..][..2] == digits;
      }
      assert row[i + 2..] == HexRow(bs[1..]) by {
        assert row[i..][2..] == HexRow(bs[1..]);
      }
      ChunksOfHexRow(row, i + 2, bs[1..]);
      assert [bs[0]] + bs[1..] == bs;
    } else {
      assert |row| - i == 0;
    }
  }

  // ------------------------------------------------------------ glyph records

  /** How the third glyph header field, the bitmap size, is computed. */
  datatype LengthRule =
    | FloorDivision   // `(bbW + 7) // 8 * bbH`
    | FloatDivision   // `int((bbW + 7) / 8 * bbH)` under Python 3: true division, truncated

  /** Division truncating toward zero, what `int()` of a float quotient gives. */
  function TruncDiv(a: int, d: nat): int
    requires d > 0
  {
    if a >= 0 then a / d else -((-a) / d)
  }

  function DataLength(g: Glyph, rule: LengthRule): int
  {
    match rule
    case FloorDivision => (g.bbW + 7) / 8 * g.bbH
    case FloatDivision => TruncDiv((g.bbW + 7) * g.bbH, 8)
  }

  /** The six fields of `struct.pack(">BBBbbb", ...)` for one glyph. */
  function GlyphFields(g: Glyph, rule: LengthRule): seq<int>
  {
    [g.bbW, g.bbH, DataLength(g, rule), g.bbW, g.bbX, g.bbY]
  }

  /** One glyph record: its header, then its bitmap bytes. */
  function GlyphRecord(g: Glyph, rule: LengthRule): Result<seq<Byte>>
  {
    Cat(Pack(GlyphFormat, GlyphFields(g, rule)), RowsFrom(g.rows, 0))
  }

  /** A glyph record is the packed header fields, which unpack to `W, H, the
      bitmap size, W, X, Y`, followed by the bitmap; it fails exactly when a
      field does not fit or a row is not hex. */
  lemma GlyphRecordLayout(g: Glyph, rule: LengthRule)
    ensures FormatSize(GlyphFormat) == 6
    ensures GlyphRecord(g, rule).Ok? <==> AllFit(GlyphFormat, GlyphFields(g, rule)) && RowsHex(g.rows)
    ensures !AllFit(GlyphFormat, GlyphFields(g, rule)) ==> GlyphRecord(g, rule) == Err(PackRange)
    ensures GlyphRecord(g, rule).Ok? ==>
      var r := GlyphRecord(g, rule).value;
      |r| == 6 + RowBytes(g.rows, 0) &&
      Unpack(GlyphFormat, r[..6]) == [g.bbW, g.bbH, DataLength(g, rule), g.bbW, g.bbX, g.bbY] &&
      r[6..] == RowsFrom(g.rows, 0).value
  {
    PackSpec(GlyphFormat, GlyphFields(g, rule));
    FormatSizes();
    RowsSpec(g.rows, 0);
    assert g.rows[0..] == g.rows;
    if GlyphRecord(g, rule).Ok? {
      var h := Pack(GlyphFormat, GlyphFields(g, rule)).value;
      var r := GlyphRecord(g, rule).value;
      assert r[..6] == h;
    }
  }

  /** Under the current rule, a glyph whose rows hold `2 * ceil(W / 8)` digits
      each, one row per pixel line, has exactly as many bitmap bytes as its
      header announces. */
  lemma GlyphSizeConsistent(g: Glyph)
    requires g.bbW >= 0 && |g.rows| == g.bbH
    requires forall t :: 0 <= t < |g.rows| ==> |g.rows[t]| == 2 * ((g.bbW + 7) / 8)
    ensures RowBytes(g.rows, 0) == DataLength(g, FloorDivision)
  {
    RowBytesOfBox(g.rows, 0, g.bbW);
  }

  /** The record for character `c`; a code point the font lacks is a KeyError. */
  function Record(font: Font, c: char, rule: LengthRule): Result<seq<Byte>>
  {
    if c as int !in font.byCode then Err(MissingGlyph(c as int))
    else GlyphRecord(font.byCode[c as int], rule)
  }

  /** The records of `keys[i..]`, in that order. */
  function RecordsFrom(font: Font, keys: seq<char>, i: nat, rule: LengthRule): Result<seq<Byte>>
    requires i <= |keys|
    decreases |keys| - i
  {
    if i == |keys| then Ok([]) else Cat(Record(font, keys[i], rule), RecordsFrom(font, keys, i + 1, rule))
  }

  /** The records of `keys[..k]`, in that order. */
  function RecordsBefore(font: Font, keys: seq<char>, k: nat, rule: LengthRule): Result<seq<Byte>>
    requires k <= |keys|
  {
    if k == 0 then Ok([]) else Cat(RecordsBefore(font, keys, k - 1, rule), Record(font, keys[k - 1], rule))
  }

  /** The records succeed exactly when every key's record does. */
  lemma {:induction false} RecordsSpec(font: Font, keys: seq<char>, i: nat, rule: LengthRule)
    requires i <= |keys|
    ensures RecordsFrom(font, keys, i, rule).Ok? <==> forall j :: i <= j < |keys| ==> Record(font, keys[j], rule).Ok?
    decreases |keys| - i
  {
    if i < |keys| {
      RecordsSpec(font, keys, i + 1, rule);
    }
  }

  /** The records come in key order: the records of the keys before `keys[k]`,
      then the record of `keys[k]`, then those of the keys after it. */
  lemma {:induction false} RecordsInOrder(font: Font, keys: seq<char>, k: nat, rule: LengthRule)
    requires k < |keys|
    ensures RecordsFrom(font, keys, 0, rule) ==
      Cat(RecordsBefore(font, keys, k, rule), Cat(Record(font, keys[k], rule), RecordsFrom(font, keys, k + 1, rule)))
  {
    RecordsSplit(font, keys, k, rule);
  }

  lemma {:induction false} RecordsSplit(font: Font, keys: seq<char>, k: nat, rule: LengthRule)
    requires k <= |keys|
    ensures RecordsFrom(font, keys, 0, rule) == Cat(RecordsBefore(font, keys, k, rule), RecordsFrom(font, keys, k, rule))
  {
    if k == 0 {
      CatUnit(RecordsFrom(font, keys, 0, rule));
    } else {
      RecordsSplit(font, keys, k - 1, rule);
      CatAssoc(RecordsBefore(font, keys, k - 1, rule), Record(font, keys[k - 1], rule), RecordsFrom(font, keys, k, rule));
    }
  }

  /** When the records succeed and sit at offset `start` of `data`, the record
      of `keys[k]` sits right after the records of `keys[..k]`. */
  lemma {:induction false} RecordPlacement(font: Font, keys: seq<char>, k: nat, rule: LengthRule, data: seq<Byte>, start: nat)
    requires k < |keys| && RecordsFrom(font, keys, 0, rule).Ok?
    requires start <= |data| && data[start..] == RecordsFrom(font, keys, 0, rule).value
    ensures RecordsBefore(font, keys, k, rule).Ok? && Record(font, keys[k], rule).Ok?
    ensures var offset := start + |RecordsBefore(font, keys, k, rule).value|;
      var record := Record(font, keys[k], rule).value;
      offset + |record| <= |data| && data[offset..offset + |record|] == record
  {
    var whole, before, record, after :=
      RecordsFrom(font, keys, 0, rule), RecordsBefore(font, keys, k, rule), Record(font, keys[k], rule),
      RecordsFrom(font, keys, k + 1, rule);
    assert whole == Cat(before, Cat(record, after)) by {
      RecordsInOrder(font, keys, k, rule);
    }
    PlaceMiddle(whole, before, record, after, data, start);
  }

  /** Where the middle part of a successful three-part result sits. */
  lemma {:induction false} PlaceMiddle(whole: Result<seq<Byte>>, b: Result<seq<Byte>>, c: Result<seq<Byte>>, a: Result<seq<Byte>>,
                    data: seq<Byte>, start: nat)
    requires whole == Cat(b, Cat(c, a)) && whole.Ok?
    requires start <= |data| && data[start..] == whole.value
    ensures b.Ok? && c.Ok?
    ensures start + |b.value| + |c.value| <= |data| && data[start + |b.value|..start + |b.value| + |c.value|] == c.value
  {
    SliceMiddle(start, b.value, c.value, a.value, data);
  }

  lemma SliceMiddle(start: nat, b: seq<Byte>, r: seq<Byte>, a: seq<Byte>, data: seq<Byte>)
    requires start <= |data| && data[start..] == b + (r + a)
    ensures start + |b| + |r| <= |data| && data[start + |b|..start + |b| + |r|] == r
  {
    assert data == data[..start] + data[start..];
    assert data == (data[..start] + b) + r + a;
  }

  /** A collected character missing from the font makes the records fail. */
  lemma MissingGlyphFails(font: Font, keys: seq<char>, k: nat, rule: LengthRule)
    requires k < |keys| && keys[k] as int !in font.byCode
    ensures RecordsFrom(font, keys, 0, rule).Err?
  {
    RecordsSpec(font, keys, 0, rule);
  }

  /** The result of the glyph loop: the blob and the character to index map. */
  datatype Encoded = Encoded(blob: seq<Byte>, indices: map<char, nat>)

  /** The loop of the generator over `keys`: bump `u8g_encoding`, record it for
      the character, look the glyph up, and append its record. */
  method EncodeGlyphs(font: Font, keys: seq<char>, header: seq<Byte>, rule: LengthRule) returns (r: Result<Encoded>)
    ensures r.Err? <==> RecordsFrom(font, keys, 0, rule).Err?
    ensures r.Err? ==> r.error == RecordsFrom(font, keys, 0, rule).error
    ensures r.Ok? ==> r.value.blob == header + RecordsFrom(font, keys, 0, rule).value
    ensures r.Ok? ==> r.value.indices == LocalEncoding.IndexMap(keys)
  {
    var fontData: seq<seq<Byte>> := [header];
    FlattenAppend([], header);
    assert [] + [header] == [header] && [] + header == header;
    var characters: map<char, nat> := map[];
    var encoding := 0;
    var i := 0;
    while i < |keys|
      invariant 0 <= i <= |keys| && encoding == i
      invariant characters == LocalEncoding.IndexMap(keys[..i])
      invariant Cat(Ok(Flatten(fontData)), RecordsFrom(font, keys, i, rule)) == Cat(Ok(header), RecordsFrom(font, keys, 0, rule))
    {
      var c := keys[i];
      encoding := encoding + 1;
      assert keys[..i + 1][..i] == keys[..i];
      characters := characters[c := encoding];
      var code := c as int;
      if code !in font.byCode {
        RecordsStop(font, keys, i, rule, Flatten(fontData), MissingGlyph(code));
        return Err(MissingGlyph(code));
      }
      var glyph := font.byCode[code];
      var glyphHeader := Pack(GlyphFormat, GlyphFields(glyph, rule));
      if glyphHeader.Err? {
        RecordsStop(font, keys, i, rule, Flatten(fontData), glyphHeader.error);
        return Err(glyphHeader.error);
      }
      var glyphData := GlyphData(glyph.rows);
      if glyphData.Err? {
        RecordsStop(font, keys, i, rule, Flatten(fontData), glyphData.error);
        return Err(glyphData.error);
      }
      RecordsStep(font, keys, i, rule, Flatten(fontData), glyphHeader.value, glyphData.value);
      FlattenAppend(fontData, glyphHeader.value);
      FlattenAppend(fontData + [glyphHeader.value], glyphData.value);
      fontData := fontData + [glyphHeader.value] + [glyphData.value];
      i := i + 1;
    }
    assert keys[..|keys|] == keys;
    return Ok(Encoded(Flatten(fontData), characters));
  }

  // A record that fails ends the loop with its failure: a missing glyph, a
  // header field that does not fit, or a bad bitmap row.
  lemma RecordsStop(font: Font, keys: seq<char>, i: nat, rule: LengthRule, prefix: seq<Byte>, e: Error)
    requires i < |keys|
    requires var code := keys[i] as int;
      (code !in font.byCode && e == MissingGlyph(code)) ||
      (code in font.byCode && Pack(GlyphFormat, GlyphFields(font.byCode[code], rule)) == Err(e)) ||
      (code in font.byCode && Pack(GlyphFormat, GlyphFields(font.byCode[code], rule)).Ok? && RowsFrom(font.byCode[code].rows, 0) == Err(e))
    ensures Cat(Ok(prefix), RecordsFrom(font, keys, i, rule)) == Err(e)
  {
  }

  // A record that succeeds is appended to what came before.
  lemma RecordsStep(font: Font, keys: seq<char>, i: nat, rule: LengthRule, prefix: seq<Byte>, header: seq<Byte>, data: seq<Byte>)
    requires i < |keys| && keys[i] as int in font.byCode
    requires Pack(GlyphFormat, GlyphFields(font.byCode[keys[i] as int], rule)) == Ok(header)
    requires RowsFrom(font.byCode[keys[i] as int].rows, 0) == Ok(data)
    ensures Cat(Ok(prefix), RecordsFrom(font, keys, i, rule)) ==
      Cat(Ok(prefix + header + data), RecordsFrom(font, keys, i + 1, rule))
  {
    CatAssoc(Ok(prefix), Record(font, keys[i], rule), RecordsFrom(font, keys, i + 1, rule));
    assert prefix + (header + data) == prefix + header + data;
  }

  // ------------------------------------------------------------- font header

  /** `unifont[ord('A')].bbH` when the font has an `A`, else 0. */
  function UppercaseAHeight(font: Font): int
  {
    if 'A' as int in font.byCode then font.byCode['A' as int].bbH else 0
  }

  /** `int(unifont_properties[name])`. */
  function IntProperty(props: Outcome, name: string): (r: Result<int>)
    requires !props.Raised?
    ensures props.NoProperties? ==> r == Err(PropertiesAbsent)
    ensures props.Properties? && name !in props.props ==> r == Err(MissingProperty(name))
    ensures props.Properties? && name in props.props ==> r == ParseInt(props.props[name])
  {
    match props
    case NoProperties => Err(PropertiesAbsent)
    case Properties(m) => if name in m then ParseInt(m[name]) else Err(MissingProperty(name))
  }

  /** The fifteen header fields: 0, the first glyph's box, the 'A' height, the
      two start positions (always 0), the encoding range, descent, ascent,
      descent again, and the two x-extents (always 0). */
  function HeaderFields(first: Glyph, aHeight: int, encodingStart: int, encodingEnd: int, descent: int, ascent: int): seq<int>
  {
    [0, first.bbW, first.bbH, first.bbX, first.bbY, aHeight, 0, 0,
     encodingStart, encodingEnd, descent, ascent, descent, 0, 0]
  }

  /** The font header as the script computes it, failing as it does: first the
      properties scan, then `glyphs[0]`, then the two `int()` conversions, then
      `struct.pack`. */
  function Header(font: Font, props: Outcome, encodingStart: int, encodingEnd: int): Result<seq<Byte>>
  {
    if props.Raised? then Err(props.error)
    else if |font.glyphs| == 0 then Err(IndexError)
    else match IntProperty(props, "FONT_DESCENT")
      case Err(e) => Err(e)
      case Ok(descent) =>
        match IntProperty(props, "FONT_ASCENT")
        case Err(e) => Err(e)
        case Ok(ascent) =>
          Pack(HeaderFormat, HeaderFields(font.glyphs[0], UppercaseAHeight(font), encodingStart, encodingEnd, descent, ascent))
  }

  /** When the header is built, it is 17 bytes that unpack to the fifteen
      fields; it is built exactly when the properties were found, the font has a
      glyph, both properties are integers and every field fits its code. */
  lemma HeaderLayout(font: Font, props: Outcome, encodingStart: int, encodingEnd: int)
    ensures FormatSize(HeaderFormat) == 17
    ensures Header(font, props, encodingStart, encodingEnd).Ok? <==>
      props.Properties? && |font.glyphs| > 0 &&
      "FONT_DESCENT" in props.props && ParseInt(props.props["FONT_DESCENT"]).Ok? &&
      "FONT_ASCENT" in props.props && ParseInt(props.props["FONT_ASCENT"]).Ok? &&
      AllFit(HeaderFormat, HeaderFields(font.glyphs[0], UppercaseAHeight(font), encodingStart, encodingEnd,
        ParseInt(props.props["FONT_DESCENT"]).value, ParseInt(props.props["FONT_ASCENT"]).value))
    ensures Header(font, props, encodingStart, encodingEnd).Ok? ==>
      var h := Header(font, props, encodingStart, encodingEnd).value;
      |h| == 17 &&
      Unpack(HeaderFormat, h) == HeaderFields(font.glyphs[0], UppercaseAHeight(font), encodingStart, encodingEnd,
        ParseInt(props.props["FONT_DESCENT"]).value, ParseInt(props.props["FONT_ASCENT"]).value)
  {
    FormatSizes();
    if props.Properties? && |font.glyphs| > 0 && "FONT_DESCENT" in props.props && ParseInt(props.props["FONT_DESCENT"]).Ok?
      && "FONT_ASCENT" in props.props && ParseInt(props.props["FONT_ASCENT"]).Ok? {
      PackSpec(HeaderFormat, HeaderFields(font.glyphs[0], UppercaseAHeight(font), encodingStart, encodingEnd,
        ParseInt(props.props["FONT_DESCENT"]).value, ParseInt(props.props["FONT_ASCENT"]).value));
    }
  }

  /** A built header is always 17 bytes. */
  lemma HeaderSize(font: Font, props: Outcome, encodingStart: int, encodingEnd: int)
    ensures Header(font, props, encodingStart, encodingEnd).Ok? ==> |Header(font, props, encodingStart, encodingEnd).value| == 17
  {
    HeaderLayout(font, props, encodingStart, encodingEnd);
  }

  /** The failures of the header, cause by cause. */
  lemma HeaderFailures(font: Font, props: Outcome, encodingStart: int, encodingEnd: int)
    ensures props.Raised? ==> Header(font, props, encodingStart, encodingEnd) == Err(props.error)
    ensures !props.Raised? && |font.glyphs| == 0 ==> Header(font, props, encodingStart, encodingEnd) == Err(IndexError)
    ensures props.NoProperties? && |font.glyphs| > 0 ==> Header(font, props, encodingStart, encodingEnd) == Err(PropertiesAbsent)
    ensures props.Properties? && |font.glyphs| > 0 && "FONT_DESCENT" !in props.props ==>
      Header(font, props, encodingStart, encodingEnd) == Err(MissingProperty("FONT_DESCENT"))
    ensures !(0 <= encodingEnd <= 255) ==> Header(font, props, encodingStart, encodingEnd).Err?
  {
    var h := Header(font, props, encodingStart, encodingEnd);
    if h.Ok? {
      HeaderLayout(font, props, encodingStart, encodingEnd);
      var fields := HeaderFields(font.glyphs[0], UppercaseAHeight(font), encodingStart, encodingEnd,
        ParseInt(props.props["FONT_DESCENT"]).value, ParseInt(props.props["FONT_ASCENT"]).value);
      assert HeaderFormat[9] == UnsignedByte && fields[9] == encodingEnd;
      assert Fits(HeaderFormat[9], fields[9]);
    }
  }
}
