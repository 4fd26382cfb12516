/** The packing logic of `main` in the standalone font converter: the 17-byte
    u8glib font header with an empty encoding range, then one glyph record for
    the fixed code point U+521B, whose bitmap is read two bytes per row: the
    value of the row's first two hex digits, then the value of all the rest. */
module PoToCFont {
  import opened Common
  import opened Text
  import opened StructPack
  import opened BdfProperties
  import opened U8gFont

  /** The one glyph the converter packs. */
  const GlyphCodePoint: int := 0x521B

  /** The largest value `chr` accepts. */
  const MaxCodePoint: int := 0x10FFFF

  // ----------------------------------------------------------- bitmap rows

  /** `int(text, 16)` on the slices the converter takes: hex digits only, at least one. */
  predicate HexNumber(text: string)
  {
    |text| > 0 && AllHex(text)
  }

  /** Where a row is cut: `row[:2]` and `row[2:]`, both clipped to the row. */
  function Cut(row: string): nat
  {
    Min(2, |row|)
  }

  /** The two characters one row appends to `glyph_data`, or the exception:
      `int(row[:2], 16)`, then `int(row[2:], 16)`, then `chr` of the second
      value (the first, at most two digits, is always below 256). */
  function RowCodes(row: string): Result<seq<nat>>
  {
    var head := row[..Cut(row)];
    var tail := row[Cut(row)..];
    if !HexNumber(head) then Err(BadHex(head))
    else if !HexNumber(tail) then Err(BadHex(tail))
    else if HexValue(tail) > MaxCodePoint then Err(ChrRange(HexValue(tail)))
    else Ok([HexValue(head), HexValue(tail)])
  }

  /** `p` in front of a successful result; a failure stays as it is. */
  function Prepend(p: seq<nat>, r: Result<seq<nat>>): Result<seq<nat>>
  {
    match r
    case Err(e) => Err(e)
    case Ok(v) => Ok(p + v)
  }

  lemma PrependAssoc(p: seq<nat>, q: seq<nat>, r: Result<seq<nat>>)
    ensures Prepend(p, Prepend(q, r)) == Prepend(p + q, r)
  {
    if r.Ok? {
      assert p + (q + r.value) == (p + q) + r.value;
    }
  }

  lemma PrependEmpty(r: Result<seq<nat>>)
    ensures Prepend([], r) == r
  {
    if r.Ok? {
      assert [] + r.value == r.value;
    }
  }

  /** The code points rows `j..` append, row after row; the first failing row
      ends the loop with its exception. */
  function CodesFrom(rows: seq<string>, j: nat): Result<seq<nat>>
    requires j <= |rows|
    decreases |rows| - j
  {
    if j == |rows| then Ok([])
    else match RowCodes(rows[j])
      case Err(e) => Err(e)
      case Ok(c) => Prepend(c, CodesFrom(rows, j + 1))
  }

  /** `six.b` of the joined characters: their Latin-1 encoding, which fails at
      the first code point above 0xFF. */
  function Latin1(codes: seq<nat>): Result<seq<Byte>>
  {
    if codes == [] then Ok([])
    else if codes[0] > 255 then Err(ByteOverflow(codes[0]))
    else match Latin1(codes[1..])
      case Err(e) => Err(e)
      case Ok(rest) => Ok([codes[0] as Byte] + rest)
  }

  /** The glyph's bitmap bytes: the whole loop runs first, so a bad row
      anywhere wins over a value that does not fit a byte. */
  function GlyphBytes(rows: seq<string>): Result<seq<Byte>>
  {
    match CodesFrom(rows, 0)
    case Err(e) => Err(e)
    case Ok(codes) => Latin1(codes)
  }

  /** The loop over `glyph.get_data()` building `glyph_data`, then `six.b`. */
  method TwoByteRows(rows: seq<string>) returns (r: Result<seq<Byte>>)
    ensures r == GlyphBytes(rows)
  {
    var glyphData: seq<nat> := [];
    PrependEmpty(CodesFrom(rows, 0));
    for j := 0 to |rows|
      invariant Prepend(glyphData, CodesFrom(rows, j)) == CodesFrom(rows, 0)
    {
      var row := rows[j];
      var head := row[..Cut(row)];
      if !HexNumber(head) {
        return Err(BadHex(head));
      }
      var tail := row[Cut(row)..];
      if !HexNumber(tail) {
        return Err(BadHex(tail));
      }
      var value := HexValue(tail);
      if value > MaxCodePoint {
        return Err(ChrRange(value));
      }
      PrependAssoc(glyphData, [HexValue(head), value], CodesFrom(rows, j + 1));
      glyphData := glyphData + [HexValue(head), value];
    }
    assert glyphData + [] == glyphData;
    r := Latin1(glyphData);
  }

  /** A row the loop accepts: at least three hex digits, the digits after the
      first two naming a code point. */
  predicate GoodRow(row: string)
  {
    |row| >= 3 && AllHex(row) && HexValue(row[2..]) <= MaxCodePoint
  }

  /** A row the converter turns into two bytes: also the value after the first
      two digits fits one byte. */
  predicate TwoByteRow(row: string)
  {
    GoodRow(row) && HexValue(row[2..]) <= 255
  }

  lemma RowCodesSpec(row: string)
    ensures RowCodes(row).Ok? <==> GoodRow(row)
    ensures RowCodes(row).Ok? ==> RowCodes(row).value == [HexValue(row[..2]), HexValue(row[2..])]
  {
    if |row| >= 2 {
      assert row == row[..2] + row[2..];
      if AllHex(row) {
        assert forall i :: 0 <= i < |row| - 2 ==> row[2..][i] == row[2 + i];
      }
      if AllHex(row[..2]) && AllHex(row[2..]) {
        forall i | 0 <= i < |row|
          ensures IsHexDigit(row[i])
        {
          if i < 2 {
            assert row[..2][i] == row[i];
          } else {
            assert row[2..][i - 2] == row[i];
          }
        }
      }
    }
  }

  /** The loop succeeds exactly when every row is good, and then appends two
      code points per row: the first two digits' value, then the rest's. When
      it fails, the exception is that of the first row that is not good. */
  lemma {:induction false} CodesSpec(rows: seq<string>, j: nat)
    requires j <= |rows|
    ensures CodesFrom(rows, j).Ok? <==> forall t :: j <= t < |rows| ==> GoodRow(rows[t])
    ensures CodesFrom(rows, j).Ok? ==>
      var v := CodesFrom(rows, j).value;
      |v| == 2 * (|rows| - j) &&
      forall t :: j <= t < |rows| ==>
        v[2 * (t - j)] == HexValue(rows[t][..2]) && v[2 * (t - j) + 1] == HexValue(rows[t][2..])
    ensures CodesFrom(rows, j).Err? ==>
      exists t :: j <= t < |rows| && RowCodes(rows[t]) == CodesFrom(rows, j) &&
        forall s :: j <= s < t ==> GoodRow(rows[s])
    decreases |rows| - j
  {
    if j < |rows| {
      RowCodesSpec(rows[j]);
      CodesSpec(rows, j + 1);
      if RowCodes(rows[j]).Ok? && CodesFrom(rows, j + 1).Ok? {
        var v := CodesFrom(rows, j).value;
        var rest := CodesFrom(rows, j + 1).value;
        assert v == RowCodes(rows[j]).value + rest;
        forall t | j < t < |rows|
          ensures v[2 * (t - j)] == HexValue(rows[t][..2]) && v[2 * (t - j) + 1] == HexValue(rows[t][2..])
        {
          assert v[2 * (t - j)] == rest[2 * (t - (j + 1))];
          assert v[2 * (t - j) + 1] == rest[2 * (t - (j + 1)) + 1];
        }
      }
    }
  }

  /** Encoding succeeds exactly when every code point is below 256, and then
      keeps every value; otherwise it reports the first one that is not. */
  lemma {:induction false} Latin1Spec(codes: seq<nat>)
    ensures Latin1(codes).Ok? <==> forall i :: 0 <= i < |codes| ==> codes[i] <= 255
    ensures Latin1(codes).Ok? ==>
      |Latin1(codes).value| == |codes| && forall i :: 0 <= i < |codes| ==> Latin1(codes).value[i] == codes[i]
    ensures Latin1(codes).Err? ==>
      exists i :: 0 <= i < |codes| && codes[i] > 255 && Latin1(codes) == Err(ByteOverflow(codes[i])) &&
        forall k :: 0 <= k < i ==> codes[k] <= 255
  {
    if codes != [] {
      var tail := codes[1..];
      Latin1Spec(tail);
      assert forall i :: 1 <= i < |codes| ==> codes[i] == tail[i - 1];
      if codes[0] <= 255 && Latin1(tail).Err? {
        var i :| 0 <= i < |tail| && tail[i] > 255 && Latin1(tail) == Err(ByteOverflow(tail[i])) &&
          forall k :: 0 <= k < i ==> tail[k] <= 255;
        assert codes[i + 1] == tail[i];
        assert forall k :: 0 <= k < i + 1 ==> codes[k] <= 255 by {
          assert forall k :: 1 <= k < i + 1 ==> codes[k] == tail[k - 1];
        }
      }
    }
  }

  /** Every row gives exactly two bytes: the glyph data is `2 * rows` bytes,
      byte `2j` the value of row `j`'s first two digits and byte `2j + 1` the
      value of all its other digits; it is built exactly when every row has at
      least three hex digits and its remainder is at most 0xFF. */
  lemma GlyphBytesSpec(rows: seq<string>)
    ensures GlyphBytes(rows).Ok? <==> forall t :: 0 <= t < |rows| ==> TwoByteRow(rows[t])
    ensures GlyphBytes(rows).Ok? ==>
      var data := GlyphBytes(rows).value;
      |data| == 2 * |rows| &&
      forall t :: 0 <= t < |rows| ==>
        data[2 * t] == HexValue(rows[t][..2]) && data[2 * t + 1] == HexValue(rows[t][2..])
  {
    CodesSpec(rows, 0);
    if CodesFrom(rows, 0).Ok? {
      var codes := CodesFrom(rows, 0).value;
      forall t | 0 <= t < |rows|
        ensures GoodRow(rows[t]) && codes[2 * t] == HexValue(rows[t][..2]) && codes[2 * t + 1] == HexValue(rows[t][2..])
      {
        assert 2 * (t - 0) == 2 * t;
      }
      EncodedCodes(rows, codes);
    }
  }

  /** What encoding the code points of good rows gives. */
  lemma EncodedCodes(rows: seq<string>, codes: seq<nat>)
    requires |codes| == 2 * |rows|
    requires forall t :: 0 <= t < |rows| ==>
      GoodRow(rows[t]) && codes[2 * t] == HexValue(rows[t][..2]) && codes[2 * t + 1] == HexValue(rows[t][2..])
    ensures Latin1(codes).Ok? <==> forall t :: 0 <= t < |rows| ==> TwoByteRow(rows[t])
    ensures Latin1(codes).Ok? ==>
      var data := Latin1(codes).value;
      |data| == 2 * |rows| &&
      forall t :: 0 <= t < |rows| ==>
        data[2 * t] == HexValue(rows[t][..2]) && data[2 * t + 1] == HexValue(rows[t][2..])
  {
    Latin1Spec(codes);
    CodesFitBytes(rows, codes);
  }

  /** The code points of good rows all fit a byte exactly when every row's
      remainder does. */
  lemma CodesFitBytes(rows: seq<string>, codes: seq<nat>)
    requires |codes| == 2 * |rows|
    requires forall t :: 0 <= t < |rows| ==>
      GoodRow(rows[t]) && codes[2 * t] == HexValue(rows[t][..2]) && codes[2 * t + 1] == HexValue(rows[t][2..])
    ensures (forall i :: 0 <= i < |codes| ==> codes[i] <= 255) <==> forall t :: 0 <= t < |rows| ==> TwoByteRow(rows[t])
  {
    if forall i :: 0 <= i < |codes| ==> codes[i] <= 255 {
      forall t | 0 <= t < |rows|
        ensures TwoByteRow(rows[t])
      {
        assert codes[2 * t + 1] == HexValue(rows[t][2..]);
      }
    }
    if forall t :: 0 <= t < |rows| ==> TwoByteRow(rows[t]) {
      forall i | 0 <= i < |codes|
        ensures codes[i] <= 255
      {
        var t := i / 2;
        assert i == 2 * t || i == 2 * t + 1;
        HeadBelow256(rows[t]);
      }
    }
  }

  /** The first two hex digits of a row never exceed 0xFF. */
  lemma HeadBelow256(row: string)
    requires |row| >= 2 && AllHex(row[..2])
    ensures HexValue(row[..2]) <= 255
  {
    HexValueBound(row[..2]);
    assert Pow16(2) == 256;
  }

  /** Writing two bytes as a four-digit row and reading it back gives the two
      bytes. */
  lemma TwoByteRowRoundTrip(hi: Byte, lo: Byte)
    ensures GlyphBytes([FormatHex(hi, 2, true) + FormatHex(lo, 2, true)]) == Ok([hi, lo])
  {
    var a := FormatHex(hi, 2, true);
    var b := FormatHex(lo, 2, true);
    var row := a + b;
    FormatHexRoundTrip(hi, 2, true);
    FormatHexRoundTrip(lo, 2, true);
    assert Pow16(2) == 256;
    assert row[..2] == a && row[2..] == b;
    assert AllHex(row) by {
      assert forall i :: 0 <= i < 4 ==> row[i] == (if i < 2 then a[i] else b[i - 2]);
    }
    GlyphBytesSpec([row]);
    var data := GlyphBytes([row]).value;
    assert data == [hi, lo];
  }

  /** For rows of exactly four digits, a sixteen-pixel-wide glyph, reading two
      bytes per row agrees with the generators' two-digit chunking, exception
      included. */
  lemma {:induction false} FourDigitRowsAgree(rows: seq<string>, j: nat)
    requires j <= |rows| && forall t :: 0 <= t < |rows| ==> |rows[t]| == 4
    ensures CodesFrom(rows, j).Ok? <==> RowsFrom(rows, j).Ok?
    ensures CodesFrom(rows, j).Ok? ==> Latin1(CodesFrom(rows, j).value) == RowsFrom(rows, j)
    ensures CodesFrom(rows, j).Err? ==> CodesFrom(rows, j) == RowsFrom(rows, j)
    decreases |rows| - j
  {
    if j < |rows| {
      FourDigitRowsAgree(rows, j + 1);
      var row := rows[j];
      ChunksOfFourDigits(row);
      var rest := CodesFrom(rows, j + 1);
      if RowCodes(row).Ok? && rest.Ok? {
        var c := RowCodes(row).value;
        HeadBelow256(row);
        TailBelow256(row);
        assert c == [c[0], c[1]];
        Latin1Pair(c[0], c[1], rest.value);
        var chunks := ChunksFrom(row, 0).value;
        assert chunks == [c[0] as Byte, c[1] as Byte];
        assert CodesFrom(rows, j) == Ok(c + rest.value);
        assert RowsFrom(rows, j) == Cat(Ok(chunks), RowsFrom(rows, j + 1));
      }
    }
  }

  /** Encoding two small code points in front of more. */
  lemma Latin1Pair(a: nat, b: nat, rest: seq<nat>)
    requires a <= 255 && b <= 255
    ensures Latin1([a, b] + rest) == Cat(Ok([a as Byte, b as Byte]), Latin1(rest))
  {
    var w := [a, b] + rest;
    assert w[0] == a && w[1..] == [b] + rest;
    assert ([b] + rest)[0] == b && ([b] + rest)[1..] == rest;
    if Latin1(rest).Ok? {
      assert [a as Byte] + ([b as Byte] + Latin1(rest).value) == [a as Byte, b as Byte] + Latin1(rest).value;
    }
  }

  /** The last two digits of a four-digit row never exceed 0xFF. */
  lemma TailBelow256(row: string)
    requires |row| == 4 && AllHex(row[2..])
    ensures HexValue(row[2..]) <= 255
  {
    HexValueBound(row[2..]);
    assert Pow16(2) == 256;
  }

  /** A four-digit row reads the same both ways: same chunks, same failure. */
  lemma ChunksOfFourDigits(row: string)
    requires |row| == 4
    ensures RowCodes(row).Ok? <==> ChunksFrom(row, 0).Ok?
    ensures RowCodes(row).Err? ==> RowCodes(row) == ChunksFrom(row, 0)
    ensures RowCodes(row).Ok? ==>
      var v := ChunksFrom(row, 0).value;
      |v| == 2 && v[0] == HexValue(row[..2]) && v[1] == HexValue(row[2..])
  {
    assert row[0..Min(2, 4)] == row[..2];
    assert row[2..Min(4, 4)] == row[2..];
    assert ChunksFrom(row, 4) == Ok([]);
    if AllHex(row[..2]) {
      HeadBelow256(row);
    }
    if AllHex(row[2..]) {
      TailBelow256(row);
    }
  }

  // ------------------------------------------------------------ the blob

  /** `header + glyph_header + glyph_data`, or the first exception `main`
      raises on the way: the header with encoding range `[0, 0)`, then the
      lookup of U+521B, then packing its glyph header, then its bitmap. */
  function FontData(font: Font, fontLines: seq<string>): Result<seq<Byte>>
  {
    var header := Header(font, PropertiesOf(fontLines), 0, 0);
    if header.Err? then Err(header.error)
    else if GlyphCodePoint !in font.byCode then Err(MissingGlyph(GlyphCodePoint))
    else
      var glyph := font.byCode[GlyphCodePoint];
      var glyphHeader := Pack(GlyphFormat, GlyphFields(glyph, FloatDivision));
      if glyphHeader.Err? then Err(glyphHeader.error)
      else match GlyphBytes(glyph.rows)
        case Err(e) => Err(e)
        case Ok(glyphData) => Ok(header.value + glyphHeader.value + glyphData)
  }

  /** `main` after the font is loaded. */
  method PackFont(font: Font, fontLines: seq<string>) returns (r: Result<seq<Byte>>)
    ensures r == FontData(font, fontLines)
  {
    var properties := GetFontProperties(fontLines);
    // The encoding range is never filled in.
    var encodingStart := 0;
    var encodingEnd := 0;
    var header := Header(font, properties, encodingStart, encodingEnd);
    if header.Err? {
      return Err(header.error);
    }
    if GlyphCodePoint !in font.byCode {
      return Err(MissingGlyph(GlyphCodePoint));
    }
    var glyph := font.byCode[GlyphCodePoint];
    var glyphHeader := Pack(GlyphFormat, GlyphFields(glyph, FloatDivision));
    if glyphHeader.Err? {
      return Err(glyphHeader.error);
    }
    var glyphData := TwoByteRows(glyph.rows);
    if glyphData.Err? {
      return Err(glyphData.error);
    }
    return Ok(header.value + glyphHeader.value + glyphData.value);
  }

  /** The blob is `17 + 6 + 2 * rows` bytes: the font header with both
      encoding fields 0, the glyph header of U+521B holding its width, height,
      width again and offsets, then two bytes per bitmap row. */
  lemma FontDataLayout(font: Font, fontLines: seq<string>)
    ensures FormatSize(HeaderFormat) == 17 && FormatSize(GlyphFormat) == 6
    ensures var r := FontData(font, fontLines); var props := PropertiesOf(fontLines);
      r.Ok? ==>
        props.Properties? && |font.glyphs| > 0 && GlyphCodePoint in font.byCode &&
        "FONT_DESCENT" in props.props && ParseInt(props.props["FONT_DESCENT"]).Ok? &&
        "FONT_ASCENT" in props.props && ParseInt(props.props["FONT_ASCENT"]).Ok? &&
        |r.value| == 17 + 6 + 2 * |font.byCode[GlyphCodePoint].rows| &&
        Unpack(HeaderFormat, r.value[..17]) ==
          HeaderFields(font.glyphs[0], UppercaseAHeight(font), 0, 0,
            ParseInt(props.props["FONT_DESCENT"]).value, ParseInt(props.props["FONT_ASCENT"]).value) &&
        GlyphHeaderShows(font.byCode[GlyphCodePoint], Unpack(GlyphFormat, r.value[17..23])) &&
        r.value[23..] == GlyphBytes(font.byCode[GlyphCodePoint].rows).value
  {
    FormatSizes();
    var r := FontData(font, fontLines);
    if r.Ok? {
      var glyph := font.byCode[GlyphCodePoint];
      FontDataParts(font, fontLines);
      HeaderLayout(font, PropertiesOf(fontLines), 0, 0);
      PackSpec(GlyphFormat, GlyphFields(glyph, FloatDivision));
      GlyphBytesSpec(glyph.rows);
      var h := Header(font, PropertiesOf(fontLines), 0, 0).value;
      var g := Pack(GlyphFormat, GlyphFields(glyph, FloatDivision)).value;
      SplitThree(h, g, GlyphBytes(glyph.rows).value, r.value);
    }
  }

  /** A built blob is the built header, glyph header and glyph data. */
  lemma FontDataParts(font: Font, fontLines: seq<string>)
    ensures var r := FontData(font, fontLines);
      r.Ok? ==>
        Header(font, PropertiesOf(fontLines), 0, 0).Ok? && GlyphCodePoint in font.byCode &&
        Pack(GlyphFormat, GlyphFields(font.byCode[GlyphCodePoint], FloatDivision)).Ok? &&
        GlyphBytes(font.byCode[GlyphCodePoint].rows).Ok? &&
        r.value == Header(font, PropertiesOf(fontLines), 0, 0).value +
          Pack(GlyphFormat, GlyphFields(font.byCode[GlyphCodePoint], FloatDivision)).value +
          GlyphBytes(font.byCode[GlyphCodePoint].rows).value
  {
  }

  lemma SplitThree(h: seq<Byte>, g: seq<Byte>, d: seq<Byte>, whole: seq<Byte>)
    requires |h| == 17 && |g| == 6 && whole == h + g + d
    ensures whole[..17] == h && whole[17..23] == g && whole[23..] == d
  {
  }

  /** The glyph header fields other than the bitmap size: width, height,
      width again, x and y offset. */
  predicate GlyphHeaderShows(glyph: Glyph, fields: seq<int>)
  {
    |fields| == 6 &&
    fields[0] == glyph.bbW && fields[1] == glyph.bbH && fields[3] == glyph.bbW &&
    fields[4] == glyph.bbX && fields[5] == glyph.bbY
  }

  /** A font without U+521B, once the header is built, makes `main` fail with
      the KeyError of that lookup. */
  lemma MissingGlyphFailsHere(font: Font, fontLines: seq<string>)
    requires Header(font, PropertiesOf(fontLines), 0, 0).Ok? && GlyphCodePoint !in font.byCode
    ensures FontData(font, fontLines) == Err(MissingGlyph(GlyphCodePoint))
  {
  }

  /** A bitmap row with only two digits leaves `row[2:]` empty, which `int`
      rejects. */
  lemma ShortRowFails(font: Font, fontLines: seq<string>, t: nat)
    requires Header(font, PropertiesOf(fontLines), 0, 0).Ok? && GlyphCodePoint in font.byCode
    requires AllFit(GlyphFormat, GlyphFields(font.byCode[GlyphCodePoint], FloatDivision))
    requires t < |font.byCode[GlyphCodePoint].rows| && |font.byCode[GlyphCodePoint].rows[t]| <= 2
    ensures FontData(font, fontLines).Err?
  {
    var rows := font.byCode[GlyphCodePoint].rows;
    PackSpec(GlyphFormat, GlyphFields(font.byCode[GlyphCodePoint], FloatDivision));
    GlyphBytesSpec(rows);
    assert !TwoByteRow(rows[t]);
  }
}
