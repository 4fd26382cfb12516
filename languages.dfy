/** `generate_languages_source` of the current generator: the C text of the
    character mapping table, one pair of string variables per translated entry,
    one translations table per catalog and the languages array, built as a list
    of lines joined with new-lines. */
module Languages {
  import opened Common
  import opened Text
  import opened Catalogs
  import CString
  import Utf8
  import LocalEncoding

  /** What `encode_as_c_string` gives for `s`. */
  function CText(s: string): string
  {
    CString.EncodeBytes(Utf8.Encode(s))
  }

  // ------------------------------------------------------- mapping table

  const MappingHeader: string :=
    "static const U8GettextCharMapping sCharMappings[] U8G_SECTION(\".progmem.U8GettextsCharMappings\") = \n{"
  const MappingCount: string := "static const size_t sCharMappingCount = ITEM_COUNT_OF_ARRAY(sCharMappings);"
  const TableEnd: string := "};"

  /** `"\t{0x%08X, 0x%02X,}, " % (key, index)`. */
  function MappingLine(c: char, index: nat): string
  {
    "\t{0x" + FormatHex(c as int, 8, true) + ", 0x" + FormatHex(index, 2, true) + ",}, "
  }

  /** One mapping line per key, in the order of `keys`. */
  function MappingLines(keys: seq<char>, mapping: map<char, nat>): seq<string>
    requires forall c :: c in keys ==> c in mapping
  {
    if keys == [] then []
    else
      var c := keys[|keys| - 1];
      MappingLines(keys[..|keys| - 1], mapping) + [MappingLine(c, mapping[c])]
  }

  /** The mapping table lists `keys` line by line. */
  lemma {:induction false} MappingLinesAt(keys: seq<char>, mapping: map<char, nat>)
    requires forall c :: c in keys ==> c in mapping
    ensures |MappingLines(keys, mapping)| == |keys|
    ensures forall k :: 0 <= k < |keys| ==> MappingLines(keys, mapping)[k] == MappingLine(keys[k], mapping[keys[k]])
  {
    if keys != [] {
      var init := keys[..|keys| - 1];
      MappingLinesAt(init, mapping);
      forall k | 0 <= k < |init|
        ensures MappingLines(keys, mapping)[k] == MappingLine(keys[k], mapping[keys[k]])
      {
        assert init[k] == keys[k];
      }
    }
  }

  /** Line `k` of the mapping table, on its own. */
  lemma MappingLineAt(keys: seq<char>, mapping: map<char, nat>, k: nat)
    requires (forall c :: c in keys ==> c in mapping) && k < |keys|
    ensures |MappingLines(keys, mapping)| == |keys|
    ensures MappingLines(keys, mapping)[k] == MappingLine(keys[k], mapping[keys[k]])
  {
    MappingLinesAt(keys, mapping);
  }

  /** A mapping line reads back: every code point fills the eight digits, and an
      index below 256 the two digits. */
  lemma MappingLineReadBack(c: char, index: nat)
    requires index < 256
    ensures var line := MappingLine(c, index);
      |line| == 22 && line[..4] == "\t{0x" && line[12..16] == ", 0x" && line[18..] == ",}, " &&
      line[4..12] == FormatHex(c as int, 8, true) && line[16..18] == FormatHex(index, 2, true) &&
      HexValue(line[4..12]) == c as int && HexValue(line[16..18]) == index
  {
    var code := FormatHex(c as int, 8, true);
    var digits := FormatHex(index, 2, true);
    assert Pow16(8) == 0x1_0000_0000 && Pow16(2) == 256;
    FormatHexRoundTrip(c as int, 8, true);
    FormatHexRoundTrip(index, 2, true);
    var line := MappingLine(c, index);
    assert line == "\t{0x" + code + ", 0x" + digits + ",}, ";
    assert line[4..12] == code;
    assert line[16..18] == digits;
  }

  // ------------------------------------------------------ string variables

  /** `"%s_%s" % (p, i)`, the suffix of the two variable names of entry `i` of
      catalog `p`. */
  function IndexPair(p: nat, i: nat): string { Decimal(p) + "_" + Decimal(i) }

  function MsgIdName(p: nat, i: nat): string { "sMsgId" + IndexPair(p, i) }
  function MsgStrName(p: nat, i: nat): string { "sMsgStr" + IndexPair(p, i) }

  // The fixed pieces of a variable declaration.
  const DeclOpen: string := "static const char "
  const DeclMiddle: string := "[] PROGMEM = \""
  const DeclClose: string := "\";"

  function MsgIdDecl(p: nat, i: nat, text: string): string
  {
    DeclOpen + MsgIdName(p, i) + DeclMiddle + text + DeclClose
  }

  function MsgStrDecl(p: nat, i: nat, text: string): string
  {
    DeclOpen + MsgStrName(p, i) + DeclMiddle + text + DeclClose
  }

  /** The two declarations of each entry of catalog `p`, in entry order. */
  function DeclLines(p: nat, entries: seq<Entry>): seq<string>
  {
    if entries == [] then []
    else
      var i := |entries| - 1;
      DeclLines(p, entries[..i]) + [MsgIdDecl(p, i, CText(entries[i].msgid)), MsgStrDecl(p, i, CText(entries[i].msgstr))]
  }

  lemma DeclLinesStep(p: nat, entries: seq<Entry>, i: nat)
    requires i < |entries|
    ensures DeclLines(p, entries[..i + 1]) ==
      DeclLines(p, entries[..i]) + [MsgIdDecl(p, i, CText(entries[i].msgid)), MsgStrDecl(p, i, CText(entries[i].msgstr))]
  {
    assert entries[..i + 1][..i] == entries[..i];
  }

  lemma {:induction false} DeclLineAt(p: nat, entries: seq<Entry>, i: nat)
    requires i < |entries|
    ensures |DeclLines(p, entries)| == 2 * |entries|
    ensures DeclLines(p, entries)[2 * i] == MsgIdDecl(p, i, CText(entries[i].msgid))
    ensures DeclLines(p, entries)[2 * i + 1] == MsgStrDecl(p, i, CText(entries[i].msgstr))
  {
    var init := entries[..|entries| - 1];
    if i < |init| {
      DeclLineAt(p, init, i);
      assert init[i] == entries[i];
    } else if init != [] {
      DeclLineAt(p, init, 0);
    }
  }

  /** Entry `i` of catalog `p` is declared on lines `2 * i` and `2 * i + 1`,
      with the escaped msgid and msgstr. */
  lemma DeclLinesAt(p: nat, entries: seq<Entry>)
    ensures |DeclLines(p, entries)| == 2 * |entries|
    ensures forall i :: 0 <= i < |entries| ==>
      DeclLines(p, entries)[2 * i] == MsgIdDecl(p, i, CText(entries[i].msgid)) &&
      DeclLines(p, entries)[2 * i + 1] == MsgStrDecl(p, i, CText(entries[i].msgstr))
  {
    if entries != [] {
      DeclLineAt(p, entries, 0);
    }
    forall i | 0 <= i < |entries|
      ensures DeclLines(p, entries)[2 * i] == MsgIdDecl(p, i, CText(entries[i].msgid))
      ensures DeclLines(p, entries)[2 * i + 1] == MsgStrDecl(p, i, CText(entries[i].msgstr))
    {
      DeclLineAt(p, entries, i);
    }
  }

  lemma {:induction false} DecimalNoUnderscore(n: nat)
    ensures '_' !in Decimal(n)
  {
    if n >= 10 {
      DecimalNoUnderscore(n / 10);
    }
  }

  /** The position of the first `c` in `s`, or `|s|` when there is none. */
  function FirstOf(s: string, c: char): nat
  {
    if s == [] || s[0] == c then 0 else 1 + FirstOf(s[1..], c)
  }

  lemma {:induction false} FirstOfJoin(x: string, y: string, c: char)
    requires c !in x
    ensures FirstOf(x + [c] + y, c) == |x|
  {
    if x != [] {
      assert (x + [c] + y)[1..] == x[1..] + [c] + y;
      FirstOfJoin(x[1..], y, c);
    }
  }

  /** A string split at its first `_`: if neither left part holds `_`, equal
      joins have equal parts. */
  lemma UnderscoreSplit(x: string, y: string, u: string, v: string)
    requires '_' !in x && '_' !in u && x + "_" + y == u + "_" + v
    ensures x == u && y == v
  {
    var a := x + "_" + y;
    FirstOfJoin(x, y, '_');
    FirstOfJoin(u, v, '_');
    assert |x| == |u|;
    assert x == a[..|x|] == u;
    assert y == a[|x| + 1..] == v;
  }

  /** The suffix `p_i` determines both numbers. */
  lemma IndexPairInjective(p: nat, i: nat, q: nat, j: nat)
    requires IndexPair(p, i) == IndexPair(q, j)
    ensures p == q && i == j
  {
    DecimalNoUnderscore(p);
    DecimalNoUnderscore(q);
    UnderscoreSplit(Decimal(p), Decimal(i), Decimal(q), Decimal(j));
    DecimalRoundTrip(p);
    DecimalRoundTrip(q);
    DecimalRoundTrip(i);
    DecimalRoundTrip(j);
  }

  lemma PrefixCancel(pre: string, x: string, y: string)
    requires pre + x == pre + y
    ensures x == y
  {
    assert x == (pre + x)[|pre|..];
    assert y == (pre + y)[|pre|..];
  }

  /** Every entry of every catalog gets variables of its own: the names differ
      whenever the catalog index or the entry index differs, and no msgid
      variable shares its name with a msgstr variable. */
  lemma VariableNamesDistinct(p: nat, i: nat, q: nat, j: nat)
    ensures MsgIdName(p, i) == MsgIdName(q, j) ==> p == q && i == j
    ensures MsgStrName(p, i) == MsgStrName(q, j) ==> p == q && i == j
    ensures MsgIdName(p, i) != MsgStrName(q, j)
  {
    if MsgIdName(p, i) == MsgIdName(q, j) {
      PrefixCancel("sMsgId", IndexPair(p, i), IndexPair(q, j));
      IndexPairInjective(p, i, q, j);
    }
    if MsgStrName(p, i) == MsgStrName(q, j) {
      PrefixCancel("sMsgStr", IndexPair(p, i), IndexPair(q, j));
      IndexPairInjective(p, i, q, j);
    }
    assert MsgIdName(p, i)[4] == 'I' && MsgStrName(q, j)[4] == 'S';
  }

  // ------------------------------------------------------ translation tables

  // The fixed pieces of a catalog's table head, rows and length line.
  const TableHeadOpen: string := "static const U8GettextTranslation sTranslations"
  const TableHeadClose: string := "[] U8G_SECTION(\".progmem.U8GettextsTranslations\") = \n{"
  const RowOpen: string := "\t{(const U8GFChar*)&"
  const RowMiddle: string := "[0], (const U8GFChar*)&"
  const RowClose: string := "[0]},"
  const LengthOpen: string := "static const size_t sTranslationsLength"
  const LengthMiddle: string := " = ITEM_COUNT_OF_ARRAY(sTranslations"
  const LengthClose: string := ");"

  function TableHeader(language: string): string
  {
    TableHeadOpen + language + TableHeadClose
  }

  /** Row `i` of catalog `p`: the addresses of its two variables. */
  function TranslationRow(p: nat, i: nat): string
  {
    RowOpen + MsgIdName(p, i) + RowMiddle + MsgStrName(p, i) + RowClose
  }

  function LengthLine(language: string): string
  {
    LengthOpen + language + LengthMiddle + language + LengthClose
  }

  /** Rows `0..k-1` of catalog `p`. */
  function TranslationRows(p: nat, k: nat): seq<string>
  {
    if k == 0 then [] else TranslationRows(p, k - 1) + [TranslationRow(p, k - 1)]
  }

  lemma {:induction false} TranslationRowsAt(p: nat, k: nat)
    ensures |TranslationRows(p, k)| == k
    ensures forall i :: 0 <= i < k ==> TranslationRows(p, k)[i] == TranslationRow(p, i)
  {
    if k > 0 {
      TranslationRowsAt(p, k - 1);
    }
  }

  /** The lines of catalog `p`: the variables, the table head, one row per
      translated entry, the closing brace and the length constant. */
  function FileLines(p: nat, f: PoFile): seq<string>
  {
    var language := LanguageName(f.path);
    DeclLines(p, f.translated) + [TableHeader(language)] + TranslationRows(p, |f.translated|)
      + [TableEnd, LengthLine(language)]
  }

  /** With `k` translated entries the section has `3 * k + 3` lines: the table
      head after the `2 * k` variables, exactly `k` rows, row `i` pointing at
      the variables of entry `i`, then the closing lines. */
  lemma FileLinesLayout(p: nat, f: PoFile)
    ensures var lines := FileLines(p, f); var k := |f.translated|; var language := LanguageName(f.path);
      |lines| == 3 * k + 3 &&
      lines[2 * k] == TableHeader(language) &&
      (forall i :: 0 <= i < k ==> lines[2 * k + 1 + i] == TranslationRow(p, i)) &&
      lines[3 * k + 1] == TableEnd && lines[3 * k + 2] == LengthLine(language)
  {
    var k := |f.translated|;
    var language := LanguageName(f.path);
    var decls := DeclLines(p, f.translated);
    var rows := TranslationRows(p, k);
    assert |decls| == 2 * k by {
      DeclLinesAt(p, f.translated);
    }
    TranslationRowsAt(p, k);
    SectionIndex(decls, TableHeader(language), rows, TableEnd, LengthLine(language));
  }

  /** Only translated entries appear, each as its two variables, in entry
      order, at the start of its catalog's section. */
  lemma FileDeclsAt(p: nat, f: PoFile, i: nat)
    requires i < |f.translated|
    ensures 2 * i + 1 < |FileLines(p, f)|
    ensures FileLines(p, f)[2 * i] == MsgIdDecl(p, i, CText(f.translated[i].msgid))
    ensures FileLines(p, f)[2 * i + 1] == MsgStrDecl(p, i, CText(f.translated[i].msgstr))
  {
    var language := LanguageName(f.path);
    var decls := DeclLines(p, f.translated);
    DeclLineAt(p, f.translated, i);
    var rest := [TableHeader(language)] + TranslationRows(p, |f.translated|) + [TableEnd, LengthLine(language)];
    assert FileLines(p, f) == decls + rest;
  }

  /** Where each piece of a section sits: the declarations, the head, the
      rows, then the two closing lines. */
  lemma SectionIndex(a: seq<string>, h: string, b: seq<string>, e: string, l: string)
    ensures var lines := a + [h] + b + [e, l];
      |lines| == |a| + |b| + 3 &&
      (forall i :: 0 <= i < |a| ==> lines[i] == a[i]) &&
      lines[|a|] == h &&
      (forall i :: 0 <= i < |b| ==> lines[|a| + 1 + i] == b[i]) &&
      lines[|a| + |b| + 1] == e && lines[|a| + |b| + 2] == l
  {
  }

  /** The sections of all catalogs, catalog `p` numbered `p`. */
  function FilesLines(files: seq<PoFile>): seq<string>
  {
    if files == [] then []
    else FilesLines(files[..|files| - 1]) + FileLines(|files| - 1, files[|files| - 1])
  }

  lemma FilesLinesStep(files: seq<PoFile>, p: nat)
    requires p < |files|
    ensures FilesLines(files[..p + 1]) == FilesLines(files[..p]) + FileLines(p, files[p])
  {
    assert files[..p + 1][..p] == files[..p];
  }

  /** The sections come in catalog order: the section of catalog `p` follows
      those of the catalogs before it. */
  lemma {:induction false} FilesLinesInOrder(files: seq<PoFile>, p: nat)
    requires p < |files|
    ensures FilesLines(files[..p]) + FileLines(p, files[p]) <= FilesLines(files)
    decreases |files| - p
  {
    FilesLinesStep(files, p);
    FilesPrefix(files, p + 1);
  }

  lemma {:induction false} FilesPrefix(files: seq<PoFile>, k: nat)
    requires k <= |files|
    ensures FilesLines(files[..k]) <= FilesLines(files)
    decreases |files| - k
  {
    if k < |files| {
      FilesPrefix(files, k + 1);
      assert files[..k + 1][..k] == files[..k];
    } else {
      assert files[..k] == files;
    }
  }

  // ------------------------------------------------------------ languages

  const LanguagesHeader: string := "static const U8GettextLanguage sLanguages[] = \n{"
  const LanguagesCount: string := "static const size_t sLanguagesLength = ITEM_COUNT_OF_ARRAY(sLanguages);"

  // The fixed pieces of a languages row.
  const LanguageOpen: string := "\t{\""
  const LanguageTable: string := "\", sTranslations"
  const LanguageLength: string := ", &sTranslationsLength"
  const LanguageClose: string := "}"

  function LanguageRow(language: string): string
  {
    LanguageOpen + language + LanguageTable + language + LanguageLength + language + LanguageClose
  }

  function LanguageRows(files: seq<PoFile>): seq<string>
  {
    if files == [] then []
    else LanguageRows(files[..|files| - 1]) + [LanguageRow(LanguageName(files[|files| - 1].path))]
  }

  /** One row per catalog, in catalog order, naming the catalog's language. */
  lemma {:induction false} LanguageRowsAt(files: seq<PoFile>)
    ensures |LanguageRows(files)| == |files|
    ensures forall p :: 0 <= p < |files| ==> LanguageRows(files)[p] == LanguageRow(LanguageName(files[p].path))
  {
    if files != [] {
      var init := files[..|files| - 1];
      LanguageRowsAt(init);
      forall p | 0 <= p < |init|
        ensures LanguageRows(files)[p] == LanguageRow(LanguageName(files[p].path))
      {
        assert init[p] == files[p];
      }
    }
  }

  // ------------------------------------------------------------ the whole text

  /** The keys of the mapping in ascending code point order. */
  function SortedKeys(mapping: map<char, nat>): (keys: seq<char>)
    ensures forall c :: c in keys <==> c in mapping
  {
    LocalEncoding.SortedCharsProps(mapping.Keys);
    LocalEncoding.SortedChars(mapping.Keys)
  }

  /** The character-mapping table: its head, one line per key in ascending
      order, the closing brace and the length definition. */
  function MappingSection(mapping: map<char, nat>): seq<string>
  {
    [MappingHeader] + MappingLines(SortedKeys(mapping), mapping) + [TableEnd, MappingCount]
  }

  /** The languages array: its head, one row per catalog, the closing brace and
      the length definition. */
  function LanguagesSection(files: seq<PoFile>): seq<string>
  {
    [LanguagesHeader] + LanguageRows(files) + [TableEnd, LanguagesCount]
  }

  /** All the lines of the generated text, in order. */
  function SourceLines(files: seq<PoFile>, mapping: map<char, nat>): seq<string>
  {
    MappingSection(mapping) + FilesLines(files) + LanguagesSection(files)
  }

  /** Line `1 + k` of the text is the mapping line of the `k`-th smallest key. */
  lemma SourceMappingLine(files: seq<PoFile>, mapping: map<char, nat>, k: nat)
    requires k < |SortedKeys(mapping)|
    ensures SortedKeys(mapping)[k] in mapping
    ensures 1 + k < |SourceLines(files, mapping)| &&
      SourceLines(files, mapping)[1 + k] == MappingLine(SortedKeys(mapping)[k], mapping[SortedKeys(mapping)[k]])
  {
    var keys := SortedKeys(mapping);
    MappingLineAt(keys, mapping, k);
    var section := MappingSection(mapping);
    assert section[1 + k] == MappingLines(keys, mapping)[k];
    assert SourceLines(files, mapping)[1 + k] == section[1 + k];
  }

  lemma AppendPair(a: seq<string>, b: seq<string>, x: string, y: string)
    ensures a + b + [x] + [y] == a + (b + [x, y])
  {
  }

  lemma SectionAssoc(a: seq<string>, b: seq<string>, c: seq<string>, d: seq<string>, e: seq<string>)
    ensures a + b + c + d + e == a + (b + c + d + e)
  {
  }

  lemma AppendAssoc(a: seq<string>, b: seq<string>, c: seq<string>)
    ensures a + b + c == a + (b + c)
  {
  }

  /** The two variables of every translated entry, appended to `result`. */
  method AppendDeclLines(result: seq<string>, poIndex: nat, translated: seq<Entry>) returns (r: seq<string>)
    ensures r == result + DeclLines(poIndex, translated)
  {
    r := result;
    var i := 0;
    while i < |translated|
      invariant 0 <= i <= |translated|
      invariant r == result + DeclLines(poIndex, translated[..i])
    {
      DeclLinesStep(poIndex, translated, i);
      var id := CString.EncodeAsCString(translated[i].msgid);
      r := r + [MsgIdDecl(poIndex, i, id)];
      var str := CString.EncodeAsCString(translated[i].msgstr);
      r := r + [MsgStrDecl(poIndex, i, str)];
      AppendPair(result, DeclLines(poIndex, translated[..i]), MsgIdDecl(poIndex, i, id), MsgStrDecl(poIndex, i, str));
      i := i + 1;
    }
    assert translated[..|translated|] == translated;
  }

  /** One table row per translated entry, appended to `result`. */
  method AppendTranslationRows(result: seq<string>, poIndex: nat, count: nat) returns (r: seq<string>)
    ensures r == result + TranslationRows(poIndex, count)
  {
    r := result;
    var i := 0;
    while i < count
      invariant 0 <= i <= count
      invariant r == result + TranslationRows(poIndex, i)
    {
      r := r + [TranslationRow(poIndex, i)];
      i := i + 1;
    }
  }

  /** The body of the loop over the catalogs: the variables of every translated
      entry, the table head, one row per entry and the closing lines, appended
      to `result`. */
  method AppendFileSection(result: seq<string>, poIndex: nat, f: PoFile) returns (r: seq<string>)
    ensures r == result + FileLines(poIndex, f)
  {
    var language := LanguageName(f.path);
    r := AppendDeclLines(result, poIndex, f.translated);
    r := r + [TableHeader(language)];
    r := AppendTranslationRows(r, poIndex, |f.translated|);
    r := r + [TableEnd, LengthLine(language)];
    SectionAssoc(result, DeclLines(poIndex, f.translated), [TableHeader(language)],
      TranslationRows(poIndex, |f.translated|), [TableEnd, LengthLine(language)]);
  }

  method AppendMappingLines(result: seq<string>, keys: seq<char>, mapping: map<char, nat>) returns (r: seq<string>)
    requires forall c :: c in keys ==> c in mapping
    ensures r == result + MappingLines(keys, mapping)
  {
    r := result;
    for k := 0 to |keys|
      invariant r == result + MappingLines(keys[..k], mapping)
    {
      assert keys[..k + 1][..k] == keys[..k];
      var line := MappingLine(keys[k], mapping[keys[k]]);
      AppendAssoc(result, MappingLines(keys[..k], mapping), [line]);
      r := r + [line];
    }
    assert keys[..|keys|] == keys;
  }

  /** The loop over the catalogs, catalog `p` numbered `p`. */
  method AppendFileSections(result: seq<string>, files: seq<PoFile>) returns (r: seq<string>)
    ensures r == result + FilesLines(files)
  {
    r := result;
    var poIndex := 0;
    for p := 0 to |files|
      invariant poIndex == p
      invariant r == result + FilesLines(files[..p])
    {
      FilesLinesStep(files, p);
      r := AppendFileSection(r, poIndex, files[p]);
      AppendAssoc(result, FilesLines(files[..p]), FileLines(p, files[p]));
      poIndex := poIndex + 1;
    }
    assert files[..|files|] == files;
  }

  /** The loop writing one languages row per catalog. */
  method AppendLanguageRows(result: seq<string>, files: seq<PoFile>) returns (r: seq<string>)
    ensures r == result + LanguageRows(files)
  {
    r := result;
    for p := 0 to |files|
      invariant r == result + LanguageRows(files[..p])
    {
      assert files[..p + 1][..p] == files[..p];
      var language := LanguageName(files[p].path);
      AppendAssoc(result, LanguageRows(files[..p]), [LanguageRow(language)]);
      r := r + [LanguageRow(language)];
    }
    assert files[..|files|] == files;
  }

  /** The character-mapping table, appended to `result`. */
  method AppendMappingSection(result: seq<string>, mapping: map<char, nat>) returns (r: seq<string>)
    ensures r == result + MappingSection(mapping)
  {
    var keys := SortedKeys(mapping);
    r := result + [MappingHeader];
    r := AppendMappingLines(r, keys, mapping);
    r := r + [TableEnd, MappingCount];
    SectionAssoc(result, [MappingHeader], MappingLines(keys, mapping), [TableEnd, MappingCount], []);
  }

  /** The languages array, appended to `result`. */
  method AppendLanguagesSection(result: seq<string>, files: seq<PoFile>) returns (r: seq<string>)
    ensures r == result + LanguagesSection(files)
  {
    r := result + [LanguagesHeader];
    r := AppendLanguageRows(r, files);
    r := r + [TableEnd, LanguagesCount];
    SectionAssoc(result, [LanguagesHeader], LanguageRows(files), [TableEnd, LanguagesCount], []);
  }

  /** `generate_languages_source`: the lines appended one by one, joined with
      new-lines at the end. */
  method GenerateLanguagesSource(files: seq<PoFile>, mapping: map<char, nat>) returns (text: string)
    ensures text == Join(SourceLines(files, mapping), "\n")
  {
    var result := AppendMappingSection([], mapping);
    result := AppendFileSections(result, files);
    result := AppendLanguagesSection(result, files);
    assert [] + MappingSection(mapping) == MappingSection(mapping);
    text := Join(result, "\n");
  }
}
