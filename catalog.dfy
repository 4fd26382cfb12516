/** The gettext catalogs the generator reads, supplied as data: for each `.po` file
    its path and the two entry lists `polib` hands back (`translated_entries()` and
    `untranslated_entries()`), plus `gather_characters_from_po_files`, which
    collects every character the firmware may have to draw, and the language name
    derived from a catalog's path. */
module Catalogs {
  import opened Common

  datatype Entry = Entry(msgid: string, msgstr: string)

  datatype PoFile = PoFile(path: string, translated: seq<Entry>, untranslated: seq<Entry>)

  // ------------------------------------------------------ collected characters

  /** `chr(i)` for a code point below the surrogates. */
  function Chr(i: nat): char
    requires i < 0xD800
  {
    i as char
  }

  /** The characters with code points `lo .. hi-1`. */
  function CharRange(lo: nat, hi: nat): set<char>
    requires hi <= 0xD800
  {
    set i: nat | lo <= i < hi :: Chr(i)
  }

  lemma CharRangeMembers(lo: nat, hi: nat, c: char)
    requires hi <= 0xD800
    ensures c in CharRange(lo, hi) <==> lo <= c as int < hi
  {
    if lo <= c as int < hi {
      assert Chr(c as int) == c;
    }
  }

  lemma CharRangeStep(lo: nat, hi: nat)
    requires lo <= hi < 0xD800
    ensures CharRange(lo, hi + 1) == CharRange(lo, hi) + {Chr(hi)}
  {
    forall c | c in CharRange(lo, hi + 1)
      ensures c in CharRange(lo, hi) + {Chr(hi)}
    {
      CharRangeMembers(lo, hi + 1, c);
      CharRangeMembers(lo, hi, c);
    }
  }

  /** `chr(32) .. chr(126)`, the visible ASCII characters every font must hold. */
  function PrintableAscii(): set<char>
  {
    CharRange(32, 127)
  }

  function CharsOf(s: string): set<char>
  {
    set c | c in s
  }

  /** The characters of the msgid and msgstr of every entry. */
  function EntriesChars(entries: seq<Entry>): set<char>
  {
    if entries == [] then {}
    else
      var e := entries[|entries| - 1];
      EntriesChars(entries[..|entries| - 1]) + CharsOf(e.msgid) + CharsOf(e.msgstr)
  }

  function FileChars(f: PoFile): set<char>
  {
    EntriesChars(f.translated) + EntriesChars(f.untranslated)
  }

  function FilesChars(files: seq<PoFile>): set<char>
  {
    if files == [] then {} else FilesChars(files[..|files| - 1]) + FileChars(files[|files| - 1])
  }

  /** What `gather_characters_from_po_files` returns. */
  function Collected(files: seq<PoFile>): set<char>
  {
    PrintableAscii() + FilesChars(files)
  }

  predicate InEntries(c: char, entries: seq<Entry>)
  {
    exists j :: 0 <= j < |entries| && (c in entries[j].msgid || c in entries[j].msgstr)
  }

  lemma {:induction false} EntriesCharsMembers(entries: seq<Entry>, c: char)
    ensures c in EntriesChars(entries) <==> InEntries(c, entries)
  {
    if entries != [] {
      var init := entries[..|entries| - 1];
      EntriesCharsMembers(init, c);
      if InEntries(c, init) {
        var j :| 0 <= j < |init| && (c in init[j].msgid || c in init[j].msgstr);
        assert entries[j] == init[j];
      }
      if InEntries(c, entries) {
        var j :| 0 <= j < |entries| && (c in entries[j].msgid || c in entries[j].msgstr);
        if j < |init| {
          assert init[j] == entries[j];
        }
      }
    }
  }

  predicate InFiles(c: char, files: seq<PoFile>)
  {
    exists p :: 0 <= p < |files| && (InEntries(c, files[p].translated) || InEntries(c, files[p].untranslated))
  }

  lemma {:induction false} FilesCharsMembers(files: seq<PoFile>, c: char)
    ensures c in FilesChars(files) <==> InFiles(c, files)
  {
    if files != [] {
      var init := files[..|files| - 1];
      var last := files[|files| - 1];
      FilesCharsMembers(init, c);
      EntriesCharsMembers(last.translated, c);
      EntriesCharsMembers(last.untranslated, c);
      if InFiles(c, init) {
        var p :| 0 <= p < |init| && (InEntries(c, init[p].translated) || InEntries(c, init[p].untranslated));
        assert files[p] == init[p];
      }
      if InFiles(c, files) {
        var p :| 0 <= p < |files| && (InEntries(c, files[p].translated) || InEntries(c, files[p].untranslated));
        if p < |init| {
          assert init[p] == files[p];
        }
      }
    }
  }

  /** A character is collected exactly when it is visible ASCII or occurs in the
      msgid or msgstr of a translated or untranslated entry of some file. */
  lemma CollectedMembers(files: seq<PoFile>, c: char)
    ensures c in Collected(files) <==> (32 <= c as int <= 126 || InFiles(c, files))
  {
    CharRangeMembers(32, 127, c);
    FilesCharsMembers(files, c);
  }

  /** `for acharacter in text: characters.add(acharacter)`. */
  method AddCharacters(chars: set<char>, text: string) returns (r: set<char>)
    ensures r == chars + CharsOf(text)
  {
    r := chars;
    for k := 0 to |text|
      invariant r == chars + CharsOf(text[..k])
    {
      assert CharsOf(text[..k + 1]) == CharsOf(text[..k]) + {text[k]} by {
        assert text[..k + 1] == text[..k] + [text[k]];
      }
      r := r + {text[k]};
    }
    assert text[..|text|] == text;
  }

  /** The loop over one entry list, adding the characters of msgid and msgstr. */
  method AddEntries(chars: set<char>, entries: seq<Entry>) returns (r: set<char>)
    ensures r == chars + EntriesChars(entries)
  {
    r := chars;
    for j := 0 to |entries|
      invariant r == chars + EntriesChars(entries[..j])
    {
      assert entries[..j + 1][..j] == entries[..j];
      r := AddCharacters(r, entries[j].msgid);
      r := AddCharacters(r, entries[j].msgstr);
    }
    assert entries[..|entries|] == entries;
  }

  /** `gather_characters_from_po_files`: printable ASCII first, then every
      character of every translated and untranslated entry of every file. */
  method GatherCharacters(files: seq<PoFile>) returns (chars: set<char>)
    ensures chars == Collected(files)
  {
    chars := {};
    for i := 32 to 127
      invariant chars == CharRange(32, i)
    {
      CharRangeStep(32, i);
      chars := chars + {Chr(i)};
    }
    for p := 0 to |files|
      invariant chars == PrintableAscii() + FilesChars(files[..p])
    {
      assert files[..p + 1][..p] == files[..p];
      chars := AddEntries(chars, files[p].translated);
      chars := AddEntries(chars, files[p].untranslated);
    }
    assert files[..|files|] == files;
  }

  // ------------------------------------------------------------ language name

  /** `os.path.basename`: the text after the last `/`. */
  function Basename(path: string): (name: string)
    ensures '/' !in name
  {
    if path == [] || path[|path| - 1] == '/' then []
    else Basename(path[..|path| - 1]) + [path[|path| - 1]]
  }

  predicate AllDots(s: string) { forall i :: 0 <= i < |s| ==> s[i] == '.' }

  /** The index of the last `.` in `s`, or -1 when there is none. */
  function LastDot(s: string): (d: int)
    ensures -1 <= d < |s|
    ensures d >= 0 ==> s[d] == '.'
    ensures forall i :: d < i < |s| ==> s[i] != '.'
  {
    if s == [] then -1 else if s[|s| - 1] == '.' then |s| - 1 else LastDot(s[..|s| - 1])
  }

  /** `os.path.splitext(name)[0]` for a name without `/`: the text before the
      last dot, unless only dots precede it (a leading-dot name has no
      extension). */
  function StripExtension(name: string): string
  {
    var d := LastDot(name);
    if d > 0 && !AllDots(name[..d]) then name[..d] else name
  }

  /** `os.path.splitext(os.path.basename(file_path))[0]`. */
  function LanguageName(path: string): (lang: string)
    ensures '/' !in lang
  {
    StripExtension(Basename(path))
  }

  lemma {:induction false} BasenameOfName(name: string)
    requires '/' !in name
    ensures Basename(name) == name
  {
    if name != [] {
      BasenameOfName(name[..|name| - 1]);
      assert name[..|name| - 1] + [name[|name| - 1]] == name;
    }
  }

  lemma {:induction false} BasenameAfterSlash(dir: string, name: string)
    requires '/' !in name
    ensures Basename(dir + "/" + name) == name
  {
    if name != [] {
      var p := dir + "/" + name;
      assert p[..|p| - 1] == dir + "/" + name[..|name| - 1];
      BasenameAfterSlash(dir, name[..|name| - 1]);
      assert name[..|name| - 1] + [name[|name| - 1]] == name;
    } else {
      assert dir + "/" + name == dir + "/";
    }
  }

  /** A catalog at `dir/<lang>.<ext>` names the language `lang`, whenever `lang`
      has no `/` and is not only dots, and the extension has no dot. */
  lemma LanguageOfPath(dir: string, lang: string, ext: string)
    requires '/' !in lang && '/' !in ext && '.' !in ext
    requires !AllDots(lang)
    ensures LanguageName(dir + "/" + lang + "." + ext) == lang
  {
    var name := lang + "." + ext;
    assert '/' !in name by {
      assert forall i :: 0 <= i < |name| ==> name[i] == (if i < |lang| then lang[i] else if i == |lang| then '.' else ext[i - |lang| - 1]);
    }
    assert dir + "/" + lang + "." + ext == dir + "/" + name;
    BasenameAfterSlash(dir, name);
    LastDotOfExtension(lang, ext);
    assert name[..|lang|] == lang;
  }

  lemma {:induction false} LastDotOfExtension(lang: string, ext: string)
    requires '.' !in ext
    ensures LastDot(lang + "." + ext) == |lang|
  {
    var name := lang + "." + ext;
    if ext == [] {
      assert name[|name| - 1] == '.';
    } else {
      var shorter := lang + "." + ext[..|ext| - 1];
      assert name[..|name| - 1] == shorter;
      assert name[|name| - 1] == ext[|ext| - 1];
      LastDotOfExtension(lang, ext[..|ext| - 1]);
    }
  }

  lemma LanguageNameExamples()
    ensures LanguageName("po/zh_CN.po") == "zh_CN"
    ensures LanguageName("en.po") == "en"
    ensures LanguageName("locale/.po") == ".po"
  {
    assert "zh_CN"[0] != '.';
    LanguageOfPath("po", "zh_CN", "po");
    assert "po" + "/" + "zh_CN" + "." + "po" == "po/zh_CN.po";
    BasenameOfName("en.po");
    assert LastDot("en.po") == 2;
    assert "en.po"[..2] == "en" && "en"[0] != '.';
    BasenameAfterSlash("locale", ".po");
    assert "locale" + "/" + ".po" == "locale/.po";
    assert LastDot(".po") == 0;
  }
}
