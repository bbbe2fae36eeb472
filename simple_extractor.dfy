/**
 * The extractor that needs no external tools: it unpacks the XML files under `res/` from the
 * APK, reads each `values` directory's `strings.xml` as text XML (skipping the compiled binary
 * format, and retrying once with control characters removed), and merges the strings under each
 * directory's locale. Its state is the set of detected locales, the merged table and the
 * allow-list given on the command line.
 *
 * The ZIP archive, the file system and the XML parser are not modelled: each unpacked file is
 * given as its directory name, its bytes (`None` when it cannot be read), the tree the parser
 * builds from the file (`None` when it does not parse) and the file's text decoded from UTF-8;
 * the parser applied to a cleaned text is the parameter `reparse`.
 */
module SimpleExtractor {
  import opened Wrappers
  import opened Text
  import opened XmlTree
  import opened LocaleCode
  import opened BinaryXml
  import opened Aggregate
  import opened Report

  /** One unpacked `strings.xml` of a `values` directory, as the reader sees it. */
  datatype SimpleStringFile = SimpleStringFile(dirName: string, content: Option<seq<bv8>>, direct: Option<Elem>, decoded: string)

  /** The root `_try_parse_binary_xml` returns for a file. */
  function FileRoot(f: SimpleStringFile, reparse: string -> Option<Elem>): Option<Elem> {
    TryParseBinaryXml(f.content, f.direct, f.decoded, reparse)
  }

  /** What `parse_strings_xml` returns: nothing without a root, else the root's named strings. */
  function FileStrings(f: SimpleStringFile, reparse: string -> Option<Elem>): map<string, string> {
    match FileRoot(f, reparse)
    case None => map[]
    case Some(root) => StringTable(root.children)
  }

  /** A text file that parses directly is read from that tree; the cleaned retry is not used. */
  lemma ParsedFileReadDirectly(f: SimpleStringFile, reparse: string -> Option<Elem>)
    requires f.content.Some? && !IsBinaryXml(f.content.value) && f.direct.Some?
    ensures FileStrings(f, reparse) == StringTable(f.direct.value.children)
  {
  }

  /** `parse_strings_xml`; its keys are never empty and its texts are stripped. */
  method ParseStringsXml(f: SimpleStringFile, reparse: string -> Option<Elem>) returns (strings: map<string, string>)
    ensures strings == FileStrings(f, reparse)
    ensures forall k :: k in strings ==> k != [] && Trimmed(strings[k])
  {
    var root := TryParseBinaryXml(f.content, f.direct, f.decoded, reparse);
    strings := ParseStringTable(root);
    if root.Some? {
      StringTableTrimmed(root.value.children);
      forall k | k in strings
        ensures k != []
      {
        StringTableKeys(root.value.children, k);
      }
    }
  }

  /** The `(locale, strings)` pair one file contributes. */
  function XmlEntry(f: SimpleStringFile, reparse: string -> Option<Elem>): (string, map<string, string>) {
    (ExtractLanguageCode(f.dirName), FileStrings(f, reparse))
  }

  /** The `(locale, strings)` pairs the extraction merges, one per file, in file order. */
  function XmlFiles(files: seq<SimpleStringFile>, reparse: string -> Option<Elem>): (r: seq<(string, map<string, string>)>)
    ensures |r| == |files|
    ensures forall i :: 0 <= i < |r| ==> r[i] == XmlEntry(files[i], reparse)
  {
    if files == [] then []
    else XmlFiles(files[..|files| - 1], reparse) + [XmlEntry(files[|files| - 1], reparse)]
  }

  /** The locales of the given directories; each is detected even when its file gave nothing. */
  function FileLocales(files: seq<SimpleStringFile>): set<string> {
    set i | 0 <= i < |files| :: ExtractLanguageCode(files[i].dirName)
  }


  /**
   * A compiled binary `strings.xml`, or one that cannot be read, contributes no strings, but its
   * directory's locale is still detected.
   */
  lemma SkippedFileLocaleKept(files: seq<SimpleStringFile>, reparse: string -> Option<Elem>, i: nat)
    requires i < |files| && (files[i].content.None? || IsBinaryXml(files[i].content.value))
    ensures FileStrings(files[i], reparse) == map[]
    ensures ExtractLanguageCode(files[i].dirName) in FileLocales(files)
  {
  }

  /**
   * The loop of `extract_all_strings`: every file is parsed and merged under its directory's
   * locale, in order; `found` collects those locales.
   */
  method MergeXmlFiles(files: seq<SimpleStringFile>, reparse: string -> Option<Elem>) returns (r: Table, found: set<string>)
    ensures r == MergeAll(map[], XmlFiles(files, reparse))
    ensures found == FileLocales(files)
  {
    r, found := map[], {};
    var i := 0;
    assert files[..0] == [];
    while i < |files|
      invariant 0 <= i <= |files|
      invariant r == MergeAll(map[], XmlFiles(files[..i], reparse))
      invariant found == FileLocales(files[..i])
    {
      r := MergeNextFile(files, reparse, i, r);
      found := found + {ExtractLanguageCode(files[i].dirName)};
      FileLocalesSnoc(files, i);
      i := i + 1;
    }
    assert files[..i] == files;
  }

  /** One step of the extraction: file `i` is parsed and merged under its directory's locale. */
  method MergeNextFile(files: seq<SimpleStringFile>, reparse: string -> Option<Elem>, i: nat, r: Table) returns (r': Table)
    requires i < |files| && r == MergeAll(map[], XmlFiles(files[..i], reparse))
    ensures r' == MergeAll(map[], XmlFiles(files[..i + 1], reparse))
  {
    var strings := ParseStringsXml(files[i], reparse);
    r' := MergeInto(r, ExtractLanguageCode(files[i].dirName), strings);
    XmlFilesSnoc(files, reparse, i);
  }

  /** Merging one more file is one more merge step. */
  lemma XmlFilesSnoc(files: seq<SimpleStringFile>, reparse: string -> Option<Elem>, i: nat)
    requires i < |files|
    ensures MergeAll(map[], XmlFiles(files[..i + 1], reparse)) ==
      Merged(MergeAll(map[], XmlFiles(files[..i], reparse)), ExtractLanguageCode(files[i].dirName), FileStrings(files[i], reparse))
  {
    var init := XmlFiles(files[..i], reparse);
    var next := (ExtractLanguageCode(files[i].dirName), FileStrings(files[i], reparse));
    assert files[..i + 1][..i] == files[..i];
    assert XmlFiles(files[..i + 1], reparse) == init + [next];
    assert (init + [next])[..|init|] == init;
  }

  /** One more file detects one more locale. */
  lemma FileLocalesSnoc(files: seq<SimpleStringFile>, i: nat)
    requires i < |files|
    ensures FileLocales(files[..i + 1]) == FileLocales(files[..i]) + {ExtractLanguageCode(files[i].dirName)}
  {
    forall x | x in FileLocales(files[..i + 1])
      ensures x in FileLocales(files[..i]) + {ExtractLanguageCode(files[i].dirName)}
    {
      var j :| 0 <= j < i + 1 && ExtractLanguageCode(files[..i + 1][j].dirName) == x;
      if j < i {
        assert files[..i + 1][j] == files[..i][j];
      }
    }
    assert files[..i + 1][i] == files[i];
    forall x | x in FileLocales(files[..i])
      ensures x in FileLocales(files[..i + 1])
    {
      var j :| 0 <= j < i && ExtractLanguageCode(files[..i][j].dirName) == x;
      assert files[..i + 1][j] == files[..i][j];
    }
  }

  /** Every key of the merged table has a locale, and every such locale was detected. */
  lemma XmlTableShape(files: seq<SimpleStringFile>, reparse: string -> Option<Elem>)
    ensures forall k :: k in MergeAll(map[], XmlFiles(files, reparse)) ==> MergeAll(map[], XmlFiles(files, reparse))[k] != map[]
    ensures forall k, l :: k in MergeAll(map[], XmlFiles(files, reparse)) && l in MergeAll(map[], XmlFiles(files, reparse))[k] ==>
      l in FileLocales(files)
  {
    MergeAllNonEmpty(map[], XmlFiles(files, reparse));
    forall k, l | k in MergeAll(map[], XmlFiles(files, reparse)) && l in MergeAll(map[], XmlFiles(files, reparse))[k]
      ensures l in FileLocales(files)
    {
      MergeAllLocales(map[], XmlFiles(files, reparse), k, l);
      var i :| 0 <= i < |XmlFiles(files, reparse)| && XmlFiles(files, reparse)[i].0 == l;
      assert ExtractLanguageCode(files[i].dirName) == l;
    }
  }

  class Extractor {
    /** `self.languages`: every locale detected so far. */
    var languages: set<string>
    /** `self.strings_data`: the table of the last extraction. */
    var stringsData: Table
    /** `self.supported_languages`: the allow-list given on the command line, if any. */
    var supportedLanguages: Option<seq<string>>

    /** Every locale that appears in the table was detected. */
    ghost predicate Consistent()
      reads this
    {
      forall k, l :: k in stringsData && l in stringsData[k] ==> l in languages
    }

    /** The constructor: nothing detected or extracted yet; the allow-list as given. */
    constructor(supportedLangs: Option<seq<string>>)
      ensures languages == {} && stringsData == map[] && supportedLanguages == supportedLangs
      ensures Consistent()
    {
      languages := {};
      stringsData := map[];
      supportedLanguages := supportedLangs;
    }

    /**
     * `extract_all_strings`: fails when the APK cannot be unpacked (`apk` is `None`) or holds no
     * `strings.xml`, leaving the state as it was; otherwise every file's locale is detected and
     * its strings are stored under that locale, a later file overwriting an earlier one, and the
     * merged table becomes `stringsData`.
     */
    method ExtractAllStrings(apk: Option<seq<SimpleStringFile>>, reparse: string -> Option<Elem>) returns (r: Result<Table, string>)
      requires Consistent()
      modifies this
      ensures r.Failure? <==> apk.None? || apk.value == []
      ensures r.Failure? ==> languages == old(languages) && stringsData == old(stringsData)
      ensures r.Success? ==>
        && r.value == MergeAll(map[], XmlFiles(apk.value, reparse))
        && stringsData == r.value
        && languages == old(languages) + FileLocales(apk.value)
      ensures supportedLanguages == old(supportedLanguages)
      ensures Consistent()
    {
      if apk.None? {
        return Failure("APK could not be unpacked");
      }
      var files := apk.value;
      if files == [] {
        return Failure("no string resource file found");
      }
      var all, found := MergeXmlFiles(files, reparse);
      XmlTableShape(files, reparse);
      languages := languages + found;
      stringsData := all;
      r := Success(all);
    }

    /**
     * `create_dataframe`: fails before any extraction filled the table; otherwise the table of
     * every key over the projected locales, with the missing count. Without an allow-list,
     * every locale that appears in the table is one of the exported columns.
     */
    method CreateDataFrame() returns (r: Result<Frame, string>)
      requires Consistent()
      ensures r.Failure? <==> stringsData == map[]
      ensures r.Success? ==> |r.value.columns| >= |LeadingColumns(false)|
      ensures r.Success? ==>
        var langs := r.value.columns[|LeadingColumns(false)|..];
        IsProjection(supportedLanguages, languages, langs) && FrameOf(stringsData, langs, false, r.value)
      ensures r.Success? && !HasAllowList(supportedLanguages) ==>
        forall k, l :: k in stringsData && l in stringsData[k] ==> l in r.value.columns[|LeadingColumns(false)|..]
    {
      if stringsData == map[] {
        return Failure("call extract_all_strings() first");
      }
      var langs := ProjectLanguages(supportedLanguages, languages);
      var frame := BuildFrame(stringsData, langs, false);
      assert frame.columns[|LeadingColumns(false)|..] == langs;
      r := Success(frame);
    }
  }
}
