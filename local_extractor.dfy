/**
 * The extractor that uses the Android SDK tools: the string table comes from the resource dump
 * of `aapt2`, and when that yields nothing, from the `strings.xml` files unpacked from the APK,
 * each read through `aapt dump xmltree` or, failing that, as a text XML tree. The extractor's
 * state is the set of detected locales, the merged table, and the locale allow-list.
 *
 * The tools themselves, the ZIP archive and the file system are not modelled: each tool run is
 * given as its outcome, and each unpacked `values*` directory as its name together with the
 * outcomes of reading its `strings.xml`.
 */
module LocalExtractor {
  import opened Wrappers
  import opened Text
  import opened XmlTree
  import opened ToolOutput
  import opened LocaleCode
  import opened LanguageConfig
  import opened Aggregate
  import opened Report

  /** The outcome of running an external tool: its exit code and standard output, or an exception. */
  datatype ToolRun = Exited(code: int, stdout: string) | Raised

  /**
   * One unpacked `strings.xml` of a `values` directory: the directory name, the outcome of
   * `aapt dump xmltree` on it, and its root element as a text XML tree (`None` when it does not
   * parse).
   */
  datatype LocalStringFile = LocalStringFile(dirName: string, xmltree: ToolRun, tree: Option<Elem>)

  /**
   * What `parse_strings_xml` returns for a file: a tool run that raises gives nothing; a
   * successful run whose output yields strings gives those; otherwise the tree's strings.
   */
  function FileStrings(f: LocalStringFile): map<string, string> {
    match f.xmltree
    case Raised => map[]
    case Exited(code, out) =>
      if code == 0 && XmlTreeRun(Split(out, '\n')).strings != map[] then XmlTreeRun(Split(out, '\n')).strings
      else if f.tree.None? then map[]
      else StringTable(f.tree.value.children)
  }

  /** The `(locale, strings)` pair one file contributes. */
  function XmlEntry(f: LocalStringFile): (string, map<string, string>) {
    (ExtractLanguageCode(f.dirName), FileStrings(f))
  }

  /** The `(locale, strings)` pairs the extraction merges, one per file, in file order. */
  function XmlFiles(files: seq<LocalStringFile>): (r: seq<(string, map<string, string>)>)
    ensures |r| == |files|
    ensures forall i :: 0 <= i < |r| ==> r[i] == XmlEntry(files[i])
  {
    if files == [] then []
    else XmlFiles(files[..|files| - 1]) + [XmlEntry(files[|files| - 1])]
  }

  /** The locales of the given directories; each file's locale is detected, even if it gave nothing. */
  function FileLocales(files: seq<LocalStringFile>): set<string> {
    set i | 0 <= i < |files| :: ExtractLanguageCode(files[i].dirName)
  }


  /** What `extract_strings_with_aapt2` returns: the parsed dump on exit code 0, else nothing. */
  function Aapt2Result(run: ToolRun): Table {
    if run.Exited? && run.code == 0 then Aapt2Table(Split(run.stdout, '\n')) else map[]
  }

  /** The locales that `extract_strings_with_aapt2` detects. */
  function Aapt2Detected(run: ToolRun): set<string> {
    if run.Exited? && run.code == 0 then Aapt2Locales(Split(run.stdout, '\n')) else {}
  }

  /** The aapt2 table is empty exactly when the dump detected no locale; every stored map has one. */
  lemma Aapt2ResultShape(run: ToolRun)
    ensures Aapt2Result(run) == map[] <==> Aapt2Detected(run) == {}
    ensures forall k :: k in Aapt2Result(run) ==> Aapt2Result(run)[k] != map[]
    ensures forall k, l :: k in Aapt2Result(run) && l in Aapt2Result(run)[k] ==> l in Aapt2Detected(run)
  {
    if run.Exited? && run.code == 0 {
      Aapt2TableShape(Split(run.stdout, '\n'));
    }
  }

  /** Every key of the XML fallback's table has a locale, and every such locale was detected. */
  lemma XmlTableShape(files: seq<LocalStringFile>)
    ensures forall k :: k in MergeAll(map[], XmlFiles(files)) ==> MergeAll(map[], XmlFiles(files))[k] != map[]
    ensures forall k, l :: k in MergeAll(map[], XmlFiles(files)) && l in MergeAll(map[], XmlFiles(files))[k] ==>
      l in FileLocales(files)
  {
    MergeAllNonEmpty(map[], XmlFiles(files));
    forall k, l | k in MergeAll(map[], XmlFiles(files)) && l in MergeAll(map[], XmlFiles(files))[k]
      ensures l in FileLocales(files)
    {
      MergeAllLocales(map[], XmlFiles(files), k, l);
      var i :| 0 <= i < |XmlFiles(files)| && XmlFiles(files)[i].0 == l;
      assert ExtractLanguageCode(files[i].dirName) == l;
    }
  }

  /** The run over one more line is one more step. */
  lemma Aapt2RunSnoc(lines: seq<string>, i: nat)
    requires i < |lines|
    ensures Aapt2Run(lines[..i + 1]) == Aapt2Line(Aapt2Run(lines[..i]), Strip(lines[i]))
  {
    assert lines[..i + 1][..i] == lines[..i];
  }

  /**
   * The loop of `_extract_strings_from_xml`: every file is parsed and merged under its
   * directory's locale, in order; `found` collects those locales.
   */
  method MergeXmlFiles(all: Table, files: seq<LocalStringFile>) returns (r: Table, found: set<string>)
    ensures r == MergeAll(all, XmlFiles(files))
    ensures found == FileLocales(files)
  {
    r, found := all, {};
    var i := 0;
    assert files[..0] == [];
    while i < |files|
      invariant 0 <= i <= |files|
      invariant r == MergeAll(all, XmlFiles(files[..i]))
      invariant found == FileLocales(files[..i])
    {
      r := MergeNextFile(all, files, i, r);
      found := found + {ExtractLanguageCode(files[i].dirName)};
      FileLocalesSnoc(files, i);
      i := i + 1;
    }
    assert files[..i] == files;
  }

  /** One step of the XML fallback: file `i` is parsed and merged under its directory's locale. */
  method MergeNextFile(all: Table, files: seq<LocalStringFile>, i: nat, r: Table) returns (r': Table)
    requires i < |files| && r == MergeAll(all, XmlFiles(files[..i]))
    ensures r' == MergeAll(all, XmlFiles(files[..i + 1]))
  {
    var strings := ParseStringsXml(files[i]);
    r' := MergeInto(r, ExtractLanguageCode(files[i].dirName), strings);
    XmlFilesSnoc(all, files, i);
  }

  /** Merging one more file is one more merge step. */
  lemma XmlFilesSnoc(all: Table, files: seq<LocalStringFile>, i: nat)
    requires i < |files|
    ensures MergeAll(all, XmlFiles(files[..i + 1])) ==
      Merged(MergeAll(all, XmlFiles(files[..i])), ExtractLanguageCode(files[i].dirName), FileStrings(files[i]))
  {
    var init := XmlFiles(files[..i]);
    var next := (ExtractLanguageCode(files[i].dirName), FileStrings(files[i]));
    assert files[..i + 1][..i] == files[..i];
    assert XmlFiles(files[..i + 1]) == init + [next];
    assert (init + [next])[..|init|] == init;
  }

  /** One more file detects one more locale. */
  lemma FileLocalesSnoc(files: seq<LocalStringFile>, i: nat)
    requires i < |files|
    ensures FileLocales(files[..i + 1]) == FileLocales(files[..i]) + {ExtractLanguageCode(files[i].dirName)}
  {
    forall x | x in FileLocales(files[..i + 1])
      ensures x in FileLocales(files[..i]) + {ExtractLanguageCode(files[i].dirName)}
    {
      var j :| 0 <= j < i + 1 && ExtractLanguageCode(files[..i + 1][j].dirName) == x;
      if j < i {
        assert files[..i + 1][j] == files[..i][j];
      }
    }
    assert files[..i + 1][i] == files[i];
    forall x | x in FileLocales(files[..i])
      ensures x in FileLocales(files[..i + 1])
    {
      var j :| 0 <= j < i && ExtractLanguageCode(files[..i][j].dirName) == x;
      assert files[..i + 1][j] == files[..i][j];
    }
  }

  /** `parse_strings_xml`; its keys are never empty and its texts are stripped. */
  method ParseStringsXml(f: LocalStringFile) returns (strings: map<string, string>)
    ensures strings == FileStrings(f)
    ensures forall k :: k in strings ==> k != [] && Trimmed(strings[k])
  {
    strings := map[];
    if f.xmltree.Raised? {
      return;
    }
    if f.xmltree.code == 0 {
      strings := ParseAaptXmltreeOutput(f.xmltree.stdout);
      if strings != map[] {
        return;
      }
    }
    strings := ParseStringTable(f.tree);
    if f.tree.Some? {
      StringTableTrimmed(f.tree.value.children);
      forall k | k in strings
        ensures k != []
      {
        StringTableKeys(f.tree.value.children, k);
      }
    }
  }

  class Extractor {
    /** `self.languages`: every locale detected so far. */
    var languages: set<string>
    /** `self.strings_data`: the table of the last extraction. */
    var stringsData: Table
    /** `self.supported_languages`: the allow-list, if any. */
    var supportedLanguages: Option<seq<string>>

    /** Every locale that appears in the table was detected. */
    ghost predicate Consistent()
      reads this
    {
      forall k, l :: k in stringsData && l in stringsData[k] ==> l in languages
    }

    /**
     * The constructor: nothing detected or extracted yet; the allow-list is the one given on
     * the command line, else the one read from the configuration file, if any.
     */
    constructor(supportedLangs: seq<string>, config: ConfigSource)
      ensures languages == {} && stringsData == map[]
      ensures supportedLanguages == SupportedLanguages(supportedLangs, config)
      ensures Consistent()
    {
      var supported: Option<seq<string>> := None;
      if supportedLangs != [] {
        supported := Some(supportedLangs);
      } else if config.ConfigFile? {
        supported := LoadLanguageConfig(config.lines);
      }
      languages := {};
      stringsData := map[];
      supportedLanguages := supported;
    }

    /**
     * One line of `_parse_aapt2_resources_output`, already stripped: updates the parser's
     * variables and adds the locale of a value line to `languages`.
     */
    method ParseAapt2Line(st: Aapt2State, line: string) returns (next: Aapt2State)
      requires st.added <= languages
      modifies this
      ensures next == Aapt2Line(st, line)
      ensures st.added <= next.added
      ensures languages == old(languages) + next.added
      ensures stringsData == old(stringsData) && supportedLanguages == old(supportedLanguages)
    {
      next := st;
      if Contains(line, "type string") {
        next := next.(inSection := true);
      } else if st.inSection && StartsWith(line, "type ") && !Contains(line, "string") {
        next := next.(inSection := false);
      } else if !st.inSection {
      } else if StartsWith(line, "resource ") && Contains(line, "string/") {
        if st.name != [] && st.data != map[] {
          next := next.(result := st.result[st.name := st.data]);
        }
        var m := Search(line, SlashNameAt);
        if m.Some? {
          next := next.(name := m.value, data := map[]);
        }
      } else if st.name != [] && '"' in line {
        var m := LocaleValue(line);
        if m.Some? {
          var language := m.value.0;
          if language == [] {
            language := "default";
          }
          next := next.(data := st.data[language := m.value.1], added := st.added + {language});
          languages := languages + {language};
        }
      }
    }

    /**
     * `_parse_aapt2_resources_output`: walks the dump line by line, adding each value line's
     * locale to `languages`, and returns the table of resources with at least one value.
     */
    method ParseAapt2ResourcesOutput(output: string) returns (table: Table)
      modifies this
      ensures table == Aapt2Table(Split(output, '\n'))
      ensures languages == old(languages) + Aapt2Locales(Split(output, '\n'))
      ensures stringsData == old(stringsData) && supportedLanguages == old(supportedLanguages)
    {
      var lines := Split(output, '\n');
      var st := Aapt2Start;
      ghost var before := languages;
      var i := 0;
      assert lines[..0] == [];
      while i < |lines|
        invariant 0 <= i <= |lines|
        invariant Aapt2Run(lines[..i]) == st
        invariant languages == before + st.added
        invariant stringsData == old(stringsData) && supportedLanguages == old(supportedLanguages)
      {
        Aapt2RunSnoc(lines, i);
        ghost var prev := st;
        st := ParseAapt2Line(st, Strip(lines[i]));
        assert languages == before + st.added by {
          assert prev.added <= st.added;
        }
        i := i + 1;
      }
      assert lines[..i] == lines;
      if st.name != [] && st.data != map[] {
        st := st.(result := st.result[st.name := st.data]);
      }
      table := st.result;
    }

    /** `extract_strings_with_aapt2`: the dump's table when the tool exits with 0, else nothing. */
    method ExtractStringsWithAapt2(run: ToolRun) returns (table: Table)
      modifies this
      ensures table == Aapt2Result(run)
      ensures languages == old(languages) + Aapt2Detected(run)
      ensures stringsData == old(stringsData) && supportedLanguages == old(supportedLanguages)
    {
      table := map[];
      if run.Exited? && run.code == 0 {
        table := ParseAapt2ResourcesOutput(run.stdout);
      }
    }

    /**
     * `_extract_strings_from_xml` over the unpacked files: each file's locale is detected and
     * its strings are stored under that locale, a later file overwriting an earlier one.
     */
    method ExtractStringsFromXml(all: Table, files: seq<LocalStringFile>) returns (r: Table)
      modifies this
      ensures r == MergeAll(all, XmlFiles(files))
      ensures languages == old(languages) + FileLocales(files)
      ensures stringsData == old(stringsData) && supportedLanguages == old(supportedLanguages)
    {
      var found;
      r, found := MergeXmlFiles(all, files);
      languages := languages + found;
    }

    /**
     * `extract_all_strings`: the aapt2 table when it is not empty; otherwise the XML fallback,
     * which fails when the APK cannot be unpacked (`apk` is `None`), leaving the table as it was.
     * The resulting table becomes `stringsData`.
     */
    method ExtractAllStrings(aapt2: ToolRun, apk: Option<seq<LocalStringFile>>) returns (r: Result<Table, string>)
      requires Consistent()
      modifies this
      ensures Aapt2Result(aapt2) != map[] ==>
        r == Success(Aapt2Result(aapt2)) && languages == old(languages) + Aapt2Detected(aapt2)
      ensures Aapt2Result(aapt2) == map[] && apk.None? ==>
        r.Failure? && languages == old(languages) && stringsData == old(stringsData)
      ensures Aapt2Result(aapt2) == map[] && apk.Some? ==>
        r == Success(MergeAll(map[], XmlFiles(apk.value))) && languages == old(languages) + FileLocales(apk.value)
      ensures r.Success? ==> stringsData == r.value
      ensures supportedLanguages == old(supportedLanguages)
      ensures Consistent()
    {
      var all := ExtractStringsWithAapt2(aapt2);
      Aapt2ResultShape(aapt2);
      if all == map[] {
        if apk.None? {
          return Failure("APK could not be unpacked");
        }
        all := ExtractStringsFromXml(all, apk.value);
        XmlTableShape(apk.value);
      }
      stringsData := all;
      r := Success(all);
    }

    /**
     * `create_dataframe`: fails before any extraction filled the table; otherwise the table of
     * every key over the projected locales, with the missing count and the anomaly list. Without
     * an allow-list, every locale that appears in the table is one of the exported columns.
     */
    method CreateDataFrame() returns (r: Result<Frame, string>)
      requires Consistent()
      ensures r.Failure? <==> stringsData == map[]
      ensures r.Success? ==> |r.value.columns| >= |LeadingColumns(true)|
      ensures r.Success? ==>
        var langs := r.value.columns[|LeadingColumns(true)|..];
        IsProjection(supportedLanguages, languages, langs) && FrameOf(stringsData, langs, true, r.value)
      ensures r.Success? && !HasAllowList(supportedLanguages) ==>
        forall k, l :: k in stringsData && l in stringsData[k] ==> l in r.value.columns[|LeadingColumns(true)|..]
    {
      if stringsData == map[] {
        return Failure("call extract_all_strings() first");
      }
      var langs := ProjectLanguages(supportedLanguages, languages);
      var frame := BuildFrame(stringsData, langs, true);
      assert frame.columns[|LeadingColumns(true)|..] == langs;
      r := Success(frame);
    }
  }
}
