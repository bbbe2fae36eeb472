/**
 * The locale allow-list: a text file with one locale tag per line, where blank lines and lines
 * starting with `#` are skipped, and how the local extractor's constructor chooses between the
 * allow-list given on the command line and the one read from that file.
 */
module LanguageConfig {
  import opened Wrappers
  import opened Text

  /** A stripped line that names a locale. */
  predicate IsEntry(line: string) {
    line != [] && !StartsWith(line, "#")
  }

  /** The entries of the given lines, in file order. */
  function ConfigEntries(lines: seq<string>): (r: seq<string>)
    ensures |r| <= |lines|
    ensures forall k :: 0 <= k < |r| ==> IsEntry(r[k]) && Trimmed(r[k])
  {
    if lines == [] then []
    else
      var rest := ConfigEntries(lines[..|lines| - 1]);
      var line := Strip(lines[|lines| - 1]);
      if IsEntry(line) then rest + [line] else rest
  }

  /** Each line stripped. */
  function StripAll(lines: seq<string>): (r: seq<string>)
    ensures |r| == |lines|
    ensures forall k :: 0 <= k < |r| ==> r[k] == Strip(lines[k])
  {
    seq(|lines|, k requires 0 <= k < |lines| => Strip(lines[k]))
  }

  lemma StripAllSnoc(lines: seq<string>)
    requires lines != []
    ensures StripAll(lines) == StripAll(lines[..|lines| - 1]) + [Strip(lines[|lines| - 1])]
  {
    var init := lines[..|lines| - 1];
    var r := StripAll(init) + [Strip(lines[|lines| - 1])];
    forall k | 0 <= k < |lines|
      ensures StripAll(lines)[k] == r[k]
    {
      if k < |init| {
        assert init[k] == lines[k];
      }
    }
  }

  /** The entries are exactly the stripped lines that are entries, kept in order. */
  lemma {:induction false} ConfigEntriesFilter(lines: seq<string>)
    ensures ConfigEntries(lines) == Filter(StripAll(lines), IsEntry)
  {
    if lines == [] {
      assert StripAll(lines) == [];
    } else {
      var init := lines[..|lines| - 1];
      var x := Strip(lines[|lines| - 1]);
      ConfigEntriesFilter(init);
      StripAllSnoc(lines);
      FilterSnoc(StripAll(init), x, IsEntry);
    }
  }

  /** What `load_language_config` returns for a file's lines (`None` when it cannot be read). */
  function LoadedConfig(file: Option<seq<string>>): (r: Option<seq<string>>)
    ensures r.Some? ==> r.value != [] && file.Some? && r.value == ConfigEntries(file.value)
    ensures r.None? ==> file.None? || ConfigEntries(file.value) == []
  {
    if file.None? then None
    else if ConfigEntries(file.value) == [] then None
    else Some(ConfigEntries(file.value))
  }

  /** `load_language_config`: collects the entries line by line; none at all counts as no list. */
  method LoadLanguageConfig(file: Option<seq<string>>) returns (languages: Option<seq<string>>)
    ensures languages == LoadedConfig(file)
  {
    if file.None? {
      return None;
    }
    var lines := file.value;
    var entries: seq<string> := [];
    var i := 0;
    while i < |lines|
      invariant 0 <= i <= |lines|
      invariant entries == ConfigEntries(lines[..i])
    {
      var line := Strip(lines[i]);
      ConfigEntriesSnoc(lines, i);
      ghost var next := ConfigEntries(lines[..i + 1]);
      if line != [] && !StartsWith(line, "#") {
        entries := entries + [line];
      }
      assert entries == next;
      i := i + 1;
    }
    assert lines[..i] == lines;
    if entries == [] {
      return None;
    }
    return Some(entries);
  }

  lemma ConfigEntriesSnoc(lines: seq<string>, i: nat)
    requires i < |lines|
    ensures IsEntry(Strip(lines[i])) ==> ConfigEntries(lines[..i + 1]) == ConfigEntries(lines[..i]) + [Strip(lines[i])]
    ensures !IsEntry(Strip(lines[i])) ==> ConfigEntries(lines[..i + 1]) == ConfigEntries(lines[..i])
  {
    assert lines[..i + 1][..i] == lines[..i];
  }

  /** Where the constructor may read an allow-list from: nowhere, or a file (`None` if unreadable). */
  datatype ConfigSource = NoConfig | ConfigFile(lines: Option<seq<string>>)

  /**
   * The constructor as written: a non-empty command-line list wins; otherwise a configured file
   * is loaded, and a load that gives no list makes the constructor's report of the loaded list
   * fail, which ends the run.
   */
  function SupportedLanguagesAsWritten(supportedLangs: seq<string>, config: ConfigSource): (r: Result<Option<seq<string>>, string>)
    ensures supportedLangs != [] ==> r == Success(Some(supportedLangs))
    ensures r.Failure? <==> supportedLangs == [] && config.ConfigFile? && LoadedConfig(config.lines).None?
  {
    if supportedLangs != [] then Success(Some(supportedLangs))
    else match config
      case NoConfig => Success(None)
      case ConfigFile(lines) =>
        var loaded := LoadedConfig(lines);
        if loaded.None? then Failure("can only join an iterable") else Success(loaded)
  }

  /** A missing allow-list file aborts the run instead of falling back to every locale. */
  lemma MissingConfigAborts()
    ensures SupportedLanguagesAsWritten([], ConfigFile(None)).Failure?
  {
  }

  /** So does a file that holds only comments. */
  lemma CommentOnlyConfigAborts(lines: seq<string>)
    requires lines == ["# business locales"]
    ensures SupportedLanguagesAsWritten([], ConfigFile(Some(lines))).Failure?
  {
    StripTrimmedComment();
    StripTrimmed(lines[0]);
    assert lines[..0] == [];
    assert ConfigEntries(lines) == [];
  }

  lemma StripTrimmedComment()
    ensures Trimmed("# business locales")
  {
  }

  /**
   * The allow-list the extractor works with: a non-empty command-line list, else the entries of
   * a readable configuration file that has any, else none (every detected locale is exported).
   */
  function SupportedLanguages(supportedLangs: seq<string>, config: ConfigSource): (r: Option<seq<string>>)
    ensures supportedLangs != [] ==> r == Some(supportedLangs)
    ensures r.Some? ==> r.value != []
    ensures supportedLangs == [] && config.NoConfig? ==> r.None?
  {
    if supportedLangs != [] then Some(supportedLangs)
    else match config
      case NoConfig => None
      case ConfigFile(lines) => LoadedConfig(lines)
  }

  /** Where the constructor as written succeeds, it chooses the same list. */
  lemma SupportedLanguagesAgree(supportedLangs: seq<string>, config: ConfigSource)
    ensures SupportedLanguagesAsWritten(supportedLangs, config).Success? ==>
      SupportedLanguagesAsWritten(supportedLangs, config).value == SupportedLanguages(supportedLangs, config)
    ensures SupportedLanguagesAsWritten(supportedLangs, config).Failure? ==>
      SupportedLanguages(supportedLangs, config).None?
  {
  }
}
