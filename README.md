# APK string-resource extractor: a Dafny model

This project models the two Android string-resource extractors in `export_apk_strings`:

- `apk_string_extractor_local.py` uses the SDK tools. It parses the resource dump of `aapt2`. When that dump yields nothing, it falls back to the `strings.xml` files unpacked from the APK, and reads each one through `aapt dump xmltree` or as a text XML tree.
- `apk_string_extractor_simple.py` needs no tools. It unpacks the XML files itself and reads every `values*/strings.xml` as text XML. A file in the compiled binary format is skipped, and a file that does not parse is retried once with its control characters removed.

Both build the same table: string key, then locale, then text. Both export the same report. Each row holds a key, how many exported locales lack its text, and its text per locale. The local extractor adds one more column: the locales whose placeholders disagree with the default locale's.

The model follows the code's own structure:

- Pure helpers are Dafny functions:
  - the locale-directory normaliser;
  - the unescaper;
  - element-text flattening;
  - the placeholder scanners and comparator;
  - the binary-XML guard.
- Each line-scanning parser is:
  - a per-line specification function, folded over the lines;
  - a method with a loop, proved equal to that fold;
  - lemmas stating what the fold promises.
- Each extractor is a `class Extractor` whose fields `languages`, `stringsData` and `supportedLanguages` are updated in place by its methods, as the Python object's attributes are.

External tools, the ZIP archive, the file system and the XML parser are not run. A tool run is an input value: its exit code and standard output, or an exception. An unpacked file is likewise an input value: its directory name and the outcomes of reading it.

Modules, one file each:

- `Wrappers`: `Option`, `Result`, and `dict.get`.
- `Text`: Python string operations, code-point order, sorting, `Filter`, `Split` and `Join`.
- `LocaleCode`: the locale-directory normaliser.
- `Unescape`: the unescaper.
- `XmlTree`: the XML tree, text flattening and the string table.
- `Placeholders`: placeholder scanning and comparison.
- `ToolOutput`: the tool-output parsers.
- `BinaryXml`: the binary-XML guard.
- `LanguageConfig`: the allow-list file and the constructor's choice of allow-list.
- `Aggregate`: merging per-file strings into the table.
- `Report`: the exported table.
- `LocalExtractor` and `SimpleExtractor`: the two extractor classes.

The helpers that both scripts define identically are modelled once:

- `_extract_language_code`;
- `_unescape_xml`;
- `_extract_element_text`;
- the string loop of `parse_strings_xml`.

Some rows cite one copy and some the other.

Three behaviours of the code are easy to misread:

- Escape order: in `_unescape_xml` the `\n` replacement (apk_string_extractor_local.py:489) runs before the `\\` one (line 491). The three characters backslash, backslash, `n` therefore become a backslash followed by a real newline (`Unescape.EscapedBackslashBeforeN`).
- Binary files: the simple extractor's warning says a compiled binary `strings.xml` is skipped (apk_string_extractor_simple.py:149, and the help text at line 451). Its strings are indeed skipped, but the loop still adds the directory's locale to `languages` (line 286). That locale becomes an exported column whose cells are all missing (`SimpleExtractor.SkippedFileLocaleKept`).
- Allow-list file: `load_language_config` warns and returns `None` for a missing file (apk_string_extractor_local.py:187-189), for a file without entries (lines 200-202) and for one that cannot be read (lines 206-208). The constructor then joins that `None` and fails (see Findings).

## Model

| member | source | states |
|---|---|---|
| LocaleCode.ExtractLanguageCode | export_apk_strings/apk_string_extractor_local.py:346-365 | `values` maps to `default`; any other name maps to a code no longer than itself |
| LocaleCode.QualifierCode | export_apk_strings/apk_string_extractor_local.py:359-365 | for `values-<q>`, where `q` holds no further `values-`, the code is `q` with every `-r` plus two upper-case letters rewritten to `-` plus the letters; a `q` without such a marker is returned unchanged |
| LocaleCode.NoRegionMarkerLeft | export_apk_strings/apk_string_extractor_local.py:363 | after the rewrite, no `-rXX` region marker remains anywhere |
| LocaleCode.DropRegionMarkersIdentity | export_apk_strings/apk_string_extractor_local.py:363 | a text without region markers is left unchanged |
| LocaleCode.LanguageCodeHasNoMarker | export_apk_strings/apk_string_extractor_simple.py:111-130 | no locale code ever contains a region marker |
| LocaleCode.LanguageCodeExamples | export_apk_strings/apk_string_extractor_simple.py:111-130 | `values` gives `default` and `values-zh` gives `zh` |
| LocaleCode.RegionLanguageCode | export_apk_strings/apk_string_extractor_local.py:346-365 | for any two-letter language without `-` or `v` and any two upper-case region letters, `values-ll-rRR` gives `ll-RR` |
| LocaleCode.RegionLanguageCodeExample | export_apk_strings/apk_string_extractor_local.py:346-365 | `values-en-rUS` gives `en-US` |
| Unescape.UnescapeXml | export_apk_strings/apk_string_extractor_local.py:476-493 | empty input gives `""`; every result has no leading or trailing whitespace |
| Unescape.UnescapePlainText | export_apk_strings/apk_string_extractor_local.py:476-493 | a text with no `&` and no backslash is only stripped |
| Unescape.EntitiesNeedAmpersand | export_apk_strings/apk_string_extractor_local.py:480-484 | the entity replacements leave a text without `&` unchanged |
| Unescape.EscapesNeedBackslash | export_apk_strings/apk_string_extractor_local.py:487-491 | the Android escape replacements leave a text without a backslash unchanged |
| Unescape.AmpersandDecodedOnce | export_apk_strings/apk_string_extractor_local.py:480-482 | `&amp;lt;` gives `&lt;`, not `<`, because `&lt;` is replaced before `&amp;` |
| Unescape.DoubleBackslashCollapses | export_apk_strings/apk_string_extractor_simple.py:264 | a literal double backslash between spaces gives a single backslash |
| Unescape.BackslashNIsNewline | export_apk_strings/apk_string_extractor_simple.py:262 | a literal backslash-`n` gives a real newline |
| Unescape.EscapedBackslashBeforeN | export_apk_strings/apk_string_extractor_local.py:489-491 | backslash-backslash-`n` gives a backslash followed by a newline, because `\n` is replaced before `\\` |
| XmlTree.EmptyElementText | export_apk_strings/apk_string_extractor_simple.py:220-237 | an element with no text and no children flattens to `""` |
| XmlTree.AppendChildText | export_apk_strings/apk_string_extractor_simple.py:226-235 | appending a child appends that child's flattened text and then its tail |
| XmlTree.InlineMarkupExample | export_apk_strings/apk_string_extractor_local.py:437-464 | `Hello <b>big</b> world` flattens to `Hello big world` |
| XmlTree.StringTableKeys | export_apk_strings/apk_string_extractor_simple.py:194-203 | the keys are exactly the non-empty `name` attributes of the root's direct `string` children |
| XmlTree.StringTableLastWins | export_apk_strings/apk_string_extractor_simple.py:194-203 | a name's text is the unescaped flattened text of its last `string` element, so a later duplicate overwrites an earlier one |
| XmlTree.StringTableTrimmed | export_apk_strings/apk_string_extractor_local.py:396-405 | every stored text is stripped |
| XmlTree.ParseStringTable | export_apk_strings/apk_string_extractor_simple.py:186-203 | no root gives the empty map; otherwise the result is the string table of the root's children |
| Placeholders.ExtractPlaceholders | export_apk_strings/apk_string_extractor_local.py:505-520 | empty text gives `[]`; every token is a numbered `%<digits>$[sd]` or a simple `%[sd]`; no numbered token follows a simple one |
| Placeholders.NumberedSpansComplete | export_apk_strings/apk_string_extractor_local.py:511-513 | every position where a numbered placeholder starts is reported |
| Placeholders.SimpleStartsComplete | export_apk_strings/apk_string_extractor_local.py:516-518 | every `%s` or `%d` that is not followed by a digit is reported |
| Placeholders.NoPercentInsideNumbered | export_apk_strings/apk_string_extractor_local.py:511 | a numbered match contains no second `%`, so matches cannot overlap |
| Placeholders.TokenEnds | export_apk_strings/apk_string_extractor_local.py:505-520 | every token starts with `%` and ends in `s` or `d` |
| Placeholders.TypeLetters | export_apk_strings/apk_string_extractor_local.py:541-547 | the normalised types are only `s` or `d`, at most one per token |
| Placeholders.ComparePlaceholders | export_apk_strings/apk_string_extractor_local.py:534-535 | when either text is empty, the result is whether the two texts are equal |
| Placeholders.CompareIsCountEquality | export_apk_strings/apk_string_extractor_local.py:537-550 | for two non-empty texts, the result holds exactly when the counts of `s` tokens agree and the counts of `d` tokens agree |
| Placeholders.CompareIsEquivalence | export_apk_strings/apk_string_extractor_local.py:522-550 | the comparison is reflexive, symmetric and transitive |
| Placeholders.TwoNumberedText | export_apk_strings/apk_string_extractor_local.py:505-520 | a text with two one-digit numbered placeholders and no other `%` yields exactly their two type letters |
| Placeholders.OneSimpleText | export_apk_strings/apk_string_extractor_local.py:505-520 | a text whose only `%` starts a final simple placeholder yields exactly that type letter |
| Placeholders.ReorderedPlaceholdersAgree | export_apk_strings/apk_string_extractor_local.py:522-550 | for any `%`-free surrounding texts, a text with `%1$s` then `%2$d` agrees with one that has them in the other order (as in `Hello %1$s, you have %2$d` and `%2$d için %1$s merhaba`) |
| Placeholders.MismatchedTypesDisagree | export_apk_strings/apk_string_extractor_local.py:522-550 | for any `%`-free leading texts, a text ending in `%s` disagrees with one ending in `%d` (as in `Hello %s` and `Merhaba %d`) |
| Placeholders.GetPlaceholderAnomalyLanguages | export_apk_strings/apk_string_extractor_local.py:558-586 | `[]` for no translations, at most one locale, or an empty first-locale text; otherwise an in-order sub-list of `languages[1:]` holding each locale whose text is non-empty and disagrees with the first locale's, as often as it occurs there, and nothing else |
| Placeholders.CountPlaceholderAnomalies | export_apk_strings/apk_string_extractor_local.py:552-556 | the count is the list's length, 0 for no locales, at most `len(languages) - 1` otherwise |
| ToolOutput.Search | export_apk_strings/apk_string_extractor_local.py:674 | `re.search` finds nothing exactly when the pattern matches at no position; any match it returns is one the pattern gives at some position |
| ToolOutput.SlashNameAt | export_apk_strings/apk_string_extractor_local.py:674 | a name matched after `string/` is non-empty and contains no whitespace |
| ToolOutput.NameAttrAt | export_apk_strings/apk_string_extractor_local.py:423 | a `name="..."` match is non-empty and contains no quote |
| ToolOutput.TextAt | export_apk_strings/apk_string_extractor_local.py:429 | a `T: "..."` match contains no quote |
| ToolOutput.ResourceNameAt | export_apk_strings/apk_string_extractor_local.py:116 | a `resource ... :string/<name>` match is a non-empty run of word characters |
| ToolOutput.LocaleValue | export_apk_strings/apk_string_extractor_local.py:682 | a value line's locale has no `)` and its value has no quote |
| ToolOutput.LocaleTag | export_apk_strings/apk_string_extractor_local.py:687-688 | an empty locale becomes `default`; a non-empty one is kept; the tag is never empty |
| ToolOutput.Saved | export_apk_strings/apk_string_extractor_local.py:670-671 | the pending resource is stored exactly when it has a name and at least one value |
| ToolOutput.SavedGood | export_apk_strings/apk_string_extractor_local.py:694-697 | after the final save, every stored map is non-empty, every stored locale was added to `languages`, and the table is empty exactly when no locale was added |
| ToolOutput.Aapt2RunGood | export_apk_strings/apk_string_extractor_local.py:651-691 | between lines: stored and pending maps only hold added locales, `""` is never added, stored maps are non-empty, nothing is pending without a name, and no locale is added exactly when nothing is stored or pending |
| ToolOutput.Aapt2TableShape | export_apk_strings/apk_string_extractor_local.py:634-697 | every key of the result has a non-empty locale map; every such locale was added to `languages`; `""` is never added; the result is empty exactly when no locale was added |
| ToolOutput.OutsideSectionIgnored | export_apk_strings/apk_string_extractor_local.py:655-665 | outside the string section, lines change nothing until a `type string` line |
| ToolOutput.ValueLineAttaches | export_apk_strings/apk_string_extractor_local.py:680-691 | inside the section, a `(<lang>) "<value>"` line stores the value under the pending resource for its locale (`default` when empty) and adds that locale |
| ToolOutput.XmlTreeTextsTrimmed | export_apk_strings/apk_string_extractor_local.py:428-433 | every stored text went through the unescaper and is stripped |
| ToolOutput.TextWithoutNameIgnored | export_apk_strings/apk_string_extractor_local.py:420-433 | with no pending name, a line that names no `string` element changes nothing, including a `T:` line |
| ToolOutput.SecondTextIgnored | export_apk_strings/apk_string_extractor_local.py:428-433 | a `T:` line stores its unescaped text under the pending name and clears it, so a second `T:` line is ignored |
| ToolOutput.ParseAaptXmltreeOutput | export_apk_strings/apk_string_extractor_local.py:414-435 | the loop computes the fold over the output's lines; every key is non-empty and every text is stripped |
| ToolOutput.ScanStaysInStrings | export_apk_strings/apk_string_extractor_local.py:111-112 | once a `type ... string` line is seen, the scanner stays in string mode, and names found are never dropped |
| ToolOutput.ScanResourcesShape | export_apk_strings/apk_string_extractor_local.py:115-119 | every found name is a non-empty run of word characters mapped to `""` |
| ToolOutput.ParseAapt2Output | export_apk_strings/apk_string_extractor_local.py:93-121 | the loop computes the fold over the output's lines; every value is `""` and every key is a non-empty run of word characters |
| BinaryXml.BinaryXmlShape | export_apk_strings/apk_string_extractor_simple.py:148 | a file is treated as binary exactly when it starts with `03 00 08 00` or `02 00 0C 00` |
| BinaryXml.TextXmlNotBinary | export_apk_strings/apk_string_extractor_simple.py:148 | a file that starts with `<` or a UTF-8 byte-order mark is never treated as binary |
| BinaryXml.CleanControlChars | export_apk_strings/apk_string_extractor_simple.py:161 | no character from 0x00-0x08, 0x0B, 0x0C, 0x0E-0x1F or 0x7F-0x9F is left; every other character keeps its count and relative order |
| BinaryXml.CleanKeepsLayout | export_apk_strings/apk_string_extractor_simple.py:161 | tab, line feed and carriage return are kept |
| BinaryXml.CleanIdempotent | export_apk_strings/apk_string_extractor_simple.py:161 | cleaning twice is cleaning once |
| BinaryXml.TryParseBinaryXml | export_apk_strings/apk_string_extractor_simple.py:132-173 | unreadable or binary files give no root; otherwise the direct parse's root, or, when that fails, the parse of the cleaned text |
| LanguageConfig.ConfigEntries | export_apk_strings/apk_string_extractor_local.py:193-198 | every entry is a stripped, non-empty line that does not start with `#`; there are never more entries than lines |
| LanguageConfig.ConfigEntriesFilter | export_apk_strings/apk_string_extractor_local.py:193-198 | the entries are exactly the stripped lines that pass that test, in file order |
| LanguageConfig.LoadedConfig | export_apk_strings/apk_string_extractor_local.py:176-208 | an unreadable file, or a file with no entries, gives `None`; otherwise its non-empty list of entries |
| LanguageConfig.LoadLanguageConfig | export_apk_strings/apk_string_extractor_local.py:176-208 | the line loop computes `LoadedConfig` |
| LanguageConfig.SupportedLanguagesAsWritten | export_apk_strings/apk_string_extractor_local.py:152-159 | a non-empty command-line list wins; the constructor fails exactly when there is none and a configured file gives no list |
| LanguageConfig.MissingConfigAborts | export_apk_strings/apk_string_extractor_local.py:186-189 | a configured file that does not exist makes the constructor fail |
| LanguageConfig.CommentOnlyConfigAborts | export_apk_strings/apk_string_extractor_local.py:193-202 | so does a file holding only a comment line |
| LanguageConfig.SupportedLanguages | export_apk_strings/apk_string_extractor_local.py:152-159 | a non-empty command-line list wins; a chosen list is never empty; no list and no file give no allow-list |
| LanguageConfig.SupportedLanguagesAgree | export_apk_strings/apk_string_extractor_local.py:152-159 | whenever the constructor as written succeeds, it chooses the same allow-list; where it fails, the corrected one exports every locale |
| Aggregate.MergedMeaning | export_apk_strings/apk_string_extractor_local.py:285-288 | after one file is merged, the keys are the old keys plus the file's keys; the file's keys get the file's locale set to its text; every other key-locale entry is kept |
| Aggregate.StoreText | export_apk_strings/apk_string_extractor_local.py:286-288 | creates the key's map when it is missing, then sets the locale's text |
| Aggregate.MergeInto | export_apk_strings/apk_string_extractor_local.py:285-288 | the per-key loop computes the one-file merge, whatever order it visits the keys in |
| Aggregate.MergeAllKeys | export_apk_strings/apk_string_extractor_simple.py:284-293 | the result's keys are the union of the per-file key sets |
| Aggregate.LaterFileWins | export_apk_strings/apk_string_extractor_simple.py:284-293 | a key-locale entry holds the text from the last file of that locale that has the key |
| Aggregate.UnsuppliedKept | export_apk_strings/apk_string_extractor_simple.py:284-293 | a key-locale entry that no file supplies is unchanged |
| Aggregate.MergeAllNonEmpty | export_apk_strings/apk_string_extractor_simple.py:290-293 | every key of the merged table has at least one locale |
| Aggregate.MergeAllLocales | export_apk_strings/apk_string_extractor_simple.py:284-293 | every locale in the merged table is the locale of some file |
| Text.SortStrings | export_apk_strings/apk_string_extractor_local.py:720 | `sorted` of a set: strictly increasing in code-point order, with exactly the set's elements |
| Text.SortedUnique | export_apk_strings/apk_string_extractor_local.py:720 | two strictly sorted lists with the same elements are equal |
| Text.FilterKeeps | export_apk_strings/apk_string_extractor_local.py:715 | a list comprehension with a condition keeps an in-order sub-list with exactly the elements that pass, each as often as it occurs |
| Text.JoinSplit | export_apk_strings/apk_string_extractor_local.py:645 | joining the pieces of `split('\n')` with `\n` gives back the text |
| Text.SplitJoin | export_apk_strings/apk_string_extractor_local.py:645 | splitting a join of newline-free pieces gives back the pieces |
| Text.StripTrimmed | export_apk_strings/apk_string_extractor_local.py:493 | `strip()` is the identity on a text with no leading or trailing whitespace |
| Text.StripMeaning | export_apk_strings/apk_string_extractor_local.py:493 | `strip()` keeps a contiguous part of the text and drops only whitespace, from the two ends |
| Report.ProjectLanguages | export_apk_strings/apk_string_extractor_local.py:713-723 | with a non-empty allow-list, the columns are its detected entries in its order; otherwise every detected locale in sorted order, with `default` first when detected |
| Report.AllowListProjection | export_apk_strings/apk_string_extractor_local.py:715 | with an allow-list, the columns form an in-order sub-list of it, holding its detected entries and nothing else |
| Report.DefaultFirstSortedUnique | export_apk_strings/apk_string_extractor_local.py:720-723 | there is exactly one default-first sorted column list |
| Report.DefaultMovedFirst | export_apk_strings/apk_string_extractor_local.py:721-723 | moving `default` out of the sorted list to the front keeps the rest sorted and the elements the same |
| Report.CellText | export_apk_strings/apk_string_extractor_local.py:731 | a locale's cell is its text, or `""` when it has none |
| Report.Cells | export_apk_strings/apk_string_extractor_local.py:730-732 | one cell per column, in column order |
| Report.MissingCountMeaning | export_apk_strings/apk_string_extractor_local.py:729-737 | the missing count is at most the number of columns; it is 0 exactly when every column has text, and equals the number of columns exactly when none has |
| Report.MissingCountIsEmptyCells | export_apk_strings/apk_string_extractor_simple.py:330-338 | the missing count is the number of empty cells in the row |
| Report.BuildRow | export_apk_strings/apk_string_extractor_local.py:725-741 | the loop computes the row's cells and missing count; the anomaly cell joins the anomaly list with `、` |
| Report.FrameUnique | export_apk_strings/apk_string_extractor_local.py:725-751 | the table and the columns determine the exported table completely |
| Report.BuildFrame | export_apk_strings/apk_string_extractor_simple.py:327-348 | the leading columns and then the locales; one row per key, with rows strictly increasing by key; each row built from its key's translations |
| LocalExtractor.Aapt2ResultShape | export_apk_strings/apk_string_extractor_local.py:608-632 | the aapt2 step gives an empty table exactly when it detected no locale; stored maps are non-empty and hold only detected locales |
| LocalExtractor.XmlTableShape | export_apk_strings/apk_string_extractor_local.py:271-288 | the XML fallback's table holds only non-empty locale maps, each of whose locales was detected |
| LocalExtractor.ParseStringsXml | export_apk_strings/apk_string_extractor_local.py:367-412 | a tool run that raises gives `{}`, with no tree parse attempted; a run that exits 0 with strings gives those; otherwise the tree's string table, or `{}` without a tree; keys are non-empty and texts stripped |
| LocalExtractor.Extractor.constructor | export_apk_strings/apk_string_extractor_local.py:127-159 | starts with no locales and an empty table; the allow-list is the corrected choice |
| LocalExtractor.Extractor.ParseAapt2Line | export_apk_strings/apk_string_extractor_local.py:651-691 | one stripped line updates the parser's variables as the fold's step does, and adds the value line's locale to `languages` |
| LocalExtractor.Extractor.ParseAapt2ResourcesOutput | export_apk_strings/apk_string_extractor_local.py:634-697 | returns the fold's table and adds exactly the fold's locales to `languages`; nothing else changes |
| LocalExtractor.Extractor.ExtractStringsWithAapt2 | export_apk_strings/apk_string_extractor_local.py:608-632 | exit code 0 gives the parsed dump; any other exit code, or an exception, gives `{}` and detects nothing |
| LocalExtractor.MergeXmlFiles | export_apk_strings/apk_string_extractor_local.py:281-288 | the loop's table is the ordered merge of every file's strings under its locale, and the locales it collects are exactly the files' locales |
| LocalExtractor.Extractor.ExtractStringsFromXml | export_apk_strings/apk_string_extractor_local.py:271-288 | the result is the ordered merge of every file's strings under its locale; every file's locale is detected, even when it gave nothing |
| LocalExtractor.Extractor.ExtractAllStrings | export_apk_strings/apk_string_extractor_local.py:588-606 | a non-empty aapt2 table is used as is; otherwise the XML fallback runs, and fails with the state unchanged when the APK cannot be unpacked; every locale in the table was detected |
| LocalExtractor.Extractor.CreateDataFrame | export_apk_strings/apk_string_extractor_local.py:699-753 | fails exactly when the table is empty; otherwise the columns after `Key`, `缺失语言数` and `占位符异常` are the projected locales, and the rows are the table's rows; without an allow-list, every locale that appears in the table is an exported column |
| SimpleExtractor.SkippedFileLocaleKept | export_apk_strings/apk_string_extractor_simple.py:283-286 | a binary or unreadable file gives no strings, but its locale is still detected |
| SimpleExtractor.ParsedFileReadDirectly | export_apk_strings/apk_string_extractor_simple.py:152-156 | a text file that parses is read from the direct parse, not the cleaned retry |
| SimpleExtractor.ParseStringsXml | export_apk_strings/apk_string_extractor_simple.py:175-208 | no root gives `{}`; otherwise the root's string table; keys are non-empty and texts stripped |
| SimpleExtractor.XmlTableShape | export_apk_strings/apk_string_extractor_simple.py:281-293 | the merged table holds only non-empty locale maps, each of whose locales was detected |
| SimpleExtractor.Extractor.constructor | export_apk_strings/apk_string_extractor_simple.py:26-44 | starts with no locales, an empty table and the given allow-list |
| SimpleExtractor.MergeXmlFiles | export_apk_strings/apk_string_extractor_simple.py:284-293 | the loop's table is the ordered merge of every file's strings under its locale, and the locales it collects are exactly the files' locales |
| SimpleExtractor.Extractor.ExtractAllStrings | export_apk_strings/apk_string_extractor_simple.py:268-298 | fails with the state unchanged when the APK cannot be unpacked or holds no string file; otherwise the table is the ordered merge of every file's strings, and every file's locale is detected |
| SimpleExtractor.Extractor.CreateDataFrame | export_apk_strings/apk_string_extractor_simple.py:300-350 | fails exactly when the table is empty; otherwise the columns after `Key` and `缺失语言数` are the projected locales, and the rows are the table's rows; without an allow-list, every locale that appears in the table is an exported column |

## Left out

- Running `aapt` and `aapt2` (`verify_tools`, the `subprocess.run` calls) is not modelled. A run is given as its exit code and standard output, or as an exception. A timeout is one such exception.
- `LocalToolManager.dump_resources` and `extract_strings_with_aapt` are not part of this model. Nothing calls them, although the parser behind `dump_resources` (`_parse_aapt2_output`) is modelled.
- `_parse_aapt_strings_output` is not part of this model. Only `extract_strings_with_aapt` calls it. It discards every line it matches, so its only effect is the XML fallback.
- The package-name match in `_parse_aapt2_output` is not modelled, because its result is never used. A `Package` line changes nothing in the model.
- ZIP extraction (`extract_apk_with_aapt`, whose `RuntimeError` is the model's `Failure`), the temporary directory and the `glob` over `values*` directories in `find_string_files` are not modelled. The unpacked `strings.xml` files are given as a sequence in the order the file system lists them. `None` stands for an APK that cannot be unpacked, and the empty sequence for one with no `res/values*/strings.xml`.
- The XML parser and UTF-8 decoding (`ET.parse`, `ET.fromstring`, `decode(errors='ignore')`) are not modelled. The parsed tree, the decoded text and the parser applied to a cleaned text are inputs.
- The universal-newline splitting of `for line in f` in `load_language_config` is not modelled. The file is given as its lines, already split. An unreadable file is `None`.
- `\w` and `\d` are modelled for ASCII only. Python also matches non-ASCII letters and digits with them in resource names and placeholder digits. `\s` and `strip()` follow Python's `str.isspace`.
- pandas, openpyxl, CSV and Excel writing, `_print_summary` (floating-point percentages) and the printed messages are not modelled. `Report.BuildFrame` gives the exported table as columns and rows.
- A locale named like a leading column (`Key`, `缺失语言数` or `占位符异常`) would collide with that column in the row dictionary. The model keeps the columns apart.
- `main`, argument parsing, `check_requirements` and progress bars are not modelled.
- `LocalExtractor.Extractor.ExtractStringsFromXml` and `SimpleExtractor.Extractor.ExtractAllStrings` add the detected locales to `languages` once, after the loop, not file by file. Nothing reads `languages` during the loop, so the final state is the same.
- `Report.BuildFrame`: row order is given by key alone, so the order in which keys were inserted is not modelled. Keys are unique, so pandas' sort gives the same order.

## Findings

| source | as written | input that shows it | evidently intended | confidence | as-written member | corrected member |
|---|---|---|---|---|---|---|
| export_apk_strings/apk_string_extractor_local.py:157-159 | With no command-line list, the constructor stores what `load_language_config` returns and then prints `', '.join(...)` of it. That function returns `None` for a missing, empty or unreadable file, so the join raises `TypeError` and the run ends. | `lang_config` naming a file that does not exist, or a file holding only `# business locales`, with no `--languages` | the warnings printed by `load_language_config` (lines 187-189, 200-202) mean the run should continue without an allow-list and export every detected locale | not executed | LanguageConfig.SupportedLanguagesAsWritten, LanguageConfig.MissingConfigAborts, LanguageConfig.CommentOnlyConfigAborts | LanguageConfig.SupportedLanguages, LanguageConfig.SupportedLanguagesAgree |
