/**
 * The table both extractors export: which locales become columns, and one row per string key
 * with its missing-locale count, (for the local extractor) its placeholder anomalies, and its
 * text in each exported locale, rows ordered by key.
 */
module Report {
  import opened Wrappers
  import opened Text
  import opened Placeholders
  import opened Aggregate

  // ---------------------------------------------------------------------------------------------
  // Exported locales

  /** `sorted(languages)` with `"default"`, when detected, moved to the front. */
  ghost predicate DefaultFirstSorted(detected: set<string>, langs: seq<string>) {
    && (forall x :: x in langs <==> x in detected)
    && |langs| == |detected|
    && if "default" in detected then langs != [] && langs[0] == "default" && "default" !in langs[1..] && StrictlySorted(langs[1..])
       else StrictlySorted(langs)
  }

  /** Whether the allow-list is used: it is given and not empty. */
  predicate HasAllowList(supported: Option<seq<string>>) {
    supported.Some? && supported.value != []
  }

  predicate IsDetectedIn(detected: set<string>, lang: string) {
    lang in detected
  }

  /**
   * The exported locales: with an allow-list, its detected entries in allow-list order (and
   * with its repetitions); otherwise every detected locale, sorted, `"default"` first.
   */
  ghost predicate IsProjection(supported: Option<seq<string>>, detected: set<string>, langs: seq<string>) {
    if HasAllowList(supported) then langs == Filter(supported.value, lang => IsDetectedIn(detected, lang))
    else DefaultFirstSorted(detected, langs)
  }

  /** With an allow-list, the columns are its entries that were detected, kept in its order. */
  lemma AllowListProjection(supported: seq<string>, detected: set<string>, langs: seq<string>)
    requires supported != [] && IsProjection(Some(supported), detected, langs)
    ensures Subsequence(langs, supported)
    ensures forall x :: multiset(langs)[x] == if x in detected then multiset(supported)[x] else 0
    ensures forall x :: x in langs <==> x in supported && x in detected
  {
    FilterKeeps(supported, lang => IsDetectedIn(detected, lang));
    forall x ensures x in langs <==> x in supported && x in detected {
      assert x in langs <==> multiset(langs)[x] > 0;
      assert x in supported <==> multiset(supported)[x] > 0;
    }
  }

  /** There is exactly one sorted, default-first list of the detected locales. */
  lemma DefaultFirstSortedUnique(detected: set<string>, a: seq<string>, b: seq<string>)
    requires DefaultFirstSorted(detected, a) && DefaultFirstSorted(detected, b)
    ensures a == b
  {
    if "default" in detected {
      forall x ensures x in a[1..] <==> x in b[1..] {
        assert x in a <==> x == a[0] || x in a[1..];
        assert x in b <==> x == b[0] || x in b[1..];
      }
      SortedUnique(a[1..], b[1..]);
      assert a == [a[0]] + a[1..] && b == [b[0]] + b[1..];
    } else {
      SortedUnique(a, b);
    }
  }

  /** `create_dataframe`'s choice of locale columns. */
  method ProjectLanguages(supported: Option<seq<string>>, detected: set<string>) returns (langs: seq<string>)
    ensures IsProjection(supported, detected, langs)
  {
    if HasAllowList(supported) {
      langs := [];
      var i := 0;
      while i < |supported.value|
        invariant 0 <= i <= |supported.value|
        invariant langs == Filter(supported.value[..i], lang => IsDetectedIn(detected, lang))
      {
        FilterSnoc(supported.value[..i], supported.value[i], lang => IsDetectedIn(detected, lang));
        assert supported.value[..i + 1] == supported.value[..i] + [supported.value[i]];
        if supported.value[i] in detected {
          langs := langs + [supported.value[i]];
        }
        i := i + 1;
      }
      assert supported.value[..i] == supported.value;
    } else {
      var sorted := SortStrings(detected);
      if "default" in sorted {
        var i :| 0 <= i < |sorted| && sorted[i] == "default";
        langs := ["default"] + sorted[..i] + sorted[i + 1..];
        DefaultMovedFirst(detected, sorted, i);
      } else {
        langs := sorted;
      }
    }
  }

  /** Moving `"default"` out of a sorted list to the front leaves the rest sorted. */
  lemma DefaultMovedFirst(detected: set<string>, sorted: seq<string>, i: nat)
    requires StrictlySorted(sorted) && (forall x :: x in sorted <==> x in detected) && |sorted| == |detected|
    requires i < |sorted| && sorted[i] == "default"
    ensures DefaultFirstSorted(detected, ["default"] + sorted[..i] + sorted[i + 1..])
  {
    var rest := sorted[..i] + sorted[i + 1..];
    var langs := ["default"] + rest;
    assert ["default"] + sorted[..i] + sorted[i + 1..] == langs;
    RemovedAtSorted(sorted, i);
    assert langs[1..] == rest;
    forall x ensures x in langs <==> x in detected {
      assert x in langs <==> x == "default" || x in rest;
    }
  }

  /** Removing one entry of a strictly sorted list keeps it strictly sorted and drops only that entry. */
  lemma RemovedAtSorted(sorted: seq<string>, i: nat)
    requires StrictlySorted(sorted) && i < |sorted|
    ensures StrictlySorted(sorted[..i] + sorted[i + 1..])
    ensures sorted[i] !in sorted[..i] + sorted[i + 1..]
    ensures forall x :: x in sorted <==> x == sorted[i] || x in sorted[..i] + sorted[i + 1..]
  {
    var rest := sorted[..i] + sorted[i + 1..];
    forall k | 0 <= k < |rest|
      ensures rest[k] == sorted[if k < i then k else k + 1]
    {
    }
    forall p, q | 0 <= p < q < |rest|
      ensures LexLess(rest[p], rest[q])
    {
      assert rest[p] == sorted[if p < i then p else p + 1];
      assert rest[q] == sorted[if q < i then q else q + 1];
    }
    forall k | 0 <= k < |rest|
      ensures rest[k] != sorted[i]
    {
      var k' := if k < i then k else k + 1;
      assert rest[k] == sorted[k'];
      LexLessIrreflexive(sorted[i]);
      if k' < i {
        assert LexLess(sorted[k'], sorted[i]);
      } else {
        assert LexLess(sorted[i], sorted[k']);
      }
    }
    forall x | x in sorted
      ensures x == sorted[i] || x in rest
    {
      var k :| 0 <= k < |sorted| && sorted[k] == x;
      if k < i {
        assert rest[k] == x;
      } else if k > i {
        assert rest[k - 1] == x;
      }
    }
    forall x | x in rest
      ensures x in sorted
    {
      var k :| 0 <= k < |rest| && rest[k] == x;
      assert rest[k] == sorted[if k < i then k else k + 1];
    }
  }

  // ---------------------------------------------------------------------------------------------
  // Rows

  /** The text shown for a locale: the stored one, or empty when absent. */
  function CellText(translations: map<string, string>, lang: string): (t: string)
    ensures lang !in translations ==> t == []
    ensures lang in translations ==> t == translations[lang]
  {
    GetOr(translations, lang, "")
  }

  /** The row's text columns, one per exported locale. */
  function Cells(translations: map<string, string>, langs: seq<string>): (r: seq<string>)
    ensures |r| == |langs|
    ensures forall k :: 0 <= k < |r| ==> r[k] == CellText(translations, langs[k])
  {
    if langs == [] then []
    else Cells(translations, langs[..|langs| - 1]) + [CellText(translations, langs[|langs| - 1])]
  }

  /** How many exported locales have no text, or an empty one, for this key. */
  function MissingCount(translations: map<string, string>, langs: seq<string>): nat {
    if langs == [] then 0
    else
      MissingCount(translations, langs[..|langs| - 1])
      + (if CellText(translations, langs[|langs| - 1]) == [] then 1 else 0)
  }

  /**
   * The count is at most the number of columns; it is zero exactly when every column has text,
   * and equal to the number of columns exactly when none has.
   */
  lemma {:induction false} MissingCountMeaning(translations: map<string, string>, langs: seq<string>)
    ensures MissingCount(translations, langs) <= |langs|
    ensures MissingCount(translations, langs) == 0 <==> forall k :: 0 <= k < |langs| ==> CellText(translations, langs[k]) != []
    ensures MissingCount(translations, langs) == |langs| <==> forall k :: 0 <= k < |langs| ==> CellText(translations, langs[k]) == []
  {
    if langs != [] {
      var init := langs[..|langs| - 1];
      MissingCountMeaning(translations, init);
      assert forall k :: 0 <= k < |init| ==> init[k] == langs[k];
    }
  }

  /** The count is the number of empty cells in the row. */
  lemma {:induction false} MissingCountIsEmptyCells(translations: map<string, string>, langs: seq<string>)
    ensures MissingCount(translations, langs) == multiset(Cells(translations, langs))[[]]
  {
    if langs != [] {
      MissingCountIsEmptyCells(translations, langs[..|langs| - 1]);
    }
  }

  /** One exported row. `anomalies` is `None` for the table without that column. */
  datatype Row = Row(key: string, missing: nat, anomalies: Option<string>, cells: seq<string>)

  /** The row `create_dataframe` builds for a key. */
  function RowFor(key: string, translations: map<string, string>, langs: seq<string>, withAnomalies: bool): Row {
    Row(key, MissingCount(translations, langs),
        if withAnomalies then Some(Join(GetPlaceholderAnomalyLanguages(translations, langs), "、")) else None,
        Cells(translations, langs))
  }

  /** The per-key part of `create_dataframe`: one pass over the locales fills the cells and counts. */
  method BuildRow(key: string, translations: map<string, string>, langs: seq<string>, withAnomalies: bool) returns (row: Row)
    ensures row == RowFor(key, translations, langs, withAnomalies)
  {
    var cells: seq<string> := [];
    var missing := 0;
    var i := 0;
    while i < |langs|
      invariant 0 <= i <= |langs|
      invariant cells == Cells(translations, langs[..i])
      invariant missing == MissingCount(translations, langs[..i])
    {
      assert langs[..i + 1][..i] == langs[..i];
      var translation := GetOr(translations, langs[i], "");
      cells := cells + [translation];
      if translation == [] {
        missing := missing + 1;
      }
      i := i + 1;
    }
    assert langs[..i] == langs;
    var anomalies := if withAnomalies then Some(Join(GetPlaceholderAnomalyLanguages(translations, langs), "、")) else None;
    row := Row(key, missing, anomalies, cells);
  }

  /** The exported table: its column titles and its rows. */
  datatype Frame = Frame(columns: seq<string>, rows: seq<Row>)

  /** The fixed leading column titles: key, missing count, and optionally the anomaly list. */
  function LeadingColumns(withAnomalies: bool): seq<string> {
    if withAnomalies then ["Key", "缺失语言数", "占位符异常"] else ["Key", "缺失语言数"]
  }

  function RowKeys(rows: seq<Row>): (r: seq<string>)
    ensures |r| == |rows|
    ensures forall k :: 0 <= k < |r| ==> r[k] == rows[k].key
  {
    if rows == [] then [] else RowKeys(rows[..|rows| - 1]) + [rows[|rows| - 1].key]
  }

  /** The row is the one `create_dataframe` builds for its key. */
  ghost predicate RowOfKey(data: Table, langs: seq<string>, withAnomalies: bool, row: Row) {
    row.key in data && row == RowFor(row.key, data[row.key], langs, withAnomalies)
  }

  /**
   * The exported table for `data` over the locales `langs`: the leading columns and then one
   * column per locale; one row per key, ordered by key, each built from that key's translations.
   */
  ghost predicate FrameOf(data: Table, langs: seq<string>, withAnomalies: bool, frame: Frame) {
    && frame.columns == LeadingColumns(withAnomalies) + langs
    && |frame.rows| == |data|
    && StrictlySorted(RowKeys(frame.rows))
    && (forall k :: k in RowKeys(frame.rows) <==> k in data)
    && (forall i :: 0 <= i < |frame.rows| ==> RowOfKey(data, langs, withAnomalies, frame.rows[i]))
  }

  /** The data and the locales determine the exported table completely. */
  lemma FrameUnique(data: Table, langs: seq<string>, withAnomalies: bool, f1: Frame, f2: Frame)
    requires FrameOf(data, langs, withAnomalies, f1) && FrameOf(data, langs, withAnomalies, f2)
    ensures f1 == f2
  {
    var k1, k2 := RowKeys(f1.rows), RowKeys(f2.rows);
    forall x ensures x in k1 <==> x in k2 {
      assert x in k1 <==> x in data;
    }
    SortedUnique(k1, k2);
    forall i | 0 <= i < |f1.rows|
      ensures f1.rows[i] == f2.rows[i]
    {
      assert f1.rows[i].key == k1[i] == k2[i] == f2.rows[i].key;
      assert RowOfKey(data, langs, withAnomalies, f1.rows[i]);
      assert RowOfKey(data, langs, withAnomalies, f2.rows[i]);
    }
  }

  /** The row-building and sorting part of `create_dataframe`. */
  method BuildFrame(data: Table, langs: seq<string>, withAnomalies: bool) returns (frame: Frame)
    ensures FrameOf(data, langs, withAnomalies, frame)
  {
    var keys := SortStrings(data.Keys);
    var rows: seq<Row> := [];
    var i := 0;
    while i < |keys|
      invariant 0 <= i <= |keys|
      invariant RowKeys(rows) == keys[..i]
      invariant forall j :: 0 <= j < i ==> RowOfKey(data, langs, withAnomalies, rows[j])
    {
      var row := BuildRow(keys[i], data[keys[i]], langs, withAnomalies);
      assert RowOfKey(data, langs, withAnomalies, row);
      rows := rows + [row];
      assert rows[..i] == rows[..|rows| - 1];
      i := i + 1;
    }
    assert keys[..i] == keys;
    frame := Frame(LeadingColumns(withAnomalies) + langs, rows);
    assert |keys| == |data.Keys| == |data|;
  }
}
