/**
 * The resource table `key -> locale -> text` and how the per-file string maps are merged into
 * it: each file's strings land under the file's locale, and a later file overwrites an earlier
 * one for the same key and locale.
 */
module Aggregate {
  import opened Wrappers

  /** `strings_data`: for each string key, the text of each locale that has it. */
  type Table = map<string, map<string, string>>

  /**
   * The table after one file's strings were stored under `lang`. The keys are those of the
   * table and of the file; the file's keys get `lang` set to the file's text, every other
   * entry is kept.
   */
  function Merged(all: Table, lang: string, strings: map<string, string>): Table {
    map k | k in all.Keys + strings.Keys :: if k in strings then GetOr(all, k, map[])[lang := strings[k]] else all[k]
  }

  /**
   * After one file is merged, the keys are those of the table and of the file; the file's keys
   * have `lang` set to the file's text; every other entry is kept.
   */
  lemma MergedMeaning(all: Table, lang: string, strings: map<string, string>)
    ensures Merged(all, lang, strings).Keys == all.Keys + strings.Keys
    ensures forall k :: k in strings ==> lang in Merged(all, lang, strings)[k] && Merged(all, lang, strings)[k][lang] == strings[k]
    ensures forall k, l :: k in Merged(all, lang, strings) && (l != lang || k !in strings) ==>
      (l in Merged(all, lang, strings)[k] <==> k in all && l in all[k])
      && (l in Merged(all, lang, strings)[k] ==> Merged(all, lang, strings)[k][l] == all[k][l])
  {
  }

  /** `all[key][lang] = value`, creating the key's map first when it is missing. */
  method StoreText(all: Table, key: string, lang: string, value: string) returns (r: Table)
    ensures r == all[key := GetOr(all, key, map[])[lang := value]]
  {
    r := all;
    if key !in r {
      r := r[key := map[]];
    }
    r := r[key := r[key][lang := value]];
  }

  /** The merge loop of `_extract_strings_from_xml` and `extract_all_strings`, one key at a time. */
  method MergeInto(all: Table, lang: string, strings: map<string, string>) returns (r: Table)
    ensures r == Merged(all, lang, strings)
  {
    r := all;
    var remaining := strings.Keys;
    ghost var done: map<string, string> := map[];
    assert Merged(all, lang, map[]) == all;
    while remaining != {}
      invariant done.Keys !! remaining && done.Keys + remaining == strings.Keys
      invariant forall j :: j in done ==> done[j] == strings[j]
      invariant r == Merged(all, lang, done)
    {
      var k :| k in remaining;
      MergedStep(all, lang, done, k, strings[k]);
      r := StoreText(r, k, lang, strings[k]);
      done := done[k := strings[k]];
      remaining := remaining - {k};
    }
    assert done == strings;
  }

  /** Storing one more key on top of a merge is the merge of the larger map. */
  lemma MergedStep(all: Table, lang: string, done: map<string, string>, k: string, v: string)
    requires k !in done
    ensures Merged(all, lang, done[k := v]) ==
      var before := Merged(all, lang, done);
      before[k := GetOr(before, k, map[])[lang := v]]
  {
    var before := Merged(all, lang, done);
    var lhs := Merged(all, lang, done[k := v]);
    var rhs := before[k := GetOr(before, k, map[])[lang := v]];
    assert lhs.Keys == rhs.Keys;
    forall j | j in lhs
      ensures lhs[j] == rhs[j]
    {
      if j == k {
        assert GetOr(before, k, map[]) == GetOr(all, k, map[]);
      }
    }
  }

  /** The table after storing each `(locale, strings)` pair in order. */
  function MergeAll(all: Table, files: seq<(string, map<string, string>)>): Table {
    if files == [] then all
    else
      var last := files[|files| - 1];
      Merged(MergeAll(all, files[..|files| - 1]), last.0, last.1)
  }

  /** The merged keys are the starting keys together with every file's keys. */
  lemma {:induction false} MergeAllKeys(all: Table, files: seq<(string, map<string, string>)>, k: string)
    ensures k in MergeAll(all, files) <==> k in all || exists i :: 0 <= i < |files| && k in files[i].1
  {
    if files != [] {
      var init := files[..|files| - 1];
      MergeAllKeys(all, init, k);
      if exists i :: 0 <= i < |init| && k in init[i].1 {
        var i :| 0 <= i < |init| && k in init[i].1;
        assert files[i] == init[i];
      }
      if exists i :: 0 <= i < |files| && k in files[i].1 {
        var i :| 0 <= i < |files| && k in files[i].1;
        if i < |init| {
          assert init[i] == files[i];
        }
      }
    }
  }

  /**
   * The text of key `k` in locale `files[i].0` is the one from file `i` when no later file of
   * the same locale has that key: a later file overwrites an earlier one.
   */
  lemma {:induction false} LaterFileWins(all: Table, files: seq<(string, map<string, string>)>, i: nat, k: string)
    requires i < |files| && k in files[i].1
    requires forall j :: i < j < |files| ==> !(files[j].0 == files[i].0 && k in files[j].1)
    ensures k in MergeAll(all, files) && files[i].0 in MergeAll(all, files)[k]
    ensures MergeAll(all, files)[k][files[i].0] == files[i].1[k]
  {
    var init := files[..|files| - 1];
    if i < |files| - 1 {
      assert init[i] == files[i];
      forall j | i < j < |init|
        ensures !(init[j].0 == init[i].0 && k in init[j].1)
      {
        assert init[j] == files[j];
      }
      LaterFileWins(all, init, i, k);
    }
  }

  /** A key and locale that no file supplies keeps its starting text, or stays absent. */
  lemma {:induction false} UnsuppliedKept(all: Table, files: seq<(string, map<string, string>)>, k: string, lang: string)
    requires forall j :: 0 <= j < |files| ==> !(files[j].0 == lang && k in files[j].1)
    ensures (k in MergeAll(all, files) && lang in MergeAll(all, files)[k]) <==> (k in all && lang in all[k])
    ensures k in all && lang in all[k] ==> MergeAll(all, files)[k][lang] == all[k][lang]
  {
    if files != [] {
      var init := files[..|files| - 1];
      forall j | 0 <= j < |init|
        ensures !(init[j].0 == lang && k in init[j].1)
      {
        assert init[j] == files[j];
      }
      UnsuppliedKept(all, init, k, lang);
    }
  }

  /** Every key of a merged table has at least one locale, if every starting key has. */
  lemma {:induction false} MergeAllNonEmpty(all: Table, files: seq<(string, map<string, string>)>)
    requires forall k :: k in all ==> all[k] != map[]
    ensures forall k :: k in MergeAll(all, files) ==> MergeAll(all, files)[k] != map[]
  {
    if files != [] {
      var init := files[..|files| - 1];
      MergeAllNonEmpty(all, init);
      var m := MergeAll(all, init);
      var last := files[|files| - 1];
      forall k | k in Merged(m, last.0, last.1)
        ensures Merged(m, last.0, last.1)[k] != map[]
      {
        if k in last.1 {
          assert last.0 in Merged(m, last.0, last.1)[k];
        } else {
          var l :| l in m[k];
          assert l in Merged(m, last.0, last.1)[k];
        }
      }
    }
  }

  /** Every locale of a merged entry was already there or is the locale of some file. */
  lemma {:induction false} MergeAllLocales(all: Table, files: seq<(string, map<string, string>)>, k: string, l: string)
    requires k in MergeAll(all, files) && l in MergeAll(all, files)[k]
    ensures (k in all && l in all[k]) || exists i :: 0 <= i < |files| && files[i].0 == l
  {
    if files != [] {
      var init := files[..|files| - 1];
      var m := MergeAll(all, init);
      var last := files[|files| - 1];
      MergedMeaning(m, last.0, last.1);
      if l != last.0 || k !in last.1 {
        MergeAllLocales(all, init, k, l);
        if exists i :: 0 <= i < |init| && init[i].0 == l {
          var i :| 0 <= i < |init| && init[i].0 == l;
          assert files[i] == init[i];
        }
      }
    }
  }
}
