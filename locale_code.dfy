/**
 * Mapping a resource-qualifier directory name (`values`, `values-zh`, `values-en-rUS`) to the
 * locale tag used as a column name (`default`, `zh`, `en-US`).
 */
module LocaleCode {
  import opened Text

  predicate IsAsciiUpper(c: char) {
    'A' <= c <= 'Z'
  }

  /** Whether the region marker `-r` followed by two upper-case ASCII letters starts at `i`. */
  predicate RegionMarkerAt(s: string, i: int) {
    0 <= i && i + 4 <= |s| && s[i] == '-' && s[i + 1] == 'r' && IsAsciiUpper(s[i + 2]) && IsAsciiUpper(s[i + 3])
  }

  /** `re.sub(r'-r([A-Z]{2})', r'-\1', s)`: each marker, scanned from the left, loses its `r`. */
  function DropRegionMarkers(s: string): (r: string)
    ensures |r| <= |s|
    ensures s != [] ==> r != [] && r[0] == s[0]
    decreases |s|
  {
    if s == [] then []
    else if RegionMarkerAt(s, 0) then ['-', s[2], s[3]] + DropRegionMarkers(s[4..])
    else [s[0]] + DropRegionMarkers(s[1..])
  }

  /** A marker in the tail of `a + b` is a marker of `b`. */
  lemma MarkerShift(a: string, b: string, i: int)
    requires |a| <= i
    ensures RegionMarkerAt(a + b, i) <==> RegionMarkerAt(b, i - |a|)
  {
    if 0 <= i - |a| && i - |a| + 4 <= |b| {
      assert (a + b)[i..i + 4] == b[i - |a|..i - |a| + 4];
    }
  }

  /** Text without any marker passes through unchanged. */
  lemma {:induction false} DropRegionMarkersIdentity(s: string)
    requires forall i :: !RegionMarkerAt(s, i)
    ensures DropRegionMarkers(s) == s
    decreases |s|
  {
    if s != [] {
      forall i | 0 <= i ensures !RegionMarkerAt(s[1..], i) {
        MarkerShift(s[..1], s[1..], i + 1);
        assert s[..1] + s[1..] == s;
      }
      DropRegionMarkersIdentity(s[1..]);
    }
  }

  /** The first four characters are copied when no marker starts at 0 or 1 and `s[1]` is `r`. */
  lemma CopiedPrefix(s: string)
    requires |s| >= 4 && s[1] == 'r' && !RegionMarkerAt(s, 0)
    ensures DropRegionMarkers(s)[..2] == s[..2]
    ensures !RegionMarkerAt(s[2..], 0) ==> |DropRegionMarkers(s)| >= 4 && DropRegionMarkers(s)[..4] == s[..4]
    ensures RegionMarkerAt(s[2..], 0) ==> |DropRegionMarkers(s)| >= 3 && DropRegionMarkers(s)[2] == '-'
  {
    var t := DropRegionMarkers(s[1..]);
    var u := DropRegionMarkers(s[2..]);
    assert !RegionMarkerAt(s[1..], 0);
    assert t == [s[1]] + u;
    if !RegionMarkerAt(s[2..], 0) {
      var v := DropRegionMarkers(s[3..]);
      assert u == [s[2]] + v;
    }
  }

  /** After the rewrite no region marker is left, so a second rewrite changes nothing. */
  lemma {:induction false} NoRegionMarkerLeft(s: string)
    ensures forall i :: !RegionMarkerAt(DropRegionMarkers(s), i)
    decreases |s|
  {
    var r := DropRegionMarkers(s);
    if s == [] {
    } else if RegionMarkerAt(s, 0) {
      NoRegionMarkerLeft(s[4..]);
      var a := ['-', s[2], s[3]];
      assert r == a + DropRegionMarkers(s[4..]);
      forall i ensures !RegionMarkerAt(r, i) {
        if i >= 3 {
          MarkerShift(a, DropRegionMarkers(s[4..]), i);
        }
      }
    } else {
      NoRegionMarkerLeft(s[1..]);
      var a := [s[0]];
      assert r == a + DropRegionMarkers(s[1..]);
      forall i ensures !RegionMarkerAt(r, i) {
        if i >= 1 {
          MarkerShift(a, DropRegionMarkers(s[1..]), i);
        } else if |s| >= 4 && s[1] == 'r' {
          CopiedPrefix(s);
        }
      }
    }
  }

  /** `_extract_language_code`. */
  function ExtractLanguageCode(dirName: string): (code: string)
    ensures dirName == "values" ==> code == "default"
    ensures dirName != "values" ==> |code| <= |dirName|
  {
    if dirName == "values" then "default"
    else
      ReplaceAllShrinks(dirName, "values-", "");
      DropRegionMarkers(ReplaceAll(dirName, "values-", ""))
  }

  /**
   * A qualifier that does not itself contain `values-` loses only the prefix and its region
   * markers; without markers it comes back unchanged.
   */
  lemma QualifierCode(q: string)
    requires !Contains(q, "values-")
    ensures ExtractLanguageCode("values-" + q) == DropRegionMarkers(q)
    ensures (forall i :: !RegionMarkerAt(q, i)) ==> ExtractLanguageCode("values-" + q) == q
  {
    if forall i :: !RegionMarkerAt(q, i) {
      DropRegionMarkersIdentity(q);
    }
    var d := "values-" + q;
    assert StartsWith(d, "values-");
    assert d[7..] == q;
    assert ReplaceAll(d, "values-", "") == ReplaceAll(q, "values-", "");
  }

  /** No language code, whatever the directory name, still holds a `-r` followed by two capitals. */
  lemma LanguageCodeHasNoMarker(dirName: string)
    ensures forall i :: !RegionMarkerAt(ExtractLanguageCode(dirName), i)
  {
    if dirName != "values" {
      NoRegionMarkerLeft(ReplaceAll(dirName, "values-", ""));
    }
  }

  lemma LanguageCodeExamples()
    ensures ExtractLanguageCode("values") == "default"
    ensures ExtractLanguageCode("values-zh") == "zh"
  {
    NotContainsFirstChar("zh", "values-");
    QualifierCode("zh");
  }

  /**
   * A two-letter language with a region, `values-ll-rRR`, maps to the tag `ll-RR`: the prefix
   * goes and the region marker loses its `r`.
   */
  lemma RegionLanguageCode(lang: string, region: string)
    requires |lang| == 2 && lang[0] != '-' && lang[1] != '-' && 'v' !in lang
    requires |region| == 2 && IsAsciiUpper(region[0]) && IsAsciiUpper(region[1])
    ensures ExtractLanguageCode("values-" + lang + "-r" + region) == lang + "-" + region
  {
    var q := lang + "-r" + region;
    assert "values-" + lang + "-r" + region == "values-" + q;
    assert 'v' !in q by {
      assert q == [lang[0], lang[1], '-', 'r', region[0], region[1]];
    }
    NotContainsFirstChar(q, "values-");
    QualifierCode(q);
    RegionMarkerDropped(lang, region);
  }

  lemma RegionMarkerDropped(lang: string, region: string)
    requires |lang| == 2 && lang[0] != '-' && lang[1] != '-'
    requires |region| == 2 && IsAsciiUpper(region[0]) && IsAsciiUpper(region[1])
    ensures DropRegionMarkers(lang + "-r" + region) == lang + "-" + region
  {
    var q := lang + "-r" + region;
    assert q[2..] == "-r" + region && RegionMarkerAt(q[2..], 0);
    assert q[2..][4..] == [];
    assert DropRegionMarkers(q[2..]) == ['-', region[0], region[1]];
    assert !RegionMarkerAt(q[1..], 0) && q[1..][1..] == q[2..];
    assert !RegionMarkerAt(q, 0) && q[1..][0] == lang[1];
    assert DropRegionMarkers(q) == [lang[0], lang[1], '-', region[0], region[1]];
    assert lang + "-" + region == [lang[0], lang[1], '-', region[0], region[1]];
  }

  lemma RegionLanguageCodeExample()
    ensures ExtractLanguageCode("values-en-rUS") == "en-US"
  {
    RegionLanguageCode("en", "US");
    assert "values-" + "en" + "-r" + "US" == "values-en-rUS";
    assert "en" + "-" + "US" == "en-US";
  }
}
