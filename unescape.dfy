/**
 * `_unescape_xml`: a fixed chain of Python `str.replace` calls, markup entities first and
 * Android escapes second, followed by `strip()`.
 */
module Unescape {
  import opened Text

  /** The five entity replacements, in the order the code applies them. */
  function DecodeEntities(t: string): string {
    var t1 := ReplaceAll(t, "&lt;", "<");
    var t2 := ReplaceAll(t1, "&gt;", ">");
    var t3 := ReplaceAll(t2, "&amp;", "&");
    var t4 := ReplaceAll(t3, "&quot;", "\"");
    ReplaceAll(t4, "&apos;", "'")
  }

  /** The five backslash replacements, in the order the code applies them. */
  function DecodeAndroidEscapes(t: string): string {
    var t1 := ReplaceAll(t, "\\\"", "\"");
    var t2 := ReplaceAll(t1, "\\'", "'");
    var t3 := ReplaceAll(t2, "\\n", "\n");
    var t4 := ReplaceAll(t3, "\\t", "\t");
    ReplaceAll(t4, "\\\\", "\\")
  }

  /** `_unescape_xml`: empty input gives the empty string, and the result is always trimmed. */
  function UnescapeXml(text: string): (r: string)
    ensures text == [] ==> r == []
    ensures Trimmed(r)
  {
    if text == [] then [] else Strip(DecodeAndroidEscapes(DecodeEntities(text)))
  }

  /** Without `&` there is no entity to decode. */
  lemma EntitiesNeedAmpersand(t: string)
    requires '&' !in t
    ensures DecodeEntities(t) == t
  {
    NotContainsFirstChar(t, "&lt;");
    NotContainsFirstChar(t, "&gt;");
    NotContainsFirstChar(t, "&amp;");
    NotContainsFirstChar(t, "&quot;");
    NotContainsFirstChar(t, "&apos;");
  }

  /** Without a backslash there is no Android escape to decode. */
  lemma EscapesNeedBackslash(t: string)
    requires '\\' !in t
    ensures DecodeAndroidEscapes(t) == t
  {
    NotContainsFirstChar(t, "\\\"");
    NotContainsFirstChar(t, "\\'");
    NotContainsFirstChar(t, "\\n");
    NotContainsFirstChar(t, "\\t");
    NotContainsFirstChar(t, "\\\\");
  }

  /** Text without `&` and without a backslash is only trimmed. */
  lemma UnescapePlainText(text: string)
    requires '&' !in text && '\\' !in text
    ensures UnescapeXml(text) == Strip(text)
  {
    EntitiesNeedAmpersand(text);
    EscapesNeedBackslash(text);
  }

  /** An escaped backslash `\\` becomes a single backslash. */
  lemma DoubleBackslashCollapses()
    ensures UnescapeXml("a \\\\ b") == "a \\ b"
  {
    EntitiesNeedAmpersand("a \\\\ b");
    DoubleBackslashEscapes();
    StripTrimmed("a \\ b");
  }

  lemma DoubleBackslashEscapes()
    ensures DecodeAndroidEscapes("a \\\\ b") == "a \\ b"
  {
    var s := "a \\\\ b";
    NotContainsPair(s, "\\\"");
    NotContainsPair(s, "\\'");
    NotContainsPair(s, "\\n");
    NotContainsPair(s, "\\t");
    CollapseStep();
  }

  lemma CollapseStep()
    ensures ReplaceAll("a \\\\ b", "\\\\", "\\") == "a \\ b"
  {
    var s := "a \\\\ b";
    assert s[2..] == "\\\\ b" && s[4..] == " b";
    NotContainsFirstChar(" b", "\\\\");
    assert ReplaceAll(s[2..], "\\\\", "\\") == "\\ b";
  }

  /** The two characters backslash and `n` become a line break. */
  lemma BackslashNIsNewline()
    ensures UnescapeXml("a \\n b") == "a \n b"
  {
    EntitiesNeedAmpersand("a \\n b");
    BackslashNEscapes();
    StripTrimmed("a \n b");
  }

  lemma BackslashNEscapes()
    ensures DecodeAndroidEscapes("a \\n b") == "a \n b"
  {
    var s := "a \\n b";
    NotContainsPair(s, "\\\"");
    NotContainsPair(s, "\\'");
    NewlineStep();
    NotContainsFirstChar("a \n b", "\\t");
    NotContainsFirstChar("a \n b", "\\\\");
  }

  lemma NewlineStep()
    ensures ReplaceAll("a \\n b", "\\n", "\n") == "a \n b"
  {
    var s := "a \\n b";
    assert s[2..] == "\\n b" && s[4..] == " b";
    NotContainsFirstChar(" b", "\\n");
    assert ReplaceAll(s[2..], "\\n", "\n") == "\n b";
  }

  /**
   * The `\n` replacement runs before the `\\` one, so an escaped backslash followed by `n`
   * (three characters) ends up as a backslash and a line break.
   */
  lemma EscapedBackslashBeforeN()
    ensures UnescapeXml("a\\\\nb") == "a\\\nb"
  {
    EntitiesNeedAmpersand("a\\\\nb");
    EscapedBackslashEscapes();
    StripTrimmed("a\\\nb");
  }

  lemma EscapedBackslashEscapes()
    ensures DecodeAndroidEscapes("a\\\\nb") == "a\\\nb"
  {
    var s := "a\\\\nb";
    NotContainsPair(s, "\\\"");
    NotContainsPair(s, "\\'");
    BackslashNStep();
    var t := "a\\\nb";
    NotContainsPair(t, "\\t");
    NotContainsPair(t, "\\\\");
  }

  lemma BackslashNStep()
    ensures ReplaceAll("a\\\\nb", "\\n", "\n") == "a\\\nb"
  {
    var s := "a\\\\nb";
    assert s[1..] == "\\\\nb" && s[2..] == "\\nb" && s[4..] == "b";
    NotContainsFirstChar("b", "\\n");
    assert ReplaceAll(s[2..], "\\n", "\n") == "\nb";
    assert s[1..][..2] != "\\n" by { assert s[1..][..2][1] == '\\'; }
    assert ReplaceAll(s[1..], "\\n", "\n") == "\\\nb";
  }

  /** `&amp;lt;` is decoded once, to `&lt;`: `&lt;` is replaced before `&amp;`. */
  lemma AmpersandDecodedOnce()
    ensures UnescapeXml("&amp;lt;") == "&lt;"
  {
    AmpLtEntities();
    LtIsInert();
  }

  lemma AmpLtEntities()
    ensures DecodeEntities("&amp;lt;") == "&lt;"
  {
    AmpLtKeepsLtGt();
    AmpLtDropsAmp();
    LtKeepsQuotApos();
  }

  lemma AmpLtKeepsLtGt()
    ensures ReplaceAll("&amp;lt;", "&lt;", "<") == "&amp;lt;"
    ensures ReplaceAll("&amp;lt;", "&gt;", ">") == "&amp;lt;"
  {
    var s := "&amp;lt;";
    assert s[..4][1] == 'a';
    NotContainsFirstChar(s[1..], "&lt;");
    NotContainsFirstChar(s[1..], "&gt;");
  }

  lemma AmpLtDropsAmp()
    ensures ReplaceAll("&amp;lt;", "&amp;", "&") == "&lt;"
  {
    var s := "&amp;lt;";
    assert StartsWith(s, "&amp;");
    assert s[5..] == "lt;";
    NotContainsFirstChar("lt;", "&amp;");
  }

  lemma LtKeepsQuotApos()
    ensures ReplaceAll("&lt;", "&quot;", "\"") == "&lt;"
    ensures ReplaceAll("&lt;", "&apos;", "'") == "&lt;"
  {
    NotContainsFirstChar("&lt;"[1..], "&quot;");
    NotContainsFirstChar("&lt;"[1..], "&apos;");
  }

  /** `&lt;` contains no backslash and no whitespace, so the rest of the chain keeps it. */
  lemma LtIsInert()
    ensures DecodeAndroidEscapes("&lt;") == "&lt;"
    ensures Strip("&lt;") == "&lt;"
  {
    var s := "&lt;";
    NotContainsFirstChar(s, "\\\"");
    NotContainsFirstChar(s, "\\'");
    NotContainsFirstChar(s, "\\n");
    NotContainsFirstChar(s, "\\t");
    NotContainsFirstChar(s, "\\\\");
    StripTrimmed(s);
  }
}
