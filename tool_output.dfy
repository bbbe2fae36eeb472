/**
 * Parsers for the text that the Android build tools print: `aapt2 dump resources`,
 * `aapt dump xmltree`, and the resource-name scan of the tool manager. Each works line by line
 * over the tool's standard output split at `\n`; the regular expressions they use are written out
 * as matchers at one position plus a leftmost search.
 */
module ToolOutput {
  import opened Wrappers
  import opened Text
  import opened Unescape

  /** The first position at or after `p` where the matcher `m` succeeds, with its group. */
  function FindFirst(s: string, m: (string, nat) -> Option<string>, p: nat): (r: Option<(nat, string)>)
    ensures r.Some? ==> p <= r.value.0 <= |s| && m(s, r.value.0) == Some(r.value.1)
    ensures forall q :: p <= q <= |s| && (r.None? || q < r.value.0) ==> m(s, q).None?
    decreases |s| + 1 - p
  {
    if p > |s| then None
    else match m(s, p)
      case Some(g) => Some((p, g))
      case None => FindFirst(s, m, p + 1)
  }

  /** `re.search`: the group of the leftmost match, if any. */
  function Search(s: string, m: (string, nat) -> Option<string>): (r: Option<string>)
    ensures r.None? <==> forall q :: 0 <= q <= |s| ==> m(s, q).None?
    ensures r.Some? ==> exists q :: 0 <= q <= |s| && m(s, q) == r
  {
    match FindFirst(s, m, 0)
    case Some((_, g)) => Some(g)
    case None => None
  }

  predicate NotQuote(c: char) {
    c != '"'
  }

  predicate NotSpace(c: char) {
    !IsSpace(c)
  }

  /** The word characters of `\w`, restricted to ASCII. */
  predicate IsWordChar(c: char) {
    ('a' <= c <= 'z') || ('A' <= c <= 'Z') || ('0' <= c <= '9') || c == '_'
  }

  /** `string/([^\s]+)` at position `p`. */
  function SlashNameAt(s: string, p: nat): (r: Option<string>)
    ensures r.Some? ==> r.value != [] && forall k :: 0 <= k < |r.value| ==> !IsSpace(r.value[k])
  {
    if p + 7 <= |s| && s[p..p + 7] == "string/" then
      var j := RunEnd(s, p + 7, NotSpace);
      if j > p + 7 then Some(s[p + 7..j]) else None
    else None
  }

  /** `name="([^"]+)"` at position `p`. */
  function NameAttrAt(s: string, p: nat): (r: Option<string>)
    ensures r.Some? ==> r.value != [] && '"' !in r.value
  {
    if p + 6 <= |s| && s[p..p + 6] == "name=\"" then
      var j := RunEnd(s, p + 6, NotQuote);
      if j > p + 6 && j < |s| then Some(s[p + 6..j]) else None
    else None
  }

  /** `T: "([^"]*)"` at position `p`. */
  function TextAt(s: string, p: nat): (r: Option<string>)
    ensures r.Some? ==> '"' !in r.value
  {
    if p + 4 <= |s| && s[p..p + 4] == "T: \"" then
      var j := RunEnd(s, p + 4, NotQuote);
      if j < |s| then Some(s[p + 4..j]) else None
    else None
  }

  /** `resource\s+\w+:string/(\w+)` at position `p`. */
  function ResourceNameAt(s: string, p: nat): (r: Option<string>)
    ensures r.Some? ==> r.value != [] && forall k :: 0 <= k < |r.value| ==> IsWordChar(r.value[k])
  {
    if p + 8 <= |s| && s[p..p + 8] == "resource" then
      var i := RunEnd(s, p + 8, IsSpace);
      var j := RunEnd(s, i, IsWordChar);
      if i > p + 8 && j > i && j + 8 <= |s| && s[j..j + 8] == ":string/" then
        var k := RunEnd(s, j + 8, IsWordChar);
        if k > j + 8 then Some(s[j + 8..k]) else None
      else None
    else None
  }

  predicate NotCloseParen(c: char) {
    c != ')'
  }

  /** `re.match(r'\s*\(([^)]*)\)\s*"([^"]*)"', line)`: the locale and the value. */
  function LocaleValue(s: string): (r: Option<(string, string)>)
    ensures r.Some? ==> ')' !in r.value.0 && '"' !in r.value.1
    ensures r.Some? ==> '"' in s
  {
    var a := RunEnd(s, 0, IsSpace);
    if a < |s| && s[a] == '(' then
      var b := RunEnd(s, a + 1, NotCloseParen);
      if b < |s| then
        var c := RunEnd(s, b + 1, IsSpace);
        if c < |s| && s[c] == '"' then
          var d := RunEnd(s, c + 1, NotQuote);
          if d < |s| then Some((s[a + 1..b], s[c + 1..d])) else None
        else None
      else None
    else None
  }

  // ---------------------------------------------------------------------------------------------
  // `aapt2 dump resources`

  /**
   * The parser's variables: whether it is inside the `type string` section, the pending
   * resource name (`""` for none, which the name pattern can never produce), the pending
   * locale-to-text map, the finished table, and the locales it added to the extractor.
   */
  datatype Aapt2State = Aapt2State(
    inSection: bool,
    name: string,
    data: map<string, string>,
    result: map<string, map<string, string>>,
    added: set<string>)

  const Aapt2Start := Aapt2State(false, "", map[], map[], {})

  /** The pending resource stored, when there is one with at least one value. */
  function Saved(st: Aapt2State): (r: map<string, map<string, string>>)
    ensures st.name != [] && st.data != map[] ==> r == st.result[st.name := st.data]
    ensures st.name == [] || st.data == map[] ==> r == st.result
  {
    if st.name != [] && st.data != map[] then st.result[st.name := st.data] else st.result
  }

  /** The locale of a value line; the empty locale is the default one. */
  function LocaleTag(l: string): (tag: string)
    ensures tag != []
    ensures l != [] ==> tag == l
  {
    if l == [] then "default" else l
  }

  /** One line of `_parse_aapt2_resources_output`, which strips it first. */
  function Aapt2Step(st: Aapt2State, raw: string): Aapt2State {
    Aapt2Line(st, Strip(raw))
  }

  function Aapt2Line(st: Aapt2State, line: string): Aapt2State {
    if Contains(line, "type string") then st.(inSection := true)
    else if st.inSection && StartsWith(line, "type ") && !Contains(line, "string") then st.(inSection := false)
    else if !st.inSection then st
    else if StartsWith(line, "resource ") && Contains(line, "string/") then
      match Search(line, SlashNameAt)
      case Some(n) => st.(result := Saved(st), name := n, data := map[])
      case None => st.(result := Saved(st))
    else if st.name != [] && '"' in line then
      match LocaleValue(line)
      case Some((l, v)) => st.(data := st.data[LocaleTag(l) := v], added := st.added + {LocaleTag(l)})
      case None => st
    else st
  }

  /** The parser's variables after the given lines. */
  function Aapt2Run(lines: seq<string>): Aapt2State {
    if lines == [] then Aapt2Start
    else Aapt2Step(Aapt2Run(lines[..|lines| - 1]), lines[|lines| - 1])
  }

  /** What `_parse_aapt2_resources_output` returns: the run's table with the last resource saved. */
  function Aapt2Table(lines: seq<string>): map<string, map<string, string>> {
    Saved(Aapt2Run(lines))
  }

  /** The locales that `_parse_aapt2_resources_output` adds to the extractor's set. */
  function Aapt2Locales(lines: seq<string>): set<string> {
    Aapt2Run(lines).added
  }

  /**
   * What holds between lines: stored maps are non-empty, every stored or pending locale was
   * added, the empty locale never is, nothing is pending without a name, and something was
   * added exactly when something is stored or pending.
   */
  predicate Aapt2Good(st: Aapt2State) {
    && (forall k :: k in st.result ==> st.result[k] != map[])
    && (forall k, l :: k in st.result && l in st.result[k] ==> l in st.added)
    && (forall l :: l in st.data ==> l in st.added)
    && [] !in st.added
    && (st.name == [] ==> st.data == map[])
    && (st.added == {} <==> st.result == map[] && st.data == map[])
  }

  lemma SavedGood(st: Aapt2State)
    requires Aapt2Good(st)
    ensures forall k :: k in Saved(st) ==> Saved(st)[k] != map[]
    ensures forall k, l :: k in Saved(st) && l in Saved(st)[k] ==> l in st.added
    ensures st.added == {} <==> Saved(st) == map[]
  {
    if st.name != [] && st.data != map[] {
      assert st.name in Saved(st);
    } else if st.result != map[] {
      var k :| k in st.result;
      assert k in Saved(st);
    }
  }

  lemma Aapt2LineGood(st: Aapt2State, line: string)
    requires Aapt2Good(st)
    ensures Aapt2Good(Aapt2Line(st, line))
  {
    if Contains(line, "type string") {
    } else if st.inSection && StartsWith(line, "type ") && !Contains(line, "string") {
    } else if !st.inSection {
    } else if StartsWith(line, "resource ") && Contains(line, "string/") {
      SavedGood(st);
    } else if st.name != [] && '"' in line {
    }
  }

  lemma {:induction false} Aapt2RunGood(lines: seq<string>)
    ensures Aapt2Good(Aapt2Run(lines))
  {
    if lines != [] {
      Aapt2RunGood(lines[..|lines| - 1]);
      Aapt2LineGood(Aapt2Run(lines[..|lines| - 1]), Strip(lines[|lines| - 1]));
    }
  }

  /**
   * A resource without value lines is never stored; every stored locale was added to the
   * extractor's set, which never gains the empty locale; and the table is empty exactly when
   * no locale was added.
   */
  lemma Aapt2TableShape(lines: seq<string>)
    ensures forall k :: k in Aapt2Table(lines) ==> Aapt2Table(lines)[k] != map[]
    ensures forall k, l :: k in Aapt2Table(lines) && l in Aapt2Table(lines)[k] ==> l in Aapt2Locales(lines)
    ensures [] !in Aapt2Locales(lines)
    ensures Aapt2Table(lines) == map[] <==> Aapt2Locales(lines) == {}
  {
    Aapt2RunGood(lines);
    SavedGood(Aapt2Run(lines));
  }

  /** Outside the section only a `type string` line has any effect. */
  lemma {:induction false} OutsideSectionIgnored(pre: seq<string>, mid: seq<string>)
    requires !Aapt2Run(pre).inSection
    requires forall k :: 0 <= k < |mid| ==> !Contains(Strip(mid[k]), "type string")
    ensures Aapt2Run(pre + mid) == Aapt2Run(pre)
    decreases |mid|
  {
    if mid == [] {
      assert pre + mid == pre;
    } else {
      var init := mid[..|mid| - 1];
      OutsideSectionIgnored(pre, init);
      Aapt2RunAppend(pre, mid);
      OutsideLineIgnored(Aapt2Run(pre + init), Strip(mid[|mid| - 1]));
    }
  }

  /** The run over `pre + mid` is the run over all but the last line, stepped once more. */
  lemma Aapt2RunAppend(pre: seq<string>, mid: seq<string>)
    requires mid != []
    ensures Aapt2Run(pre + mid) == Aapt2Step(Aapt2Run(pre + mid[..|mid| - 1]), mid[|mid| - 1])
  {
    var all := pre + mid;
    assert all[..|all| - 1] == pre + mid[..|mid| - 1];
    assert all[|all| - 1] == mid[|mid| - 1];
    Aapt2RunLast(all);
  }

  lemma Aapt2RunLast(lines: seq<string>)
    requires lines != []
    ensures Aapt2Run(lines) == Aapt2Step(Aapt2Run(lines[..|lines| - 1]), lines[|lines| - 1])
  {
  }

  lemma OutsideLineIgnored(st: Aapt2State, line: string)
    requires !st.inSection && !Contains(line, "type string")
    ensures Aapt2Line(st, line) == st
  {
  }

  /** A value line in the section attaches to the pending resource under its locale. */
  lemma ValueLineAttaches(st: Aapt2State, raw: string, l: string, v: string)
    requires st.inSection && st.name != []
    requires !Contains(Strip(raw), "type string") && !StartsWith(Strip(raw), "type ")
    requires !StartsWith(Strip(raw), "resource ")
    requires LocaleValue(Strip(raw)) == Some((l, v))
    ensures Aapt2Step(st, raw).name == st.name
    ensures Aapt2Step(st, raw).data == st.data[LocaleTag(l) := v]
    ensures LocaleTag(l) in Aapt2Step(st, raw).added
  {
    var line := Strip(raw);
    assert '"' in line;
    assert Aapt2Step(st, raw) == Aapt2Line(st, line);
  }

  // ---------------------------------------------------------------------------------------------
  // `aapt dump xmltree`

  /** The pending string name (`""` for none) and the strings stored so far. */
  datatype XmlTreeState = XmlTreeState(name: string, strings: map<string, string>)

  /** One line of `_parse_aapt_xmltree_output`. */
  function XmlTreeStep(st: XmlTreeState, line: string): XmlTreeState {
    if Contains(line, "E: string") && Contains(line, "name=") then
      match Search(line, NameAttrAt)
      case Some(n) => st.(name := n)
      case None => st
    else if st.name != [] && Contains(line, "T:") then
      match Search(line, TextAt)
      case Some(t) => XmlTreeState("", st.strings[st.name := UnescapeXml(t)])
      case None => st
    else st
  }

  function XmlTreeRun(lines: seq<string>): XmlTreeState {
    if lines == [] then XmlTreeState("", map[])
    else XmlTreeStep(XmlTreeRun(lines[..|lines| - 1]), lines[|lines| - 1])
  }

  /** Every stored text went through the unescaper, so none has surrounding whitespace. */
  lemma {:induction false} XmlTreeTextsTrimmed(lines: seq<string>)
    ensures forall k :: k in XmlTreeRun(lines).strings ==> Trimmed(XmlTreeRun(lines).strings[k])
  {
    if lines != [] {
      XmlTreeTextsTrimmed(lines[..|lines| - 1]);
    }
  }

  /** A `T:` line with no pending name stores nothing. */
  lemma TextWithoutNameIgnored(st: XmlTreeState, line: string)
    requires st.name == []
    requires !(Contains(line, "E: string") && Contains(line, "name="))
    ensures XmlTreeStep(st, line) == st
  {
  }

  /**
   * Storing a text clears the pending name, so a second `T:` line for the same element, or any
   * line before the next named `E: string` line, changes nothing.
   */
  lemma SecondTextIgnored(st: XmlTreeState, first: string, second: string)
    requires st.name != []
    requires !(Contains(first, "E: string") && Contains(first, "name="))
    requires Contains(first, "T:") && Search(first, TextAt).Some?
    requires !(Contains(second, "E: string") && Contains(second, "name="))
    ensures XmlTreeStep(st, first).strings == st.strings[st.name := UnescapeXml(Search(first, TextAt).value)]
    ensures XmlTreeStep(XmlTreeStep(st, first), second) == XmlTreeStep(st, first)
  {
  }

  /** `_parse_aapt_xmltree_output` over the tool's standard output. */
  method ParseAaptXmltreeOutput(output: string) returns (strings: map<string, string>)
    ensures strings == XmlTreeRun(Split(output, '\n')).strings
    ensures forall k :: k in strings ==> k != [] && Trimmed(strings[k])
  {
    var lines := Split(output, '\n');
    strings := map[];
    var currentName := "";
    var i := 0;
    while i < |lines|
      invariant 0 <= i <= |lines|
      invariant XmlTreeRun(lines[..i]) == XmlTreeState(currentName, strings)
      invariant forall k :: k in strings ==> k != []
    {
      var line := lines[i];
      ghost var before := XmlTreeState(currentName, strings);
      if Contains(line, "E: string") && Contains(line, "name=") {
        var m := Search(line, NameAttrAt);
        if m.Some? {
          currentName := m.value;
        }
      } else if currentName != [] && Contains(line, "T:") {
        var m := Search(line, TextAt);
        if m.Some? {
          strings := strings[currentName := UnescapeXml(m.value)];
          currentName := "";
        }
      }
      assert XmlTreeState(currentName, strings) == XmlTreeStep(before, line);
      XmlTreeRunSnoc(lines, i);
      i := i + 1;
    }
    assert lines[..i] == lines;
    XmlTreeTextsTrimmed(lines);
  }

  lemma XmlTreeRunSnoc(lines: seq<string>, i: nat)
    requires i < |lines|
    ensures XmlTreeRun(lines[..i + 1]) == XmlTreeStep(XmlTreeRun(lines[..i]), lines[i])
  {
    assert lines[..i + 1][..i] == lines[..i];
  }

  // ---------------------------------------------------------------------------------------------
  // The tool manager's scan of `aapt2 dump resources`

  /** Whether a `type ... string` line was seen, and the names found so far. */
  datatype ScanState = ScanState(inStrings: bool, resources: map<string, string>)

  /** One line of `LocalToolManager._parse_aapt2_output`, which strips it first. */
  function ScanStep(st: ScanState, raw: string): ScanState {
    ScanLine(st, Strip(raw))
  }

  /** A `Package` line only reads the package name, which the scan does not return. */
  function ScanLine(st: ScanState, line: string): ScanState {
    if StartsWith(line, "Package") then st
    else if StartsWith(line, "type") && Contains(line, "string") then st.(inStrings := true)
    else if st.inStrings && Contains(line, "resource") then
      match Search(line, ResourceNameAt)
      case Some(n) => st.(resources := st.resources[n := ""])
      case None => st
    else st
  }

  function ScanRun(lines: seq<string>): ScanState {
    if lines == [] then ScanState(false, map[])
    else ScanStep(ScanRun(lines[..|lines| - 1]), lines[|lines| - 1])
  }

  /** Once a string type line is seen, the scan stays in string mode. */
  lemma {:induction false} ScanStaysInStrings(pre: seq<string>, post: seq<string>)
    requires ScanRun(pre).inStrings
    ensures ScanRun(pre + post).inStrings
    ensures ScanRun(pre).resources.Keys <= ScanRun(pre + post).resources.Keys
    decreases |post|
  {
    if post == [] {
      assert pre + post == pre;
    } else {
      var init := post[..|post| - 1];
      ScanStaysInStrings(pre, init);
      ScanRunAppend(pre, post);
      ScanLineKeeps(ScanRun(pre + init), Strip(post[|post| - 1]));
    }
  }

  /** The scan over `pre + post` is the scan over all but the last line, stepped once more. */
  lemma ScanRunAppend(pre: seq<string>, post: seq<string>)
    requires post != []
    ensures ScanRun(pre + post) == ScanStep(ScanRun(pre + post[..|post| - 1]), post[|post| - 1])
  {
    var all := pre + post;
    assert all[..|all| - 1] == pre + post[..|post| - 1];
    assert all[|all| - 1] == post[|post| - 1];
  }

  lemma ScanLineKeeps(st: ScanState, line: string)
    requires st.inStrings
    ensures ScanLine(st, line).inStrings
    ensures st.resources.Keys <= ScanLine(st, line).resources.Keys
  {
  }

  /** `_parse_aapt2_output`: the names of string resources, each mapped to the empty text. */
  method ParseAapt2Output(output: string) returns (resources: map<string, string>)
    ensures resources == ScanRun(Split(output, '\n')).resources
    ensures forall k :: k in resources ==> resources[k] == [] && k != []
    ensures forall k :: k in resources ==> forall j :: 0 <= j < |k| ==> IsWordChar(k[j])
  {
    var lines := Split(output, '\n');
    resources := map[];
    var inStrings := false;
    var i := 0;
    assert lines[..0] == [];
    while i < |lines|
      invariant 0 <= i <= |lines|
      invariant ScanRun(lines[..i]) == ScanState(inStrings, resources)
    {
      var line := Strip(lines[i]);
      ScanRunSnoc(lines, i);
      ghost var after := ScanLine(ScanState(inStrings, resources), line);
      if StartsWith(line, "Package") {
      } else if StartsWith(line, "type") && Contains(line, "string") {
        inStrings := true;
      } else if inStrings && Contains(line, "resource") {
        var m := Search(line, ResourceNameAt);
        if m.Some? {
          resources := resources[m.value := ""];
        }
      }
      assert ScanState(inStrings, resources) == after;
      i := i + 1;
    }
    assert lines[..i] == lines;
    ScanResourcesShape(lines);
  }

  lemma ScanRunSnoc(lines: seq<string>, i: nat)
    requires i < |lines|
    ensures ScanRun(lines[..i + 1]) == ScanLine(ScanRun(lines[..i]), Strip(lines[i]))
  {
    assert lines[..i + 1][..i] == lines[..i];
  }

  /** A name the scan records has the shape of `(\w+)` and maps to the empty text. */
  predicate ScannedName(resources: map<string, string>, k: string)
    requires k in resources
  {
    resources[k] == [] && k != [] && forall j :: 0 <= j < |k| ==> IsWordChar(k[j])
  }

  lemma ScanLineShape(st: ScanState, line: string)
    requires forall k :: k in st.resources ==> ScannedName(st.resources, k)
    ensures forall k :: k in ScanLine(st, line).resources ==> ScannedName(ScanLine(st, line).resources, k)
  {
    var next := ScanLine(st, line);
    if !StartsWith(line, "Package") && !(StartsWith(line, "type") && Contains(line, "string"))
      && st.inStrings && Contains(line, "resource") && Search(line, ResourceNameAt).Some?
    {
      var n := Search(line, ResourceNameAt).value;
      SearchResourceName(line, n);
      assert next.resources == st.resources[n := ""];
      forall k | k in next.resources
        ensures ScannedName(next.resources, k)
      {
        if k != n {
          assert ScannedName(st.resources, k);
        }
      }
    } else {
      assert next.resources == st.resources;
    }
  }

  lemma SearchResourceName(line: string, n: string)
    requires Search(line, ResourceNameAt) == Some(n)
    ensures n != [] && forall j :: 0 <= j < |n| ==> IsWordChar(n[j])
  {
    var q :| 0 <= q <= |line| && ResourceNameAt(line, q) == Some(n);
  }

  lemma {:induction false} ScanResourcesShape(lines: seq<string>)
    ensures forall k :: k in ScanRun(lines).resources ==> ScannedName(ScanRun(lines).resources, k)
  {
    if lines != [] {
      ScanResourcesShape(lines[..|lines| - 1]);
      ScanLineShape(ScanRun(lines[..|lines| - 1]), Strip(lines[|lines| - 1]));
    }
  }
}
