/**
 * The parsed `strings.xml` tree and what `parse_strings_xml` reads from it: the flattened text of
 * each top-level `<string name="...">` element, unescaped.
 */
module XmlTree {
  import opened Wrappers
  import opened Text
  import opened Unescape

  /** An ElementTree element: tag, attributes, leading text, children, and the text after it. */
  datatype Elem = Elem(tag: string, attrs: map<string, string>, text: Option<string>, children: seq<Elem>, tail: Option<string>)

  /** A missing text (`None`) contributes nothing, like an empty one. */
  function OrEmpty(t: Option<string>): string {
    if t.Some? then t.value else ""
  }

  /** `_extract_element_text`: own text, then for each child its full text followed by its tail. */
  function ElementText(e: Elem): string
    decreases e, |e.children| + 1
  {
    OrEmpty(e.text) + ChildrenText(e, 0)
  }

  /** The part of `ElementText(e)` contributed by the children from index `i` on. */
  function ChildrenText(e: Elem, i: nat): string
    decreases e, |e.children| - i
  {
    if i >= |e.children| then ""
    else
      var c := e.children[i];
      ElementText(c) + OrEmpty(c.tail) + ChildrenText(e, i + 1)
  }

  /** An element with no text and no children contributes the empty string. */
  lemma EmptyElementText(e: Elem)
    requires OrEmpty(e.text) == "" && e.children == []
    ensures ElementText(e) == ""
  {
  }

  lemma {:induction false} ChildrenTextSnoc(e: Elem, e': Elem, c: Elem, i: nat)
    requires e'.children == e.children + [c] && i <= |e.children|
    ensures ChildrenText(e', i) == ChildrenText(e, i) + ElementText(c) + OrEmpty(c.tail)
    decreases |e.children| - i
  {
    if i < |e.children| {
      ChildrenTextSnoc(e, e', c, i + 1);
      var d := e.children[i];
      assert e'.children[i] == d;
      var head, rest := ElementText(d) + OrEmpty(d.tail), ChildrenText(e, i + 1);
      assert ChildrenText(e', i) == head + ChildrenText(e', i + 1);
      assert ChildrenText(e, i) == head + rest;
      ConcatRegroup(head, rest, ElementText(c), OrEmpty(c.tail));
    } else {
      assert e'.children[i] == c;
      assert ChildrenText(e', i + 1) == "";
    }
  }

  /**
   * Appending a child appends that child's whole text and then its tail: the text of inline
   * markup is spliced back into the sentence in document order.
   */
  lemma AppendChildText(e: Elem, e': Elem, c: Elem)
    requires e'.text == e.text && e'.children == e.children + [c]
    ensures ElementText(e') == ElementText(e) + ElementText(c) + OrEmpty(c.tail)
  {
    ChildrenTextSnoc(e, e', c, 0);
    assert ElementText(e') == OrEmpty(e.text) + ChildrenText(e', 0);
    assert ElementText(e) == OrEmpty(e.text) + ChildrenText(e, 0);
    ConcatRegroup(OrEmpty(e.text), ChildrenText(e, 0), ElementText(c), OrEmpty(c.tail));
  }

  lemma ConcatRegroup(a: string, b: string, c: string, d: string)
    ensures a + (b + c + d) == a + b + c + d
  {
  }

  /** `<string name="k">Hello <b>big</b> world</string>` flattens to `Hello big world`. */
  lemma InlineMarkupExample()
    ensures ElementText(Elem("string", map["name" := "k"], Some("Hello "),
              [Elem("b", map[], Some("big"), [], Some(" world"))], None)) == "Hello big world"
  {
    var b := Elem("b", map[], Some("big"), [], Some(" world"));
    var s := Elem("string", map["name" := "k"], Some("Hello "), [], None);
    var s' := Elem("string", map["name" := "k"], Some("Hello "), [b], None);
    AppendChildText(s, s', b);
    assert ElementText(b) == "big";
    assert ElementText(s) == "Hello ";
  }

  /** `root.findall('string')` keeps a child whose `get('name')` is a non-empty string. */
  predicate IsNamedString(c: Elem) {
    c.tag == "string" && "name" in c.attrs && c.attrs["name"] != ""
  }

  /** The map the loop over `root.findall('string')` builds from the children `cs`, in order. */
  function StringTable(cs: seq<Elem>): map<string, string>
    decreases |cs|
  {
    if cs == [] then map[]
    else
      var c := cs[|cs| - 1];
      var t := StringTable(cs[..|cs| - 1]);
      if IsNamedString(c) then t[c.attrs["name"] := UnescapeXml(ElementText(c))] else t
  }

  /** The keys are exactly the names of the named `string` children. */
  lemma {:induction false} StringTableKeys(cs: seq<Elem>, k: string)
    ensures k in StringTable(cs) <==> exists i :: 0 <= i < |cs| && IsNamedString(cs[i]) && cs[i].attrs["name"] == k
    decreases |cs|
  {
    if cs != [] {
      var init := cs[..|cs| - 1];
      StringTableKeys(init, k);
      if exists i :: 0 <= i < |init| && IsNamedString(init[i]) && init[i].attrs["name"] == k {
        var i :| 0 <= i < |init| && IsNamedString(init[i]) && init[i].attrs["name"] == k;
        assert cs[i] == init[i];
      }
      if exists i :: 0 <= i < |cs| && IsNamedString(cs[i]) && cs[i].attrs["name"] == k {
        var i :| 0 <= i < |cs| && IsNamedString(cs[i]) && cs[i].attrs["name"] == k;
        if i < |init| {
          assert init[i] == cs[i];
        }
      }
    }
  }

  /** A later duplicate overwrites an earlier one: the last element with a name supplies its text. */
  lemma {:induction false} StringTableLastWins(cs: seq<Elem>, i: nat)
    requires i < |cs| && IsNamedString(cs[i])
    requires forall j :: i < j < |cs| && IsNamedString(cs[j]) ==> cs[j].attrs["name"] != cs[i].attrs["name"]
    ensures cs[i].attrs["name"] in StringTable(cs)
    ensures StringTable(cs)[cs[i].attrs["name"]] == UnescapeXml(ElementText(cs[i]))
    decreases |cs|
  {
    if i < |cs| - 1 {
      var init := cs[..|cs| - 1];
      assert init[i] == cs[i];
      forall j | i < j < |init| && IsNamedString(init[j])
        ensures init[j].attrs["name"] != init[i].attrs["name"]
      {
        assert init[j] == cs[j];
      }
      StringTableLastWins(init, i);
    }
  }

  /** Every stored text is trimmed, since it went through the unescaper. */
  lemma {:induction false} StringTableTrimmed(cs: seq<Elem>)
    ensures forall k :: k in StringTable(cs) ==> Trimmed(StringTable(cs)[k])
    decreases |cs|
  {
    if cs != [] {
      StringTableTrimmed(cs[..|cs| - 1]);
    }
  }

  /**
   * The tree part of `parse_strings_xml`: no root (the file could not be parsed) gives the empty
   * map; otherwise each named `string` child of the root is stored under its name.
   */
  method ParseStringTable(root: Option<Elem>) returns (strings: map<string, string>)
    ensures root.None? ==> strings == map[]
    ensures root.Some? ==> strings == StringTable(root.value.children)
  {
    strings := map[];
    if root.None? {
      return;
    }
    var cs := root.value.children;
    var i := 0;
    while i < |cs|
      invariant 0 <= i <= |cs|
      invariant strings == StringTable(cs[..i])
    {
      var c := cs[i];
      assert cs[..i + 1][..i] == cs[..i];
      if c.tag == "string" && "name" in c.attrs {
        var name := c.attrs["name"];
        if name != "" {
          var text := ElementText(c);
          text := UnescapeXml(text);
          strings := strings[name := text];
        }
      }
      i := i + 1;
    }
    assert cs[..|cs|] == cs;
  }
}
