/**
 * The guard the simplified extractor puts in front of the XML parser: files that start with a
 * compiled (binary) XML header are skipped, and text that fails to parse is re-parsed once with
 * control characters removed.
 */
module BinaryXml {
  import opened Wrappers
  import opened Text
  import opened XmlTree

  /** The chunk header of a compiled XML file: `03 00 08 00`. */
  const XmlChunkHeader: seq<bv8> := [0x03, 0x00, 0x08, 0x00]

  /** The chunk header of a compiled resource table: `02 00 0C 00`. */
  const TableChunkHeader: seq<bv8> := [0x02, 0x00, 0x0C, 0x00]

  /** Whether the file is treated as binary XML and skipped. */
  predicate IsBinaryXml(content: seq<bv8>) {
    StartsWith(content, XmlChunkHeader) || StartsWith(content, TableChunkHeader)
  }

  /** A flagged file has at least four bytes and starts with byte 2 or 3 followed by 0. */
  lemma BinaryXmlShape(content: seq<bv8>)
    ensures IsBinaryXml(content) ==>
      |content| >= 4 && (content[0] == 0x02 || content[0] == 0x03) && content[1] == 0x00 && content[3] == 0x00
    ensures IsBinaryXml(content) <==>
      |content| >= 4 && content[1] == 0x00 && content[3] == 0x00
      && ((content[0] == 0x03 && content[2] == 0x08) || (content[0] == 0x02 && content[2] == 0x0C))
  {
    if |content| >= 4 {
      assert content[..4] == [content[0], content[1], content[2], content[3]];
    }
  }

  /** Text XML (starting with `<`, or a UTF-8 byte-order mark) is never flagged. */
  lemma TextXmlNotBinary(content: seq<bv8>)
    requires content != [] && (content[0] == 0x3C || content[0] == 0xEF)
    ensures !IsBinaryXml(content)
  {
    BinaryXmlShape(content);
  }

  /** The characters of `[\x00-\x08\x0B\x0C\x0E-\x1F\x7F-\x9F]`. */
  predicate IsControlChar(c: char) {
    c <= '\U{08}' || c == '\U{0B}' || c == '\U{0C}' || ('\U{0E}' <= c <= '\U{1F}') || ('\U{7F}' <= c <= '\U{9F}')
  }

  predicate IsKept(c: char) {
    !IsControlChar(c)
  }

  /**
   * The clean-up before re-parsing: every control character removed, every other character kept
   * as often as it occurred and in the same order.
   */
  function CleanControlChars(s: string): (r: string)
    ensures forall k :: 0 <= k < |r| ==> !IsControlChar(r[k])
    ensures forall c :: !IsControlChar(c) ==> multiset(r)[c] == multiset(s)[c]
    ensures forall c :: IsControlChar(c) ==> multiset(r)[c] == 0
    ensures Subsequence(r, s)
  {
    FilterKeeps(s, IsKept);
    Filter(s, IsKept)
  }

  /** Tab, line feed and carriage return survive the clean-up. */
  lemma CleanKeepsLayout(s: string)
    ensures multiset(CleanControlChars(s))['\t'] == multiset(s)['\t']
    ensures multiset(CleanControlChars(s))['\n'] == multiset(s)['\n']
    ensures multiset(CleanControlChars(s))['\r'] == multiset(s)['\r']
  {
  }

  /** Cleaning twice is cleaning once. */
  lemma {:induction false} CleanIdempotent(s: string)
    ensures CleanControlChars(CleanControlChars(s)) == CleanControlChars(s)
  {
    FilterKeepsAll(CleanControlChars(s), IsKept);
  }

  /**
   * `_try_parse_binary_xml`. `content` is the file's bytes (`None` when it cannot be read),
   * `direct` the result of parsing the file as text XML (`None` on a parse error), `decoded` the
   * bytes decoded as UTF-8 with undecodable bytes dropped, and `reparse` the parser applied to a
   * string. A flagged or unreadable file gives `None`; a file that parses directly gives its
   * root; otherwise the cleaned text is parsed once more.
   */
  function TryParseBinaryXml(content: Option<seq<bv8>>, direct: Option<Elem>, decoded: string,
                             reparse: string -> Option<Elem>): (root: Option<Elem>)
    ensures content.None? ==> root.None?
    ensures content.Some? && IsBinaryXml(content.value) ==> root.None?
    ensures content.Some? && !IsBinaryXml(content.value) && direct.Some? ==> root == direct
    ensures content.Some? && !IsBinaryXml(content.value) && direct.None? ==>
      root == reparse(CleanControlChars(decoded))
  {
    if content.None? then None
    else if IsBinaryXml(content.value) then None
    else if direct.Some? then direct
    else reparse(CleanControlChars(decoded))
  }
}
