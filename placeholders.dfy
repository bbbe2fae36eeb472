/**
 * Format placeholders in translated text: `%<digits>$s` / `%<digits>$d` and `%s` / `%d`, their
 * reduction to type letters, and the per-key check that flags translations whose letters differ
 * from the default locale's.
 */
module Placeholders {
  import opened Wrappers
  import opened Text

  predicate IsAsciiDigit(c: char) {
    '0' <= c <= '9'
  }

  predicate IsTypeLetter(c: char) {
    c == 's' || c == 'd'
  }

  /** The end of the run of ASCII digits that starts at `i`. */
  function DigitsEnd(s: string, i: nat): (j: nat)
    requires i <= |s|
    ensures i <= j <= |s|
    ensures forall k :: i <= k < j ==> IsAsciiDigit(s[k])
    ensures j == |s| || !IsAsciiDigit(s[j])
    decreases |s| - i
  {
    if i < |s| && IsAsciiDigit(s[i]) then DigitsEnd(s, i + 1) else i
  }

  /** Where `%(\d+)\$[sd]` matches at `p`, the end of the match. */
  function NumberedEnd(s: string, p: nat): (r: Option<nat>)
    ensures r.Some? ==> p + 4 <= r.value <= |s| && s[p] == '%' && s[r.value - 2] == '$' && IsTypeLetter(s[r.value - 1])
    ensures r.Some? ==> forall k :: p + 1 <= k < r.value - 2 ==> IsAsciiDigit(s[k])
  {
    if p < |s| && s[p] == '%' then
      var j := DigitsEnd(s, p + 1);
      if j > p + 1 && j + 1 < |s| && s[j] == '$' && IsTypeLetter(s[j + 1]) then Some(j + 2) else None
    else None
  }

  /** Whether `%[sd](?![0-9])` matches at `p`: the letter is not followed by an ASCII digit. */
  predicate SimpleAt(s: string, p: nat) {
    p + 2 <= |s| && s[p] == '%' && IsTypeLetter(s[p + 1]) && (p + 2 == |s| || !IsAsciiDigit(s[p + 2]))
  }

  /** A match of `%(\d+)\$[sd]` as a half-open range of positions. */
  datatype Span = Span(start: nat, end: nat)

  /** `re.finditer(r'%(\d+)\$[sd]', s)` from position `p`: matches scanned from the left. */
  function NumberedSpans(s: string, p: nat): (r: seq<Span>)
    ensures forall k :: 0 <= k < |r| ==> p <= r[k].start && NumberedEnd(s, r[k].start) == Some(r[k].end)
    ensures forall k :: 0 <= k < |r| - 1 ==> r[k].end <= r[k + 1].start
    decreases |s| - p
  {
    if p >= |s| then []
    else match NumberedEnd(s, p)
      case Some(e) => [Span(p, e)] + NumberedSpans(s, e)
      case None => NumberedSpans(s, p + 1)
  }

  /** `re.finditer(r'%[sd](?![0-9])', s)` from position `p`: start positions of the matches. */
  function SimpleStarts(s: string, p: nat): (r: seq<nat>)
    ensures forall k :: 0 <= k < |r| ==> p <= r[k] && SimpleAt(s, r[k])
    ensures forall k :: 0 <= k < |r| - 1 ==> r[k] + 2 <= r[k + 1]
    decreases |s| - p
  {
    if p >= |s| then []
    else if SimpleAt(s, p) then [p] + SimpleStarts(s, p + 2)
    else SimpleStarts(s, p + 1)
  }

  /** Inside a numbered match there is no `%`, so no other match can start there. */
  lemma NoPercentInsideNumbered(s: string, p: nat, q: nat)
    requires NumberedEnd(s, p).Some? && p < q < NumberedEnd(s, p).value
    ensures s[q] != '%'
  {
  }

  /** The numbered scan finds every position where the numbered pattern matches. */
  lemma {:induction false} NumberedSpansComplete(s: string, p: nat, q: nat)
    requires p <= q && NumberedEnd(s, q).Some?
    ensures exists k :: 0 <= k < |NumberedSpans(s, p)| && NumberedSpans(s, p)[k].start == q
    decreases |s| - p
  {
    var r := NumberedSpans(s, p);
    if p == q {
      assert r[0].start == q;
    } else {
      match NumberedEnd(s, p)
      case Some(e) =>
        if q < e {
          NoPercentInsideNumbered(s, p, q);
          assert false;
        }
        NumberedSpansComplete(s, e, q);
        var k :| 0 <= k < |NumberedSpans(s, e)| && NumberedSpans(s, e)[k].start == q;
        assert r[k + 1] == NumberedSpans(s, e)[k];
      case None =>
        NumberedSpansComplete(s, p + 1, q);
    }
  }

  /** The simple scan finds every position where `%[sd](?![0-9])` matches. */
  lemma {:induction false} SimpleStartsComplete(s: string, p: nat, q: nat)
    requires p <= q && SimpleAt(s, q)
    ensures q in SimpleStarts(s, p)
    decreases |s| - p
  {
    if p < q {
      if SimpleAt(s, p) {
        SimpleStartsComplete(s, p + 2, q);
      } else {
        SimpleStartsComplete(s, p + 1, q);
      }
    }
  }

  function NumberedTokens(s: string, spans: seq<Span>): (r: seq<string>)
    requires forall k :: 0 <= k < |spans| ==> spans[k].start <= spans[k].end <= |s|
    ensures |r| == |spans|
    ensures forall k :: 0 <= k < |r| ==> r[k] == s[spans[k].start..spans[k].end]
  {
    if spans == [] then [] else [s[spans[0].start..spans[0].end]] + NumberedTokens(s, spans[1..])
  }

  function SimpleTokens(s: string, starts: seq<nat>): (r: seq<string>)
    requires forall k :: 0 <= k < |starts| ==> starts[k] + 2 <= |s|
    ensures |r| == |starts|
    ensures forall k :: 0 <= k < |r| ==> r[k] == s[starts[k]..starts[k] + 2]
  {
    if starts == [] then [] else [s[starts[0]..starts[0] + 2]] + SimpleTokens(s, starts[1..])
  }

  /** A token as `_extract_placeholders` yields it: `%`, optionally digits and `$`, then the letter. */
  predicate IsNumberedToken(t: string) {
    |t| >= 4 && t[0] == '%' && t[|t| - 2] == '$' && IsTypeLetter(t[|t| - 1])
    && forall k :: 1 <= k < |t| - 2 ==> IsAsciiDigit(t[k])
  }

  predicate IsSimpleToken(t: string) {
    |t| == 2 && t[0] == '%' && IsTypeLetter(t[1])
  }

  lemma NumberedTokensShape(s: string, spans: seq<Span>)
    requires forall k :: 0 <= k < |spans| ==> NumberedEnd(s, spans[k].start) == Some(spans[k].end)
    requires forall k :: 0 <= k < |spans| ==> spans[k].start <= spans[k].end <= |s|
    ensures forall k :: 0 <= k < |spans| ==> IsNumberedToken(s[spans[k].start..spans[k].end])
  {
    forall k | 0 <= k < |spans| ensures IsNumberedToken(s[spans[k].start..spans[k].end]) {
      var p, e := spans[k].start, spans[k].end;
      var t := s[p..e];
      assert t[0] == s[p] && t[|t| - 2] == s[e - 2] && t[|t| - 1] == s[e - 1];
      forall i | 1 <= i < |t| - 2 ensures IsAsciiDigit(t[i]) {
        assert t[i] == s[p + i];
      }
    }
  }

  lemma SimpleTokensShape(s: string, starts: seq<nat>)
    requires forall k :: 0 <= k < |starts| ==> SimpleAt(s, starts[k]) && starts[k] + 2 <= |s|
    ensures forall k :: 0 <= k < |starts| ==> IsSimpleToken(s[starts[k]..starts[k] + 2])
  {
  }

  /**
   * `_extract_placeholders`: the numbered tokens in text order, then the simple ones; empty text
   * has none.
   */
  function ExtractPlaceholders(text: string): (r: seq<string>)
    ensures text == [] ==> r == []
    ensures forall k :: 0 <= k < |r| ==> IsNumberedToken(r[k]) || IsSimpleToken(r[k])
    ensures forall i, j :: 0 <= i < j < |r| && IsSimpleToken(r[i]) ==> IsSimpleToken(r[j])
  {
    if text == [] then []
    else
      var spans := NumberedSpans(text, 0);
      var starts := SimpleStarts(text, 0);
      NumberedTokensShape(text, spans);
      SimpleTokensShape(text, starts);
      NumberedTokens(text, spans) + SimpleTokens(text, starts)
  }

  /** Every token starts with `%` and ends with its type letter. */
  lemma TokenEnds(text: string)
    ensures forall t :: t in ExtractPlaceholders(text) ==> |t| >= 2 && t[0] == '%' && IsTypeLetter(t[|t| - 1])
  {
  }

  /** `normalize_to_types`: each token reduced to its final type letter. */
  function TypeLetters(tokens: seq<string>): (r: seq<char>)
    ensures forall k :: 0 <= k < |r| ==> IsTypeLetter(r[k])
    ensures |r| <= |tokens|
  {
    if tokens == [] then []
    else
      var t := tokens[0];
      var rest := TypeLetters(tokens[1..]);
      if t != [] && t[|t| - 1] == 's' then ['s'] + rest
      else if t != [] && t[|t| - 1] == 'd' then ['d'] + rest
      else rest
  }

  /** The `Counter` of a text's placeholder types. */
  function PlaceholderTypes(text: string): multiset<char> {
    multiset(TypeLetters(ExtractPlaceholders(text)))
  }

  /**
   * `_compare_placeholders`: if either text is empty, whether both are; otherwise whether the
   * placeholder types agree as multisets (numbering and order ignored).
   */
  function ComparePlaceholders(defaultText: string, otherText: string): (same: bool)
    ensures defaultText == [] || otherText == [] ==> (same <==> defaultText == otherText)
  {
    if defaultText == [] || otherText == [] then defaultText == otherText
    else PlaceholderTypes(defaultText) == PlaceholderTypes(otherText)
  }

  /** The types are `s` and `d` only, so comparing multisets is comparing the two counts. */
  lemma CompareIsCountEquality(a: string, b: string)
    requires a != [] && b != []
    ensures ComparePlaceholders(a, b) <==>
      PlaceholderTypes(a)['s'] == PlaceholderTypes(b)['s'] && PlaceholderTypes(a)['d'] == PlaceholderTypes(b)['d']
  {
    var la, lb := TypeLetters(ExtractPlaceholders(a)), TypeLetters(ExtractPlaceholders(b));
    var ma, mb := multiset(la), multiset(lb);
    assert PlaceholderTypes(a) == ma && PlaceholderTypes(b) == mb;
    if ma['s'] == mb['s'] && ma['d'] == mb['d'] {
      forall c ensures ma[c] == mb[c] {
        if !IsTypeLetter(c) {
          OnlyTypeLetters(la, c);
          OnlyTypeLetters(lb, c);
        }
      }
      assert ma == mb;
    }
  }

  lemma OnlyTypeLetters(letters: seq<char>, c: char)
    requires forall k :: 0 <= k < |letters| ==> IsTypeLetter(letters[k])
    requires !IsTypeLetter(c)
    ensures multiset(letters)[c] == 0
  {
  }

  /** The check is an equivalence: reflexive, symmetric and transitive. */
  lemma CompareIsEquivalence(a: string, b: string, c: string)
    ensures ComparePlaceholders(a, a)
    ensures ComparePlaceholders(a, b) == ComparePlaceholders(b, a)
    ensures ComparePlaceholders(a, b) && ComparePlaceholders(b, c) ==> ComparePlaceholders(a, c)
  {
  }

  /** A translation is anomalous when it is non-empty and its placeholder types differ. */
  predicate IsAnomaly(translations: map<string, string>, defaultText: string, lang: string) {
    var other := GetOr(translations, lang, "");
    other != [] && !ComparePlaceholders(defaultText, other)
  }

  /**
   * `_get_placeholder_anomaly_languages`: with translations, at least two languages and a
   * non-empty text for `languages[0]`, the languages after the first whose text is anomalous,
   * in order and with their repetitions; otherwise none.
   */
  function GetPlaceholderAnomalyLanguages(translations: map<string, string>, languages: seq<string>): (r: seq<string>)
    ensures |translations| == 0 || |languages| <= 1 ==> r == []
    ensures |languages| > 1 && GetOr(translations, languages[0], "") == [] ==> r == []
    ensures |translations| > 0 && |languages| > 1 && GetOr(translations, languages[0], "") != [] ==>
      var d := GetOr(translations, languages[0], "");
      && Subsequence(r, languages[1..])
      && forall x :: multiset(r)[x] == if IsAnomaly(translations, d, x) then multiset(languages[1..])[x] else 0
  {
    if |translations| == 0 || |languages| <= 1 then []
    else
      var defaultText := GetOr(translations, languages[0], "");
      if defaultText == [] then []
      else
        var keep := lang => IsAnomaly(translations, defaultText, lang);
        FilterKeeps(languages[1..], keep);
        Filter(languages[1..], keep)
  }

  /** `_count_placeholder_anomalies`: how many languages were flagged; never the first one. */
  function CountPlaceholderAnomalies(translations: map<string, string>, languages: seq<string>): (n: nat)
    ensures n == |GetPlaceholderAnomalyLanguages(translations, languages)|
    ensures languages == [] ==> n == 0
    ensures languages != [] ==> n <= |languages| - 1
  {
    |GetPlaceholderAnomalyLanguages(translations, languages)|
  }

  /** Text without `%` has no placeholders, so a scan may jump over it. */
  lemma {:induction false} SkipPlainText(s: string, p: nat, q: nat)
    requires p <= q <= |s|
    requires forall k :: p <= k < q ==> s[k] != '%'
    ensures NumberedSpans(s, p) == NumberedSpans(s, q)
    ensures SimpleStarts(s, p) == SimpleStarts(s, q)
    decreases q - p
  {
    if p < q {
      SkipPlainText(s, p + 1, q);
    }
  }

  /** One step of the numbered scan at a match. */
  lemma NumberedMatchStep(s: string, p: nat, e: nat)
    requires p < |s| && NumberedEnd(s, p) == Some(e)
    ensures NumberedSpans(s, p) == [Span(p, e)] + NumberedSpans(s, e)
  {
  }

  /** One step of the simple scan at a `%` that does not start a match. */
  lemma SimpleMissStep(s: string, p: nat)
    requires p < |s| && !SimpleAt(s, p)
    ensures SimpleStarts(s, p) == SimpleStarts(s, p + 1)
  {
  }

  /** Two numbered matches and no simple one give two tokens. */
  lemma TwoNumbered(s: string, p1: nat, e1: nat, p2: nat, e2: nat)
    requires NumberedSpans(s, 0) == [Span(p1, e1), Span(p2, e2)] && SimpleStarts(s, 0) == []
    requires s != []
    ensures p1 <= e1 <= |s| && p2 <= e2 <= |s|
    ensures ExtractPlaceholders(s) == [s[p1..e1], s[p2..e2]]
  {
    var spans := NumberedSpans(s, 0);
    assert spans[0] == Span(p1, e1) && spans[1] == Span(p2, e2);
    assert NumberedTokens(s, spans) == [s[p1..e1], s[p2..e2]];
  }

  lemma TypeLettersPair(t1: string, t2: string)
    requires t1 != [] && IsTypeLetter(t1[|t1| - 1]) && t2 != [] && IsTypeLetter(t2[|t2| - 1])
    ensures TypeLetters([t1, t2]) == [t1[|t1| - 1], t2[|t2| - 1]]
  {
    assert [t1, t2][1..] == [t2];
    assert TypeLetters([t2]) == [t2[|t2| - 1]] by {
      assert [t2][1..] == [];
    }
  }

  /** No `%` between positions `i` and `j`. */
  predicate NoPercent(s: string, i: nat, j: nat) {
    forall k :: i <= k < j && k < |s| ==> s[k] != '%'
  }

  /** `%<digit>$<letter>` at `p`: a numbered placeholder with a one-digit index. */
  predicate NumberedShapeAt(s: string, p: nat) {
    p + 4 <= |s| && s[p] == '%' && IsAsciiDigit(s[p + 1]) && s[p + 2] == '$' && IsTypeLetter(s[p + 3])
  }

  lemma NumberedAt(s: string, p: nat)
    requires NumberedShapeAt(s, p)
    ensures NumberedEnd(s, p) == Some(p + 4)
  {
    assert DigitsEnd(s, p + 2) == p + 2;
  }

  /** The layout of a text with exactly two one-digit numbered placeholders and no other `%`. */
  predicate TwoNumberedLayout(s: string, p1: nat, p2: nat) {
    && p1 + 4 <= p2 && NumberedShapeAt(s, p1) && NumberedShapeAt(s, p2)
    && NoPercent(s, 0, p1) && NoPercent(s, p1 + 4, p2) && NoPercent(s, p2 + 4, |s|)
  }

  /** A numbered placeholder after plain text is the scan's next match. */
  lemma SpansFromMatch(s: string, p: nat, q: nat)
    requires p <= q && NoPercent(s, p, q) && NumberedShapeAt(s, q)
    ensures NumberedSpans(s, p) == [Span(q, q + 4)] + NumberedSpans(s, q + 4)
  {
    SkipPlainText(s, p, q);
    NumberedAt(s, q);
    NumberedMatchStep(s, q, q + 4);
  }

  /** Plain text to the end holds no numbered match. */
  lemma SpansOfPlainTail(s: string, p: nat)
    requires p <= |s| && NoPercent(s, p, |s|)
    ensures NumberedSpans(s, p) == []
  {
    SkipPlainText(s, p, |s|);
  }

  lemma TwoNumberedSpans(s: string, p1: nat, p2: nat)
    requires TwoNumberedLayout(s, p1, p2)
    ensures NumberedSpans(s, 0) == [Span(p1, p1 + 4), Span(p2, p2 + 4)]
  {
    SpansOfPlainTail(s, p2 + 4);
    SpansFromMatch(s, p1 + 4, p2);
    SpansFromMatch(s, 0, p1);
  }

  /** The simple scan passes over plain text and a numbered placeholder. */
  lemma SimpleSkipsNumbered(s: string, p: nat, q: nat)
    requires p <= q && NoPercent(s, p, q) && NumberedShapeAt(s, q)
    ensures SimpleStarts(s, p) == SimpleStarts(s, q + 4)
  {
    SkipPlainText(s, p, q);
    SimpleMissStep(s, q);
    assert NoPercent(s, q + 1, q + 4);
    SkipPlainText(s, q + 1, q + 4);
  }

  lemma TwoNumberedNoSimple(s: string, p1: nat, p2: nat)
    requires TwoNumberedLayout(s, p1, p2)
    ensures SimpleStarts(s, 0) == []
  {
    SimpleSkipsNumbered(s, 0, p1);
    SimpleSkipsNumbered(s, p1 + 4, p2);
    SkipPlainText(s, p2 + 4, |s|);
  }

  /** Two numbered placeholders give their two type letters, whatever their indices. */
  lemma TwoNumberedTypes(s: string, p1: nat, p2: nat)
    requires TwoNumberedLayout(s, p1, p2)
    ensures PlaceholderTypes(s) == multiset{s[p1 + 3], s[p2 + 3]}
  {
    TwoNumberedSpans(s, p1, p2);
    TwoNumberedNoSimple(s, p1, p2);
    TwoNumbered(s, p1, p1 + 4, p2, p2 + 4);
    TypesOfTwoTokens(s, s[p1..p1 + 4], s[p2..p2 + 4]);
  }

  lemma TypesOfTwoTokens(s: string, t1: string, t2: string)
    requires ExtractPlaceholders(s) == [t1, t2]
    requires |t1| == 4 && IsTypeLetter(t1[3]) && |t2| == 4 && IsTypeLetter(t2[3])
    ensures PlaceholderTypes(s) == multiset{t1[3], t2[3]}
  {
    TypeLettersPair(t1, t2);
    assert PlaceholderTypes(s) == multiset([t1[3], t2[3]]);
  }

  /** `%<digit>$<letter>` as a token on its own. */
  predicate IsShortNumbered(x: string) {
    |x| == 4 && x[0] == '%' && IsAsciiDigit(x[1]) && x[2] == '$' && IsTypeLetter(x[3])
  }

  lemma NoPercentPart(s: string, part: string, at: nat)
    requires '%' !in part && at + |part| <= |s| && s[at..at + |part|] == part
    ensures NoPercent(s, at, at + |part|)
  {
    forall k | at <= k < at + |part|
      ensures s[k] != '%'
    {
      assert s[k] == part[k - at];
    }
  }

  /**
   * Two numbered placeholders in plain text give exactly their two type letters, whatever
   * their indices and order.
   */
  lemma TwoNumberedText(pre: string, x: string, mid: string, y: string, post: string)
    requires IsShortNumbered(x) && IsShortNumbered(y)
    requires '%' !in pre && '%' !in mid && '%' !in post
    ensures pre + x + mid + y + post != []
    ensures PlaceholderTypes(pre + x + mid + y + post) == multiset{x[3], y[3]}
  {
    var s := pre + x + mid + y + post;
    var p1, p2 := |pre|, |pre| + 4 + |mid|;
    assert s[..p1] == pre && s[p1..p1 + 4] == x && s[p1 + 4..p2] == mid;
    assert s[p2..p2 + 4] == y && s[p2 + 4..] == post;
    NoPercentPart(s, pre, 0);
    NoPercentPart(s, mid, p1 + 4);
    NoPercentPart(s, post, p2 + 4);
    assert s[p1 + 3] == x[3] && s[p2 + 3] == y[3];
    TwoNumberedTypes(s, p1, p2);
  }

  /**
   * Translations that swap the order of two numbered placeholders, such as
   * `Hello %1$s, you have %2$d` and `%2$d için %1$s merhaba`, agree.
   */
  lemma ReorderedPlaceholdersAgree(pre: string, mid: string, post: string, pre': string, mid': string, post': string)
    requires '%' !in pre && '%' !in mid && '%' !in post
    requires '%' !in pre' && '%' !in mid' && '%' !in post'
    ensures ComparePlaceholders(pre + "%1$s" + mid + "%2$d" + post, pre' + "%2$d" + mid' + "%1$s" + post')
  {
    FirstSThenD(pre, mid, post);
    FirstDThenS(pre', mid', post');
    assert multiset{'s', 'd'} == multiset{'d', 's'};
  }

  /** `%1$s` before `%2$d` in plain text: one `s` and one `d`. */
  lemma FirstSThenD(pre: string, mid: string, post: string)
    requires '%' !in pre && '%' !in mid && '%' !in post
    ensures pre + "%1$s" + mid + "%2$d" + post != []
    ensures PlaceholderTypes(pre + "%1$s" + mid + "%2$d" + post) == multiset{'s', 'd'}
  {
    var x, y := "%1$s", "%2$d";
    assert IsShortNumbered(x) && IsShortNumbered(y);
    TwoNumberedText(pre, x, mid, y, post);
  }

  /** `%2$d` before `%1$s` in plain text: one `d` and one `s`. */
  lemma FirstDThenS(pre: string, mid: string, post: string)
    requires '%' !in pre && '%' !in mid && '%' !in post
    ensures pre + "%2$d" + mid + "%1$s" + post != []
    ensures PlaceholderTypes(pre + "%2$d" + mid + "%1$s" + post) == multiset{'d', 's'}
  {
    var x, y := "%2$d", "%1$s";
    assert IsShortNumbered(x) && IsShortNumbered(y);
    TwoNumberedText(pre, x, mid, y, post);
  }

  lemma OneSimpleScans(s: string, p: nat)
    requires p + 2 == |s| && NoPercent(s, 0, p)
    requires s[p] == '%' && IsTypeLetter(s[p + 1])
    ensures NumberedSpans(s, 0) == [] && SimpleStarts(s, 0) == [p]
  {
    SkipPlainText(s, 0, p);
    assert NumberedEnd(s, p) == None by {
      assert DigitsEnd(s, p + 1) == p + 1;
    }
    assert NumberedSpans(s, p + 1) == [];
    assert SimpleAt(s, p);
  }

  /** A single `%s`/`%d` after plain text gives that letter. */
  lemma OneSimple(s: string, p: nat)
    requires p + 2 == |s| && NoPercent(s, 0, p)
    requires s[p] == '%' && IsTypeLetter(s[p + 1])
    ensures PlaceholderTypes(s) == multiset{s[p + 1]}
  {
    OneSimpleScans(s, p);
    var r := ExtractPlaceholders(s);
    assert r == [s[p..p + 2]];
    assert TypeLetters(r) == [s[p + 1]];
  }

  /** A single `%s`/`%d` after plain text gives that letter. */
  lemma OneSimpleText(pre: string, x: string)
    requires '%' !in pre && |x| == 2 && x[0] == '%' && IsTypeLetter(x[1])
    ensures PlaceholderTypes(pre + x) == multiset{x[1]}
  {
    var s := pre + x;
    assert s[..|pre|] == pre;
    NoPercentPart(s, pre, 0);
    OneSimple(s, |pre|);
  }

  /** `%s` against `%d` is a type mismatch, as in `Hello %s` and `Merhaba %d`. */
  lemma MismatchedTypesDisagree(pre: string, pre': string)
    requires '%' !in pre && '%' !in pre'
    ensures !ComparePlaceholders(pre + "%s", pre' + "%d")
  {
    OneSimpleText(pre, "%s");
    OneSimpleText(pre', "%d");
    assert multiset{'s'} != multiset{'d'} by {
      assert multiset{'s'}['s'] == 1;
    }
  }
}
