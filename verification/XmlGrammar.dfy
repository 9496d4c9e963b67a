/**
 Written XML as concrete syntax trees: every choice of white space, quotes, escapes, closing
 form and processing instructions is a different tree with the same meaning.
 */
module XmlGrammar {
  import opened CStrings
  import opened Wrappers
  import opened XmlText

  datatype Attr = Attr(before: string, name: string, beforeEq: string, afterEq: string, quote: char, raw: string)
  datatype Tag = Tag(name: string, attrs: seq<Attr>, after: string)

  datatype Item =
    | Chars(raw: string)
    | Note(body: string)
    | Section(body: string)
    | Instruction(body: string)
    | Empty(tag: Tag)
    | Full(tag: Tag, content: Content, close: string)

  datatype Content = End(ws: string) | More(before: string, item: Item, rest: Content)

  // ----- well-formedness -----

  predicate IsWs(s: string) {
    Blank(s)
  }

  /** ASCII letters and digits, underscore, colon, hyphen and full stop, by their codes. */
  predicate NameCode(n: int) {
    0x61 <= n <= 0x7A || 0x41 <= n <= 0x5A || 0x30 <= n <= 0x39 || n in {0x2D, 0x2E, 0x3A, 0x5F}
  }

  predicate IsName(s: string) {
    |s| > 0 && forall i :: 0 <= i < |s| ==> NameCode(s[i] as int)
  }

  /** No c in s, and no NUL. */
  predicate Without(s: string, c: char) {
    forall i :: 0 <= i < |s| ==> s[i] != c && s[i] != '\0'
  }

  predicate ValidAttr(a: Attr) {
    && IsWs(a.before) && IsName(a.name) && IsWs(a.beforeEq) && IsWs(a.afterEq)
    && (a.quote == '"' || a.quote == '\'') && Without(a.raw, a.quote)
  }

  predicate ValidAttrs(attrs: seq<Attr>) {
    forall i :: 0 <= i < |attrs| ==> ValidAttr(attrs[i])
  }

  /** White space must part the name from the first attribute. */
  predicate ValidTag(tag: Tag) {
    IsName(tag.name) && ValidAttrs(tag.attrs) && IsWs(tag.after) && (|tag.attrs| > 0 ==> |tag.attrs[0].before| > 0)
  }

  /** The closing delimiter is found behind the body and not before. */
  predicate ValidBody(body: string, close: string) {
    Without(body, '\0') && forall i :: 0 <= i < |body| ==> !At(body + close, i, close)
  }

  predicate ValidItem(item: Item) {
    match item
    case Chars(raw) => |raw| > 0 && !IsCSpace(raw[0]) && Without(raw, '<')
    case Note(body) => ValidBody(body, "-->")
    case Section(body) => ValidBody(body, "]]>")
    case Instruction(body) => ValidBody(body, "?>")
    case Empty(tag) => ValidTag(tag)
    case Full(tag, content, close) => ValidTag(tag) && ValidContent(content) && Without(close, '>')
  }

  /** Text takes in everything up to the next tag, so no white space and no other text follows it. */
  predicate EndsChars(content: Content) {
    match content
    case End(ws) => ws == ""
    case More(before, item, _) => before == "" && !item.Chars?
  }

  predicate ValidContent(content: Content) {
    match content
    case End(ws) => IsWs(ws)
    case More(before, item, rest) =>
      IsWs(before) && ValidItem(item) && ValidContent(rest) && (item.Chars? ==> EndsChars(rest))
  }

  // ----- the text of a tree -----

  function AttrText(a: Attr): string {
    a.before + (a.name + (a.beforeEq + (['='] + (a.afterEq + ([a.quote] + (a.raw + [a.quote]))))))
  }

  function AttrsText(attrs: seq<Attr>): string {
    if |attrs| == 0 then "" else AttrText(attrs[0]) + AttrsText(attrs[1..])
  }

  function TagText(tag: Tag): string {
    ['<'] + (tag.name + (AttrsText(tag.attrs) + tag.after))
  }

  function CloseText(close: string): string {
    "</" + (close + ['>'])
  }

  function ItemText(item: Item): string {
    match item
    case Chars(raw) => raw
    case Note(body) => "<!--" + (body + "-->")
    case Section(body) => "<![CDATA[" + (body + "]]>")
    case Instruction(body) => "<?" + (body + "?>")
    case Empty(tag) => TagText(tag) + "/>"
    case Full(tag, content, close) => TagText(tag) + (['>'] + (ContentText(content) + CloseText(close)))
  }

  function ContentText(content: Content): string {
    match content
    case End(ws) => ws
    case More(before, item, rest) => before + (ItemText(item) + ContentText(rest))
  }

  // ----- the meaning of a tree -----

  function AttrMeaning(a: Attr): Attribute {
    Attribute(a.name, Unescape(a.raw))
  }

  /** The attributes in reverse, as the parser lists them. */
  function AttrMeanings(attrs: seq<Attr>): seq<Attribute> {
    if |attrs| == 0 then [] else AttrMeanings(attrs[1..]) + [AttrMeaning(attrs[0])]
  }

  function Meaning(item: Item): seq<Tree> {
    match item
    case Chars(raw) => [TextNode(Text, Unescape(raw))]
    case Note(body) => [TextNode(Comment, body)]
    case Section(body) => [TextNode(Cdata, body)]
    case Instruction(body) => []
    case Empty(tag) => [ElementNode(tag.name, AttrMeanings(tag.attrs), [])]
    case Full(tag, content, _) => [ElementNode(tag.name, AttrMeanings(tag.attrs), Meanings(content))]
  }

  function Meanings(content: Content): seq<Tree> {
    match content
    case End(_) => []
    case More(_, item, rest) => Meaning(item) + Meanings(rest)
  }

  // ----- reading tokens that are there -----

  lemma FirstChar(t: string, p: nat, x: string)
    requires At(t, p, x) && |x| > 0
    ensures p < |t| && t[p] == x[0]
  {
    AtIndex(t, p, x, 0);
  }

  lemma {:induction false} SkipWsOver(t: string, p: nat, ws: string)
    requires At(t, p, ws) && IsWs(ws) && !IsCSpace(Peek(t, p + |ws|))
    ensures SkipWs(t, p) == p + |ws|
    decreases |ws|
  {
    if |ws| > 0 {
      AtConcat(t, p, ws[..1], ws[1..]);
      assert ws == ws[..1] + ws[1..];
      FirstChar(t, p, ws);
      SkipWsOver(t, p + 1, ws[1..]);
    }
  }

  lemma {:induction false} ScanToOver(t: string, p: nat, x: string, c: char)
    requires At(t, p, x) && Without(x, c) && (Peek(t, p + |x|) == c || Peek(t, p + |x|) == '\0')
    ensures ScanTo(t, p, c) == p + |x|
    decreases |x|
  {
    if |x| > 0 {
      AtConcat(t, p, x[..1], x[1..]);
      assert x == x[..1] + x[1..];
      FirstChar(t, p, x);
      ScanToOver(t, p + 1, x[1..], c);
    }
  }

  lemma {:induction false} ScanNameOver(t: string, p: nat, x: string)
    requires At(t, p, x) && (forall i :: 0 <= i < |x| ==> IsNameChar(x[i])) && !IsNameChar(Peek(t, p + |x|))
    ensures ScanName(t, p) == p + |x|
    decreases |x|
  {
    if |x| > 0 {
      AtConcat(t, p, x[..1], x[1..]);
      assert x == x[..1] + x[1..];
      FirstChar(t, p, x);
      ScanNameOver(t, p + 1, x[1..]);
    }
  }

  lemma ParseNameOver(t: string, p: nat, x: string)
    requires At(t, p, x) && IsName(x) && !IsNameChar(Peek(t, p + |x|))
    ensures ParseName(t, p) == Ok(x, p + |x|)
  {
    ScanNameOver(t, p, x);
  }

  /** A delimited body is found whole. */
  lemma DelimitedOver(t: string, p: nat, body: string, close: string)
    requires At(t, p, body + close) && ValidBody(body, close)
    ensures ParseDelimited(t, p, close) == Ok(body, p + |body| + |close|)
  {
    hide Find;
    AtConcat(t, p, body, close);
    var q := p + |body|;
    forall i | p <= i < q ensures !At(t, i, close) && Peek(t, i) != '\0' {
      AtIndex(t, p, body, i - p);
      AtWithin(t, p, body + close, i - p, close);
    }
    FindIff(t, p, close, q);
    assert t[p..q] == body;
  }

  // ----- attributes -----

  lemma WsThenChar(t: string, p: nat, ws: string)
    requires At(t, p, ws) && IsWs(ws) && !IsNameChar(Peek(t, p + |ws|))
    ensures !IsNameChar(Peek(t, p))
  {
    if |ws| > 0 {
      FirstChar(t, p, ws);
    }
  }

  lemma QuotedOver(t: string, p: nat, afterEq: string, quote: char, raw: string)
    requires At(t, p, afterEq + ([quote] + (raw + [quote])))
    requires IsWs(afterEq) && (quote == '"' || quote == '\'') && Without(raw, quote)
    ensures ParseQuoted(t, p) == Ok(Unescape(raw), p + |afterEq + ([quote] + (raw + [quote]))|)
  {
    hide At, SkipWs, ScanTo, Unescape, IsWs, Without;
    var s := p + |afterEq|;
    AtConcat(t, p, afterEq, [quote] + (raw + [quote]));
    AtConcat(t, s, [quote], raw + [quote]);
    AtConcat(t, s + 1, raw, [quote]);
    AtChar(t, s, quote);
    AtChar(t, s + 1 + |raw|, quote);
    SkipWsOver(t, p, afterEq);
    ScanToOver(t, s + 1, raw, quote);
    AtText(t, s + 1, raw);
  }

  lemma AttrOver(t: string, p: nat, a: Attr)
    requires At(t, p, AttrText(a)) && ValidAttr(a)
    ensures SkipWs(t, p) == p + |a.before| && IsNameChar(Peek(t, p + |a.before|))
    ensures ParseAttribute(t, p + |a.before|) == Ok(AttrMeaning(a), p + |AttrText(a)|)
  {
    hide At, SkipWs, ParseName, ParseQuoted, Unescape, IsWs, Without;
    var s := p + |a.before|;
    var e := s + |a.name|;
    var q := e + |a.beforeEq|;
    var quoted := a.afterEq + ([a.quote] + (a.raw + [a.quote]));
    AtConcat(t, p, a.before, a.name + (a.beforeEq + (['='] + quoted)));
    AtConcat(t, s, a.name, a.beforeEq + (['='] + quoted));
    AtConcat(t, e, a.beforeEq, ['='] + quoted);
    AtConcat(t, q, ['='], quoted);
    AtChar(t, q, '=');
    FirstChar(t, s, a.name);
    SkipWsOver(t, p, a.before);
    SkipWsOver(t, e, a.beforeEq);
    WsThenChar(t, e, a.beforeEq);
    ParseNameOver(t, s, a.name);
    QuotedOver(t, q + 1, a.afterEq, a.quote, a.raw);
  }

  lemma {:induction false} AttrsOver(t: string, p: nat, attrs: seq<Attr>, after: string)
    requires At(t, p, AttrsText(attrs) + after) && ValidAttrs(attrs) && IsWs(after)
    requires EndsTag(Peek(t, p + |AttrsText(attrs)| + |after|))
    ensures ParseAttributes(t, p) == Ok(AttrMeanings(attrs), p + |AttrsText(attrs)| + |after|)
    decreases |attrs|
  {
    hide At, SkipWs, ParseAttribute, AttrText, AttrMeaning, IsWs;
    if |attrs| == 0 {
      assert AttrsText(attrs) + after == after;
      SkipWsOver(t, p, after);
    } else {
      var a := attrs[0];
      AttrsRegroup(attrs, after);
      AtConcat(t, p, AttrText(a), AttrsText(attrs[1..]) + after);
      AttrOver(t, p, a);
      AttrsOver(t, p + |AttrText(a)|, attrs[1..], after);
    }
  }

  lemma AttrsRegroup(attrs: seq<Attr>, after: string)
    requires |attrs| > 0
    ensures AttrsText(attrs) + after == AttrText(attrs[0]) + (AttrsText(attrs[1..]) + after)
  {
    hide AttrText;
  }

  /** An opening tag: its name, its attributes and the place where they end. */
  lemma TagOver(t: string, p: nat, tag: Tag)
    requires At(t, p, TagText(tag)) && ValidTag(tag)
    requires Peek(t, p + |TagText(tag)|) == '/' || Peek(t, p + |TagText(tag)|) == '>'
    ensures p + 1 < |t| && t[p] == '<' && IsNameChar(t[p + 1])
    ensures ParseName(t, p + 1) == Ok(tag.name, p + 1 + |tag.name|)
    ensures ParseAttributes(t, p + 1 + |tag.name|) == Ok(AttrMeanings(tag.attrs), p + |TagText(tag)|)
    ensures SkipWs(t, p + |TagText(tag)|) == p + |TagText(tag)|
  {
    hide At, ParseName, ParseAttributes, AttrsText, AttrMeanings, IsWs, ValidAttrs;
    var a := p + 1 + |tag.name|;
    var rest := AttrsText(tag.attrs) + tag.after;
    AtConcat(t, p, ['<'], tag.name + rest);
    AtConcat(t, p + 1, tag.name, rest);
    AtChar(t, p, '<');
    FirstChar(t, p + 1, tag.name);
    AttrsOver(t, a, tag.attrs, tag.after);
    TagNameEnds(t, a, tag);
    ParseNameOver(t, p + 1, tag.name);
  }

  lemma TagNameEnds(t: string, a: nat, tag: Tag)
    requires At(t, a, AttrsText(tag.attrs) + tag.after) && ValidTag(tag)
    requires EndsTag(Peek(t, a + |AttrsText(tag.attrs)| + |tag.after|))
    ensures !IsNameChar(Peek(t, a))
  {
    hide At;
    if |tag.attrs| == 0 {
      assert AttrsText(tag.attrs) + tag.after == tag.after;
      WsThenChar(t, a, tag.after);
    } else {
      FirstChar(t, a, AttrsText(tag.attrs) + tag.after);
      assert (AttrsText(tag.attrs) + tag.after)[0] == tag.attrs[0].before[0];
    }
  }
}
