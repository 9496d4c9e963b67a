/** Reading back what a tree writes: the XML parser inverts every rendering of every tree. */
module XmlRoundTrip {
  import opened CStrings
  import opened Wrappers
  import opened XmlText
  import opened XmlGrammar
  import Nodes

  // ----- steps of the parser as equations -----

  lemma ElementStep(t: string, p: nat, name: string, a: nat, attrs: seq<Attribute>, s: nat)
    requires p <= |t| && a <= |t| && s <= |t| && Peek(t, p) == '<'
    requires ParseName(t, p + 1) == Ok(name, a) && ParseAttributes(t, a) == Ok(attrs, s) && SkipWs(t, s) == s
    ensures Peek(t, s) == '/' && Peek(t, s + 1) == '>' ==>
      ParseElement(t, p) == Ok(ElementNode(name, attrs, []), s + 2)
    ensures Peek(t, s) == '>' && ParseNodes(t, s + 1).Ok? ==>
      ParseElement(t, p) == Ok(ElementNode(name, attrs, ParseNodes(t, s + 1).value), ParseNodes(t, s + 1).next)
  {
    hide ParseNodes, ParseAttributes, ParseName, SkipWs;
  }

  lemma NodesStep(t: string, p: nat, s: nat, nodes: seq<Tree>, e: nat)
    requires p <= |t| && s <= |t| && e <= |t| && SkipWs(t, p) == s && Peek(t, p) != '\0' && !At(t, s, "</")
    requires ParseOne(t, s) == Ok(nodes, e)
    ensures ParseNodes(t, p) == Before(nodes, ParseNodes(t, e))
  {
    hide ParseOne, SkipWs, At, Before;
  }

  lemma NodesAtClose(t: string, p: nat, close: string)
    requires At(t, p, CloseText(close)) && Without(close, '>')
    ensures ParseNodes(t, p) == Ok([], p + |CloseText(close)|)
  {
    hide ParseOne, ScanTo;
    AtConcat(t, p, "</", close + ['>']);
    AtConcat(t, p + 2, close, ['>']);
    AtChar(t, p + 2 + |close|, '>');
    FirstChar(t, p, CloseText(close));
    ScanToOver(t, p + 2, close, '>');
  }

  /** White space in front of what follows makes no difference. */
  lemma NodesAfterWs(t: string, p: nat, e: nat)
    requires p <= |t| && e <= |t| && SkipWs(t, p) == e && !IsCSpace(Peek(t, e))
    ensures ParseNodes(t, p) == ParseNodes(t, e)
  {
    hide ParseElement, At, Before;
    assert SkipWs(t, e) == e;
    if Peek(t, e) == '\0' {
      AtIndex(t, e, "</", 0);
      assert ParseOne(t, e) == Ok([], e) by {
        assert t[e..e] == "";
      }
      BeforeTwice([], [], ParseNodes(t, e));
    }
  }

  lemma BeforeTwice(a: seq<Tree>, b: seq<Tree>, r: Parsed<seq<Tree>>)
    ensures Before(a, Before(b, r)) == Before(a + b, r)
    ensures Before([], r) == r
  {
    if r.Ok? {
      assert a + (b + r.value) == (a + b) + r.value;
      assert [] + r.value == r.value;
    }
  }

  // ----- items -----

  lemma NoteOver(t: string, p: nat, body: string)
    requires At(t, p, ItemText(Note(body))) && ValidBody(body, "-->")
    ensures p < |t| && t[p] == '<' && !At(t, p, "</")
    ensures ParseOne(t, p) == Ok(Meaning(Note(body)), p + |ItemText(Note(body))|)
  {
    hide At, ParseDelimited, ValidBody;
    AtConcat(t, p, "<!--", body + "-->");
    AtIndex(t, p, "<!--", 0);
    AtIndex(t, p, "<!--", 1);
    AtIndex(t, p, "</", 1);
    DelimitedOver(t, p + 4, body, "-->");
  }

  lemma SectionOver(t: string, p: nat, body: string)
    requires At(t, p, ItemText(Section(body))) && ValidBody(body, "]]>")
    ensures p < |t| && t[p] == '<' && !At(t, p, "</")
    ensures ParseOne(t, p) == Ok(Meaning(Section(body)), p + |ItemText(Section(body))|)
  {
    hide At, ParseDelimited, ValidBody;
    AtConcat(t, p, "<![CDATA[", body + "]]>");
    AtIndex(t, p, "<![CDATA[", 0);
    AtIndex(t, p, "<![CDATA[", 1);
    AtIndex(t, p, "<![CDATA[", 2);
    AtIndex(t, p, "</", 1);
    AtIndex(t, p, "<!--", 2);
    DelimitedOver(t, p + 9, body, "]]>");
  }

  lemma InstructionOver(t: string, p: nat, body: string)
    requires At(t, p, ItemText(Instruction(body))) && ValidBody(body, "?>")
    ensures p < |t| && t[p] == '<' && !At(t, p, "</")
    ensures ParseOne(t, p) == Ok(Meaning(Instruction(body)), p + |ItemText(Instruction(body))|)
  {
    hide At, ParseDelimited, ValidBody;
    AtConcat(t, p, "<?", body + "?>");
    AtIndex(t, p, "<?", 0);
    AtIndex(t, p, "<?", 1);
    AtIndex(t, p, "</", 1);
    AtIndex(t, p, "<!--", 1);
    AtIndex(t, p, "<![CDATA[", 1);
    DelimitedOver(t, p + 2, body, "?>");
  }

  lemma CharsOver(t: string, p: nat, raw: string)
    requires At(t, p, raw) && ValidItem(Chars(raw)) && (Peek(t, p + |raw|) == '<' || Peek(t, p + |raw|) == '\0')
    ensures p < |t| && t[p] == raw[0]
    ensures ParseOne(t, p) == Ok(Meaning(Chars(raw)), p + |raw|)
  {
    hide Unescape, ScanTo, At, ParseElement, ParseDelimited;
    FirstChar(t, p, raw);
    ScanToOver(t, p, raw, '<');
    AtText(t, p, raw);
    assert !OnlySpace(raw);
  }

  /** What starts like an element is none of the other constructs. */
  lemma OneIsElement(t: string, p: nat)
    requires p + 1 < |t| && t[p] == '<' && IsNameChar(t[p + 1])
    ensures !At(t, p, "</")
    ensures ParseOne(t, p) == if ParseElement(t, p).Fail? then Fail else Ok([ParseElement(t, p).value], ParseElement(t, p).next)
  {
    hide At, ParseElement;
    AtIndex(t, p, "<!--", 1);
    AtIndex(t, p, "<![CDATA[", 1);
    AtIndex(t, p, "<?", 1);
    AtIndex(t, p, "</", 1);
  }

  lemma EmptyOver(t: string, p: nat, tag: Tag)
    requires At(t, p, ItemText(Empty(tag))) && ValidTag(tag)
    ensures p + 1 < |t| && t[p] == '<' && !At(t, p, "</")
    ensures ParseOne(t, p) == Ok(Meaning(Empty(tag)), p + |ItemText(Empty(tag))|)
  {
    hide At, ParseOne, ParseElement, ParseName, ParseAttributes, SkipWs, ValidTag, TagText, AttrMeanings;
    var s := p + |TagText(tag)|;
    AtConcat(t, p, TagText(tag), "/>");
    AtIndex(t, s, "/>", 0);
    AtIndex(t, s, "/>", 1);
    TagOver(t, p, tag);
    ElementStep(t, p, tag.name, p + 1 + |tag.name|, AttrMeanings(tag.attrs), s);
    OneIsElement(t, p);
  }

  lemma {:induction false} FullOver(t: string, p: nat, tag: Tag, content: Content, close: string)
    requires At(t, p, ItemText(Full(tag, content, close))) && ValidItem(Full(tag, content, close))
    ensures p + 1 < |t| && t[p] == '<' && !At(t, p, "</")
    ensures ParseOne(t, p) == Ok(Meaning(Full(tag, content, close)), p + |ItemText(Full(tag, content, close))|)
    decreases content, 1
  {
    hide At, ParseOne, ParseElement, ParseNodes, ParseName, ParseAttributes, SkipWs, ValidTag, TagText, AttrMeanings,
      ContentText, Meanings, CloseText, ValidContent, Without;
    var s := p + |TagText(tag)|;
    var e := s + 1 + |ContentText(content)|;
    AtConcat(t, p, TagText(tag), ['>'] + (ContentText(content) + CloseText(close)));
    AtConcat(t, s, ['>'], ContentText(content) + CloseText(close));
    AtConcat(t, s + 1, ContentText(content), CloseText(close));
    AtChar(t, s, '>');
    CloseStarts(t, e, close);
    TagOver(t, p, tag);
    ContentOver(t, s + 1, content);
    NodesAtClose(t, e, close);
    assert Meanings(content) + [] == Meanings(content);
    ElementStep(t, p, tag.name, p + 1 + |tag.name|, AttrMeanings(tag.attrs), s);
    OneIsElement(t, p);
  }

  lemma CloseStarts(t: string, e: nat, close: string)
    requires At(t, e, CloseText(close))
    ensures e < |t| && t[e] == '<'
  {
    FirstChar(t, e, CloseText(close));
  }

  lemma {:induction false} ItemOver(t: string, p: nat, item: Item)
    requires At(t, p, ItemText(item)) && ValidItem(item)
    requires item.Chars? ==> Peek(t, p + |ItemText(item)|) == '<' || Peek(t, p + |ItemText(item)|) == '\0'
    ensures p < |t| && !IsCSpace(t[p]) && t[p] != '\0' && !At(t, p, "</")
    ensures !item.Chars? ==> t[p] == '<'
    ensures ParseOne(t, p) == Ok(Meaning(item), p + |ItemText(item)|)
    decreases item, 0
  {
    hide ParseOne, ParseElement, TagText, AttrMeanings, ContentText, Meanings, CloseText, ValidTag, ValidContent,
      ValidBody, Unescape, At;
    match item
    case Chars(raw) =>
      CharsOver(t, p, raw);
      AtIndex(t, p, "</", 0);
    case Note(body) => NoteOver(t, p, body);
    case Section(body) => SectionOver(t, p, body);
    case Instruction(body) => InstructionOver(t, p, body);
    case Empty(tag) => EmptyOver(t, p, tag);
    case Full(tag, content, close) => FullOver(t, p, tag, content, close);
  }

  /** The first character of a valid item. */
  lemma ItemStarts(item: Item)
    requires ValidItem(item)
    ensures |ItemText(item)| > 0 && !IsCSpace(ItemText(item)[0])
    ensures !item.Chars? ==> ItemText(item)[0] == '<'
  {
  }

  /** The nodes of the content come first, and then whatever stands behind it. */
  lemma {:induction false} ContentOver(t: string, p: nat, content: Content)
    requires At(t, p, ContentText(content)) && ValidContent(content)
    requires Peek(t, p + |ContentText(content)|) == '<' || Peek(t, p + |ContentText(content)|) == '\0'
    ensures ParseNodes(t, p) == Before(Meanings(content), ParseNodes(t, p + |ContentText(content)|))
    decreases content, 0
  {
    hide ParseNodes, ParseOne, SkipWs, ItemText, ValidItem, Meaning, IsWs, At, Before;
    match content
    case End(ws) =>
      SkipWsOver(t, p, ws);
      NodesAfterWs(t, p, p + |ws|);
      BeforeTwice([], [], ParseNodes(t, p + |ws|));
    case More(before, item, rest) =>
      var s := p + |before|;
      var e := s + |ItemText(item)|;
      AtConcat(t, p, before, ItemText(item) + ContentText(rest));
      AtConcat(t, s, ItemText(item), ContentText(rest));
      if item.Chars? {
        AfterChars(t, e, rest);
      }
      ItemOver(t, s, item);
      SkipWsOver(t, p, before);
      WsIsNoEnd(t, p, before);
      ContentOver(t, e, rest);
      AtEnds(t, e, ContentText(rest));
      NodesStep(t, p, s, Meaning(item), e);
      BeforeTwice(Meaning(item), Meanings(rest), ParseNodes(t, e + |ContentText(rest)|));
  }

  lemma WsIsNoEnd(t: string, p: nat, ws: string)
    requires At(t, p, ws) && IsWs(ws) && Peek(t, p + |ws|) != '\0'
    ensures Peek(t, p) != '\0'
  {
    if |ws| > 0 {
      FirstChar(t, p, ws);
    }
  }

  lemma AfterChars(t: string, e: nat, rest: Content)
    requires At(t, e, ContentText(rest)) && EndsChars(rest) && ValidContent(rest)
    requires Peek(t, e + |ContentText(rest)|) == '<' || Peek(t, e + |ContentText(rest)|) == '\0'
    ensures Peek(t, e) == '<' || Peek(t, e) == '\0'
  {
    hide ItemText, ValidItem;
    if rest.More? {
      AtConcat(t, e, ItemText(rest.item), ContentText(rest.rest));
      ItemStarts(rest.item);
      FirstChar(t, e, ItemText(rest.item));
    }
  }

  // ----- documents -----

  /** An XML declaration that is closed is an instruction like any other. */
  lemma PrologIsInstruction(t: string)
    ensures ParseNodes(t, AfterProlog(t)) == ParseNodes(t, 0)
  {
    hide Find, ParseNodes, At;
    if At(t, 0, "<?xml") && Find(t, 0, "?>").Some? {
      var e := Find(t, 0, "?>").value;
      assert "<?" + "xml" == "<?xml";
      AtConcat(t, 0, "<?", "xml");
      AtEnds(t, e, "?>");
      AtIndex(t, 0, "<?xml", 0);
      AtIndex(t, 0, "<?xml", 1);
      AtIndex(t, 0, "<?xml", 2);
      FindIff(t, 0, "?>", e);
      AtIndex(t, 0, "?>", 0);
      AtIndex(t, 1, "?>", 1);
      FindIff(t, 2, "?>", e);
      InstructionFirst(t, e);
      BeforeTwice([], [], ParseNodes(t, e + 2));
    }
  }

  lemma InstructionFirst(t: string, e: nat)
    requires At(t, 0, "<?") && |t| > 1 && t[0] == '<' && t[1] == '?' && Find(t, 2, "?>") == Some(e)
    ensures ParseNodes(t, 0) == Before([], ParseNodes(t, e + 2))
  {
    hide Find, ParseNodes, At, Before, ParseElement;
    AtIndex(t, 0, "<!--", 1);
    AtIndex(t, 0, "<![CDATA[", 1);
    AtIndex(t, 0, "</", 1);
    AtEnds(t, e, "?>");
    NodesStep(t, 0, 0, [], e + 2);
  }

  /**
   Any rendering of any tree is read back as that tree, each attribute list reversed, whether or
   not it starts with an XML declaration.
   */
  lemma DocumentRoundTrip(content: Content)
    requires ValidContent(content)
    ensures ParseDocument(ContentText(content)) ==
      Some(Nodes.Tree(Fields(Document, None, None, []), Meanings(content)))
  {
    hide ParseNodes, ContentText, ValidContent, Meanings;
    var t := ContentText(content);
    PrologIsInstruction(t);
    assert At(t, 0, t);
    ContentOver(t, 0, content);
    NodesAtEnd(t);
    assert Meanings(content) + [] == Meanings(content);
  }

  lemma NodesAtEnd(t: string)
    ensures ParseNodes(t, |t|) == Ok([], |t|)
  {
  }
}
