/**
 Which texts the XML parser accepts, and what it makes of them.

 Besides written content it takes elements that are left open at the end of the text, and a closing
 tag outside any element, behind which it reads nothing more.
 */
module XmlLanguage {
  import opened CStrings
  import opened Wrappers
  import opened XmlText
  import opened XmlGrammar
  import opened XmlRoundTrip
  import Nodes

  /** Written content and what ends it: nothing, a closing tag, half of one, or an element that stays open. */
  datatype Run =
    | Stop(content: Content)
    | Closed(content: Content, close: string)
    | Cut(content: Content, close: string)
    | Inside(content: Content, tag: Tag, inner: Run)

  predicate ValidRun(r: Run) {
    ValidContent(r.content) &&
    match r
    case Stop(_) => true
    case Closed(_, close) => Without(close, '>')
    case Cut(_, close) => Without(close, '>')
    case Inside(_, tag, inner) => ValidTag(tag) && !inner.Closed? && ValidRun(inner)
  }

  function RunText(r: Run): string {
    match r
    case Stop(content) => ContentText(content)
    case Closed(content, close) => ContentText(content) + CloseText(close)
    case Cut(content, close) => ContentText(content) + ("</" + close)
    case Inside(content, tag, inner) => ContentText(content) + (TagText(tag) + (['>'] + RunText(inner)))
  }

  function RunMeaning(r: Run): seq<Tree> {
    match r
    case Inside(content, tag, inner) =>
      Meanings(content) + [ElementNode(tag.name, AttrMeanings(tag.attrs), RunMeaning(inner))]
    case _ => Meanings(r.content)
  }

  /** The run stands at p, and only behind a closing tag the text may go on. */
  ghost predicate Stands(t: string, p: nat, r: Run) {
    ValidRun(r) && At(t, p, RunText(r)) && p + |RunText(r)| <= |t| && (r.Closed? || Peek(t, p + |RunText(r)|) == '\0')
  }

  // ----- reading a run -----

  lemma CutOver(t: string, p: nat, close: string)
    requires At(t, p, "</" + close) && Without(close, '>') && Peek(t, p + 2 + |close|) == '\0'
    ensures ParseNodes(t, p) == Ok([], p + 2 + |close|)
  {
    hide ParseOne, ScanTo;
    AtConcat(t, p, "</", close);
    FirstChar(t, p, "</");
    ScanToOver(t, p + 2, close, '>');
  }

  lemma NothingOver(t: string, p: nat)
    requires p <= |t| && Peek(t, p) == '\0'
    ensures ParseNodes(t, p) == Ok([], p)
  {
  }

  lemma BeforeNothing(nodes: seq<Tree>, e: nat)
    ensures Before(nodes, Ok([], e)) == Ok(nodes, e)
  {
    assert nodes + [] == nodes;
  }

  lemma {:induction false} InsideOver(t: string, p: nat, tag: Tag, inner: Run)
    requires At(t, p, TagText(tag) + (['>'] + RunText(inner))) && ValidTag(tag) && !inner.Closed?
    requires var q := p + |TagText(tag)| + 1;
      q + |RunText(inner)| <= |t| && Peek(t, q + |RunText(inner)|) == '\0'
      && ParseNodes(t, q) == Ok(RunMeaning(inner), q + |RunText(inner)|)
    ensures p < |t| && t[p] == '<'
    ensures ParseNodes(t, p) ==
      Ok([ElementNode(tag.name, AttrMeanings(tag.attrs), RunMeaning(inner))], p + |TagText(tag) + (['>'] + RunText(inner))|)
  {
    hide At, ParseOne, ParseElement, ParseNodes, ParseName, ParseAttributes, ValidTag, TagText, AttrMeanings, RunText, RunMeaning;
    var s := p + |TagText(tag)|;
    var e := s + 1 + |RunText(inner)|;
    AtConcat(t, p, TagText(tag), ['>'] + RunText(inner));
    AtConcat(t, s, ['>'], RunText(inner));
    AtChar(t, s, '>');
    TagOver(t, p, tag);
    ElementStep(t, p, tag.name, p + 1 + |tag.name|, AttrMeanings(tag.attrs), s);
    OneIsElement(t, p);
    var element := ElementNode(tag.name, AttrMeanings(tag.attrs), RunMeaning(inner));
    NodesStep(t, p, p, [element], e);
    NothingOver(t, e);
    BeforeNothing([element], e);
  }

  lemma {:induction false} RunOver(t: string, p: nat, r: Run)
    requires Stands(t, p, r)
    ensures ParseNodes(t, p) == Ok(RunMeaning(r), p + |RunText(r)|)
    decreases r
  {
    hide At, ParseNodes, ContentText, Meanings, CloseText, TagText, ValidContent, ValidTag, AttrMeanings;
    var q := p + |ContentText(r.content)|;
    match r
    case Stop(content) =>
      ContentOver(t, p, content);
      NothingOver(t, q);
      BeforeNothing(Meanings(content), q);
    case Closed(content, close) =>
      AtConcat(t, p, ContentText(content), CloseText(close));
      CloseStarts(t, q, close);
      ContentOver(t, p, content);
      NodesAtClose(t, q, close);
      BeforeNothing(Meanings(content), q + |CloseText(close)|);
    case Cut(content, close) =>
      AtConcat(t, p, ContentText(content), "</" + close);
      FirstChar(t, q, "</" + close);
      ContentOver(t, p, content);
      CutOver(t, q, close);
      BeforeNothing(Meanings(content), q + 2 + |close|);
    case Inside(content, tag, inner) =>
      var rest := TagText(tag) + (['>'] + RunText(inner));
      AtConcat(t, p, ContentText(content), rest);
      AtConcat(t, q, TagText(tag), ['>'] + RunText(inner));
      AtConcat(t, q + |TagText(tag)|, ['>'], RunText(inner));
      RunOver(t, q + |TagText(tag)| + 1, inner);
      InsideOver(t, q, tag, inner);
      ContentOver(t, p, content);
  }

  // ----- explaining what was read -----

  lemma {:induction false} SkippedIsWs(t: string, p: nat)
    requires p <= |t|
    ensures IsWs(t[p..SkipWs(t, p)]) && At(t, p, t[p..SkipWs(t, p)])
    decreases |t| - p
  {
    if IsCSpace(Peek(t, p)) {
      SkippedIsWs(t, p + 1);
      assert t[p..SkipWs(t, p)] == [t[p]] + t[p + 1..SkipWs(t, p + 1)];
    }
  }

  lemma {:induction false} ScannedIsWithout(t: string, p: nat, c: char)
    requires p <= |t|
    ensures Without(t[p..ScanTo(t, p, c)], c) && At(t, p, t[p..ScanTo(t, p, c)])
    decreases |t| - p
  {
    if !(Peek(t, p) == '\0' || Peek(t, p) == c) {
      ScannedIsWithout(t, p + 1, c);
      assert t[p..ScanTo(t, p, c)] == [t[p]] + t[p + 1..ScanTo(t, p + 1, c)];
    }
  }

  lemma {:induction false} ScannedNameChars(t: string, p: nat)
    requires p <= |t|
    ensures forall i :: p <= i < ScanName(t, p) ==> IsNameChar(t[i])
    decreases |t| - p
  {
    if IsNameChar(Peek(t, p)) {
      ScannedNameChars(t, p + 1);
    }
  }

  lemma ExplainName(t: string, p: nat)
    requires p <= |t| && ParseName(t, p).Ok?
    ensures var n := ParseName(t, p).value;
      IsName(n) && At(t, p, n) && ParseName(t, p).next == p + |n| && IsNameChar(Peek(t, p)) && !IsNameChar(Peek(t, p + |n|))
  {
    ScannedNameChars(t, p);
  }

  lemma ExplainDelimited(t: string, p: nat, close: string)
    requires p <= |t| && ParseDelimited(t, p, close).Ok? && |close| > 0
    ensures var body := ParseDelimited(t, p, close).value;
      ValidBody(body, close) && At(t, p, body + close) && ParseDelimited(t, p, close).next == p + |body| + |close|
  {
    hide Find;
    var e := Find(t, p, close).value;
    var body := t[p..e];
    FindIff(t, p, close, e);
    AtSlice(t, p, e);
    AtConcat(t, p, body, close);
    forall i | 0 <= i < |body| ensures body[i] != '\0' && !At(body + close, i, close) {
      assert !At(t, p + i, close) && Peek(t, p + i) != '\0';
      if i + |close| <= |body + close| {
        AtWithin(t, p, body + close, i, close);
      }
    }
  }

  /** A value whose quote was found. */
  lemma ExplainQuoted(t: string, p: nat) returns (afterEq: string, quote: char, raw: string)
    requires p <= |t| && ParseQuoted(t, p).Ok? && Peek(t, ScanTo(t, SkipWs(t, p) + 1, Peek(t, SkipWs(t, p)))) != '\0'
    ensures IsWs(afterEq) && (quote == '"' || quote == '\'') && Without(raw, quote)
    ensures At(t, p, afterEq + ([quote] + (raw + [quote])))
    ensures ParseQuoted(t, p) == Ok(Unescape(raw), p + |afterEq + ([quote] + (raw + [quote]))|)
  {
    hide Unescape, At, SkipWs, ScanTo, IsWs, Without;
    var s := SkipWs(t, p);
    quote := Peek(t, s);
    var e := ScanTo(t, s + 1, quote);
    SkippedIsWs(t, p);
    ScannedIsWithout(t, s + 1, quote);
    afterEq, raw := t[p..s], t[s + 1..e];
    AtChar(t, s, quote);
    AtChar(t, e, quote);
    AtConcat(t, s + 1, raw, [quote]);
    AtConcat(t, s, [quote], raw + [quote]);
    AtConcat(t, p, afterEq, [quote] + (raw + [quote]));
  }

  /** Where the scan for the quote of an attribute value ends. */
  function ValueEnd(t: string, p: nat): (e: nat)
    requires p <= |t| && ParseQuoted(t, p).Ok?
    ensures e <= |t|
  {
    ScanTo(t, SkipWs(t, p) + 1, Peek(t, SkipWs(t, p)))
  }

  /** Where the value of an attribute starts. */
  function ValueStart(t: string, p: nat): (q: nat)
    requires p <= |t| && ParseAttribute(t, p).Ok?
    ensures q <= |t| && ParseQuoted(t, q).Ok? && ParseAttribute(t, p).next == ParseQuoted(t, q).next
  {
    SkipWs(t, ParseName(t, p).next) + 1
  }

  /** A value without its closing quote takes in the text to its end. */
  lemma UnclosedTakesAll(t: string, p: nat)
    requires p <= |t| && ParseAttribute(t, p).Ok? && Peek(t, ValueEnd(t, ValueStart(t, p))) == '\0'
    ensures var e := ParseAttribute(t, p).next; Peek(t, e) == '\0' && ParseAttributes(t, e) == Ok([], e)
  {
    hide ParseName, Unescape, ScanTo;
  }

  lemma ExplainAttr(t: string, p: nat) returns (a: Attr)
    requires p <= |t| && ParseAttribute(t, SkipWs(t, p)).Ok?
    requires Peek(t, ValueEnd(t, ValueStart(t, SkipWs(t, p)))) != '\0'
    ensures ValidAttr(a) && At(t, p, AttrText(a)) && p + |a.before| == SkipWs(t, p) && IsNameChar(Peek(t, SkipWs(t, p)))
    ensures ParseAttribute(t, SkipWs(t, p)) == Ok(AttrMeaning(a), p + |AttrText(a)|)
  {
    hide Unescape, At, SkipWs, ScanTo, IsWs, Without, ParseName, ParseQuoted;
    var s := SkipWs(t, p);
    var name := ParseName(t, s);
    var q := SkipWs(t, name.next);
    ExplainName(t, s);
    SkippedIsWs(t, p);
    SkippedIsWs(t, name.next);
    var afterEq, quote, raw := ExplainQuoted(t, q + 1);
    a := Attr(t[p..s], name.value, t[name.next..q], afterEq, quote, raw);
    var quoted := afterEq + ([quote] + (raw + [quote]));
    AtChar(t, q, '=');
    AtConcat(t, q, ['='], quoted);
    AtConcat(t, name.next, a.beforeEq, ['='] + quoted);
    AtConcat(t, s, a.name, a.beforeEq + (['='] + quoted));
    AtConcat(t, p, a.before, a.name + (a.beforeEq + (['='] + quoted)));
  }

  lemma NoAttrs(t: string, p: nat)
    requires p <= |t| && EndsTag(Peek(t, SkipWs(t, p)))
    ensures ParseAttributes(t, p) == Ok([], SkipWs(t, p))
  {
  }

  lemma AttrsStep(t: string, p: nat)
    requires p <= |t| && ParseAttributes(t, p).Ok? && !EndsTag(Peek(t, SkipWs(t, p)))
    ensures var a := ParseAttribute(t, SkipWs(t, p));
      && a.Ok? && ParseAttributes(t, a.next).Ok?
      && ParseAttributes(t, p) == Ok(ParseAttributes(t, a.next).value + [a.value], ParseAttributes(t, a.next).next)
  {
    hide ParseAttribute, SkipWs;
  }

  lemma {:induction false} ExplainAttrs(t: string, p: nat) returns (attrs: seq<Attr>, after: string)
    requires p <= |t| && ParseAttributes(t, p).Ok? && Peek(t, ParseAttributes(t, p).next) != '\0'
    ensures ValidAttrs(attrs) && IsWs(after) && At(t, p, AttrsText(attrs) + after)
    ensures ParseAttributes(t, p) == Ok(AttrMeanings(attrs), p + |AttrsText(attrs) + after|)
    ensures |attrs| > 0 ==> IsNameChar(Peek(t, p + |attrs[0].before|))
    decreases |t| - p
  {
    hide At, SkipWs, ParseAttribute, ParseAttributes, AttrText, AttrMeaning, IsWs, ValidAttr, ValueEnd, ValueStart;
    var s := SkipWs(t, p);
    if EndsTag(Peek(t, s)) {
      NoAttrs(t, p);
      SkippedIsWs(t, p);
      attrs, after := [], t[p..s];
      assert AttrsText(attrs) + after == after;
    } else {
      AttrsStep(t, p);
      if Peek(t, ValueEnd(t, ValueStart(t, s))) == '\0' {
        UnclosedTakesAll(t, s);
      }
      var a := ExplainAttr(t, p);
      var more;
      more, after := ExplainAttrs(t, p + |AttrText(a)|);
      attrs := [a] + more;
      assert attrs[1..] == more;
      AttrsRegroup(attrs, after);
      AtConcat(t, p, AttrText(a), AttrsText(more) + after);
    }
  }

  lemma ExplainTag(t: string, p: nat) returns (tag: Tag)
    requires p <= |t| && Peek(t, p) == '<' && ParseName(t, p + 1).Ok?
    requires var r := ParseAttributes(t, ParseName(t, p + 1).next); r.Ok? && Peek(t, r.next) != '\0'
    ensures ValidTag(tag) && At(t, p, TagText(tag)) && ParseName(t, p + 1).value == tag.name
    ensures ParseAttributes(t, ParseName(t, p + 1).next) == Ok(AttrMeanings(tag.attrs), p + |TagText(tag)|)
  {
    hide At, ParseName, ParseAttributes, AttrsText, AttrMeanings, IsWs, ValidAttrs;
    var name := ParseName(t, p + 1);
    ExplainName(t, p + 1);
    var attrs, after := ExplainAttrs(t, name.next);
    tag := Tag(name.value, attrs, after);
    AtChar(t, p, '<');
    AtConcat(t, p + 1, tag.name, AttrsText(attrs) + after);
    AtConcat(t, p, ['<'], tag.name + (AttrsText(attrs) + after));
  }

  // ----- nodes -----

  /** One node with its end, or an element that stays open to the end of the text. */
  datatype Piece = Whole(item: Item) | Open(tag: Tag, inner: Run)

  predicate ValidPiece(x: Piece) {
    match x
    case Whole(item) => ValidItem(item)
    case Open(tag, inner) => ValidTag(tag) && !inner.Closed? && ValidRun(inner)
  }

  function PieceText(x: Piece): string {
    match x
    case Whole(item) => ItemText(item)
    case Open(tag, inner) => TagText(tag) + (['>'] + RunText(inner))
  }

  function PieceMeaning(x: Piece): seq<Tree> {
    match x
    case Whole(item) => Meaning(item)
    case Open(tag, inner) => [ElementNode(tag.name, AttrMeanings(tag.attrs), RunMeaning(inner))]
  }

  /** The parts of an element that was read. */
  lemma ElementParts(t: string, p: nat)
    requires p <= |t| && Peek(t, p) == '<' && ParseElement(t, p).Ok?
    ensures var name := ParseName(t, p + 1);
      && name.Ok?
      && (var attrs := ParseAttributes(t, name.next);
          && attrs.Ok? && SkipWs(t, attrs.next) == attrs.next
          && (var s := attrs.next;
              if Peek(t, s) == '/' then
                Peek(t, s + 1) == '>' && ParseElement(t, p) == Ok(ElementNode(name.value, attrs.value, []), s + 2)
              else
                Peek(t, s) == '>' && ParseNodes(t, s + 1).Ok? &&
                ParseElement(t, p) ==
                  Ok(ElementNode(name.value, attrs.value, ParseNodes(t, s + 1).value), ParseNodes(t, s + 1).next)))
  {
    hide ParseName, ParseNodes;
    EndIsNoSpace(t, ParseName(t, p + 1).next);
  }

  lemma EndIsNoSpace(t: string, p: nat)
    requires p <= |t| && ParseAttributes(t, p).Ok?
    ensures SkipWs(t, ParseAttributes(t, p).next) == ParseAttributes(t, p).next
  {
  }

  lemma {:induction false} ExplainElement(t: string, p: nat) returns (x: Piece)
    requires p <= |t| && Peek(t, p) == '<' && ParseElement(t, p).Ok?
    ensures ValidPiece(x) && At(t, p, PieceText(x)) && PieceMeaning(x) == [ParseElement(t, p).value]
    ensures ParseElement(t, p).next == p + |PieceText(x)| && (x.Open? ==> Peek(t, p + |PieceText(x)|) == '\0')
    ensures x.Whole? ==> !x.item.Chars?
    decreases |t| - p, 0
  {
    hide At, ParseName, ParseAttributes, ParseElement, ParseNodes, SkipWs, ValidTag, TagText, AttrMeanings, ValidRun, RunText,
      RunMeaning, ValidContent, ContentText, Meanings, CloseText, Without;
    ElementParts(t, p);
    var tag := ExplainTag(t, p);
    var s := p + |TagText(tag)|;
    AtChar(t, s, '/');
    AtChar(t, s, '>');
    if Peek(t, s) == '/' {
      AtChar(t, s + 1, '>');
      assert "/>" == ['/'] + ['>'];
      AtConcat(t, s, ['/'], ['>']);
      AtConcat(t, p, TagText(tag), "/>");
      x := Whole(Empty(tag));
    } else {
      var inner := ExplainNodes(t, s + 1);
      AtConcat(t, s, ['>'], RunText(inner));
      AtConcat(t, p, TagText(tag), ['>'] + RunText(inner));
      x := PieceOfRun(tag, inner);
    }
  }

  lemma PieceOfRun(tag: Tag, inner: Run) returns (x: Piece)
    requires ValidTag(tag) && ValidRun(inner)
    ensures ValidPiece(x) && PieceText(x) == TagText(tag) + (['>'] + RunText(inner))
    ensures PieceMeaning(x) == [ElementNode(tag.name, AttrMeanings(tag.attrs), RunMeaning(inner))]
    ensures x.Open? <==> !inner.Closed?
    ensures x.Whole? ==> !x.item.Chars?
  {
    hide ValidTag, TagText, AttrMeanings, ContentText, Meanings, CloseText, Without;
    x := if inner.Closed? then Whole(Full(tag, inner.content, inner.close)) else Open(tag, inner);
  }

  /** What stands at p, which is neither white space nor the end nor a closing tag. */
  lemma {:induction false} ExplainOne(t: string, p: nat) returns (x: Piece)
    requires p < |t| && t[p] != '\0' && !IsCSpace(t[p]) && !At(t, p, "</") && ParseOne(t, p).Ok?
    ensures ValidPiece(x) && At(t, p, PieceText(x)) && ParseOne(t, p) == Ok(PieceMeaning(x), p + |PieceText(x)|)
    ensures p + |PieceText(x)| <= |t| && (x.Open? ==> Peek(t, p + |PieceText(x)|) == '\0')
    ensures x.Whole? && x.item.Chars? ==> Peek(t, p + |PieceText(x)|) == '<' || Peek(t, p + |PieceText(x)|) == '\0'
    decreases |t| - p, 1
  {
    hide At, ParseElement, ParseDelimited, ScanTo, Unescape, ValidBody, Without, ValidTag, ValidRun, ValidContent, TagText, RunText,
      ContentText;
    if t[p] != '<' {
      var q := ScanTo(t, p, '<');
      ScannedIsWithout(t, p, '<');
      ScanMoves(t, p, '<');
      assert t[p..q][0] == t[p];
      x := Whole(Chars(t[p..q]));
    } else if At(t, p, "<!--") {
      ExplainDelimited(t, p + 4, "-->");
      var body := ParseDelimited(t, p + 4, "-->").value;
      AtConcat(t, p, "<!--", body + "-->");
      x := Whole(Note(body));
    } else if At(t, p, "<![CDATA[") {
      ExplainDelimited(t, p + 9, "]]>");
      var body := ParseDelimited(t, p + 9, "]]>").value;
      AtConcat(t, p, "<![CDATA[", body + "]]>");
      x := Whole(Section(body));
    } else if At(t, p, "<?") {
      ExplainDelimited(t, p + 2, "?>");
      var body := ParseDelimited(t, p + 2, "?>").value;
      AtConcat(t, p, "<?", body + "?>");
      x := Whole(Instruction(body));
    } else {
      x := ExplainElement(t, p);
    }
  }

  lemma ScanMoves(t: string, p: nat, c: char)
    requires p < |t| && t[p] != '\0' && t[p] != c
    ensures p < ScanTo(t, p, c)
  {
  }

  /** A whole node in front of a run. */
  function InFront(ws: string, item: Item, r: Run): Run {
    r.(content := More(ws, item, r.content))
  }

  lemma InFrontText(ws: string, item: Item, r: Run)
    ensures RunText(InFront(ws, item, r)) == ws + (ItemText(item) + RunText(r))
    ensures RunMeaning(InFront(ws, item, r)) == Meaning(item) + RunMeaning(r)
  {
    hide ItemText, Meaning, TagText, CloseText, AttrMeanings;
    var c, x := ContentText(r.content), Meanings(r.content);
    assert ContentText(More(ws, item, r.content)) == ws + (ItemText(item) + c);
    assert Meanings(More(ws, item, r.content)) == Meaning(item) + x;
    if r.Inside? {
      var n := [ElementNode(r.tag.name, AttrMeanings(r.tag.attrs), RunMeaning(r.inner))];
      assert Meaning(item) + (x + n) == (Meaning(item) + x) + n;
    }
  }

  lemma InFrontValid(t: string, q: nat, ws: string, item: Item, r: Run)
    requires IsWs(ws) && ValidItem(item) && ValidRun(r) && At(t, q, RunText(r))
    requires item.Chars? ==> Peek(t, q) == '<' || Peek(t, q) == '\0'
    ensures ValidRun(InFront(ws, item, r))
  {
    hide ItemText, ValidItem, TagText, CloseText, At, ValidTag;
    RunStartsWithContent(t, q, r);
    if item.Chars? {
      ContentStarts(t, q, r.content);
    }
  }

  lemma RunStartsWithContent(t: string, q: nat, r: Run)
    requires At(t, q, RunText(r))
    ensures At(t, q, ContentText(r.content))
  {
    hide At, ContentText;
    var c := ContentText(r.content);
    match r
    case Stop(_) =>
    case Closed(_, close) => AtConcat(t, q, c, CloseText(close));
    case Cut(_, close) => AtConcat(t, q, c, "</" + close);
    case Inside(_, tag, inner) => AtConcat(t, q, c, TagText(tag) + (['>'] + RunText(inner)));
  }

  lemma ContentStarts(t: string, q: nat, content: Content)
    requires ValidContent(content) && At(t, q, ContentText(content)) && (Peek(t, q) == '<' || Peek(t, q) == '\0')
    ensures EndsChars(content)
  {
    hide At;
    match content
    case End(ws) =>
      if |ws| > 0 {
        FirstChar(t, q, ws);
      }
    case More(before, item, rest) =>
      AtConcat(t, q, before, ItemText(item) + ContentText(rest));
      AtConcat(t, q + |before|, ItemText(item), ContentText(rest));
      if |before| > 0 {
        FirstChar(t, q, before);
      } else if item.Chars? {
        FirstChar(t, q, item.raw);
      }
  }

  lemma NodesParts(t: string, p: nat)
    requires p <= |t| && Peek(t, p) != '\0' && ParseNodes(t, p).Ok?
    ensures var s := SkipWs(t, p);
      if At(t, s, "</") then ParseNodes(t, p) == Ok([], AfterClosingTag(t, s))
      else
        var one := ParseOne(t, s);
        one.Ok? && ParseNodes(t, one.next).Ok? && ParseNodes(t, p) == Before(one.value, ParseNodes(t, one.next))
  {
    hide At, SkipWs, ParseOne, AfterClosingTag, Before;
    var one := ParseOne(t, SkipWs(t, p));
    if !At(t, SkipWs(t, p), "</") && one.Ok? {
      BeforeFails(one.value, ParseNodes(t, one.next));
    }
  }

  lemma BeforeFails(nodes: seq<Tree>, r: Parsed<seq<Tree>>)
    ensures Before(nodes, r).Ok? <==> r.Ok?
  {
  }

  lemma ExplainClosing(t: string, s: nat) returns (close: string, whole: bool)
    requires At(t, s, "</")
    ensures Without(close, '>')
    ensures var e := AfterClosingTag(t, s);
      if whole then At(t, s, CloseText(close)) && e == s + |CloseText(close)|
      else At(t, s, "</" + close) && e == s + |"</" + close| && Peek(t, e) == '\0'
  {
    hide At, ScanTo, Without;
    AtEnds(t, s, "</");
    var e := ScanTo(t, s + 2, '>');
    ScannedIsWithout(t, s + 2, '>');
    close, whole := t[s + 2..e], Peek(t, e) == '>';
    AtConcat(t, s, "</", close);
    AtChar(t, e, '>');
    AtConcat(t, s + 2, close, ['>']);
    AtConcat(t, s, "</", close + ['>']);
  }

  /** The run stands at p, and it is what the parser makes of the text there. */
  ghost predicate Explains(t: string, p: nat, r: Run) {
    p <= |t| && Stands(t, p, r) && ParseNodes(t, p) == Ok(RunMeaning(r), p + |RunText(r)|)
  }

  lemma ExplainEmpty(t: string, p: nat)
    requires p <= |t| && Peek(t, p) == '\0'
    ensures Explains(t, p, Stop(End("")))
  {
    NothingOver(t, p);
  }

  lemma ExplainSpace(t: string, p: nat)
    requires p <= |t| && Peek(t, SkipWs(t, p)) == '\0'
    ensures Explains(t, p, Stop(End(t[p..SkipWs(t, p)])))
  {
    hide At, SkipWs, ParseNodes, IsWs;
    var s := SkipWs(t, p);
    SkippedIsWs(t, p);
    NodesAfterWs(t, p, s);
    NothingOver(t, s);
  }

  lemma ClosingRun(ws: string, close: string)
    requires IsWs(ws) && Without(close, '>')
    ensures var r := Closed(End(ws), close); ValidRun(r) && RunText(r) == ws + CloseText(close) && RunMeaning(r) == []
    ensures var r := Cut(End(ws), close); ValidRun(r) && RunText(r) == ws + ("</" + close) && RunMeaning(r) == []
  {
  }

  lemma ExplainClosed(t: string, p: nat) returns (r: Run)
    requires p <= |t| && Peek(t, p) != '\0' && At(t, SkipWs(t, p), "</") && ParseNodes(t, p).Ok?
    ensures Explains(t, p, r)
  {
    hide At, SkipWs, ParseNodes, AfterClosingTag, CloseText, Without, IsWs, ValidRun, RunText, RunMeaning;
    var s := SkipWs(t, p);
    var ws := t[p..s];
    SkippedIsWs(t, p);
    NodesParts(t, p);
    var close, whole := ExplainClosing(t, s);
    r := if whole then Closed(End(ws), close) else Cut(End(ws), close);
    var end := if whole then CloseText(close) else "</" + close;
    ClosingRun(ws, close);
    AtConcat(t, p, ws, end);
    AtEnds(t, s, end);
  }

  /** An open element is the last thing that is read. */
  lemma ExplainOpen(t: string, p: nat, tag: Tag, inner: Run)
    requires p <= |t| && ValidPiece(Open(tag, inner))
    requires var s := SkipWs(t, p); var q := s + |PieceText(Open(tag, inner))|;
      && At(t, s, PieceText(Open(tag, inner))) && q <= |t| && Peek(t, q) == '\0'
      && ParseNodes(t, p) == Before(PieceMeaning(Open(tag, inner)), ParseNodes(t, q))
    ensures Explains(t, p, Inside(End(t[p..SkipWs(t, p)]), tag, inner))
  {
    hide At, SkipWs, ParseNodes, IsWs, Before, PieceText, PieceMeaning, ValidPiece;
    var s := SkipWs(t, p);
    var ws := t[p..s];
    SkippedIsWs(t, p);
    NothingOver(t, s + |PieceText(Open(tag, inner))|);
    AtConcat(t, p, ws, PieceText(Open(tag, inner)));
    OpenStands(ws, tag, inner);
    BeforeNothing(PieceMeaning(Open(tag, inner)), s + |PieceText(Open(tag, inner))|);
  }

  lemma OpenStands(ws: string, tag: Tag, inner: Run)
    requires IsWs(ws) && ValidPiece(Open(tag, inner))
    ensures var r := Inside(End(ws), tag, inner);
      ValidRun(r) && RunText(r) == ws + PieceText(Open(tag, inner)) && RunMeaning(r) == PieceMeaning(Open(tag, inner))
  {
    hide ValidTag, TagText, AttrMeanings;
  }

  /** A whole node stands in front of what is read behind it. */
  lemma ExplainMore(t: string, p: nat, item: Item, rest: Run)
    requires p <= |t| && ValidItem(item)
    requires var s := SkipWs(t, p); var q := s + |ItemText(item)|;
      && At(t, s, ItemText(item)) && Explains(t, q, rest)
      && (item.Chars? ==> Peek(t, q) == '<' || Peek(t, q) == '\0')
      && ParseNodes(t, p) == Before(Meaning(item), ParseNodes(t, q))
    ensures Explains(t, p, InFront(t[p..SkipWs(t, p)], item, rest))
  {
    hide At, SkipWs, ParseNodes, IsWs, ItemText, Meaning, ValidItem, RunText, RunMeaning, ValidRun, InFront;
    var s := SkipWs(t, p);
    var ws := t[p..s];
    SkippedIsWs(t, p);
    AtConcat(t, s, ItemText(item), RunText(rest));
    AtConcat(t, p, ws, ItemText(item) + RunText(rest));
    InFrontText(ws, item, rest);
    InFrontValid(t, s + |ItemText(item)|, ws, item, rest);
    InFrontKind(ws, item, rest);
  }

  lemma InFrontKind(ws: string, item: Item, r: Run)
    ensures InFront(ws, item, r).Closed? <==> r.Closed?
  {
  }

  /** Whatever the parser takes for content is a run with that meaning. */
  lemma {:induction false} ExplainNodes(t: string, p: nat) returns (r: Run)
    requires p <= |t| && ParseNodes(t, p).Ok?
    ensures Explains(t, p, r)
    decreases |t| - p, 2
  {
    hide At, SkipWs, ParseNodes, ParseOne, AfterClosingTag, Before, ItemText, Meaning, ValidItem, TagText, ValidTag, AttrMeanings,
      InFront, Explains, RunText, RunMeaning, ValidRun;
    var s := SkipWs(t, p);
    if Peek(t, p) == '\0' {
      r := Stop(End(""));
      ExplainEmpty(t, p);
    } else if At(t, s, "</") {
      r := ExplainClosed(t, p);
    } else if Peek(t, s) == '\0' {
      r := Stop(End(t[p..s]));
      ExplainSpace(t, p);
    } else {
      NodesParts(t, p);
      var x := ExplainOne(t, s);
      match x
      case Open(tag, inner) =>
        r := Inside(End(t[p..s]), tag, inner);
        ExplainOpen(t, p, tag, inner);
      case Whole(item) =>
        ItemStarts(item);
        var rest := ExplainNodes(t, s + |ItemText(item)|);
        r := InFront(t[p..s], item, rest);
        ExplainMore(t, p, item, rest);
    }
  }

  // ----- documents -----

  /** The text has the run at its start, and the document holds the run's nodes. */
  ghost predicate Denotes(t: string, d: Tree, r: Run) {
    Stands(t, 0, r) && d == Nodes.Tree(Fields(Document, None, None, []), RunMeaning(r))
  }

  /** The parser accepts exactly the texts that start with such a run, and its result is the meaning of the run. */
  lemma ParseDocumentIff(t: string, d: Tree)
    ensures ParseDocument(t) == Some(d) <==> exists r :: Denotes(t, d, r)
  {
    hide ParseNodes, AfterProlog, Stands, RunMeaning;
    PrologIsInstruction(t);
    if r :| Denotes(t, d, r) {
      RunOver(t, 0, r);
    }
    if ParseDocument(t) == Some(d) {
      var r := ExplainNodes(t, 0);
      assert Denotes(t, d, r);
    }
  }

  /** A closing tag outside any element ends the document: what follows is not looked at. */
  lemma ClosingTagEndsDocument(content: Content, close: string, rest: string)
    requires ValidContent(content) && Without(close, '>')
    ensures ParseDocument(ContentText(content) + (CloseText(close) + rest)) == ParseDocument(ContentText(content))
  {
    hide ContentText, CloseText, ParseDocument, At, ValidContent, Without, Meanings;
    var t := ContentText(content) + (CloseText(close) + rest);
    var d := Nodes.Tree(Fields(Document, None, None, []), Meanings(content));
    AtAll(t);
    AtConcat(t, 0, ContentText(content), CloseText(close) + rest);
    AtConcat(t, |ContentText(content)|, CloseText(close), rest);
    AtConcat(t, 0, ContentText(content), CloseText(close));
    assert Denotes(t, d, Closed(content, close));
    ParseDocumentIff(t, d);
    DocumentRoundTrip(content);
  }

  /** The text of an element that stays open, as a run. */
  lemma OneOpen(tag: Tag, content: Content) returns (r: Run)
    requires ValidTag(tag) && ValidContent(content)
    ensures !r.Closed? && ValidRun(r) && RunText(r) == TagText(tag) + (['>'] + ContentText(content))
    ensures RunMeaning(r) == [ElementNode(tag.name, AttrMeanings(tag.attrs), Meanings(content))]
  {
    hide ContentText, Meanings, TagText, ValidTag, AttrMeanings;
    r := Inside(End(""), tag, Stop(content));
    NothingWritten();
    assert "" + (TagText(tag) + (['>'] + ContentText(content))) == TagText(tag) + (['>'] + ContentText(content));
  }

  lemma NothingWritten()
    ensures ValidContent(End("")) && ContentText(End("")) == "" && Meanings(End("")) == []
  {
  }

  lemma OneFull(item: Item)
    requires ValidItem(item) && !item.Chars?
    ensures ValidContent(More("", item, End(""))) && ContentText(More("", item, End(""))) == ItemText(item)
    ensures Meanings(More("", item, End(""))) == Meaning(item)
  {
    hide ItemText, Meaning, ValidItem;
    NothingWritten();
    assert "" + (ItemText(item) + "") == ItemText(item);
  }

  /** An element whose closing tag is missing at the end of the text counts as closed. */
  lemma OpenElementIsClosed(tag: Tag, content: Content, close: string)
    requires ValidTag(tag) && ValidContent(content) && Without(close, '>')
    ensures ParseDocument(TagText(tag) + (['>'] + ContentText(content))) ==
      ParseDocument(TagText(tag) + (['>'] + (ContentText(content) + CloseText(close))))
  {
    hide ContentText, CloseText, ParseDocument, At, ValidContent, Without, Meanings, TagText, ValidTag, AttrMeanings,
      RunText, RunMeaning, ValidRun;
    var t := TagText(tag) + (['>'] + ContentText(content));
    var d := Nodes.Tree(Fields(Document, None, None, []), [ElementNode(tag.name, AttrMeanings(tag.attrs), Meanings(content))]);
    var r := OneOpen(tag, content);
    AtAll(t);
    assert Denotes(t, d, r);
    ParseDocumentIff(t, d);
    OneFull(Full(tag, content, close));
    DocumentRoundTrip(More("", Full(tag, content, close), End("")));
  }
}
