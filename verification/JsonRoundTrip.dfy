/** Reading back what a tree writes: the parser inverts every rendering of every value. */
module JsonRoundTrip {
  import opened CStrings
  import opened Wrappers
  import opened JsonTokens
  import opened JsonText
  import opened JsonGrammar

  /** What a value can begin with. */
  predicate StartsValue(c: char) {
    c == '"' || c == '{' || c == '[' || c == '-' || IsDigit(c) || c == 't' || c == 'f' || c == 'n'
  }

  lemma TextStart(v: Value)
    requires Valid(v)
    ensures |Text(v)| > 0 && StartsValue(Text(v)[0])
  {
    if v.Num? && v.minus == "" {
      assert Text(v)[0] == v.whole[0];
    }
  }

  lemma FirstChar(t: string, p: nat, x: string)
    requires At(t, p, x) && |x| > 0
    ensures p < |t| && t[p] == x[0]
  {
    assert t[p..p + |x|][0] == t[p];
  }

  /** Behind a value: white space, or one of the characters that close or separate. */
  predicate Delimits(c: char) {
    IsSpace(c) || c == ',' || c == ']' || c == '}' || c == '\0'
  }

  lemma WsThenDelimiter(t: string, p: nat, ws: string)
    requires At(t, p, ws) && IsWs(ws) && Delimits(Peek(t, p + |ws|))
    ensures Delimits(Peek(t, p))
  {
    if |ws| > 0 {
      FirstChar(t, p, ws);
    }
  }

  /** Where the pieces of white space, value, white space and tail stand. */
  lemma SlotPieces(t: string, p: nat, before: string, text: string, after: string, tail: string)
    requires At(t, p, before + (text + (after + tail)))
    requires IsWs(before) && IsWs(after) && |text| > 0 && StartsValue(text[0])
    requires |tail| > 0 && (tail[0] == ',' || tail[0] == ']' || tail[0] == '}')
    ensures var a := p + |before|; var b := a + |text|; var c := b + |after|;
      && c <= |t| && At(t, a, text) && At(t, c, tail) && Peek(t, c) == tail[0] && Peek(t, a) == text[0]
      && SkipWs(t, p) == a && Delimits(Peek(t, b)) && SkipWs(t, b) == c
  {
    hide SkipWs, At;
    var a := p + |before|;
    var b := a + |text|;
    var c := b + |after|;
    AtConcat(t, p, before, text + (after + tail));
    AtConcat(t, a, text, after + tail);
    AtConcat(t, b, after, tail);
    FirstChar(t, a, text);
    FirstChar(t, c, tail);
    SkipWsOver(t, p, before);
    SkipWsOver(t, b, after);
    WsThenDelimiter(t, b, after);
  }

  lemma {:induction false} ValueOver(t: string, p: nat, v: Value)
    requires Valid(v) && At(t, p, Text(v)) && Delimits(Peek(t, p + |Text(v)|))
    ensures ParseValue(t, p) == Ok(Meaning(v), p + |Text(v)|)
    decreases v, 0
  {
    hide ParseArray, ParseObject, ParseString, ParseNumber, ElementsText, MembersText, Quoted, Visible, Unescape,
      ValidElements, ValidMembers, IsLiteral, IsFraction, IsExponent, ElementMeanings, MemberMeanings;
    TextStart(v);
    FirstChar(t, p, Text(v));
    match v
    case Str(lit) => ParseStringOver(t, p, lit);
    case Num(_, _, _, _) => ParseNumberOver(t, p, v);
    case True =>
    case False =>
    case NullWord =>
    case EmptyArray(ws) => EmptyArrayOver(t, p, ws);
    case EmptyObject(ws) => EmptyObjectOver(t, p, ws);
    case Elements(es) => ArrayOver(t, p, es);
    case Members(ms) => ObjectOver(t, p, ms);
  }

  lemma EmptyOver(t: string, p: nat, ws: string, open: char, close: char)
    requires At(t, p, [open] + (ws + [close])) && IsWs(ws) && !IsSpace(close) && close != '\0'
    ensures SkipWs(t, p + 1) == p + 1 + |ws| && Peek(t, p + 1 + |ws|) == close
  {
    AtConcat(t, p, [open], ws + [close]);
    AtConcat(t, p + 1, ws, [close]);
    AtChar(t, p + 1 + |ws|, close);
    SkipWsOver(t, p + 1, ws);
  }

  lemma EmptyArrayOver(t: string, p: nat, ws: string)
    requires At(t, p, Text(EmptyArray(ws))) && IsWs(ws) && Peek(t, p) == '['
    ensures ParseArray(t, p) == Ok(Meaning(EmptyArray(ws)), p + |ws| + 2)
  {
    EmptyOver(t, p, ws, '[', ']');
  }

  lemma EmptyObjectOver(t: string, p: nat, ws: string)
    requires At(t, p, Text(EmptyObject(ws))) && IsWs(ws) && Peek(t, p) == '{'
    ensures ParseObject(t, p) == Ok(Meaning(EmptyObject(ws)), p + |ws| + 2)
  {
    EmptyOver(t, p, ws, '{', '}');
  }

  lemma {:induction false} ArrayOver(t: string, p: nat, es: Elements)
    requires ValidElements(es) && At(t, p, Text(Value.Elements(es)))
    ensures Peek(t, p) == '['
    ensures ParseArray(t, p) == Ok(Meaning(Value.Elements(es)), p + |Text(Value.Elements(es))|)
    decreases es, 2
  {
    hide ParseArray, ParseElements, ElementsText, SkipWs;
    AtConcat(t, p, ['['], ElementsText(es));
    AtChar(t, p, '[');
    ElementsOver(t, p + 1, es);
    ArrayStep(t, p, ElementMeanings(es), p + 1 + |ElementsText(es)|);
  }

  lemma {:induction false} ElementsOver(t: string, p: nat, es: Elements)
    requires ValidElements(es) && At(t, p, ElementsText(es))
    ensures ParseElements(t, p) == Ok(ElementMeanings(es), p + |ElementsText(es)|)
    ensures StartsValue(Peek(t, SkipWs(t, p)))
    decreases es, 1
  {
    hide ParseElements, SkipWs, ParseValue, Text, Valid, StartsValue, Delimits, IsWs, Peek;
    var e := es.e;
    TextStart(e.value);
    SlotPieces(t, p, e.before, Text(e.value), e.after, ElementsTail(es));
    var a := p + |e.before|;
    var b := a + |Text(e.value)|;
    var c := b + |e.after|;
    ValueOver(t, a, e.value);
    ElementsStep(t, p, Meaning(e.value), b);
    if es.MoreElements? {
      AtConcat(t, c, [','], ElementsText(es.more));
      ElementsOver(t, c + 1, es.more);
    }
  }

  lemma KeyPieces(t: string, p: nat, m: Member, rest: string)
    requires ValidMember(m)
    requires At(t, p, m.before + (Quoted(m.key) + (m.beforeColon + ([':'] + rest))))
    ensures var a := p + |m.before|; var b := a + |Quoted(m.key)|; var c := b + |m.beforeColon|;
      && SkipWs(t, p) == a && Peek(t, a) == '"' && ParseString(t, a) == Ok(Visible(Unescape(m.key)), b)
      && SkipWs(t, b) == c && Peek(t, c) == ':' && At(t, c + 1, rest)
  {
    hide SkipWs, ParseString, Valid, Visible, Unescape, IsLiteral, Quoted, IsWs, At;
    var a := p + |m.before|;
    var b := a + |Quoted(m.key)|;
    var c := b + |m.beforeColon|;
    AtConcat(t, p, m.before, Quoted(m.key) + (m.beforeColon + ([':'] + rest)));
    AtConcat(t, a, Quoted(m.key), m.beforeColon + ([':'] + rest));
    AtConcat(t, b, m.beforeColon, [':'] + rest);
    AtConcat(t, c, [':'], rest);
    AtChar(t, c, ':');
    QuotedAt(t, a, m.key);
    SkipWsOver(t, p, m.before);
    ParseStringOver(t, a, m.key);
    SkipWsOver(t, b, m.beforeColon);
  }

  lemma {:induction false} MemberOver(t: string, p: nat, m: Member, tail: string) returns (e: nat)
    requires ValidMember(m)
    requires At(t, p, m.before + (Quoted(m.key) + (m.beforeColon + ([':'] +
      (m.afterColon + (Text(m.value) + (m.after + tail)))))))
    requires |tail| > 0 && (tail[0] == ',' || tail[0] == '}')
    ensures e + |m.after| + |tail| ==
      p + |m.before + (Quoted(m.key) + (m.beforeColon + ([':'] + (m.afterColon + (Text(m.value) + (m.after + tail))))))|
    ensures ParseMember(t, p) == Ok(MemberMeaning(m), e)
    ensures e + |m.after| <= |t| && SkipWs(t, e) == e + |m.after| && At(t, e + |m.after|, tail) && Peek(t, e + |m.after|) == tail[0]
    ensures Peek(t, SkipWs(t, p)) == '"'
    decreases m, 1
  {
    hide ParseMember, SkipWs, ParseValue, ParseString, Text, Valid, Visible, Unescape, Quoted, IsLiteral,
      At, Peek, StartsValue, Delimits, IsWs, Meaning;
    TextStart(m.value);
    KeyPieces(t, p, m, m.afterColon + (Text(m.value) + (m.after + tail)));
    var b := p + |m.before| + |Quoted(m.key)|;
    var c := b + |m.beforeColon|;
    SlotPieces(t, c + 1, m.afterColon, Text(m.value), m.after, tail);
    e := c + 1 + |m.afterColon| + |Text(m.value)|;
    ValueOver(t, c + 1 + |m.afterColon|, m.value);
    MemberStep(t, p, Visible(Unescape(m.key)), b, Meaning(m.value), e);
  }

  lemma {:induction false} MembersOver(t: string, p: nat, ms: Members)
    requires ValidMembers(ms) && At(t, p, MembersText(ms))
    ensures ParseMembers(t, p) == Ok(MemberMeanings(ms), p + |MembersText(ms)|)
    ensures Peek(t, SkipWs(t, p)) == '"'
    decreases ms, 1
  {
    hide ParseMembers, ParseMember, SkipWs, ParseValue, Text, ValidMember, Quoted, MemberMeaning, Peek;
    var e := MemberOver(t, p, ms.m, MembersTail(ms));
    MembersStep(t, p, MemberMeaning(ms.m), e);
    if ms.MoreMembers? {
      AtConcat(t, e + |ms.m.after|, [','], MembersText(ms.more));
      MembersOver(t, e + |ms.m.after| + 1, ms.more);
    }
  }

  lemma {:induction false} ObjectOver(t: string, p: nat, ms: Members)
    requires ValidMembers(ms) && At(t, p, Text(Value.Members(ms)))
    ensures Peek(t, p) == '{'
    ensures ParseObject(t, p) == Ok(Meaning(Value.Members(ms)), p + |Text(Value.Members(ms))|)
    decreases ms, 2
  {
    hide ParseObject, ParseMembers, MembersText, SkipWs;
    AtConcat(t, p, ['{'], MembersText(ms));
    AtChar(t, p, '{');
    MembersOver(t, p + 1, ms);
    ObjectStep(t, p, MemberMeanings(ms), p + 1 + |MembersText(ms)|);
  }

  // ----- documents -----

  lemma DocumentParts(t: string, a: nat, v: Tree, b: nat)
    requires a <= |t| && b <= |t| && SkipWs(t, 0) == a && ParseValue(t, a) == Ok(v, b) && SkipWs(t, b) == |t|
    ensures ParseDocument(t) == Some(Branch(Document, [v]))
  {
    hide SkipWs, ParseValue;
  }

  lemma DocumentPieces(before: string, v: Value, after: string)
    requires IsWs(before) && Valid(v) && IsWs(after)
    ensures var t := before + (Text(v) + after); var a := |before|; var b := a + |Text(v)|;
      && At(t, a, Text(v)) && |t| == b + |after| && Delimits(Peek(t, b))
      && SkipWs(t, 0) == a && SkipWs(t, b) == |t|
  {
    hide SkipWs, Text, Valid, IsWs, At;
    var t := before + (Text(v) + after);
    var a := |before|;
    var b := a + |Text(v)|;
    AtAll(t);
    AtConcat(t, 0, before, Text(v) + after);
    AtConcat(t, a, Text(v), after);
    TextStart(v);
    FirstChar(t, a, Text(v));
    SkipWsOver(t, 0, before);
    WsThenDelimiter(t, b, after);
    SkipWsOver(t, b, after);
  }

  /** Any rendering of any value, with any white space around it, is read back as that value. */
  lemma DocumentRoundTrip(before: string, v: Value, after: string)
    requires IsWs(before) && Valid(v) && IsWs(after)
    ensures ParseDocument(before + (Text(v) + after)) == Some(Branch(Document, [Meaning(v)]))
  {
    hide SkipWs, ParseValue, ParseDocument, Text, Valid, IsWs, At, Peek, Delimits, Meaning;
    var t := before + (Text(v) + after);
    DocumentPieces(before, v, after);
    ValueOver(t, |before|, v);
    DocumentParts(t, |before|, Meaning(v), |before| + |Text(v)|);
  }
}
