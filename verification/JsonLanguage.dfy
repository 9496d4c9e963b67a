/** The other direction: whatever the parser accepts is a rendering, and its result is the meaning. */
module JsonLanguage {
  import opened CStrings
  import opened Wrappers
  import opened JsonTokens
  import opened JsonText
  import opened JsonGrammar
  import opened JsonRoundTrip

  lemma SkippedIsWs(t: string, p: nat)
    requires p <= |t|
    ensures IsWs(t[p..SkipWs(t, p)]) && At(t, p, t[p..SkipWs(t, p)])
  {
    SkippedWs(t, p);
  }

  // ----- strings -----

  lemma {:induction false} ScannedIsLiteral(t: string, p: nat)
    requires p <= |t| && Peek(t, ScanString(t, p)) == '"'
    ensures IsLiteral(t[p..ScanString(t, p)])
    decreases |t| - p
  {
    var q := ScanString(t, p);
    if p < q {
      if t[p] == '\\' && Peek(t, p + 1) != '\0' {
        ScannedIsLiteral(t, p + 2);
        assert t[p..q][2..] == t[p + 2..q];
      } else {
        ScannedIsLiteral(t, p + 1);
        assert t[p..q][1..] == t[p + 1..q];
      }
    }
  }

  lemma ExplainString(t: string, p: nat) returns (lit: string)
    requires p <= |t| && ParseString(t, p).Ok?
    ensures IsLiteral(lit) && At(t, p, Quoted(lit))
    ensures ParseString(t, p) == Ok(Visible(Unescape(lit)), p + |Quoted(lit)|)
  {
    hide Unescape, Visible, ScanString, IsLiteral, Quoted, At;
    var q := ScanString(t, p + 1);
    ScannedIsLiteral(t, p + 1);
    lit := t[p + 1..q];
    QuotedAt(t, p, lit);
  }

  // ----- numbers -----

  lemma ScannedDigits(t: string, p: nat)
    requires p <= |t| && Digits(t, p).Some?
    ensures AllDigits(t[p..Digits(t, p).value])
  {
    SkippedDigits(t, p);
  }

  lemma IntegerPieces(t: string, p: nat)
    requires p <= |t| && IntegerPart(t, p).Some?
    ensures var s := if Peek(t, p) == '-' then p + 1 else p;
      s < IntegerPart(t, p).value && IsInteger(t[s..IntegerPart(t, p).value])
  {
    var s := if Peek(t, p) == '-' then p + 1 else p;
    if Peek(t, s) != '0' {
      ScannedDigits(t, s);
      assert t[s..IntegerPart(t, p).value][0] == t[s];
    }
  }

  lemma FractionPieces(t: string, p: nat)
    requires p <= |t| && FractionPart(t, p).Some?
    ensures IsFraction(t[p..FractionPart(t, p).value])
  {
    var q := FractionPart(t, p).value;
    if Peek(t, p) == '.' {
      ScannedDigits(t, p + 1);
      assert t[p..q][1..] == t[p + 1..q] && t[p..q][0] == '.';
    }
  }

  lemma ExponentPieces(t: string, p: nat)
    requires p <= |t| && ExponentPart(t, p).Some?
    ensures IsExponent(t[p..ExponentPart(t, p).value])
  {
    var q := ExponentPart(t, p).value;
    if Peek(t, p) == 'e' || Peek(t, p) == 'E' {
      var s := if Peek(t, p + 1) == '+' || Peek(t, p + 1) == '-' then p + 2 else p + 1;
      ScannedDigits(t, s);
      assert t[p..q][0] == t[p] && t[p..q][1] == t[p + 1];
      assert t[p..q][s - p..] == t[s..q];
    }
  }

  lemma PeekedMinus(t: string, p: nat)
    requires p <= |t| && Peek(t, p) == '-'
    ensures p < |t| && t[p..p + 1] == "-"
  {
  }

  lemma FourSlices(t: string, p: nat, s: nat, a: nat, b: nat, c: nat)
    requires p <= s <= a <= b <= c <= |t|
    ensures t[p..s] + (t[s..a] + (t[a..b] + t[b..c])) == t[p..c]
  {
    assert t[a..b] + t[b..c] == t[a..c];
    assert t[s..a] + t[a..c] == t[s..c];
  }

  lemma ExplainNumber(t: string, p: nat) returns (v: Value)
    requires p <= |t| && ParseNumber(t, p).Ok?
    ensures v.Num? && Valid(v) && At(t, p, Text(v))
    ensures ParseNumber(t, p) == Ok(Text(v), p + |Text(v)|)
  {
    hide IntegerPart, FractionPart, ExponentPart, IsInteger, IsFraction, IsExponent, Peek;
    if Peek(t, p) == '-' {
      PeekedMinus(t, p);
    }
    var s := if Peek(t, p) == '-' then p + 1 else p;
    var a := IntegerPart(t, p).value;
    var b := FractionPart(t, a).value;
    var c := ExponentPart(t, b).value;
    IntegerPieces(t, p);
    FractionPieces(t, a);
    ExponentPieces(t, b);
    v := Num(t[p..s], t[s..a], t[a..b], t[b..c]);
    FourSlices(t, p, s, a, b, c);
  }

  // ----- values -----

  lemma {:induction false} ExplainValue(t: string, p: nat) returns (v: Value)
    requires p <= |t| && ParseValue(t, p).Ok?
    ensures Valid(v) && At(t, SkipWs(t, p), Text(v))
    ensures ParseValue(t, p) == Ok(Meaning(v), SkipWs(t, p) + |Text(v)|)
    decreases |t| - p, 1
  {
    hide SkipWs, ParseString, ParseNumber, ParseArray, ParseObject, Unescape, Visible, Quoted;
    var s := SkipWs(t, p);
    var c := Peek(t, s);
    if c == '{' {
      v := ExplainObject(t, s);
    } else if c == '[' {
      v := ExplainArray(t, s);
    } else if c == '"' {
      var lit := ExplainString(t, s);
      v := Str(lit);
    } else if c == '-' || IsDigit(c) {
      v := ExplainNumber(t, s);
    } else if At(t, s, "true") {
      v := True;
    } else if At(t, s, "false") {
      v := False;
    } else {
      v := NullWord;
    }
  }

  lemma {:induction false} ExplainArray(t: string, p: nat) returns (v: Value)
    requires p <= |t| && Peek(t, p) == '[' && ParseArray(t, p).Ok?
    ensures Valid(v) && At(t, p, Text(v))
    ensures ParseArray(t, p) == Ok(Meaning(v), p + |Text(v)|)
    decreases |t| - p, 0
  {
    hide SkipWs, ParseElements, ElementsText, ValidElements, ElementMeanings, At;
    var s := SkipWs(t, p + 1);
    SkippedIsWs(t, p + 1);
    AtChar(t, p, '[');
    if Peek(t, s) == ']' {
      v := EmptyArray(t[p + 1..s]);
      AtChar(t, s, ']');
      AtConcat(t, p + 1, t[p + 1..s], [']']);
      AtConcat(t, p, ['['], t[p + 1..s] + [']']);
    } else {
      var es := ExplainElements(t, p + 1, s);
      v := Value.Elements(es);
      AtConcat(t, p, ['['], ElementsText(es));
    }
  }

  /** The elements from s on, where only blanks stand between p and s. */
  lemma {:induction false} ExplainElements(t: string, p: nat, s: nat) returns (es: Elements)
    requires p <= |t| && (s == p || s == SkipWs(t, p)) && s <= |t| && ParseElements(t, s).Ok?
    ensures ValidElements(es) && At(t, p, ElementsText(es))
    ensures ParseElements(t, s) == Ok(ElementMeanings(es), p + |ElementsText(es)|)
    decreases |t| - p, 2
  {
    hide SkipWs, ParseElements, ParseValue, Text, Valid, Meaning, IsWs, At;
    SkipWsTwice(t, p);
    var a := SkipWs(t, p);
    ElementsParts(t, s);
    var v := ExplainValue(t, a);
    var b := ParseValue(t, a).next;
    var c := SkipWs(t, b);
    SkippedIsWs(t, p);
    SkippedIsWs(t, b);
    var e := Element(t[p..a], v, t[b..c]);
    if Peek(t, c) == ',' {
      var more := ExplainElements(t, c + 1, c + 1);
      es := MoreElements(e, more);
      AtChar(t, c, ',');
      AtConcat(t, c, [','], ElementsText(more));
    } else {
      es := LastElement(e);
      AtChar(t, c, ']');
    }
    AtConcat(t, b, e.after, ElementsTail(es));
    AtConcat(t, a, Text(v), e.after + ElementsTail(es));
    AtConcat(t, p, e.before, Text(v) + (e.after + ElementsTail(es)));
  }

  /** What the success of the list parser says about its parts. */
  lemma ElementsParts(t: string, p: nat)
    requires p <= |t| && ParseElements(t, p).Ok?
    ensures var v := ParseValue(t, SkipWs(t, p));
      && v.Ok?
      && (var c := SkipWs(t, v.next);
          if Peek(t, c) == ',' then
            ParseElements(t, c + 1).Ok? &&
            ParseElements(t, p) == Ok([v.value] + ParseElements(t, c + 1).value, ParseElements(t, c + 1).next)
          else Peek(t, c) == ']' && ParseElements(t, p) == Ok([v.value], c + 1))
  {
    hide SkipWs, ParseValue;
  }

  lemma {:induction false} ExplainObject(t: string, p: nat) returns (v: Value)
    requires p <= |t| && Peek(t, p) == '{' && ParseObject(t, p).Ok?
    ensures Valid(v) && At(t, p, Text(v))
    ensures ParseObject(t, p) == Ok(Meaning(v), p + |Text(v)|)
    decreases |t| - p, 0
  {
    hide SkipWs, ParseMembers, MembersText, ValidMembers, MemberMeanings, At;
    var s := SkipWs(t, p + 1);
    SkippedIsWs(t, p + 1);
    AtChar(t, p, '{');
    if Peek(t, s) == '}' {
      v := EmptyObject(t[p + 1..s]);
      AtChar(t, s, '}');
      AtConcat(t, p + 1, t[p + 1..s], ['}']);
      AtConcat(t, p, ['{'], t[p + 1..s] + ['}']);
    } else {
      var ms := ExplainMembers(t, p + 1, s);
      v := Value.Members(ms);
      AtConcat(t, p, ['{'], MembersText(ms));
    }
  }

  /** What the success of the member parser says about its parts. */
  lemma MemberParts(t: string, p: nat)
    requires p <= |t| && ParseMember(t, p).Ok?
    ensures var key := ParseString(t, SkipWs(t, p));
      && key.Ok?
      && (var c := SkipWs(t, key.next);
          && Peek(t, c) == ':'
          && (var v := ParseValue(t, SkipWs(t, c + 1));
              v.Ok? && ParseMember(t, p) == Ok(Named(v.value, key.value), v.next)))
  {
    hide SkipWs, ParseValue, ParseString;
  }

  lemma MembersParts(t: string, p: nat)
    requires p <= |t| && ParseMembers(t, p).Ok?
    ensures var v := ParseMember(t, p);
      && v.Ok?
      && (var c := SkipWs(t, v.next);
          if Peek(t, c) == ',' then
            ParseMembers(t, c + 1).Ok? &&
            ParseMembers(t, p) == Ok([v.value] + ParseMembers(t, c + 1).value, ParseMembers(t, c + 1).next)
          else Peek(t, c) == '}' && ParseMembers(t, p) == Ok([v.value], c + 1))
  {
    hide SkipWs, ParseMember;
  }

  /** One member, with the white space up to e.after's start; its text but for what follows the value. */
  lemma {:induction false} ExplainMember(t: string, p: nat) returns (m: Member, e: nat)
    requires p <= |t| && ParseMember(t, p).Ok?
    ensures ValidMember(m) && e == ParseMember(t, p).next <= |t|
    ensures m.after == t[e..SkipWs(t, e)]
    ensures ParseMember(t, p) == Ok(MemberMeaning(m), e)
    ensures At(t, p, m.before + (Quoted(m.key) + (m.beforeColon + ([':'] + (m.afterColon + Text(m.value))))))
    ensures e == p + |m.before + (Quoted(m.key) + (m.beforeColon + ([':'] + (m.afterColon + Text(m.value)))))|
    decreases |t| - p, 2
  {
    hide SkipWs, ParseMember, ParseValue, ParseString, Text, Valid, Meaning, IsWs, At, Visible, Unescape, Quoted, IsLiteral;
    MemberParts(t, p);
    var a := SkipWs(t, p);
    var key := ExplainString(t, a);
    var b := a + |Quoted(key)|;
    var c := SkipWs(t, b);
    var d := SkipWs(t, c + 1);
    SkipWsTwice(t, c + 1);
    var v := ExplainValue(t, d);
    e := d + |Text(v)|;
    SkippedIsWs(t, p);
    SkippedIsWs(t, b);
    SkippedIsWs(t, c + 1);
    SkippedIsWs(t, e);
    AtChar(t, c, ':');
    m := Member(t[p..a], key, t[b..c], t[c + 1..d], v, t[e..SkipWs(t, e)]);
    FivePieces(t, p, a, b, c, d, m.before, Quoted(key), m.beforeColon, m.afterColon, Text(v));
  }

  lemma FivePieces(t: string, p: nat, a: nat, b: nat, c: nat, d: nat,
                   before: string, key: string, beforeColon: string, afterColon: string, value: string)
    requires a == p + |before| && b == a + |key| && c == b + |beforeColon| && d == c + 1 + |afterColon|
    requires At(t, p, before) && At(t, a, key) && At(t, b, beforeColon)
    requires At(t, c, [':']) && At(t, c + 1, afterColon) && At(t, d, value)
    ensures At(t, p, before + (key + (beforeColon + ([':'] + (afterColon + value)))))
    ensures d + |value| == p + |before + (key + (beforeColon + ([':'] + (afterColon + value))))|
  {
    hide At;
    AtConcat(t, c + 1, afterColon, value);
    AtConcat(t, c, [':'], afterColon + value);
    AtConcat(t, b, beforeColon, [':'] + (afterColon + value));
    AtConcat(t, a, key, beforeColon + ([':'] + (afterColon + value)));
    AtConcat(t, p, before, key + (beforeColon + ([':'] + (afterColon + value))));
  }

  lemma {:induction false} ExplainMembers(t: string, p: nat, s: nat) returns (ms: Members)
    requires p <= |t| && (s == p || s == SkipWs(t, p)) && s <= |t| && ParseMembers(t, s).Ok?
    ensures ValidMembers(ms) && At(t, p, MembersText(ms))
    ensures ParseMembers(t, s) == Ok(MemberMeanings(ms), p + |MembersText(ms)|)
    decreases |t| - p, 3
  {
    hide SkipWs, ParseMembers, ParseMember, Text, ValidMember, MemberMeaning, At, Quoted;
    MemberAfterWs(t, p);
    MembersParts(t, s);
    var m, e := ExplainMember(t, p);
    var c := SkipWs(t, e);
    AtSlice(t, e, c);
    if Peek(t, c) == ',' {
      var more := ExplainMembers(t, c + 1, c + 1);
      ms := MoreMembers(m, more);
      AtChar(t, c, ',');
      AtConcat(t, c, [','], MembersText(more));
    } else {
      ms := LastMember(m);
      AtChar(t, c, '}');
    }
    AtConcat(t, e, m.after, MembersTail(ms));
    MemberTextSplit(ms);
    AtConcat(t, p, m.before + (Quoted(m.key) + (m.beforeColon + ([':'] + (m.afterColon + Text(m.value))))),
      m.after + MembersTail(ms));
  }

  lemma MemberTextSplit(ms: Members)
    ensures var m := ms.m;
      MembersText(ms) == m.before + (Quoted(m.key) + (m.beforeColon + ([':'] + (m.afterColon + Text(m.value)))))
        + (m.after + MembersTail(ms))
  {
    hide Quoted, Text, MembersTail;
    var m := ms.m;
    var tail := m.after + MembersTail(ms);
    Regroup(m.before, Quoted(m.key), m.beforeColon, [':'], m.afterColon, Text(m.value), tail);
  }

  lemma Regroup(a: string, b: string, c: string, d: string, e: string, f: string, g: string)
    ensures a + (b + (c + (d + (e + (f + g))))) == a + (b + (c + (d + (e + f)))) + g
  {
  }

  // ----- documents -----

  /** t is some value with white space around it, and tree is what it means. */
  ghost predicate Denotes(t: string, tree: Tree, before: string, v: Value, after: string) {
    IsWs(before) && Valid(v) && IsWs(after) && t == before + (Text(v) + after)
      && tree == Branch(Document, [Meaning(v)])
  }

  /** The parser accepts exactly the texts of the grammar, and returns exactly their meaning. */
  lemma ParseDocumentIff(t: string, tree: Tree)
    requires '\0' !in t
    ensures ParseDocument(t) == Some(tree) <==> exists before, v, after :: Denotes(t, tree, before, v, after)
  {
    if before, v, after :| Denotes(t, tree, before, v, after) {
      DocumentRoundTrip(before, v, after);
    }
    if ParseDocument(t) == Some(tree) {
      var before, v, after := ExplainDocument(t, tree);
    }
  }

  lemma ExplainDocument(t: string, tree: Tree) returns (before: string, v: Value, after: string)
    requires '\0' !in t && ParseDocument(t) == Some(tree)
    ensures Denotes(t, tree, before, v, after)
  {
    hide SkipWs, ParseValue, Text, Valid, Meaning;
    SkipWsTwice(t, 0);
    var a := SkipWs(t, 0);
    v := ExplainValue(t, a);
    var b := a + |Text(v)|;
    SkippedIsWs(t, 0);
    SkippedIsWs(t, b);
    before, after := t[0..a], t[b..SkipWs(t, b)];
    assert SkipWs(t, b) == |t|;
  }
}
