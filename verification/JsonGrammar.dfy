/**
 The language that core/src/json.c accepts, as concrete syntax trees: every choice of white
 space, of escapes and of number forms is a different tree with the same meaning.
 */
module JsonGrammar {
  import opened CStrings
  import opened Wrappers
  import opened JsonTokens
  import opened JsonText

  datatype Value =
    | Str(lit: string)
    | Num(minus: string, whole: string, frac: string, exp: string)
    | True
    | False
    | NullWord
    | EmptyArray(ws: string)
    | Elements(elements: Elements)
    | EmptyObject(ws: string)
    | Members(members: Members)

  datatype Elements = LastElement(e: Element) | MoreElements(e: Element, more: Elements)
  datatype Element = Element(before: string, value: Value, after: string)
  datatype Members = LastMember(m: Member) | MoreMembers(m: Member, more: Members)
  datatype Member = Member(before: string, key: string, beforeColon: string, afterColon: string, value: Value, after: string)

  // ----- well-formedness -----

  /** Control characters other than NUL, and the space, by their codes. */
  predicate IsWs(s: string) {
    forall i :: 0 <= i < |s| ==> 0 < s[i] as int <= 0x20
  }

  predicate AllDigits(s: string) {
    |s| > 0 && forall i :: 0 <= i < |s| ==> 0x30 <= s[i] as int <= 0x39
  }

  /** What may stand between quotes: no lone quote, no backslash without a character behind it. */
  predicate IsLiteral(s: string) {
    |s| == 0 ||
    (if s[0] == '\\' then |s| > 1 && s[1] != '\0' && IsLiteral(s[2..])
     else s[0] != '\0' && s[0] != '"' && IsLiteral(s[1..]))
  }

  predicate IsInteger(s: string) {
    s == "0" || (AllDigits(s) && s[0] != '0')
  }

  predicate IsFraction(s: string) {
    s == "" || (s[0] == '.' && AllDigits(s[1..]))
  }

  predicate IsExponent(s: string) {
    s == "" || ((s[0] == 'e' || s[0] == 'E') &&
      (if |s| > 1 && (s[1] == '+' || s[1] == '-') then AllDigits(s[2..]) else AllDigits(s[1..])))
  }

  predicate Valid(v: Value) {
    match v
    case Str(lit) => IsLiteral(lit)
    case Num(minus, i, f, e) => (minus == "" || minus == "-") && IsInteger(i) && IsFraction(f) && IsExponent(e)
    case EmptyArray(ws) => IsWs(ws)
    case Elements(es) => ValidElements(es)
    case EmptyObject(ws) => IsWs(ws)
    case Members(ms) => ValidMembers(ms)
    case _ => true
  }

  predicate ValidElement(e: Element) {
    IsWs(e.before) && Valid(e.value) && IsWs(e.after)
  }

  predicate ValidElements(es: Elements) {
    ValidElement(es.e) && (es.MoreElements? ==> ValidElements(es.more))
  }

  predicate ValidMember(m: Member) {
    IsWs(m.before) && IsLiteral(m.key) && IsWs(m.beforeColon) && IsWs(m.afterColon) && Valid(m.value) && IsWs(m.after)
  }

  predicate ValidMembers(ms: Members) {
    ValidMember(ms.m) && (ms.MoreMembers? ==> ValidMembers(ms.more))
  }

  // ----- the text of a tree -----

  function Quoted(lit: string): (q: string)
    ensures |q| == |lit| + 2 && q[0] == '"'
  {
    ['"'] + (lit + ['"'])
  }

  function Text(v: Value): string {
    match v
    case Str(lit) => Quoted(lit)
    case Num(minus, i, f, e) => minus + (i + (f + e))
    case True => "true"
    case False => "false"
    case NullWord => "null"
    case EmptyArray(ws) => ['['] + (ws + [']'])
    case Elements(es) => ['['] + ElementsText(es)
    case EmptyObject(ws) => ['{'] + (ws + ['}'])
    case Members(ms) => ['{'] + MembersText(ms)
  }

  function ElementsText(es: Elements): string
    decreases es, 1
  {
    es.e.before + (Text(es.e.value) + (es.e.after + ElementsTail(es)))
  }

  function ElementsTail(es: Elements): string
    decreases es, 0
  {
    match es
    case LastElement(_) => [']']
    case MoreElements(_, more) => [','] + ElementsText(more)
  }

  /** The members: key, colon and value with their white space. */
  function MembersText(ms: Members): string
    decreases ms, 1
  {
    var m := ms.m;
    m.before + (Quoted(m.key) + (m.beforeColon + ([':'] +
      (m.afterColon + (Text(m.value) + (m.after + MembersTail(ms)))))))
  }

  function MembersTail(ms: Members): string
    decreases ms, 0
  {
    match ms
    case LastMember(_) => ['}']
    case MoreMembers(_, more) => [','] + MembersText(more)
  }

  // ----- the meaning of a tree -----

  function Meaning(v: Value): Tree {
    match v
    case Str(lit) => Leaf(String, Visible(Unescape(lit)))
    case Num(_, _, _, _) => Leaf(Number, Text(v))
    case True => Leaf(Boolean, "true")
    case False => Leaf(Boolean, "false")
    case NullWord => Leaf(Null, "null")
    case EmptyArray(_) => Branch(Array, [])
    case Elements(es) => Branch(Array, ElementMeanings(es))
    case EmptyObject(_) => Branch(Object, [])
    case Members(ms) => Branch(Object, MemberMeanings(ms))
  }

  function ElementMeanings(es: Elements): seq<Tree> {
    match es
    case LastElement(e) => [Meaning(e.value)]
    case MoreElements(e, more) => [Meaning(e.value)] + ElementMeanings(more)
  }

  function MemberMeaning(m: Member): Tree {
    Named(Meaning(m.value), Visible(Unescape(m.key)))
  }

  function MemberMeanings(ms: Members): seq<Tree> {
    match ms
    case LastMember(m) => [MemberMeaning(m)]
    case MoreMembers(m, more) => [MemberMeaning(m)] + MemberMeanings(more)
  }

  // ----- reading tokens that are there -----

  lemma {:induction false} SkipWsOver(t: string, p: nat, ws: string)
    requires At(t, p, ws) && IsWs(ws) && !IsSpace(Peek(t, p + |ws|))
    ensures SkipWs(t, p) == p + |ws|
  {
    SkippedWs(t, p);
    forall i | p <= i < p + |ws| ensures IsSpace(t[i]) {
      assert t[p..p + |ws|][i - p] == t[i];
    }
  }

  lemma SkipDigitsOver(t: string, p: nat, d: string)
    requires At(t, p, d) && AllDigits(d) && !IsDigit(Peek(t, p + |d|))
    ensures Digits(t, p) == Some(p + |d|)
  {
    SkippedDigits(t, p);
    forall i | p <= i < p + |d| ensures IsDigit(t[i]) {
      assert t[p..p + |d|][i - p] == t[i];
    }
  }

  lemma {:induction false} ScanStringOver(t: string, p: nat, lit: string)
    requires At(t, p, lit + ['"']) && IsLiteral(lit)
    ensures ScanString(t, p) == p + |lit|
    decreases |lit|
  {
    var s := lit + ['"'];
    assert t[p..p + |s|][0] == t[p] == s[0];
    if |lit| > 0 {
      if lit[0] == '\\' {
        assert t[p..p + |s|][1] == t[p + 1] == s[1];
        assert s[2..] == lit[2..] + ['"'] && t[p..p + |s|][2..] == t[p + 2..p + |s|];
        ScanStringOver(t, p + 2, lit[2..]);
      } else {
        assert s[1..] == lit[1..] + ['"'] && t[p..p + |s|][1..] == t[p + 1..p + |s|];
        ScanStringOver(t, p + 1, lit[1..]);
      }
    }
  }

  lemma ParseStringOver(t: string, p: nat, lit: string)
    requires At(t, p, Quoted(lit)) && IsLiteral(lit)
    ensures ParseString(t, p) == Ok(Visible(Unescape(lit)), p + |lit| + 2)
  {
    hide ParseString, ScanString, Unescape, Visible, IsLiteral, Quoted, At, Peek, IsSpace;
    QuotedParts(t, p, lit);
    ScanStringOver(t, p + 1, lit);
    ParseStringAt(t, p, lit);
  }

  lemma QuotedParts(t: string, p: nat, lit: string)
    requires At(t, p, Quoted(lit))
    ensures p + |lit| + 2 <= |t| && t[p] == '"' && t[p + 1 + |lit|] == '"' && t[p + 1..p + 1 + |lit|] == lit
    ensures At(t, p + 1, lit + ['"'])
  {
    hide At, Quoted;
    QuotedAt(t, p, lit);
  }

  lemma QuotedAt(t: string, p: nat, lit: string)
    ensures At(t, p, Quoted(lit)) <==>
      p + |lit| + 2 <= |t| && t[p] == '"' && t[p + 1..p + 1 + |lit|] == lit && t[p + 1 + |lit|] == '"'
    ensures At(t, p, Quoted(lit)) ==> At(t, p + 1, lit + ['"'])
  {
    AtConcat(t, p, ['"'], lit + ['"']);
    AtConcat(t, p + 1, lit, ['"']);
    AtChar(t, p, '"');
    AtChar(t, p + 1 + |lit|, '"');
  }

  /** No character of a number and no white space: what may follow a number. */
  predicate EndsNumber(c: char) {
    !IsDigit(c) && c != '.' && c != 'e' && c != 'E'
  }

  lemma ParseNumberOver(t: string, p: nat, v: Value)
    requires v.Num? && Valid(v) && At(t, p, Text(v)) && EndsNumber(Peek(t, p + |Text(v)|))
    ensures ParseNumber(t, p) == Ok(Text(v), p + |Text(v)|)
  {
    hide IntegerPart, FractionPart, ExponentPart, IsInteger, IsFraction, IsExponent, Peek;
    var a := p + |v.minus|;
    var b := a + |v.whole|;
    var c := b + |v.frac|;
    AtConcat(t, p, v.minus, v.whole + (v.frac + v.exp));
    AtConcat(t, a, v.whole, v.frac + v.exp);
    AtConcat(t, b, v.frac, v.exp);
    ExponentOver(t, c, v.exp);
    FractionOver(t, b, v.frac);
    IntegerOver(t, p, v.minus, v.whole);
  }

  lemma IntegerOver(t: string, p: nat, minus: string, i: string)
    requires minus == "" || minus == "-"
    requires At(t, p, minus) && At(t, p + |minus|, i) && IsInteger(i) && !IsDigit(Peek(t, p + |minus| + |i|))
    ensures IntegerPart(t, p) == Some(p + |minus| + |i|)
  {
    var a := p + |minus|;
    assert t[a..a + |i|][0] == t[a] == i[0];
    assert minus == "-" ==> t[p..p + 1][0] == t[p];
    if i != "0" {
      SkipDigitsOver(t, a, i);
    }
  }

  lemma FractionOver(t: string, p: nat, f: string)
    requires At(t, p, f) && IsFraction(f) && !IsDigit(Peek(t, p + |f|)) && Peek(t, p + |f|) != '.'
    ensures FractionPart(t, p) == Some(p + |f|)
    ensures !IsDigit(Peek(t, p))
  {
    if f != "" {
      assert t[p..p + |f|][0] == t[p] == '.';
      assert t[p..p + |f|][1..] == t[p + 1..p + |f|];
      SkipDigitsOver(t, p + 1, f[1..]);
    }
  }

  lemma ExponentOver(t: string, p: nat, e: string)
    requires At(t, p, e) && IsExponent(e) && EndsNumber(Peek(t, p + |e|))
    ensures ExponentPart(t, p) == Some(p + |e|)
    ensures !IsDigit(Peek(t, p)) && Peek(t, p) != '.'
  {
    if e != "" {
      assert t[p..p + |e|][0] == t[p] == e[0];
      assert t[p..p + |e|][1] == t[p + 1] == e[1];
      if e[1] == '+' || e[1] == '-' {
        assert t[p..p + |e|][2..] == t[p + 2..p + |e|];
        SkipDigitsOver(t, p + 2, e[2..]);
      } else {
        assert t[p..p + |e|][1..] == t[p + 1..p + |e|];
        SkipDigitsOver(t, p + 1, e[1..]);
      }
    }
  }
}
