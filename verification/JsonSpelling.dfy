/**
 JSON values whose strings and keys are spelled out unit by unit, and the tree that they denote
 without any reference to how the parser unescapes.
 */
module JsonSpelling {
  import opened CStrings
  import opened Wrappers
  import opened JsonTokens
  import opened JsonText
  import G = JsonGrammar
  import opened JsonEscapes
  import JsonLanguage
  import JsonRoundTrip

  /** A value with the white space, the number forms and the escapes that were chosen to write it. */
  datatype Spelling =
    | Text(units: seq<Unit>)
    | Number(minus: string, whole: string, frac: string, exp: string)
    | True
    | False
    | NullWord
    | EmptyArray(ws: string)
    | Elements(elements: Elements)
    | EmptyObject(ws: string)
    | Members(members: Members)

  datatype Elements =
    | LastElement(before: string, value: Spelling, after: string)
    | MoreElements(before: string, value: Spelling, after: string, more: Elements)

  datatype Members =
    | LastMember(before: string, key: seq<Unit>, beforeColon: string, afterColon: string, value: Spelling, after: string)
    | MoreMembers(before: string, key: seq<Unit>, beforeColon: string, afterColon: string, value: Spelling, after: string,
                  more: Members)

  predicate Valid(s: Spelling) {
    match s
    case Text(us) => ValidUnits(us)
    case Number(minus, i, f, e) => (minus == "" || minus == "-") && G.IsInteger(i) && G.IsFraction(f) && G.IsExponent(e)
    case EmptyArray(ws) => G.IsWs(ws)
    case Elements(es) => ValidElements(es)
    case EmptyObject(ws) => G.IsWs(ws)
    case Members(ms) => ValidMembers(ms)
    case _ => true
  }

  predicate ValidElements(es: Elements) {
    G.IsWs(es.before) && Valid(es.value) && G.IsWs(es.after) && (es.MoreElements? ==> ValidElements(es.more))
  }

  predicate ValidMembers(ms: Members) {
    && G.IsWs(ms.before) && ValidUnits(ms.key) && G.IsWs(ms.beforeColon) && G.IsWs(ms.afterColon)
    && Valid(ms.value) && G.IsWs(ms.after) && (ms.MoreMembers? ==> ValidMembers(ms.more))
  }

  // ----- what is written -----

  function Rendered(s: Spelling): G.Value {
    match s
    case Text(us) => G.Str(Written(us))
    case Number(minus, i, f, e) => G.Num(minus, i, f, e)
    case True => G.True
    case False => G.False
    case NullWord => G.NullWord
    case EmptyArray(ws) => G.EmptyArray(ws)
    case Elements(es) => G.Value.Elements(RenderedElements(es))
    case EmptyObject(ws) => G.EmptyObject(ws)
    case Members(ms) => G.Value.Members(RenderedMembers(ms))
  }

  function RenderedElements(es: Elements): G.Elements {
    var e := G.Element(es.before, Rendered(es.value), es.after);
    match es
    case LastElement(_, _, _) => G.LastElement(e)
    case MoreElements(_, _, _, more) => G.MoreElements(e, RenderedElements(more))
  }

  function RenderedMembers(ms: Members): G.Members {
    var m := G.Member(ms.before, Written(ms.key), ms.beforeColon, ms.afterColon, Rendered(ms.value), ms.after);
    match ms
    case LastMember(_, _, _, _, _, _) => G.LastMember(m)
    case MoreMembers(_, _, _, _, _, _, more) => G.MoreMembers(m, RenderedMembers(more))
  }

  // ----- what is denoted -----

  function Denotation(s: Spelling): Tree {
    match s
    case Text(us) => Leaf(String, Denoted(us))
    case Number(minus, i, f, e) => Leaf(Kind.Number, minus + (i + (f + e)))
    case True => Leaf(Boolean, "true")
    case False => Leaf(Boolean, "false")
    case NullWord => Leaf(Null, "null")
    case EmptyArray(_) => Branch(Array, [])
    case Elements(es) => Branch(Array, ElementDenotations(es))
    case EmptyObject(_) => Branch(Object, [])
    case Members(ms) => Branch(Object, MemberDenotations(ms))
  }

  function ElementDenotations(es: Elements): seq<Tree> {
    [Denotation(es.value)] + if es.LastElement? then [] else ElementDenotations(es.more)
  }

  function MemberDenotations(ms: Members): seq<Tree> {
    [Named(Denotation(ms.value), Denoted(ms.key))] + if ms.LastMember? then [] else MemberDenotations(ms.more)
  }

  /** No string and no key denotes a NUL. */
  predicate NulFree(s: Spelling) {
    match s
    case Text(us) => '\0' !in Denoted(us)
    case Elements(es) => NulFreeElements(es)
    case Members(ms) => NulFreeMembers(ms)
    case _ => true
  }

  predicate NulFreeElements(es: Elements) {
    NulFree(es.value) && (es.MoreElements? ==> NulFreeElements(es.more))
  }

  predicate NulFreeMembers(ms: Members) {
    '\0' !in Denoted(ms.key) && NulFree(ms.value) && (ms.MoreMembers? ==> NulFreeMembers(ms.more))
  }

  // ----- proofs -----

  lemma {:induction false} RenderedIsValid(s: Spelling)
    requires Valid(s)
    ensures G.Valid(Rendered(s))
    decreases s
  {
    hide ValidUnits, G.IsLiteral, G.IsInteger, G.IsFraction, G.IsExponent, G.IsWs, Written;
    match s
    case Text(us) => UnitsAreLiteral(us);
    case Elements(es) => RenderedElementsAreValid(es);
    case Members(ms) => RenderedMembersAreValid(ms);
    case _ =>
  }

  lemma UnitsAreLiteral(us: seq<Unit>)
    requires ValidUnits(us)
    ensures G.IsLiteral(Written(us)) && Unescape(Written(us)) == Denoted(us)
  {
    hide ValidUnit;
    WrittenIsLiteral(us);
    UnescapeInvertsWriting(us);
  }

  lemma {:induction false} RenderedElementsAreValid(es: Elements)
    requires ValidElements(es)
    ensures G.ValidElements(RenderedElements(es))
    decreases es
  {
    hide Valid, G.Valid, Rendered, G.IsWs;
    RenderedIsValid(es.value);
    if es.MoreElements? {
      RenderedElementsAreValid(es.more);
    }
  }

  lemma {:induction false} RenderedMembersAreValid(ms: Members)
    requires ValidMembers(ms)
    ensures G.ValidMembers(RenderedMembers(ms))
    decreases ms
  {
    hide Valid, G.Valid, Rendered, G.IsWs, ValidUnits, G.IsLiteral, Written;
    RenderedIsValid(ms.value);
    UnitsAreLiteral(ms.key);
    if ms.MoreMembers? {
      RenderedMembersAreValid(ms.more);
    }
  }

  /** A C string shows a text in full exactly when there is no NUL in it. */
  lemma VisibleIff(s: string)
    ensures Visible(s) == s <==> '\0' !in s
  {
    if '\0' !in s {
      VisibleIsAll(s);
    } else {
      assert '\0' !in Visible(s);
    }
  }

  lemma {:induction false} MeaningIsDenotationIff(s: Spelling)
    requires Valid(s)
    ensures G.Meaning(Rendered(s)) == Denotation(s) <==> NulFree(s)
    decreases s
  {
    hide ValidUnits, Written, Denoted, Unescape, Visible, G.ElementMeanings, G.MemberMeanings, ElementDenotations,
      MemberDenotations, RenderedElements, RenderedMembers, ValidElements, ValidMembers;
    match s
    case Text(us) =>
      UnitsAreLiteral(us);
      VisibleIff(Denoted(us));
    case Elements(es) => ElementsDenoteIff(es);
    case Members(ms) => MembersDenoteIff(ms);
    case _ =>
  }

  lemma {:induction false} ElementsDenoteIff(es: Elements)
    requires ValidElements(es)
    ensures |G.ElementMeanings(RenderedElements(es))| == |ElementDenotations(es)|
    ensures G.ElementMeanings(RenderedElements(es)) == ElementDenotations(es) <==> NulFreeElements(es)
    decreases es
  {
    hide G.Meaning, Denotation, Rendered, NulFree, Valid;
    MeaningIsDenotationIff(es.value);
    if es.MoreElements? {
      ElementsDenoteIff(es.more);
      SameHeadAndTail(G.Meaning(Rendered(es.value)), G.ElementMeanings(RenderedElements(es.more)),
        Denotation(es.value), ElementDenotations(es.more));
    } else {
      SameHeadAndTail(G.Meaning(Rendered(es.value)), [], Denotation(es.value), []);
    }
  }

  lemma SameHeadAndTail(x: Tree, xs: seq<Tree>, y: Tree, ys: seq<Tree>)
    ensures [x] + xs == [y] + ys <==> x == y && xs == ys
    ensures [x] + [] == [x] && [y] + [] == [y]
  {
    if [x] + xs == [y] + ys {
      assert ([x] + xs)[0] == ([y] + ys)[0];
      assert ([x] + xs)[1..] == xs && ([y] + ys)[1..] == ys;
    }
  }

  lemma {:induction false} MembersDenoteIff(ms: Members)
    requires ValidMembers(ms)
    ensures |G.MemberMeanings(RenderedMembers(ms))| == |MemberDenotations(ms)|
    ensures G.MemberMeanings(RenderedMembers(ms)) == MemberDenotations(ms) <==> NulFreeMembers(ms)
    decreases ms
  {
    hide G.Meaning, Denotation, Rendered, NulFree, Valid, ValidUnits, Written, Denoted, Unescape, Visible, Named;
    MeaningIsDenotationIff(ms.value);
    UnitsAreLiteral(ms.key);
    VisibleIff(Denoted(ms.key));
    var x := Named(G.Meaning(Rendered(ms.value)), Visible(Denoted(ms.key)));
    var y := Named(Denotation(ms.value), Denoted(ms.key));
    UnnamedMeaning(Rendered(ms.value));
    UnnamedDenotation(ms.value);
    NamedIff(G.Meaning(Rendered(ms.value)), Visible(Denoted(ms.key)), Denotation(ms.value), Denoted(ms.key));
    if ms.MoreMembers? {
      MembersDenoteIff(ms.more);
      SameHeadAndTail(x, G.MemberMeanings(RenderedMembers(ms.more)), y, MemberDenotations(ms.more));
    } else {
      SameHeadAndTail(x, [], y, []);
    }
  }

  lemma NamedIff(v: Tree, k: string, w: Tree, l: string)
    requires v.fields.name == None && w.fields.name == None
    ensures Named(v, k) == Named(w, l) <==> v == w && k == l
  {
  }

  lemma UnnamedMeaning(v: G.Value)
    ensures G.Meaning(v).fields.name == None
  {
  }

  lemma UnnamedDenotation(s: Spelling)
    ensures Denotation(s).fields.name == None
  {
  }

  /**
   A value of any depth, written with any escapes in its strings and keys, any number forms and any
   white space, is read back as the tree that it denotes if and only if no string or key denotes a NUL.
   */
  lemma SpelledDocumentRoundTrip(before: string, s: Spelling, after: string)
    requires G.IsWs(before) && Valid(s) && G.IsWs(after)
    ensures ParseDocument(before + (G.Text(Rendered(s)) + after)) == Some(Branch(Document, [Denotation(s)])) <==> NulFree(s)
  {
    hide ParseDocument, G.Text, Rendered, G.Meaning, Denotation, NulFree, Valid, G.Valid, G.IsWs;
    RenderedIsValid(s);
    MeaningIsDenotationIff(s);
    JsonRoundTrip.DocumentRoundTrip(before, Rendered(s), after);
    var x, y := G.Meaning(Rendered(s)), Denotation(s);
    assert [x] == [y] <==> x == y by {
      SameHeadAndTail(x, [], y, []);
    }
  }

  /** A document that is one string comes back as the text it denotes if and only if that has no NUL. */
  lemma StringRoundTrip(us: seq<Unit>)
    requires ValidUnits(us)
    ensures ParseDocument(G.Quoted(Written(us))) == Some(Branch(Document, [Leaf(String, Denoted(us))])) <==> '\0' !in Denoted(us)
  {
    hide ParseDocument, G.Quoted, Written, Denoted, ValidUnits;
    assert "" + (G.Text(Rendered(Text(us))) + "") == G.Quoted(Written(us));
    SpelledDocumentRoundTrip("", Text(us), "");
  }

  // ----- every accepted text -----

  /** The tree as the parser returns it: strings and keys end at their first NUL. */
  function Seen(s: Spelling): Tree {
    match s
    case Text(us) => Leaf(String, Visible(Denoted(us)))
    case Elements(es) => Branch(Array, SeenElements(es))
    case Members(ms) => Branch(Object, SeenMembers(ms))
    case _ => Denotation(s)
  }

  function SeenElements(es: Elements): seq<Tree> {
    [Seen(es.value)] + if es.LastElement? then [] else SeenElements(es.more)
  }

  function SeenMembers(ms: Members): seq<Tree> {
    [Named(Seen(ms.value), Visible(Denoted(ms.key)))] + if ms.LastMember? then [] else SeenMembers(ms.more)
  }

  lemma {:induction false} MeaningIsSeen(s: Spelling)
    requires Valid(s)
    ensures G.Meaning(Rendered(s)) == Seen(s)
    decreases s
  {
    hide ValidUnits, Written, Denoted, Unescape, Visible, G.ElementMeanings, G.MemberMeanings, SeenElements, SeenMembers,
      RenderedElements, RenderedMembers, ValidElements, ValidMembers, ElementDenotations, MemberDenotations;
    match s
    case Text(us) => UnitsAreLiteral(us);
    case Elements(es) => MeaningsAreSeen(es);
    case Members(ms) => MembersAreSeen(ms);
    case _ =>
  }

  lemma {:induction false} MeaningsAreSeen(es: Elements)
    requires ValidElements(es)
    ensures G.ElementMeanings(RenderedElements(es)) == SeenElements(es)
    decreases es
  {
    hide G.Meaning, Seen, Rendered, Valid;
    MeaningIsSeen(es.value);
    if es.MoreElements? {
      MeaningsAreSeen(es.more);
    }
  }

  lemma {:induction false} MembersAreSeen(ms: Members)
    requires ValidMembers(ms)
    ensures G.MemberMeanings(RenderedMembers(ms)) == SeenMembers(ms)
    decreases ms
  {
    hide G.Meaning, Seen, Rendered, Valid, ValidUnits, Written, Denoted, Unescape, Visible, Named;
    MeaningIsSeen(ms.value);
    UnitsAreLiteral(ms.key);
    if ms.MoreMembers? {
      MembersAreSeen(ms.more);
    }
  }

  lemma {:induction false} EveryValueIsSpelled(v: G.Value) returns (s: Spelling)
    requires G.Valid(v)
    ensures Valid(s) && Rendered(s) == v
    decreases v
  {
    hide G.IsLiteral, G.IsInteger, G.IsFraction, G.IsExponent, G.IsWs, Written, ValidUnits, G.ValidElements, G.ValidMembers,
      ValidElements, ValidMembers, RenderedElements, RenderedMembers;
    match v
    case Str(lit) =>
      var us := EveryLiteralIsWritten(lit);
      s := Text(us);
    case Num(minus, i, f, e) => s := Spelling.Number(minus, i, f, e);
    case True => s := True;
    case False => s := False;
    case NullWord => s := NullWord;
    case EmptyArray(ws) => s := EmptyArray(ws);
    case Elements(es) =>
      var spelled := EveryElementIsSpelled(es);
      s := Elements(spelled);
    case EmptyObject(ws) => s := EmptyObject(ws);
    case Members(ms) =>
      var spelled := EveryMemberIsSpelled(ms);
      s := Members(spelled);
  }

  lemma {:induction false} EveryElementIsSpelled(es: G.Elements) returns (r: Elements)
    requires G.ValidElements(es)
    ensures ValidElements(r) && RenderedElements(r) == es
    decreases es
  {
    hide G.Valid, Valid, Rendered, G.IsWs;
    var e := es.e;
    var v := EveryValueIsSpelled(e.value);
    if es.MoreElements? {
      var more := EveryElementIsSpelled(es.more);
      r := MoreElements(e.before, v, e.after, more);
    } else {
      r := LastElement(e.before, v, e.after);
    }
  }

  lemma {:induction false} EveryMemberIsSpelled(ms: G.Members) returns (r: Members)
    requires G.ValidMembers(ms)
    ensures ValidMembers(r) && RenderedMembers(r) == ms
    decreases ms
  {
    hide G.Valid, Valid, Rendered, G.IsWs, G.IsLiteral, Written, ValidUnits;
    var m := ms.m;
    var v := EveryValueIsSpelled(m.value);
    var key := EveryLiteralIsWritten(m.key);
    if ms.MoreMembers? {
      var more := EveryMemberIsSpelled(ms.more);
      r := MoreMembers(m.before, key, m.beforeColon, m.afterColon, v, m.after, more);
    } else {
      r := LastMember(m.before, key, m.beforeColon, m.afterColon, v, m.after);
    }
  }

  /** The text t spells s, with white space around it, and the tree is what is seen of s. */
  ghost predicate Spells(t: string, tree: Tree, before: string, s: Spelling, after: string) {
    && G.IsWs(before) && Valid(s) && G.IsWs(after)
    && t == before + (G.Text(Rendered(s)) + after) && tree == Branch(Document, [Seen(s)])
  }

  /** Exactly the spelled values are accepted, and what comes back is what they spell up to NULs. */
  lemma AcceptedIff(t: string, tree: Tree)
    requires '\0' !in t
    ensures ParseDocument(t) == Some(tree) <==> exists before, s, after :: Spells(t, tree, before, s, after)
  {
    hide ParseDocument, G.Text, Rendered, G.Meaning, Seen, Valid, G.Valid, G.IsWs;
    if before, s, after :| Spells(t, tree, before, s, after) {
      RenderedIsValid(s);
      MeaningIsSeen(s);
      JsonRoundTrip.DocumentRoundTrip(before, Rendered(s), after);
    }
    if ParseDocument(t) == Some(tree) {
      var before, v, after := JsonLanguage.ExplainDocument(t, tree);
      var s := EveryValueIsSpelled(v);
      MeaningIsSeen(s);
      assert Spells(t, tree, before, s, after);
    }
  }
}
