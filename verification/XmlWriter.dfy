/** Writing an XML tree out in full and reading it back. */
module XmlWriter {
  import opened CStrings
  import opened Wrappers
  import opened XmlText
  import opened XmlGrammar
  import XmlEntities
  import XmlRoundTrip
  import Xml
  import Nodes

  // ----- the trees that can be written -----

  predicate NoNul(s: string) {
    '\0' !in s
  }

  predicate WritableAttrs(attrs: seq<Attribute>) {
    forall i :: 0 <= i < |attrs| ==> IsName(attrs[i].name) && NoNul(attrs[i].value)
  }

  predicate IsText(t: Tree) {
    t.fields.kind == Text
  }

  /** Valid names, text that begins with something other than white space, bodies without their closing delimiter. */
  predicate Writable(t: Tree)
    decreases t
  {
    match t.fields
    case Fields(Element, Some(name), None, attrs) => IsName(name) && WritableAttrs(attrs) && AllWritable(t.children)
    case Fields(Text, None, Some(s), attrs) =>
      |s| > 0 && !IsCSpace(s[0]) && NoNul(s) && |attrs| == 0 && |t.children| == 0
    case Fields(Comment, None, Some(s), attrs) => ValidBody(s, "-->") && |attrs| == 0 && |t.children| == 0
    case Fields(Cdata, None, Some(s), attrs) => ValidBody(s, "]]>") && |attrs| == 0 && |t.children| == 0
    case _ => false
  }

  /** No two text nodes next to each other: they would be read as one. */
  predicate AllWritable(ts: seq<Tree>)
    decreases ts
  {
    |ts| == 0 || (Writable(ts[0]) && AllWritable(ts[1..]) && !(|ts| > 1 && IsText(ts[0]) && IsText(ts[1])))
  }

  // ----- the writer -----

  function WrittenAttr(a: Attribute): Attr {
    Attr(" ", a.name, "", "", '"', XmlEntities.Escape(a.value))
  }

  function WrittenTag(name: string, attrs: seq<Attribute>): Tag {
    Tag(name, seq(|attrs|, i requires 0 <= i < |attrs| => WrittenAttr(attrs[i])), "")
  }

  function WrittenItem(t: Tree): Item
    requires Writable(t)
    decreases t
  {
    match t.fields
    case Fields(Element, Some(name), None, attrs) =>
      if |t.children| == 0 then Empty(WrittenTag(name, attrs))
      else Full(WrittenTag(name, attrs), WrittenContent(t.children), name)
    case Fields(Text, None, Some(s), _) => Chars(XmlEntities.Escape(s))
    case Fields(Comment, None, Some(s), _) => Note(s)
    case Fields(Cdata, None, Some(s), _) => Section(s)
  }

  function WrittenContent(ts: seq<Tree>): Content
    requires AllWritable(ts)
    decreases ts
  {
    if |ts| == 0 then End("") else More("", WrittenItem(ts[0]), WrittenContent(ts[1..]))
  }

  function Write(ts: seq<Tree>): string
    requires AllWritable(ts)
  {
    ContentText(WrittenContent(ts))
  }

  // ----- what comes back -----

  function Reverse(attrs: seq<Attribute>): (r: seq<Attribute>)
    ensures |r| == |attrs| && forall i :: 0 <= i < |r| ==> r[i] == attrs[|attrs| - 1 - i]
  {
    seq(|attrs|, i requires 0 <= i < |attrs| => attrs[|attrs| - 1 - i])
  }

  /** The tree with every attribute list reversed. */
  function Reversed(t: Tree): Tree
    decreases t
  {
    Nodes.Tree(t.fields.(attrs := Reverse(t.fields.attrs)), ReversedAll(t.children))
  }

  function ReversedAll(ts: seq<Tree>): seq<Tree>
    decreases ts
  {
    if |ts| == 0 then [] else [Reversed(ts[0])] + ReversedAll(ts[1..])
  }

  // ----- proofs -----

  lemma EscapedWithout(s: string, c: char)
    requires NoNul(s) && c in "<>\"'"
    ensures Without(XmlEntities.Escape(s), c)
    ensures |s| > 0 ==> |XmlEntities.Escape(s)| > 0
    ensures |s| > 0 && !IsCSpace(s[0]) ==> !IsCSpace(XmlEntities.Escape(s)[0])
  {
    hide XmlEntities.Written;
    XmlEntities.EscapedIsSafe(XmlEntities.EscapeUnits(s));
  }

  lemma WrittenTagIsValid(name: string, attrs: seq<Attribute>)
    requires IsName(name) && WritableAttrs(attrs)
    ensures ValidTag(WrittenTag(name, attrs))
  {
    hide XmlEntities.Escape;
    var tag := WrittenTag(name, attrs);
    forall i | 0 <= i < |tag.attrs| ensures ValidAttr(tag.attrs[i]) {
      EscapedWithout(attrs[i].value, '"');
    }
  }

  lemma {:induction false} AttrsComeBackReversed(written: seq<Attr>, attrs: seq<Attribute>)
    requires |written| == |attrs| && forall i :: 0 <= i < |attrs| ==> written[i] == WrittenAttr(attrs[i])
    ensures AttrMeanings(written) == Reverse(attrs)
  {
    hide XmlEntities.Escape, Unescape;
    if |attrs| > 0 {
      AttrsComeBackReversed(written[1..], attrs[1..]);
      XmlEntities.UnescapeInvertsEscape(attrs[0].value);
      assert Reverse(attrs) == Reverse(attrs[1..]) + [attrs[0]];
    }
  }

  lemma {:induction false} WrittenItemIsRight(t: Tree)
    requires Writable(t)
    ensures ValidItem(WrittenItem(t)) && (WrittenItem(t).Chars? <==> IsText(t))
    ensures Meaning(WrittenItem(t)) == [Reversed(t)]
    decreases t
  {
    hide XmlEntities.Escape, Unescape, ValidBody, ValidTag, ValidContent, AllWritable, WrittenContent, Meanings, AttrMeanings,
      ReversedAll, WritableAttrs, IsName, Without;
    NoChildren(t);
    match t.fields
    case Fields(Element, Some(name), None, attrs) =>
      WrittenTagIsValid(name, attrs);
      AttrsComeBackReversed(WrittenTag(name, attrs).attrs, attrs);
      if |t.children| > 0 {
        WrittenContentIsRight(t.children);
        NameIsNoClose(name);
      }
    case Fields(Text, None, Some(s), _) =>
      EscapedWithout(s, '<');
      XmlEntities.UnescapeInvertsEscape(s);
    case _ =>
  }

  lemma NoChildren(t: Tree)
    ensures |t.children| == 0 ==> ReversedAll(t.children) == []
    ensures |t.fields.attrs| == 0 ==> Reverse(t.fields.attrs) == t.fields.attrs
  {
  }

  lemma NameIsNoClose(name: string)
    requires IsName(name)
    ensures Without(name, '>')
  {
  }

  lemma {:induction false} WrittenContentIsRight(ts: seq<Tree>)
    requires AllWritable(ts)
    ensures ValidContent(WrittenContent(ts)) && Meanings(WrittenContent(ts)) == ReversedAll(ts)
    ensures |ts| > 0 ==>
      && WrittenContent(ts).More? && WrittenContent(ts).before == ""
      && Writable(ts[0]) && WrittenContent(ts).item == WrittenItem(ts[0])
    decreases ts
  {
    hide Writable, WrittenItem, Meaning, Reversed, ValidItem, IsText;
    if |ts| > 0 {
      WrittenItemIsRight(ts[0]);
      WrittenContentIsRight(ts[1..]);
      if |ts| > 1 {
        WrittenItemIsRight(ts[1]);
      }
    }
  }

  /** Every writable tree is read back from its written form, with each attribute list reversed. */
  lemma WriteThenParse(ts: seq<Tree>)
    requires AllWritable(ts)
    ensures ParseDocument(Write(ts)) == Some(Nodes.Tree(Fields(Document, None, None, []), ReversedAll(ts)))
  {
    hide AllWritable, WrittenContent, ReversedAll, ParseDocument, ContentText, Meanings;
    WrittenContentIsRight(ts);
    XmlRoundTrip.DocumentRoundTrip(WrittenContent(ts));
  }

  // ----- a name that is used twice -----

  /** The last attribute with this name in written order. */
  ghost predicate IsLastNamed(attrs: seq<Attribute>, name: string, i: int) {
    0 <= i < |attrs| && attrs[i].name == name && forall j :: i < j < |attrs| ==> attrs[j].name != name
  }

  /** Because lists come back reversed, a look-up finds the last attribute that was written with the name. */
  lemma {:induction false} LookupFindsLast(attrs: seq<Attribute>, name: string, value: string)
    ensures Xml.Lookup(Reverse(attrs), name) == Some(value) <==>
      exists i :: IsLastNamed(attrs, name, i) && attrs[i].value == value
    decreases |attrs|
  {
    if |attrs| > 0 {
      var n := |attrs| - 1;
      assert Reverse(attrs)[1..] == Reverse(attrs[..n]);
      LookupFindsLast(attrs[..n], name, value);
      if attrs[n].name == name {
        assert IsLastNamed(attrs, name, n);
      } else {
        forall i ensures IsLastNamed(attrs, name, i) <==> IsLastNamed(attrs[..n], name, i) {
        }
      }
    }
  }
}
