/**
 core/src/xml.c as it works: a cursor that moves over the text, nodes that are linked into sibling
 lists, attributes put in front of a list. Every method is proved against the functions of XmlText.
 */
module Xml {
  import opened CStrings
  import opened Wrappers
  import XmlText
  import XmlEntities
  import Nodes

  type Tree = XmlText.Tree
  type Fields = XmlText.Fields
  type Attribute = XmlText.Attribute

  // ----- tokens -----

  method SkipBlanks(t: string, p: nat) returns (q: nat)
    requires p <= |t|
    ensures q == XmlText.SkipWs(t, p)
  {
    q := p;
    while IsCSpace(Peek(t, q))
      invariant p <= q <= |t| && XmlText.SkipWs(t, q) == XmlText.SkipWs(t, p)
      decreases |t| - q
    {
      q := q + 1;
    }
  }

  method SkipUntil(t: string, p: nat, c: char) returns (q: nat)
    requires p <= |t|
    ensures q == XmlText.ScanTo(t, p, c)
  {
    q := p;
    while Peek(t, q) != '\0' && Peek(t, q) != c
      invariant p <= q <= |t| && XmlText.ScanTo(t, q, c) == XmlText.ScanTo(t, p, c)
      decreases |t| - q
    {
      q := q + 1;
    }
  }

  method ParseName(t: string, p: nat) returns (r: Parsed<string>)
    requires p <= |t|
    ensures r == XmlText.ParseName(t, p)
  {
    if !XmlText.IsNameChar(Peek(t, p)) {
      return Fail;
    }
    var s := p + 1;
    while Peek(t, s) != '\0' && XmlText.IsNameChar(Peek(t, s))
      invariant p < s <= |t| && XmlText.ScanName(t, s) == XmlText.ScanName(t, p)
      decreases |t| - s
    {
      s := s + 1;
    }
    r := Ok(t[p..s], s);
  }

  lemma UnescapeStep(s: string, i: nat, written: string)
    requires i < |s|
    ensures match XmlText.EntityAt(s[i..])
      case Some(e) => i + |e.text| <= |s| &&
        written + XmlText.Unescape(s[i..]) == (written + [e.meaning]) + XmlText.Unescape(s[i + |e.text|..])
      case None => written + XmlText.Unescape(s[i..]) == (written + [s[i]]) + XmlText.Unescape(s[i + 1..])
  {
    hide XmlText.EntityAt;
    match XmlText.EntityAt(s[i..])
    case Some(e) => assert s[i..][|e.text|..] == s[i + |e.text|..];
    case None => assert s[i..][1..] == s[i + 1..];
  }

  /** The loop over a C string: entities are replaced in one pass, and the output fits the input. */
  method UnescapeEntities(src: string) returns (r: string)
    ensures r == XmlText.Unescape(src)
  {
    hide XmlText.Unescape, XmlText.EntityAt;
    var out := new char[|src| + 1];
    var s, d := 0, 0;
    assert src[0..] == src;
    while s < |src|
      invariant d <= s <= |src|
      invariant out[..d] + XmlText.Unescape(src[s..]) == XmlText.Unescape(src)
      decreases |src| - s
    {
      UnescapeStep(src, s, out[..d]);
      ghost var before := out[..d];
      var entity := XmlText.EntityAt(src[s..]);
      if entity.Some? {
        out[d] := entity.value.meaning;
        s := s + |entity.value.text|;
      } else {
        out[d] := src[s];
        s := s + 1;
      }
      d := d + 1;
      assert out[..d] == before + [out[d - 1]];
    }
    XmlEntities.UnescapeNothing(src[s..]);
    r := out[..d];
  }

  method ParseQuotedValue(t: string, p: nat) returns (r: Parsed<string>)
    requires p <= |t|
    ensures r == XmlText.ParseQuoted(t, p)
  {
    hide XmlText.SkipWs, XmlText.ScanTo, XmlText.Unescape;
    var s := SkipBlanks(t, p);
    if Peek(t, s) != '"' && Peek(t, s) != '\'' {
      return Fail;
    }
    var quote := Peek(t, s);
    var e := SkipUntil(t, s + 1, quote);
    var value := UnescapeEntities(t[s + 1..e]);
    r := Ok(value, if Peek(t, e) == quote then e + 1 else e);
  }

  // ----- attributes -----

  /** A new attribute goes in front of the list of the node. */
  method ParseAttributes(t: string, p: nat, node: Nodes.Node<Fields>) returns (ok: bool, q: nat)
    requires p <= |t| && node.Valid()
    modifies node`fields, node`tree
    ensures node.Valid()
    ensures ok == XmlText.ParseAttributes(t, p).Ok?
    ensures ok ==>
      && q == XmlText.ParseAttributes(t, p).next
      && node.tree == WithAttrs(old(node.tree), XmlText.ParseAttributes(t, p).value)
  {
    hide XmlText.SkipWs, XmlText.ParseAttributes, XmlText.ParseAttribute, Nodes.Node.Valid;
    q := p;
    while true
      invariant p <= q <= |t| && node.Valid()
      invariant InFront(XmlText.ParseAttributes(t, q), node.tree) == InFront(XmlText.ParseAttributes(t, p), old(node.tree))
      decreases |t| - q
    {
      AttributesCases(t, q, node.tree);
      q := SkipBlanks(t, q);
      if XmlText.EndsTag(Peek(t, q)) {
        break;
      }
      var a := ParseAttribute(t, q);
      if a.Fail? {
        return false, q;
      }
      AddAttribute(node, a.value);
      q := a.next;
    }
    ok := true;
  }

  /** The tree of an element with more attributes in front of its own. */
  ghost function WithAttrs(tree: Tree, attrs: seq<Attribute>): Tree {
    tree.(fields := tree.fields.(attrs := attrs + tree.fields.attrs))
  }

  ghost function InFront(r: Parsed<seq<Attribute>>, tree: Tree): Parsed<Tree> {
    if r.Fail? then Fail else Ok(WithAttrs(tree, r.value), r.next)
  }

  lemma AttributesCases(t: string, p: nat, tree: Tree)
    requires p <= |t|
    ensures var s := XmlText.SkipWs(t, p); var r := InFront(XmlText.ParseAttributes(t, p), tree);
      if XmlText.EndsTag(Peek(t, s)) then r == Ok(tree, s)
      else
        var a := XmlText.ParseAttribute(t, s);
        if a.Fail? then r.Fail?
        else r == InFront(XmlText.ParseAttributes(t, a.next), WithAttrs(tree, [a.value]))
  {
    hide XmlText.SkipWs, XmlText.ParseAttribute;
    var s := XmlText.SkipWs(t, p);
    var a := XmlText.ParseAttribute(t, s);
    assert [] + tree.fields.attrs == tree.fields.attrs;
    if !XmlText.EndsTag(Peek(t, s)) && a.Ok? {
      var rest := XmlText.ParseAttributes(t, a.next);
      if rest.Ok? {
        assert (rest.value + [a.value]) + tree.fields.attrs == rest.value + ([a.value] + tree.fields.attrs);
      }
    }
  }

  method ParseAttribute(t: string, p: nat) returns (r: Parsed<Attribute>)
    requires p <= |t|
    ensures r == XmlText.ParseAttribute(t, p)
  {
    hide XmlText.SkipWs, XmlText.ParseName, XmlText.ParseQuoted;
    var name := ParseName(t, p);
    if name.Fail? {
      return Fail;
    }
    var s := SkipBlanks(t, name.next);
    if Peek(t, s) != '=' {
      return Fail;
    }
    var value := ParseQuotedValue(t, s + 1);
    if value.Fail? {
      return Fail;
    }
    r := Ok(XmlText.Attribute(name.value, value.value), value.next);
  }

  method AddAttribute(node: Nodes.Node<Fields>, a: Attribute)
    requires node.Valid()
    modifies node`fields, node`tree
    ensures node.Valid() && node.tree == WithAttrs(old(node.tree), [a])
  {
    node.SetFields(node.fields.(attrs := [a] + node.fields.attrs));
  }

  // ----- nodes -----

  /** The node that was made, or null for a construct that makes none, against what the step should yield. */
  ghost predicate Made(ok: bool, node: Nodes.Node?<Fields>, q: nat, r: Parsed<seq<Tree>>)
    reads node, if node == null then {} else node.repr
  {
    && ok == r.Ok?
    && (ok && node == null ==> r == Ok([], q))
    && (ok && node != null ==>
          r == Ok([node.tree], q) && node.Valid() && node.parent == null && node.nextSibling == null)
  }

  method NewTextNode(kind: XmlText.Kind, text: string, next: nat) returns (node: Nodes.Node?<Fields>, q: nat)
    ensures node != null && fresh(node) && fresh(node.repr) && Made(true, node, q, Ok([XmlText.TextNode(kind, text)], next))
  {
    node := new Nodes.Node(XmlText.Fields(kind, None, Some(text), []));
    q := next;
  }

  method ParseDelimited(t: string, p: nat, close: string) returns (r: Parsed<string>)
    requires p <= |t|
    ensures r == XmlText.ParseDelimited(t, p, close)
  {
    hide Find;
    var e := FindSubstring(t, p, close);
    if e == None {
      return Fail;
    }
    r := Ok(t[p..e.value], e.value + |close|);
  }

  method IsOnlySpace(s: string) returns (only: bool)
    ensures only == XmlText.OnlySpace(s)
  {
    for i := 0 to |s|
      invariant forall j :: 0 <= j < i ==> IsCSpace(s[j])
    {
      if !IsCSpace(s[i]) {
        return false;
      }
    }
    return true;
  }

  /** One construct; the caller links the node. */
  method ParseOne(t: string, p: nat) returns (ok: bool, node: Nodes.Node?<Fields>, q: nat)
    requires p <= |t|
    ensures Made(ok, node, q, XmlText.ParseOne(t, p))
    ensures node != null ==> fresh(node) && fresh(node.repr)
    decreases |t| - p, 1
  {
    hide At, XmlText.ParseDelimited, XmlText.ParseElement, XmlText.ScanTo, XmlText.OnlySpace, XmlText.Unescape;
    ok, node, q := true, null, p;
    if Peek(t, p) == '<' {
      if At(t, p, "<!--") {
        AtEnds(t, p, "<!--");
        var r := ParseDelimited(t, p + 4, "-->");
        if r.Fail? {
          return false, null, p;
        }
        node, q := NewTextNode(XmlText.Comment, r.value, r.next);
      } else if At(t, p, "<![CDATA[") {
        AtEnds(t, p, "<![CDATA[");
        var r := ParseDelimited(t, p + 9, "]]>");
        if r.Fail? {
          return false, null, p;
        }
        node, q := NewTextNode(XmlText.Cdata, r.value, r.next);
      } else if At(t, p, "<?") {
        AtEnds(t, p, "<?");
        var r := ParseDelimited(t, p + 2, "?>");
        if r.Fail? {
          return false, null, p;
        }
        q := r.next;
      } else {
        node, q := ParseElement(t, p);
        ok := node != null;
      }
    } else {
      q := SkipUntil(t, p, '<');
      var blank := IsOnlySpace(t[p..q]);
      if !blank {
        var text := UnescapeEntities(t[p..q]);
        node, q := NewTextNode(XmlText.Text, text, q);
      }
    }
  }

  /** Null when the element cannot be read. */
  method ParseElement(t: string, p: nat) returns (elem: Nodes.Node?<Fields>, q: nat)
    requires p <= |t| && Peek(t, p) == '<'
    ensures elem == null <==> XmlText.ParseElement(t, p).Fail?
    ensures elem != null ==>
      && fresh(elem) && fresh(elem.repr) && elem.Valid() && elem.parent == null && elem.nextSibling == null
      && XmlText.ParseElement(t, p) == Ok(elem.tree, q)
    decreases |t| - p, 0
  {
    hide XmlText.SkipWs, XmlText.ParseName, XmlText.ParseAttributes, XmlText.ParseNodes, Nodes.Node.Valid;
    elem, q := null, p;
    var name := ParseName(t, p + 1);
    if name.Fail? {
      return;
    }
    var node := new Nodes.Node(XmlText.Fields(XmlText.Element, Some(name.value), None, []));
    var ok, s := ParseAttributes(t, name.next, node);
    if !ok {
      return;
    }
    ghost var attrs := XmlText.ParseAttributes(t, name.next).value;
    assert attrs + [] == attrs;
    s := SkipBlanks(t, s);
    if Peek(t, s) == '/' && Peek(t, s + 1) == '>' {
      return node, s + 2;
    }
    if Peek(t, s) == '>' {
      ghost var content := XmlText.ParseNodes(t, s + 1);
      ok, s := ParseNodes(t, s + 1, node);
      if !ok {
        return;
      }
      assert [] + content.value == content.value;
      return node, s;
    }
  }

  /** Reads nodes and links them behind the children of parent, up to a closing tag or the end of the text. */
  method ParseNodes(t: string, p: nat, parent: Nodes.Node<Fields>) returns (ok: bool, q: nat)
    requires p <= |t| && parent.Valid()
    modifies parent, parent.repr
    ensures ok == XmlText.ParseNodes(t, p).Ok?
    ensures ok ==>
      && parent.Valid() && fresh(parent.repr - old(parent.repr))
      && parent.parent == old(parent.parent) && parent.nextSibling == old(parent.nextSibling)
      && Children(old(parent.tree), XmlText.ParseNodes(t, p)) == Ok(parent.tree, q)
    decreases |t| - p, 2
  {
    hide At, XmlText.SkipWs, XmlText.ParseOne, XmlText.ParseNodes, Nodes.Node.Valid, Children;
    q := p;
    NodesCases(t, p, parent.tree);
    while Peek(t, q) != '\0'
      invariant p <= q <= |t|
      invariant parent.Valid() && fresh(parent.repr - old(parent.repr))
      invariant parent.parent == old(parent.parent) && parent.nextSibling == old(parent.nextSibling)
      invariant Children(parent.tree, XmlText.ParseNodes(t, q)) == Children(old(parent.tree), XmlText.ParseNodes(t, p))
      decreases |t| - q
    {
      NodesCases(t, q, parent.tree);
      q := SkipBlanks(t, q);
      if At(t, q, "</") {
        AtEnds(t, q, "</");
        q := SkipUntil(t, q + 2, '>');
        if Peek(t, q) == '>' {
          q := q + 1;
        }
        return true, q;
      }
      var node;
      ok, node, q := ParseOne(t, q);
      if !ok {
        return;
      }
      if node != null {
        parent.AppendChild(node);
      }
    }
    NodesCases(t, q, parent.tree);
    ok := true;
  }

  /** The tree of a node with more children behind its own. */
  ghost function Children(tree: Tree, r: Parsed<seq<Tree>>): Parsed<Tree> {
    if r.Fail? then Fail else Ok(tree.(children := tree.children + r.value), r.next)
  }

  lemma NodesCases(t: string, p: nat, tree: Tree)
    requires p <= |t|
    ensures var r := Children(tree, XmlText.ParseNodes(t, p)); var s := XmlText.SkipWs(t, p);
      if Peek(t, p) == '\0' then r == Ok(tree, p)
      else if At(t, s, "</") then r == Ok(tree, XmlText.AfterClosingTag(t, s))
      else
        var one := XmlText.ParseOne(t, s);
        if one.Fail? then r.Fail?
        else r == Children(tree.(children := tree.children + one.value), XmlText.ParseNodes(t, one.next))
    ensures tree.(children := tree.children + []) == tree
    ensures Children(tree, XmlText.ParseNodes(t, p)).Ok? == XmlText.ParseNodes(t, p).Ok?
  {
    hide XmlText.SkipWs, XmlText.ParseOne, At, XmlText.AfterClosingTag;
    var one := XmlText.ParseOne(t, XmlText.SkipWs(t, p));
    assert tree.children + [] == tree.children;
    if one.Ok? {
      var rest := XmlText.ParseNodes(t, one.next);
      assert rest.Ok? ==> tree.children + (one.value + rest.value) == (tree.children + one.value) + rest.value;
    }
  }

  /** The document node, or null when the text cannot be read. */
  method ParseDocument(t: string) returns (root: Nodes.Node?<Fields>)
    ensures root == null <==> XmlText.ParseDocument(t) == None
    ensures root != null ==>
      && fresh(root) && fresh(root.repr) && root.Valid() && root.parent == null && root.nextSibling == null
      && XmlText.ParseDocument(t) == Some(root.tree)
  {
    hide XmlText.ParseNodes, Find, At, Nodes.Node.Valid;
    var p := 0;
    if At(t, 0, "<?xml") {
      var end := FindSubstring(t, p, "?>");
      if end.Some? {
        AtEnds(t, end.value, "?>");
        p := end.value + 2;
      }
    }
    var node := new Nodes.Node(XmlText.Fields(XmlText.Document, None, None, []));
    var ok, q := ParseNodes(t, p, node);
    if !ok {
      return null;
    }
    assert [] + XmlText.ParseNodes(t, p).value == XmlText.ParseNodes(t, p).value;
    root := node;
  }

  // ----- reading a tree -----

  /** The value of the first attribute with this name on the list. */
  function Lookup(attrs: seq<Attribute>, name: string): Option<string> {
    if |attrs| == 0 then None
    else if attrs[0].name == name then Some(attrs[0].value)
    else Lookup(attrs[1..], name)
  }

  method GetAttribute(node: Nodes.Node<Fields>, name: string) returns (value: Option<string>)
    ensures value == Lookup(node.fields.attrs, name)
  {
    var attrs := node.fields.attrs;
    var i := 0;
    while i < |attrs|
      invariant i <= |attrs| && Lookup(attrs[i..], name) == Lookup(attrs, name)
    {
      if attrs[i].name == name {
        return Some(attrs[i].value);
      }
      assert attrs[i..][1..] == attrs[i + 1..];
      i := i + 1;
    }
    return None;
  }
}
