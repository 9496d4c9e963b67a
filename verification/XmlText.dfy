/** What core/src/xml.c reads: its parser as functions on a text and a position. */
module XmlText {
  import opened CStrings
  import opened Wrappers
  import Nodes

  datatype Kind = Document | Element | Text | Cdata | Comment

  datatype Attribute = Attribute(name: string, value: string)

  /** The fields of a node; the attributes in the order of their linked list. */
  datatype Fields = Fields(kind: Kind, name: Option<string>, text: Option<string>, attrs: seq<Attribute>)

  type Tree = Nodes.Tree<Fields>

  function TextNode(kind: Kind, text: string): Tree {
    Nodes.Tree(Fields(kind, None, Some(text), []), [])
  }

  function ElementNode(name: string, attrs: seq<Attribute>, children: seq<Tree>): Tree {
    Nodes.Tree(Fields(Element, Some(name), None, attrs), children)
  }

  // ----- characters -----

  predicate IsNameChar(c: char) {
    'a' <= c <= 'z' || 'A' <= c <= 'Z' || '0' <= c <= '9' || c == '_' || c == ':' || c == '-' || c == '.'
  }

  function SkipWs(t: string, p: nat): (q: nat)
    requires p <= |t|
    ensures p <= q <= |t| && !IsCSpace(Peek(t, q))
    decreases |t| - p
  {
    if IsCSpace(Peek(t, p)) then SkipWs(t, p + 1) else p
  }

  /** The first place at or behind p that holds c or ends the text. */
  function ScanTo(t: string, p: nat, c: char): (q: nat)
    requires p <= |t|
    ensures p <= q <= |t| && (Peek(t, q) == '\0' || Peek(t, q) == c)
    decreases |t| - p
  {
    if Peek(t, p) == '\0' || Peek(t, p) == c then p else ScanTo(t, p + 1, c)
  }

  function ScanName(t: string, p: nat): (q: nat)
    requires p <= |t|
    ensures p <= q <= |t| && !IsNameChar(Peek(t, q))
    decreases |t| - p
  {
    if IsNameChar(Peek(t, p)) then ScanName(t, p + 1) else p
  }

  function ParseName(t: string, p: nat): (r: Parsed<string>)
    requires p <= |t|
    ensures r.Ok? ==> p < r.next <= |t|
  {
    var q := ScanName(t, p);
    if q == p then Fail else Ok(t[p..q], q)
  }

  // ----- entities -----

  datatype Entity = Entity(text: string, meaning: char)

  /** The entity at the start of s, if there is one, in the order in which the code compares. */
  function EntityAt(s: string): (e: Option<Entity>)
    ensures e.Some? ==> 0 < |e.value.text| <= |s|
  {
    if At(s, 0, "&amp;") then Some(Entity("&amp;", '&'))
    else if At(s, 0, "&lt;") then Some(Entity("&lt;", '<'))
    else if At(s, 0, "&gt;") then Some(Entity("&gt;", '>'))
    else if At(s, 0, "&quot;") then Some(Entity("&quot;", '"'))
    else if At(s, 0, "&apos;") then Some(Entity("&apos;", '\''))
    else None
  }

  /** One pass from left to right; an ampersand that starts no entity stays. */
  function Unescape(s: string): (r: string)
    ensures |r| <= |s|
  {
    if |s| == 0 then ""
    else
      match EntityAt(s)
      case Some(e) => [e.meaning] + Unescape(s[|e.text|..])
      case None => [s[0]] + Unescape(s[1..])
  }

  // ----- attributes -----

  /** A value runs to its quote, or to the end of the text. */
  function ParseQuoted(t: string, p: nat): (r: Parsed<string>)
    requires p <= |t|
    ensures r.Ok? ==> p < r.next <= |t|
  {
    var s := SkipWs(t, p);
    var quote := Peek(t, s);
    if quote != '"' && quote != '\'' then Fail
    else
      var e := ScanTo(t, s + 1, quote);
      Ok(Unescape(t[s + 1..e]), if Peek(t, e) == quote then e + 1 else e)
  }

  function ParseAttribute(t: string, p: nat): (r: Parsed<Attribute>)
    requires p <= |t|
    ensures r.Ok? ==> p < r.next <= |t|
  {
    var name := ParseName(t, p);
    if name.Fail? then Fail
    else
      var s := SkipWs(t, name.next);
      if Peek(t, s) != '=' then Fail
      else
        var value := ParseQuoted(t, s + 1);
        if value.Fail? then Fail else Ok(Attribute(name.value, value.value), value.next)
  }

  predicate EndsTag(c: char) {
    c == '>' || c == '/' || c == '\0'
  }

  /** Every new attribute is put in front of the list, so the last one read comes first. */
  function ParseAttributes(t: string, p: nat): (r: Parsed<seq<Attribute>>)
    requires p <= |t|
    ensures r.Ok? ==> p <= r.next <= |t| && (Peek(t, r.next) == '>' || Peek(t, r.next) == '/' || Peek(t, r.next) == '\0')
    decreases |t| - p
  {
    var s := SkipWs(t, p);
    if EndsTag(Peek(t, s)) then Ok([], s)
    else
      var a := ParseAttribute(t, s);
      if a.Fail? then Fail
      else
        var rest := ParseAttributes(t, a.next);
        if rest.Fail? then Fail else Ok(rest.value + [a.value], rest.next)
  }

  // ----- nodes -----

  function ParseElement(t: string, p: nat): (r: Parsed<Tree>)
    requires p <= |t| && Peek(t, p) == '<'
    ensures r.Ok? ==> p < r.next <= |t|
    decreases |t| - p, 0
  {
    var name := ParseName(t, p + 1);
    if name.Fail? then Fail
    else
      var attrs := ParseAttributes(t, name.next);
      if attrs.Fail? then Fail
      else
        var s := SkipWs(t, attrs.next);
        if Peek(t, s) == '/' && Peek(t, s + 1) == '>' then Ok(ElementNode(name.value, attrs.value, []), s + 2)
        else if Peek(t, s) == '>' then
          var content := ParseNodes(t, s + 1);
          if content.Fail? then Fail else Ok(ElementNode(name.value, attrs.value, content.value), content.next)
        else Fail
  }

  /** The part of a node that starts with `<!` or `<?`: what stands between its delimiters. */
  function ParseDelimited(t: string, p: nat, close: string): (r: Parsed<string>)
    requires p <= |t|
    ensures r.Ok? ==> p <= r.next - |close| && r.next <= |t|
  {
    match Find(t, p, close)
    case None => Fail
    case Some(e) => Ok(t[p..e], e + |close|)
  }

  predicate OnlySpace(s: string) {
    forall i :: 0 <= i < |s| ==> IsCSpace(s[i])
  }

  /** A node or nothing, and the place behind it; p is behind the white space that is skipped first. */
  function ParseOne(t: string, p: nat): (r: Parsed<seq<Tree>>)
    requires p <= |t|
    ensures r.Ok? ==> p <= r.next <= |t| && (Peek(t, p) != '\0' ==> p < r.next)
    decreases |t| - p, 1
  {
    if Peek(t, p) == '<' then
      if At(t, p, "<!--") then
        var r := ParseDelimited(t, p + 4, "-->");
        if r.Fail? then Fail else Ok([TextNode(Comment, r.value)], r.next)
      else if At(t, p, "<![CDATA[") then
        var r := ParseDelimited(t, p + 9, "]]>");
        if r.Fail? then Fail else Ok([TextNode(Cdata, r.value)], r.next)
      else if At(t, p, "<?") then
        var r := ParseDelimited(t, p + 2, "?>");
        if r.Fail? then Fail else Ok([], r.next)
      else
        var r := ParseElement(t, p);
        if r.Fail? then Fail else Ok([r.value], r.next)
    else
      var q := ScanTo(t, p, '<');
      Ok(if OnlySpace(t[p..q]) then [] else [TextNode(Text, Unescape(t[p..q]))], q)
  }

  /** The nodes up to and with the closing tag, whose name is not looked at, or up to the end of the text. */
  function ParseNodes(t: string, p: nat): (r: Parsed<seq<Tree>>)
    requires p <= |t|
    ensures r.Ok? ==> p <= r.next <= |t|
    decreases |t| - p, 2
  {
    if Peek(t, p) == '\0' then Ok([], p)
    else
      var s := SkipWs(t, p);
      if At(t, s, "</") then Ok([], AfterClosingTag(t, s))
      else
        var one := ParseOne(t, s);
        if one.Fail? then Fail else Before(one.value, ParseNodes(t, one.next))
  }

  function AfterClosingTag(t: string, p: nat): (q: nat)
    requires p + 2 <= |t|
    ensures p + 2 <= q <= |t|
  {
    var e := ScanTo(t, p + 2, '>');
    if Peek(t, e) == '>' then e + 1 else e
  }

  function Before(nodes: seq<Tree>, r: Parsed<seq<Tree>>): Parsed<seq<Tree>> {
    if r.Fail? then Fail else Ok(nodes + r.value, r.next)
  }

  /** An XML declaration is skipped when its end is found. */
  function AfterProlog(t: string): (p: nat)
    ensures p <= |t|
  {
    if At(t, 0, "<?xml") then
      match Find(t, 0, "?>")
      case Some(e) => e + 2
      case None => 0
    else 0
  }

  function ParseDocument(t: string): Option<Tree> {
    var r := ParseNodes(t, AfterProlog(t));
    if r.Fail? then None else Some(Nodes.Tree(Fields(Document, None, None, []), r.value))
  }
}
