/** What core/src/json.c reads: its parser as functions on a text and a position. */
module JsonText {
  import opened CStrings
  import opened Wrappers
  import opened JsonTokens
  import Nodes

  datatype Kind = Document | Object | Array | String | Number | Boolean | Null

  /** The fields of a node: its type, its key and its text. */
  datatype Fields = Fields(kind: Kind, name: Option<string>, text: Option<string>)

  type Tree = Nodes.Tree<Fields>

  // ----- values -----

  function Leaf(kind: Kind, text: string): Tree {
    Nodes.Tree(Fields(kind, None, Some(text)), [])
  }

  function Branch(kind: Kind, children: seq<Tree>): Tree {
    Nodes.Tree(Fields(kind, None, None), children)
  }

  /** `val->name = key`. */
  function Named(v: Tree, key: string): Tree {
    v.(fields := v.fields.(name := Some(key)))
  }

  function ParseValue(t: string, p: nat): (r: Parsed<Tree>)
    requires p <= |t|
    ensures r.Ok? ==> p < r.next <= |t|
    decreases |t| - p, 1
  {
    var s := SkipWs(t, p);
    var c := Peek(t, s);
    if c == '\0' then Fail
    else if c == '{' then ParseObject(t, s)
    else if c == '[' then ParseArray(t, s)
    else if c == '"' then
      var r := ParseString(t, s);
      if r.Fail? then Fail else Ok(Leaf(String, r.value), r.next)
    else if c == '-' || IsDigit(c) then
      var r := ParseNumber(t, s);
      if r.Fail? then Fail else Ok(Leaf(Number, r.value), r.next)
    else if At(t, s, "true") then Ok(Leaf(Boolean, "true"), s + 4)
    else if At(t, s, "false") then Ok(Leaf(Boolean, "false"), s + 5)
    else if At(t, s, "null") then Ok(Leaf(Null, "null"), s + 4)
    else Fail
  }

  function ParseArray(t: string, p: nat): (r: Parsed<Tree>)
    requires p <= |t| && Peek(t, p) == '['
    ensures r.Ok? ==> p < r.next <= |t|
    decreases |t| - p, 0
  {
    var s := SkipWs(t, p + 1);
    if Peek(t, s) == ']' then Ok(Branch(Array, []), s + 1)
    else
      var r := ParseElements(t, s);
      if r.Fail? then Fail else Ok(Branch(Array, r.value), r.next)
  }

  /** The elements of an array up to and with its closing bracket. */
  function ParseElements(t: string, p: nat): (r: Parsed<seq<Tree>>)
    requires p <= |t|
    ensures r.Ok? ==> p < r.next <= |t|
    decreases |t| - p, 2
  {
    var v := ParseValue(t, SkipWs(t, p));
    if v.Fail? then Fail
    else
      var s := SkipWs(t, v.next);
      if Peek(t, s) == ',' then
        var rest := ParseElements(t, s + 1);
        if rest.Fail? then Fail else Ok([v.value] + rest.value, rest.next)
      else if Peek(t, s) == ']' then Ok([v.value], s + 1)
      else Fail
  }

  function ParseObject(t: string, p: nat): (r: Parsed<Tree>)
    requires p <= |t| && Peek(t, p) == '{'
    ensures r.Ok? ==> p < r.next <= |t|
    decreases |t| - p, 0
  {
    var s := SkipWs(t, p + 1);
    if Peek(t, s) == '}' then Ok(Branch(Object, []), s + 1)
    else
      var r := ParseMembers(t, s);
      if r.Fail? then Fail else Ok(Branch(Object, r.value), r.next)
  }

  /** The key, the colon and the value of one member; the position behind the value. */
  function ParseMember(t: string, p: nat): (r: Parsed<Tree>)
    requires p <= |t|
    ensures r.Ok? ==> p < r.next <= |t|
    decreases |t| - p, 2
  {
    var key := ParseString(t, SkipWs(t, p));
    if key.Fail? then Fail
    else
      var s := SkipWs(t, key.next);
      if Peek(t, s) != ':' then Fail
      else
        var v := ParseValue(t, SkipWs(t, s + 1));
        if v.Fail? then Fail else Ok(Named(v.value, key.value), v.next)
  }

  /** The members of an object up to and with its closing brace. */
  function ParseMembers(t: string, p: nat): (r: Parsed<seq<Tree>>)
    requires p <= |t|
    ensures r.Ok? ==> p < r.next <= |t|
    decreases |t| - p, 3
  {
    var v := ParseMember(t, p);
    if v.Fail? then Fail
    else
      var s := SkipWs(t, v.next);
      if Peek(t, s) == ',' then
        var rest := ParseMembers(t, s + 1);
        if rest.Fail? then Fail else Ok([v.value] + rest.value, rest.next)
      else if Peek(t, s) == '}' then Ok([v.value], s + 1)
      else Fail
  }

  /** One value with nothing but white space around it, under a document node. */
  function ParseDocument(t: string): Option<Tree> {
    var v := ParseValue(t, SkipWs(t, 0));
    if v.Fail? || Peek(t, SkipWs(t, v.next)) != '\0' then None
    else Some(Branch(Document, [v.value]))
  }

  // ----- one step of each loop, as an equation -----

  lemma ElementsStep(t: string, p: nat, v: Tree, b: nat)
    requires p <= |t| && b <= |t| && ParseValue(t, SkipWs(t, p)) == Ok(v, b)
    ensures var c := SkipWs(t, b);
      && (Peek(t, c) == ']' ==> ParseElements(t, p) == Ok([v], c + 1))
      && (Peek(t, c) == ',' && ParseElements(t, c + 1).Ok? ==>
            ParseElements(t, p) == Ok([v] + ParseElements(t, c + 1).value, ParseElements(t, c + 1).next))
  {
    hide SkipWs, ParseValue;
  }

  lemma MembersStep(t: string, p: nat, v: Tree, b: nat)
    requires p <= |t| && b <= |t| && ParseMember(t, p) == Ok(v, b)
    ensures var c := SkipWs(t, b);
      && (Peek(t, c) == '}' ==> ParseMembers(t, p) == Ok([v], c + 1))
      && (Peek(t, c) == ',' && ParseMembers(t, c + 1).Ok? ==>
            ParseMembers(t, p) == Ok([v] + ParseMembers(t, c + 1).value, ParseMembers(t, c + 1).next))
  {
    hide SkipWs, ParseMember;
  }

  lemma MemberStep(t: string, p: nat, key: string, b: nat, v: Tree, e: nat)
    requires p <= |t| && b <= |t| && ParseString(t, SkipWs(t, p)) == Ok(key, b)
    requires Peek(t, SkipWs(t, b)) == ':' && ParseValue(t, SkipWs(t, SkipWs(t, b) + 1)) == Ok(v, e)
    ensures ParseMember(t, p) == Ok(Named(v, key), e)
  {
    hide SkipWs, ParseString, ParseValue;
  }

  lemma SkipWsTwice(t: string, p: nat)
    requires p <= |t|
    ensures SkipWs(t, SkipWs(t, p)) == SkipWs(t, p)
  {
  }

  /** The blanks after an opening bracket may be skipped once or twice. */
  lemma ArrayStep(t: string, p: nat, vs: seq<Tree>, q: nat)
    requires p < |t| && t[p] == '[' && ParseElements(t, p + 1) == Ok(vs, q)
    requires Peek(t, SkipWs(t, p + 1)) != ']'
    ensures ParseArray(t, p) == Ok(Branch(Array, vs), q)
  {
    hide SkipWs, ParseValue;
    SkipWsTwice(t, p + 1);
  }

  lemma MemberAfterWs(t: string, p: nat)
    requires p <= |t|
    ensures ParseMember(t, SkipWs(t, p)) == ParseMember(t, p)
  {
    hide ParseValue, ParseString;
    SkipWsTwice(t, p);
  }

  lemma ObjectStep(t: string, p: nat, vs: seq<Tree>, q: nat)
    requires p < |t| && t[p] == '{' && ParseMembers(t, p + 1) == Ok(vs, q)
    requires Peek(t, SkipWs(t, p + 1)) != '}'
    ensures ParseObject(t, p) == Ok(Branch(Object, vs), q)
  {
    hide SkipWs, ParseMember;
    MemberAfterWs(t, p + 1);
  }
}
