/**
 core/src/json.c as it works: a cursor that moves over the text and nodes that are linked into
 sibling lists. Every method is proved against the parser functions of JsonText.
 */
module Json {
  import opened CStrings
  import opened Wrappers
  import opened JsonTokens
  import JsonText
  import Nodes

  type Kind = JsonText.Kind
  type Fields = JsonText.Fields
  type Tree = JsonText.Tree

  // ----- tokens -----

  method SkipBlanks(t: string, p: nat) returns (q: nat)
    requires p <= |t|
    ensures q == SkipWs(t, p)
  {
    q := p;
    while Peek(t, q) != '\0' && Peek(t, q) <= ' '
      invariant p <= q <= |t| && SkipWs(t, q) == SkipWs(t, p)
      decreases |t| - q
    {
      q := q + 1;
    }
  }

  /** Reads the four characters behind `\u`, most significant digit first, and stops at the first that is no hex digit. */
  method ReadHexFour(h: string) returns (ok: bool, code: nat)
    requires |h| == 4
    ensures ok == IsHexFour(h)
    ensures ok ==> code == HexFour(h)
  {
    hide HexPrefix;
    ok, code := true, 0;
    HexPrefixStep(h, 0);
    var k := 0;
    while k < 4
      invariant k <= 4 && (forall j :: 0 <= j < k ==> IsHex(h[j])) && code == HexPrefix(h, k)
    {
      code := 0x10 * code;
      var c := h[k];
      if '0' <= c <= '9' {
        code := code + (c as int - '0' as int);
      } else if 'a' <= c <= 'f' {
        code := code + 10 + (c as int - 'a' as int);
      } else if 'A' <= c <= 'F' {
        code := code + 10 + (c as int - 'A' as int);
      } else {
        ok := false;
        return;
      }
      k := k + 1;
      HexPrefixStep(h, k);
    }
    HexPrefixFour(h);
  }

  lemma HexPrefixStep(h: string, k: nat)
    requires k <= |h| && forall j :: 0 <= j < k ==> IsHex(h[j])
    ensures HexPrefix(h, k) == if k == 0 then 0 else 0x10 * HexPrefix(h, k - 1) + HexValue(h[k - 1])
  {
  }

  function HexPrefix(h: string, k: nat): nat
    requires k <= |h| && forall j :: 0 <= j < k ==> IsHex(h[j])
    decreases k, h
  {
    if k == 0 then 0 else 0x10 * HexPrefix(h, k - 1) + HexValue(h[k - 1])
  }

  lemma HexPrefixFour(h: string)
    requires IsHexFour(h)
    ensures HexPrefix(h, 4) == HexFour(h)
  {
    assert HexPrefix(h, 3) == 0x10 * HexPrefix(h, 2) + HexValue(h[2]);
    assert HexPrefix(h, 1) == HexValue(h[0]);
  }

  /** The UTF-8 bytes of one code, written at out[o..]. */
  method EmitCode(out: array<char>, o: nat, code: nat) returns (n: nat)
    requires code < 0x1_0000 && o + |Utf8(code)| <= out.Length
    modifies out
    ensures n == o + |Utf8(code)|
    ensures out[..n] == old(out[..o]) + Utf8(code)
  {
    if code <= 0x7F {
      out[o] := code as char;
      n := o + 1;
    } else if code <= 0x7FF {
      out[o], out[o + 1] := (0xC0 + code / 0x40) as char, (0x80 + code % 0x40) as char;
      n := o + 2;
    } else {
      out[o], out[o + 1], out[o + 2] :=
        (0xE0 + code / 0x1000) as char, (0x80 + code / 0x40 % 0x40) as char, (0x80 + code % 0x40) as char;
      n := o + 3;
    }
  }

  /** The step equation of Unescape, with the amount written so far in front. */
  lemma UnescapeStep(s: string, i: nat, written: string)
    requires i < |s|
    ensures UnitLength(s[i..]) <= |s| - i
    ensures written + Unescape(s[i..]) ==
            (written + UnitMeaning(s[i..])) + Unescape(s[i + UnitLength(s[i..])..])
  {
    hide UnitLength, UnitMeaning;
    assert s[i..][UnitLength(s[i..])..] == s[i + UnitLength(s[i..])..];
  }

  lemma EndOfUnescape(s: string)
    requires |s| == 0
    ensures Unescape(s) == ""
  {
  }

  /** One step of the loop of unescape_json_string: reads at i, writes at o. */
  method UnescapeOne(s: string, i: nat, out: array<char>, o: nat) returns (j: nat, n: nat)
    requires i < |s| && o + |s| - i < out.Length
    modifies out
    ensures j == i + UnitLength(s[i..])
    ensures n == o + |UnitMeaning(s[i..])|
    ensures out[..n] == old(out[..o]) + UnitMeaning(s[i..])
  {
    var c := s[i];
    j, n := i, o;
    if c == '\\' && i + 1 < |s| {
      var e := s[i + 1];
      if e == 'u' {
        if i + 5 < |s| {
          assert s[i..][2..6] == s[i + 2..i + 6];
          var ok, code := ReadHexFour(s[i + 2..i + 6]);
          if ok {
            n := EmitCode(out, o, code);
            j := j + 5;
          }
        }
      } else {
        out[o] := SimpleEscape(e);
        n, j := o + 1, j + 1;
      }
    } else {
      out[o] := c;
      n := o + 1;
    }
    j := j + 1;
  }

  /** The NUL-terminated result; end is the place of the NUL that the code writes last. */
  method UnescapeJsonString(s: string) returns (out: array<char>, end: nat)
    ensures fresh(out) && out.Length == |s| + 1
    ensures end <= |s| && out[..end] == Unescape(s) && out[end] == '\0'
  {
    hide Unescape, UnitLength, UnitMeaning;
    out := new char[|s| + 1];
    end := 0;
    assert s[0..] == s;
    var i := 0;
    while i < |s|
      invariant i <= |s| && end <= i
      invariant out[..end] + Unescape(s[i..]) == Unescape(s)
      decreases |s| - i
    {
      UnescapeStep(s, i, out[..end]);
      i, end := UnescapeOne(s, i, out, end);
    }
    EndOfUnescape(s[i..]);
    out[end] := '\0';
  }

  method ParseStringLiteral(t: string, p: nat) returns (r: Parsed<string>)
    requires p <= |t|
    ensures r == ParseString(t, p)
  {
    if Peek(t, p) != '"' {
      return Fail;
    }
    var s := p + 1;
    while Peek(t, s) != '\0' && Peek(t, s) != '"'
      invariant p < s <= |t| && ScanString(t, s) == ScanString(t, p + 1)
      decreases |t| - s
    {
      if Peek(t, s) == '\\' && Peek(t, s + 1) != '\0' {
        s := s + 1;
      }
      s := s + 1;
    }
    if Peek(t, s) != '"' {
      return Fail;
    }
    var out, end := UnescapeJsonString(t[p + 1..s]);
    var text := ReadCString(out, end);
    r := Ok(text, s + 1);
  }

  method EatDigits(t: string, p: nat) returns (q: nat)
    requires p <= |t|
    ensures q == SkipDigits(t, p)
  {
    q := p;
    while IsDigit(Peek(t, q))
      invariant p <= q <= |t| && SkipDigits(t, q) == SkipDigits(t, p)
      decreases |t| - q
    {
      q := q + 1;
    }
  }

  method EatInteger(t: string, p: nat) returns (r: Option<nat>)
    requires p <= |t|
    ensures r == IntegerPart(t, p)
  {
    hide SkipDigits;
    var s := p;
    if Peek(t, s) == '-' {
      s := s + 1;
    }
    if Peek(t, s) == '0' {
      return Some(s + 1);
    } else if IsDigit(Peek(t, s)) {
      s := EatDigits(t, s);
      return Some(s);
    } else {
      return None;
    }
  }

  method EatFraction(t: string, p: nat) returns (r: Option<nat>)
    requires p <= |t|
    ensures r == FractionPart(t, p)
  {
    hide SkipDigits;
    var s := p;
    if Peek(t, s) == '.' {
      s := s + 1;
      if !IsDigit(Peek(t, s)) {
        return None;
      }
      s := EatDigits(t, s);
    }
    return Some(s);
  }

  method EatExponent(t: string, p: nat) returns (r: Option<nat>)
    requires p <= |t|
    ensures r == ExponentPart(t, p)
  {
    hide SkipDigits;
    var s := p;
    if Peek(t, s) == 'e' || Peek(t, s) == 'E' {
      s := s + 1;
      if Peek(t, s) == '+' || Peek(t, s) == '-' {
        s := s + 1;
      }
      if !IsDigit(Peek(t, s)) {
        return None;
      }
      s := EatDigits(t, s);
    }
    return Some(s);
  }

  method ParseNumberLiteral(t: string, p: nat) returns (r: Parsed<string>)
    requires p <= |t|
    ensures r == ParseNumber(t, p)
  {
    hide IntegerPart, FractionPart, ExponentPart;
    var a := EatInteger(t, p);
    if a == None {
      return Fail;
    }
    var b := EatFraction(t, a.value);
    if b == None {
      return Fail;
    }
    var c := EatExponent(t, b.value);
    if c == None {
      return Fail;
    }
    r := Ok(t[p..c.value], c.value);
  }

  // ----- values -----

  /** The node that a parse step returns, and the cursor behind it, are those of r; null stands for a failure. */
  ghost predicate Built(node: Nodes.Node?<Fields>, next: nat, r: Parsed<Tree>)
    reads node, if node == null then {} else node.repr
  {
    if node == null then r.Fail? else
      && r == Ok(node.tree, next) && node.Valid()
      && node.parent == null && node.nextSibling == null
  }

  method NewLeaf(kind: Kind, text: string, next: nat) returns (node: Nodes.Node?<Fields>, q: nat)
    ensures node != null && fresh(node) && fresh(node.repr) && Built(node, q, Ok(JsonText.Leaf(kind, text), next))
  {
    node := new Nodes.Node(JsonText.Fields(kind, None, Some(text)));
    q := next;
  }

  method ParseValue(t: string, p: nat) returns (node: Nodes.Node?<Fields>, q: nat)
    requires p <= |t|
    ensures Built(node, q, JsonText.ParseValue(t, p))
    ensures node != null ==> fresh(node) && fresh(node.repr)
    decreases |t| - p, 1
  {
    hide ParseString, ParseNumber, JsonText.ParseArray, JsonText.ParseObject, SkipWs;
    var s := SkipBlanks(t, p);
    var c := Peek(t, s);
    q := s;
    if c == '\0' {
      node := null;
    } else if c == '{' {
      node, q := ParseObject(t, s);
    } else if c == '[' {
      node, q := ParseArray(t, s);
    } else if c == '"' {
      var r := ParseStringLiteral(t, s);
      if r.Fail? {
        return null, s;
      }
      node, q := NewLeaf(JsonText.String, r.value, r.next);
    } else if c == '-' || IsDigit(c) {
      var r := ParseNumberLiteral(t, s);
      if r.Fail? {
        return null, s;
      }
      node, q := NewLeaf(JsonText.Number, r.value, r.next);
    } else if At(t, s, "true") {
      node, q := NewLeaf(JsonText.Boolean, "true", s + 4);
    } else if At(t, s, "false") {
      node, q := NewLeaf(JsonText.Boolean, "false", s + 5);
    } else if At(t, s, "null") {
      node, q := NewLeaf(JsonText.Null, "null", s + 4);
    } else {
      node := null;
    }
  }

  /** r with the trees that the loop has already read in front. */
  ghost function Behind(done: seq<Tree>, r: Parsed<seq<Tree>>, kind: Kind): Parsed<Tree> {
    if r.Fail? then Fail else Ok(JsonText.Branch(kind, done + r.value), r.next)
  }

  method ParseArray(t: string, p: nat) returns (node: Nodes.Node?<Fields>, q: nat)
    requires p <= |t| && Peek(t, p) == '['
    ensures Built(node, q, JsonText.ParseArray(t, p))
    ensures node != null ==> fresh(node) && fresh(node.repr)
    decreases |t| - p, 0
  {
    hide JsonText.ParseElements, JsonText.ParseValue, JsonText.ParseArray, SkipWs, Behind, Nodes.Node.Valid;
    ArrayCases(t, p);
    var s := SkipBlanks(t, p + 1);
    var arr := new Nodes.Node(JsonText.Fields(JsonText.Array, None, None));
    if Peek(t, s) == ']' {
      return arr, s + 1;
    }
    while true
      invariant p < s <= |t|
      invariant arr.Valid() && fresh(arr.repr) && arr.parent == null && arr.nextSibling == null
      invariant arr.tree == JsonText.Branch(JsonText.Array, arr.tree.children)
      invariant Behind(arr.tree.children, JsonText.ParseElements(t, s), JsonText.Array) == JsonText.ParseArray(t, p)
      decreases |t| - s
    {
      ghost var s0, done := s, arr.tree.children;
      s := SkipBlanks(t, s);
      var elem, next := ParseValue(t, s);
      ElementsCases(t, s0, done, JsonText.ParseValue(t, s));
      if elem == null {
        return null, s;
      }
      arr.AppendChild(elem);
      s := SkipBlanks(t, next);
      if Peek(t, s) == ',' {
        s := s + 1;
      } else if Peek(t, s) == ']' {
        return arr, s + 1;
      } else {
        return null, s;
      }
    }
  }

  lemma ArrayCases(t: string, p: nat)
    requires p < |t| && t[p] == '['
    ensures var s := SkipWs(t, p + 1);
      JsonText.ParseArray(t, p) ==
        if Peek(t, s) == ']' then Ok(JsonText.Branch(JsonText.Array, []), s + 1)
        else Behind([], JsonText.ParseElements(t, s), JsonText.Array)
  {
    hide SkipWs, JsonText.ParseElements;
    var r := JsonText.ParseElements(t, SkipWs(t, p + 1));
    assert r.Ok? ==> [] + r.value == r.value;
  }

  lemma ElementsCases(t: string, p: nat, done: seq<Tree>, v: Parsed<Tree>)
    requires p <= |t| && v == JsonText.ParseValue(t, SkipWs(t, p))
    ensures var r := Behind(done, JsonText.ParseElements(t, p), JsonText.Array);
      if v.Fail? then r.Fail?
      else
        var s := SkipWs(t, v.next);
        if Peek(t, s) == ',' then r == Behind(done + [v.value], JsonText.ParseElements(t, s + 1), JsonText.Array)
        else if Peek(t, s) == ']' then r == Ok(JsonText.Branch(JsonText.Array, done + [v.value]), s + 1)
        else r.Fail?
  {
    hide SkipWs, JsonText.ParseValue;
    if v.Ok? && Peek(t, SkipWs(t, v.next)) == ',' {
      var rest := JsonText.ParseElements(t, SkipWs(t, v.next) + 1);
      if rest.Ok? {
        assert done + ([v.value] + rest.value) == (done + [v.value]) + rest.value;
      }
    }
  }

  /** One member: its value, with the key set on it. A key that cannot be read leaves the cursor on a quote, not on a colon. */
  method ParseMember(t: string, p: nat) returns (val: Nodes.Node?<Fields>, q: nat)
    requires p <= |t|
    ensures Built(val, q, JsonText.ParseMember(t, p))
    ensures val != null ==> fresh(val) && fresh(val.repr)
    decreases |t| - p, 2
  {
    hide ParseString, JsonText.ParseValue, SkipWs;
    var s := SkipBlanks(t, p);
    q := s;
    AtQuote(t, s);
    if Peek(t, s) != '"' {
      return null, s;
    }
    var key := ParseStringLiteral(t, s);
    if key.Ok? {
      s := key.next;
    }
    s := SkipBlanks(t, s);
    if Peek(t, s) != ':' {
      return null, s;
    }
    s := SkipBlanks(t, s + 1);
    val, q := ParseValue(t, s);
    if val != null {
      val.SetFields(val.fields.(name := Some(key.value)));
    }
  }

  lemma AtQuote(t: string, p: nat)
    requires p <= |t|
    ensures if Peek(t, p) == '"' then SkipWs(t, p) == p else ParseString(t, p).Fail?
  {
    hide ScanString, Unescape, Visible;
  }

  method ParseObject(t: string, p: nat) returns (node: Nodes.Node?<Fields>, q: nat)
    requires p <= |t| && Peek(t, p) == '{'
    ensures Built(node, q, JsonText.ParseObject(t, p))
    ensures node != null ==> fresh(node) && fresh(node.repr)
    decreases |t| - p, 0
  {
    hide JsonText.ParseMembers, JsonText.ParseMember, JsonText.ParseObject, SkipWs, Behind, Nodes.Node.Valid;
    ObjectCases(t, p);
    var s := SkipBlanks(t, p + 1);
    var obj := new Nodes.Node(JsonText.Fields(JsonText.Object, None, None));
    if Peek(t, s) == '}' {
      return obj, s + 1;
    }
    while true
      invariant p < s <= |t|
      invariant obj.Valid() && fresh(obj.repr) && obj.parent == null && obj.nextSibling == null
      invariant obj.tree == JsonText.Branch(JsonText.Object, obj.tree.children)
      invariant Behind(obj.tree.children, JsonText.ParseMembers(t, s), JsonText.Object) == JsonText.ParseObject(t, p)
      decreases |t| - s
    {
      MembersCases(t, s, obj.tree.children, JsonText.ParseMember(t, s));
      var val, next := ParseMember(t, s);
      if val == null {
        return null, s;
      }
      obj.AppendChild(val);
      s := SkipBlanks(t, next);
      if Peek(t, s) == ',' {
        s := s + 1;
      } else if Peek(t, s) == '}' {
        return obj, s + 1;
      } else {
        return null, s;
      }
    }
  }

  lemma ObjectCases(t: string, p: nat)
    requires p < |t| && t[p] == '{'
    ensures var s := SkipWs(t, p + 1);
      JsonText.ParseObject(t, p) ==
        if Peek(t, s) == '}' then Ok(JsonText.Branch(JsonText.Object, []), s + 1)
        else Behind([], JsonText.ParseMembers(t, s), JsonText.Object)
  {
    hide SkipWs, JsonText.ParseMembers;
    var r := JsonText.ParseMembers(t, SkipWs(t, p + 1));
    assert r.Ok? ==> [] + r.value == r.value;
  }

  lemma MembersCases(t: string, p: nat, done: seq<Tree>, v: Parsed<Tree>)
    requires p <= |t| && v == JsonText.ParseMember(t, p)
    ensures var r := Behind(done, JsonText.ParseMembers(t, p), JsonText.Object);
      if v.Fail? then r.Fail?
      else
        var s := SkipWs(t, v.next);
        if Peek(t, s) == ',' then r == Behind(done + [v.value], JsonText.ParseMembers(t, s + 1), JsonText.Object)
        else if Peek(t, s) == '}' then r == Ok(JsonText.Branch(JsonText.Object, done + [v.value]), s + 1)
        else r.Fail?
  {
    hide SkipWs, JsonText.ParseMember;
    if v.Ok? && Peek(t, SkipWs(t, v.next)) == ',' {
      var rest := JsonText.ParseMembers(t, SkipWs(t, v.next) + 1);
      if rest.Ok? {
        assert done + ([v.value] + rest.value) == (done + [v.value]) + rest.value;
      }
    }
  }

  /** The document node, or null when the text is no JSON document. */
  method ParseDocument(t: string) returns (root: Nodes.Node?<Fields>)
    ensures root == null <==> JsonText.ParseDocument(t) == None
    ensures root != null ==>
      fresh(root.repr) && root.Valid() && root.parent == null && root.nextSibling == null
      && JsonText.ParseDocument(t) == Some(root.tree)
  {
    hide JsonText.ParseValue, SkipWs, Nodes.Node.Valid;
    var p := SkipBlanks(t, 0);
    var value, next := ParseValue(t, p);
    if value == null {
      return null;
    }
    p := SkipBlanks(t, next);
    if Peek(t, p) != '\0' {
      return null;
    }
    root := new Nodes.Node(JsonText.Fields(JsonText.Document, None, None));
    root.AppendChild(value);
    assert root.tree.children == [value.tree];
  }
}
