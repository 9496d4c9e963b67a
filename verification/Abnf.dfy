/**
 comm/src/abnf.c as it works: a cursor over the lines, views that are trimmed at both ends, a
 dictionary of headers. Every method is proved against the functions of AbnfText.
 */
module Abnf {
  import opened CStrings
  import opened Wrappers
  import opened AbnfText
  import opened Dictionary
  import opened HashBuckets
  import opened KeyOrder

  // ----- tokens -----

  method TrimView(t: string, start: nat, len: nat) returns (start': nat, len': nat)
    requires start + len <= |t|
    ensures start' + len' <= |t| && t[start'..start' + len'] == Trim(t[start..start + len])
  {
    hide TrimLeft, TrimRight;
    start', len' := start, len;
    while len' > 0 && IsCSpace(t[start'])
      invariant start' + len' == start + len
      invariant TrimLeft(t[start'..start' + len']) == TrimLeft(t[start..start + len])
      decreases len'
    {
      TrimLeftAt(t, start', start' + len');
      start', len' := start' + 1, len' - 1;
    }
    TrimLeftAt(t, start', start' + len');
    while len' > 0 && IsCSpace(t[start' + len' - 1])
      invariant start' + len' <= start + len
      invariant TrimRight(t[start'..start' + len']) == Trim(t[start..start + len])
      decreases len'
    {
      TrimRightAt(t, start', start' + len');
      len' := len' - 1;
    }
    TrimRightAt(t, start', start' + len');
  }

  lemma TrimLeftAt(t: string, a: nat, b: nat)
    requires a <= b <= |t|
    ensures TrimLeft(t[a..b]) == if a < b && IsCSpace(t[a]) then TrimLeft(t[a + 1..b]) else t[a..b]
  {
    assert a < b ==> t[a..b][1..] == t[a + 1..b];
  }

  lemma TrimRightAt(t: string, a: nat, b: nat)
    requires a <= b <= |t|
    ensures TrimRight(t[a..b]) == if a < b && IsCSpace(t[b - 1]) then TrimRight(t[a..b - 1]) else t[a..b]
  {
    assert a < b ==> t[a..b][..b - a - 1] == t[a..b - 1];
  }

  /** memchr on a line; its length stands for NULL. */
  method FindChar(s: string, c: char, p: nat) returns (q: nat)
    requires p <= |s|
    ensures q == IndexOf(s, p, c)
  {
    q := p;
    while q < |s| && s[q] != c
      invariant p <= q <= |s| && IndexOf(s, q, c) == IndexOf(s, p, c)
    {
      q := q + 1;
    }
  }

  /** strtok with a space as delimiter, from the place where the last call stopped. */
  method NextToken(s: string, p: nat) returns (r: Parsed<string>)
    requires p <= |s|
    ensures r == Token(s, p)
  {
    var a := p;
    while a < |s| && s[a] == ' '
      invariant p <= a <= |s| && SkipSpaces(s, a) == SkipSpaces(s, p)
    {
      a := a + 1;
    }
    if a == |s| {
      return Fail;
    }
    var b := FindChar(s, ' ', a);
    r := Ok(s[a..b], if b < |s| then b + 1 else b);
  }

  // ----- headers in the dictionary -----

  /** Keys and values are stored with their terminating NUL. */
  function Stored(s: string): (r: string)
    ensures |r| == |s| + 1
  {
    s + ['\0']
  }

  /** So a reader of the stored bytes sees the key or the value. */
  lemma StoredIsCString(s: string)
    requires '\0' !in s
    ensures Visible(Stored(s)) == s
  {
    VisibleBefore(s, "");
    assert s + ['\0'] + "" == Stored(s);
  }

  ghost predicate Holds(contents: map<string, Value>, headers: map<string, string>) {
    && (forall k :: k in headers ==> Stored(k) in contents && contents[Stored(k)] == Copied(Stored(headers[k])))
    && (forall x :: x in contents ==> |x| > 0 && x == Stored(x[..|x| - 1]) && x[..|x| - 1] in headers)
  }

  lemma HoldsMore(contents: map<string, Value>, headers: map<string, string>, key: string, value: string)
    requires Holds(contents, headers)
    ensures Holds(contents[Stored(key) := Copied(Stored(value))], headers[key := value])
  {
    hide Stored;
    var contents' := contents[Stored(key) := Copied(Stored(value))];
    forall k | k in headers[key := value]
      ensures Stored(k) in contents' && contents'[Stored(k)] == Copied(Stored(headers[key := value][k]))
    {
      StoredBack(k);
      StoredBack(key);
    }
    forall x | x in contents'
      ensures |x| > 0 && x == Stored(x[..|x| - 1]) && x[..|x| - 1] in headers[key := value]
    {
      StoredBack(key);
    }
  }

  lemma StoredBack(s: string)
    ensures |Stored(s)| == |s| + 1 && Stored(s)[..|s|] == s
  {
  }

  ghost function StoredAll(ks: seq<string>): (r: seq<string>)
    ensures |r| == |ks| && forall i :: 0 <= i < |r| ==> r[i] == Stored(ks[i])
  {
    seq(|ks|, i requires 0 <= i < |ks| => Stored(ks[i]))
  }

  /** The hash function on keys as they are read. */
  ghost function KeyHash(hash: Hash): Hash {
    (k: string) => hash(Stored(k))
  }

  lemma StoredOrder(hash: Hash, ks: seq<string>, key: string)
    ensures StoredAll(KeyAdded(KeyHash(hash), ks, key)) == KeyAdded(hash, StoredAll(ks), Stored(key))
  {
    SamePlace(hash, ks, key);
    SameMembers(ks, key);
    hide Place, Stored;
    if key !in ks {
      var at := Place(hash, StoredAll(ks), Stored(key));
      assert StoredAll(ks[..at] + [key] + ks[at..]) == StoredAll(ks)[..at] + [Stored(key)] + StoredAll(ks)[at..];
    }
  }

  lemma SamePlace(hash: Hash, ks: seq<string>, key: string)
    ensures Place(KeyHash(hash), ks, key) == Place(hash, StoredAll(ks), Stored(key))
  {
  }

  lemma SameMembers(ks: seq<string>, key: string)
    ensures key in ks <==> Stored(key) in StoredAll(ks)
  {
    forall i | 0 <= i < |ks| ensures Stored(ks[i]) == Stored(key) <==> ks[i] == key {
      StoredBack(ks[i]);
      StoredBack(key);
    }
  }

  class Abnf {
    var isValid: bool
    var protocol: Protocol
    var requestMethod: string
    var version: string
    var uri: string
    var status: string
    var reason: string
    const headers: Dictionary
    var body: string

    /** The headers as a map. */
    ghost var fields: map<string, string>

    /** The header keys in the order in which the dictionary lists them. */
    ghost var order: seq<string>

    ghost predicate Valid()
      reads `fields, `order, headers, headers.Repr
    {
      this !in headers.Repr && headers.Valid() && Holds(headers.contents, fields) && headers.Order() == StoredAll(order)
    }

    ghost function Value(): Message
      reads this
    {
      Message(Start(requestMethod, uri, version, status, reason), protocol, fields, body)
    }

    constructor (hash: string -> nat)
      ensures Valid() && !isValid && fresh(headers.Repr) && order == [] && headers.hash == hash
      ensures Value() == Message(Start("", "", "", "", ""), Unknown, map[], "")
    {
      hide Dictionary.Valid, Dictionary.Order;
      isValid, protocol := false, Unknown;
      requestMethod, version, uri, status, reason, body := "", "", "", "", "", "";
      headers := new Dictionary(hash);
      fields, order := map[], [];
    }

    lemma NotOwned()
      requires Valid()
      ensures this !in headers.Repr
    {
      hide Dictionary.Valid, Dictionary.Order, Holds;
    }

    method ParseStartLine(line: string) returns (ok: bool)
      requires Valid() && Value().start == Start("", "", "", "", "")
      modifies `requestMethod, `version, `uri, `status, `reason, `protocol
      ensures Valid()
      ensures ok == ParseStart(line).Some?
      ensures ok ==> Value() == old(Value()).(
        start := ParseStart(line).value, protocol := DetectProtocol(ParseStart(line).value.version))
    {
      hide Token, IsVersion, DetectProtocol, Valid;
      NotOwned();
      var first := NextToken(line, 0);
      if first.Fail? {
        return false;
      }
      var second := NextToken(line, first.next);
      if second.Fail? || second.next == |line| {
        return false;
      }
      var third := line[second.next..];
      if IsVersion(first.value) {
        version, status, reason := first.value, second.value, third;
        protocol := DetectProtocol(first.value);
      } else {
        requestMethod, uri, version := first.value, second.value, third;
        protocol := DetectProtocol(third);
      }
      ok := true;
    }

    method StoreHeader(key: string, value: string)
      requires Valid()
      modifies headers.Repr, `fields, `order
      ensures fresh(headers.Repr - old(headers.Repr))
      ensures Valid() && fields == old(fields)[key := value]
      ensures order == KeyAdded(KeyHash(headers.hash), old(order), key)
    {
      hide Holds, Dictionary.Valid, KeyAdded, Dictionary.Order, StoredAll;
      HoldsMore(headers.contents, fields, key, value);
      StoredOrder(headers.hash, order, key);
      headers.SetValue(Stored(key), Stored(value));
      fields := fields[key := value];
      order := KeyAdded(KeyHash(headers.hash), order, key);
    }

    /** One header line between its ends. */
    method ParseHeaderLine(t: string, p: nat, e: nat)
      requires Valid() && p <= e <= |t|
      modifies headers.Repr, `fields, `order
      ensures fresh(headers.Repr - old(headers.Repr))
      ensures Valid() && fields == AddLine(old(fields), t[p..e])
      ensures order == OrderAfterLine(KeyHash(headers.hash), old(order), t[p..e])
    {
      hide Trim, Valid, IndexOf, KeyAdded;
      var line := t[p..e];
      var colon := FindChar(line, ':', 0);
      if colon < |line| {
        LinePieces(t, p, e, colon);
        var k, keyLen := TrimView(t, p, colon);
        var v, valueLen := TrimView(t, p + colon + 1, |line| - colon - 1);
        if keyLen > 0 {
          StoreHeader(t[k..k + keyLen], t[v..v + valueLen]);
        }
      }
    }

    static lemma LinePieces(t: string, p: nat, e: nat, colon: nat)
      requires p + colon < e <= |t|
      ensures t[p..e][..colon] == t[p..p + colon]
      ensures t[p..e][colon + 1..] == t[p + colon + 1..p + colon + 1 + (e - p - colon - 1)]
    {
    }

    method ParseHeadersBlock(t: string, p: nat, end: nat)
      requires Valid() && p <= |t|
      modifies headers.Repr, `fields, `order
      ensures fresh(headers.Repr - old(headers.Repr))
      ensures Valid() && fields == ParseHeaders(t, p, end, old(fields))
      ensures order == HeaderOrder(KeyHash(headers.hash), t, p, end, old(order))
    {
      hide Find, AddLine, At, Holds, Dictionary.Valid, OrderAfterLine, StoredAll, Dictionary.Order;
      var cursor := p;
      while cursor < end
        invariant p <= cursor <= |t| && Valid() && fresh(headers.Repr - old(headers.Repr))
        invariant ParseHeaders(t, cursor, end, fields) == ParseHeaders(t, p, end, old(fields))
        invariant HeaderOrder(KeyHash(headers.hash), t, cursor, end, order)
          == HeaderOrder(KeyHash(headers.hash), t, p, end, old(order))
        decreases |t| - cursor
      {
        var e := FindSubstring(t, cursor, CRLF);
        if e == None || e.value > end || e.value == cursor {
          return;
        }
        AtEnds(t, e.value, CRLF);
        ParseHeaderLine(t, cursor, e.value);
        cursor := e.value + 2;
      }
    }

    method ParseRest(t: string, p: nat, withBody: bool)
      requires Valid() && p <= |t| && fields == map[] && order == [] && body == ""
      modifies headers.Repr, `fields, `order, `body
      ensures fresh(headers.Repr - old(headers.Repr))
      ensures Valid() && (fields, body) == AbnfText.ParseRest(t, p, withBody)
      ensures order == RestOrder(KeyHash(headers.hash), t, p)
    {
      hide Find, At, ParseHeaders, HeaderOrder, Valid;
      NotOwned();
      var h := FindSubstring(t, p, BLANK_LINE);
      if h.Some? {
        AtEnds(t, h.value, BLANK_LINE);
        ParseHeadersBlock(t, p, h.value);
        NotOwned();
        if withBody {
          body := t[h.value + 4..];
        }
      } else {
        ParseHeadersBlock(t, p, |t|);
      }
    }

    method SerializeStart(usage: Protocol) returns (line: Option<string>)
      ensures line == StartLine(Value().start, usage)
    {
      if usage == Http || usage == Sip {
        if |requestMethod| > 0 && |uri| > 0 && |version| > 0 {
          return Some(requestMethod + " " + uri + " " + version);
        } else if |version| > 0 && |status| > 0 && |reason| > 0 {
          return Some(version + " " + status + " " + reason);
        }
      } else if usage == Smtp || usage == Imap4 {
        if |requestMethod| > 0 {
          if |uri| > 0 {
            return Some(requestMethod + " " + uri);
          }
          return Some(requestMethod);
        } else if |status| > 0 && |reason| > 0 {
          return Some(status + " " + reason);
        }
      }
      return None;
    }

    /** The text of the message, with the headers in the order in which the dictionary lists them. */
    method Serialize(usage: Protocol) returns (text: Option<string>)
      requires Valid()
      ensures !isValid ==> text == None
      ensures isValid ==> Enumerates(order, fields) && text == AbnfText.Serialize(Value(), usage, order)
    {
      hide StartLine, HeaderLines, HeaderLine, Valid, Visible;
      if !isValid {
        return None;
      }
      var line := SerializeStart(usage);
      var listed := ListKeys();
      if line == None {
        return None;
      }
      var lines := SerializeHeaders(listed, order);
      var shown := Visible(body);
      text := Some(line.value + CRLF + lines + CRLF + shown);
    }

    /** The array with the keys of the dictionary. */
    method ListKeys() returns (listed: array<Option<string>>)
      requires Valid()
      ensures Enumerates(order, fields) && fresh(listed) && Lists(listed, order)
    {
      hide Holds, ListsOnce, Dictionary.Valid, Dictionary.Order;
      listed := headers.GetAllKeys();
      ghost var raw := listed[..|headers.contents|];
      ListedKeys(raw, headers.contents, fields);
      assert |raw| == |order| && forall i :: 0 <= i < |raw| ==> raw[i] == Some(Stored(order[i]));
      forall i | 0 <= i < |order| ensures Unlist(raw)[i] == order[i] {
        StoredBack(order[i]);
      }
      assert Unlist(raw) == order;
    }

    /** The loop over the keys: each is looked up again. */
    method SerializeHeaders(listed: array<Option<string>>, ghost keys: seq<string>) returns (lines: string)
      requires Valid() && Enumerates(keys, fields) && Lists(listed, keys)
      ensures lines == HeaderLines(fields, keys)
    {
      hide Enumerates, LinesFrom, HeaderLine, Valid, Stored;
      lines := "";
      var i := 0;
      LinesFromStep(fields, keys, 0, lines);
      while listed[i] != None
        invariant i <= |keys|
        invariant lines + LinesFrom(fields, keys, i) == LinesFrom(fields, keys, 0)
        decreases |keys| - i
      {
        LinesFromStep(fields, keys, i, lines);
        var line := HeaderText(listed[i].value, keys[i]);
        lines := lines + (line + CRLF);
        i := i + 1;
      }
      LinesFromStep(fields, keys, i, lines);
    }

    /** Key and value go out without their NULs. */
    method HeaderText(stored: string, ghost key: string) returns (line: string)
      requires Valid() && key in fields && stored == Stored(key)
      ensures line == HeaderLine(key, fields[key])
    {
      hide HeaderLine, Dictionary.Valid;
      var value := headers.GetValue(stored);
      line := HeaderLine(Unstored(stored), Unstored(value.value.data));
    }
  }

  function Unstored(s: string): string {
    if |s| > 0 then s[..|s| - 1] else ""
  }

  ghost predicate Lists(listed: array<Option<string>>, keys: seq<string>)
    reads listed
  {
    && listed.Length == |keys| + 1 && listed[|keys|] == None
    && forall i :: 0 <= i < |keys| ==> listed[i] == Some(Stored(keys[i])) && Unstored(Stored(keys[i])) == keys[i]
  }

  ghost function Unlist(raw: seq<Option<string>>): (keys: seq<string>)
    ensures |keys| == |raw|
  {
    seq(|raw|, i requires 0 <= i < |raw| => if raw[i].Some? then Unstored(raw[i].value) else "")
  }

  lemma ListedKeys(raw: seq<Option<string>>, contents: map<string, Value>, headers: map<string, string>)
    requires Holds(contents, headers)
    requires ListsOnce(raw, contents.Keys)
    ensures Enumerates(Unlist(raw), headers)
    ensures forall i :: 0 <= i < |raw| ==>
      raw[i] == Some(Stored(Unlist(raw)[i])) && Unstored(Stored(Unlist(raw)[i])) == Unlist(raw)[i]
  {
    var keys := Unlist(raw);
    forall i | 0 <= i < |raw|
      ensures raw[i] == Some(Stored(keys[i])) && keys[i] in headers && Unstored(Stored(keys[i])) == keys[i]
    {
      assert raw[i].value in contents;
    }
    forall k ensures k in keys <==> k in headers {
      if k in headers {
        assert Stored(k) in contents;
        var x :| 0 <= x < |raw| && raw[x] == Some(Stored(k));
        assert keys[x] == Unstored(Stored(k)) == k;
      }
    }
  }

  ghost function LinesFrom(headers: map<string, string>, keys: seq<string>, i: nat): string
    requires Enumerates(keys, headers) && i <= |keys|
  {
    HeaderLines(headers, keys[i..])
  }

  lemma LinesFromStep(headers: map<string, string>, keys: seq<string>, i: nat, lines: string)
    requires Enumerates(keys, headers) && i <= |keys|
    ensures i == 0 ==> LinesFrom(headers, keys, i) == HeaderLines(headers, keys)
    ensures i == |keys| ==> LinesFrom(headers, keys, i) == ""
    ensures i < |keys| ==>
      && keys[i] in headers
      && lines + LinesFrom(headers, keys, i)
        == (lines + (HeaderLine(keys[i], headers[keys[i]]) + CRLF)) + LinesFrom(headers, keys, i + 1)
  {
    hide HeaderLine;
    assert keys[0..] == keys;
    if i < |keys| {
      assert keys[i] in keys;
      assert keys[i..][0] == keys[i] && keys[i..][1..] == keys[i + 1..];
    }
  }

  /** abnf_parse_internal: null when the text is no message. */
  method ParseMessage(t: string, withBody: bool, hash: string -> nat) returns (m: Abnf?)
    ensures m == null <==> Parse(t, withBody) == None
    ensures m != null ==>
      fresh(m) && fresh(m.headers.Repr) && m.Valid() && m.isValid && Parse(t, withBody) == Some(m.Value())
    ensures m != null ==> m.order == Order(KeyHash(hash), t) && m.headers.hash == hash
  {
    hide Find, At, ParseStart, AbnfText.ParseRest, Abnf.Valid, DetectProtocol;
    if |t| == 0 {
      NothingFound(CRLF);
      return null;
    }
    var f := FindSubstring(t, 0, CRLF);
    if f == None {
      return null;
    }
    AtEnds(t, f.value, CRLF);
    var message := new Abnf(hash);
    var ok := message.ParseStartLine(t[..f.value]);
    if !ok {
      return null;
    }
    message.NotOwned();
    message.ParseRest(t, f.value + 2, withBody);
    message.NotOwned();
    message.isValid := true;
    m := message;
  }
}
