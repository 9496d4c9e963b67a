/** The text that a message is serialized to stays the same when it is parsed and serialized again. */
module AbnfOrder {
  import opened AbnfRoundTrip
  import opened AbnfText
  import opened CStrings
  import opened KeyOrder
  import opened Wrappers

  // ----- the listed keys are the keys of the headers -----

  /** The keys of the map, in an order that the dictionary can have. */
  ghost predicate Lists(hash: Hash, ks: seq<string>, headers: map<string, string>) {
    Grouped(hash, ks) && forall k :: k in ks <==> k in headers
  }

  lemma LineListed(hash: Hash, ks: seq<string>, headers: map<string, string>, line: string)
    requires Lists(hash, ks, headers)
    ensures Lists(hash, OrderAfterLine(hash, ks, line), AddLine(headers, line))
  {
    hide Trim, IndexOf, Grouped, KeyAdded;
    var colon := IndexOf(line, 0, ':');
    if colon < |line| {
      var key := Trim(line[..colon]);
      AddedKeepsGroups(hash, ks, key);
      AddedMembers(hash, ks, key);
    }
  }

  lemma {:induction false} HeadersListed(hash: Hash, t: string, p: nat, end: nat, ks: seq<string>, headers: map<string, string>)
    requires p <= |t| && Lists(hash, ks, headers)
    ensures Lists(hash, HeaderOrder(hash, t, p, end, ks), ParseHeaders(t, p, end, headers))
    decreases |t| - p
  {
    hide Find, At, Lists, AddLine, OrderAfterLine;
    if p < end {
      match Find(t, p, CRLF)
      case None =>
      case Some(e) =>
        if !(e > end || e == p) {
          AtEnds(t, e, CRLF);
          LineListed(hash, ks, headers, t[p..e]);
          HeadersListed(hash, t, e + 2, end, OrderAfterLine(hash, ks, t[p..e]), AddLine(headers, t[p..e]));
        }
    }
  }

  lemma NothingListed(hash: Hash)
    ensures Lists(hash, [], map[])
  {
  }

  lemma ListsEnumerate(hash: Hash, ks: seq<string>, headers: map<string, string>)
    requires Lists(hash, ks, headers)
    ensures Enumerates(ks, headers) && Grouped(hash, ks)
  {
  }

  /** A parsed message lists each of its headers once. */
  lemma OrderListsHeaders(hash: Hash, t: string, withBody: bool)
    requires Parse(t, withBody).Some?
    ensures Enumerates(Order(hash, t), Parse(t, withBody).value.headers) && Grouped(hash, Order(hash, t))
  {
    hide Find, At, ParseStart, HeaderOrder, ParseHeaders, DetectProtocol, Lists, Enumerates, Grouped;
    var f := Find(t, 0, CRLF).value;
    AtEnds(t, f, CRLF);
    NothingListed(hash);
    match Find(t, f + 2, BLANK_LINE)
    case Some(h) =>
      HeadersListed(hash, t, f + 2, h, [], map[]);
      ListsEnumerate(hash, HeaderOrder(hash, t, f + 2, h, []), ParseHeaders(t, f + 2, h, map[]));
    case None =>
      HeadersListed(hash, t, f + 2, |t|, [], map[]);
      ListsEnumerate(hash, HeaderOrder(hash, t, f + 2, |t|, []), ParseHeaders(t, f + 2, |t|, map[]));
  }

  // ----- reading back what was written -----

  lemma OrderAfterWritten(hash: Hash, ks: seq<string>, key: string, value: string)
    requires WellFormedHeader(key, value)
    ensures OrderAfterLine(hash, ks, HeaderLine(key, value)) == KeyAdded(hash, ks, key)
  {
    hide Trim, At, OneLine, KeyAdded;
    var line := HeaderLine(key, value);
    IndexOfIs(line, 0, ':', |key|);
    assert line[..|key|] == key;
    TrimOfTrimmed(key);
  }

  lemma {:induction false} KeysOver(hash: Hash, t: string, p: nat, end: nat, ks: seq<string>,
                                    headers: map<string, string>, keys: seq<string>)
    requires (forall k :: k in keys ==> k in headers) && WellFormedHeaders(headers)
    requires At(t, p, HeaderLines(headers, keys) + CRLF) && p <= |t|
    requires end == p + |HeaderLines(headers, keys)| - 2
    ensures HeaderOrder(hash, t, p, end, ks) == KeysAdded(hash, ks, keys)
    decreases |keys|
  {
    hide Find, At, WellFormedHeader, HeaderLine, HeaderLines, OrderAfterLine, KeyAdded;
    if |keys| > 0 {
      var line := HeaderLine(keys[0], headers[keys[0]]);
      var rest := HeaderLines(headers, keys[1..]);
      assert WellFormedHeader(keys[0], headers[keys[0]]);
      HeaderLineIsOne(keys[0], headers[keys[0]]);
      HeaderLinesStep(headers, keys, CRLF);
      HeaderLinesLength(headers, keys);
      AtConcat(t, p, line + CRLF, rest + CRLF);
      LineFound(t, p, line);
      OrderAfterWritten(hash, ks, keys[0], headers[keys[0]]);
      KeysOver(hash, t, p + |line| + 2, end, KeyAdded(hash, ks, keys[0]), headers, keys[1..]);
    } else {
      NoHeaderLines(headers, keys);
    }
  }

  lemma OrderParts(hash: Hash, t: string, f: nat, h: nat)
    requires Find(t, 0, CRLF) == Some(f) && f + 2 <= |t| && Find(t, f + 2, BLANK_LINE) == Some(h)
    ensures Order(hash, t) == HeaderOrder(hash, t, f + 2, h, [])
  {
    hide Find, At, HeaderOrder;
  }

  /** Where the parser finds the end of the start line and the blank line. */
  lemma WrittenFound(m: Message, line: string, keys: seq<string>)
    requires WellFormed(m) && Enumerates(keys, m.headers) && |keys| > 0 && OneLine(line)
    ensures var lines := HeaderLines(m.headers, keys); var t := Wire(line, lines, m.body);
      && Find(t, 0, CRLF) == Some(|line|) && |line| + 2 <= |t| && At(t, |line| + 2, lines + CRLF)
      && |lines| > 2 && Find(t, |line| + 2, BLANK_LINE) == Some(|line| + |lines|)
  {
    hide Find, At, WellFormedStart, WellFormedHeaders, HeaderLines, Wire, OneLine;
    var lines := HeaderLines(m.headers, keys);
    var t := Wire(line, lines, m.body);
    WirePieces(line, lines, m.body);
    LineFound(t, 0, line);
    BlankLineFound(t, |line| + 2, m.headers, keys);
  }

  /** Headers that were written in the order of a dictionary are listed in that order again. */
  lemma WrittenOrder(hash: Hash, m: Message, line: string, keys: seq<string>)
    requires WellFormed(m) && Enumerates(keys, m.headers) && Grouped(hash, keys) && |keys| > 0 && OneLine(line)
    ensures Order(hash, Wire(line, HeaderLines(m.headers, keys), m.body)) == keys
  {
    hide Find, At, Order, HeaderOrder, WellFormedStart, WellFormedHeaders, HeaderLines, Wire, OneLine, Grouped, KeysAdded;
    var lines := HeaderLines(m.headers, keys);
    var t := Wire(line, lines, m.body);
    var h := |line| + |lines|;
    WrittenFound(m, line, keys);
    OrderParts(hash, t, |line|, h);
    KeysOver(hash, t, |line| + 2, h, [], m.headers, keys);
    OrderIsKept(hash, keys, 0);
    assert keys[..0] == [] && keys[0..] == keys;
  }

  // ----- the fixpoint -----

  /** The text that a parsed message is serialized to. */
  function Again(hash: Hash, t: string, withBody: bool, usage: Protocol): Option<string>
    requires Parse(t, withBody).Some?
  {
    OrderCovers(hash, t, withBody);
    Serialize(Parse(t, withBody).value, usage, Order(hash, t))
  }

  lemma OrderCovers(hash: Hash, t: string, withBody: bool)
    requires Parse(t, withBody).Some?
    ensures forall k :: k in Order(hash, t) ==> k in Parse(t, withBody).value.headers
  {
    hide Order, Parse;
    OrderListsHeaders(hash, t, withBody);
  }

  lemma WithHeadersAgain(hash: Hash, m: Message, line: string, usage: Protocol, keys: seq<string>)
    requires WellFormed(m) && Enumerates(keys, m.headers) && Grouped(hash, keys) && |keys| > 0
    requires StartLine(m.start, usage) == Some(line) && OneLine(line) && ParseStart(line) == Some(m.start)
    ensures var text := Wire(line, HeaderLines(m.headers, keys), m.body);
      Parse(text, true) == Some(m) && Again(hash, text, true, usage) == Some(text)
  {
    hide Parse, Order, HeaderLines, StartLine, ParseStart, OneLine, WellFormedStart, WellFormedHeaders, Grouped, Visible;
    WithHeaders(m, line, keys);
    WrittenOrder(hash, m, line, keys);
    VisibleIsAll(m.body);
  }

  lemma WithoutHeadersAgain(hash: Hash, m: Message, line: string, usage: Protocol)
    requires WellFormed(m) && m.headers == map[]
    requires StartLine(m.start, usage) == Some(line) && OneLine(line) && ParseStart(line) == Some(m.start)
    ensures var text := Wire(line, "", m.body);
      Parse(text, true).Some? && (Again(hash, text, true, usage) == Some(text) <==> m.body == "")
  {
    hide Parse, Order, HeaderLines, StartLine, ParseStart, OneLine, WellFormedStart, WellFormedHeaders, Grouped, Visible;
    var text := Wire(line, "", m.body);
    WithoutHeaders(m, line);
    var less :| Parse(text, true) == Some(m.(body := less)) && (less == m.body || |less| < |m.body|);
    OrderListsHeaders(hash, text, true);
    NoKeys(Order(hash, text));
    NoHeaderLines(m.headers, Order(hash, text));
    VisibleShortens(less);
    var again := Again(hash, text, true, usage);
    assert again == Some(line + CRLF + "" + CRLF + Visible(less));
    assert |again.value| == |line| + 4 + |Visible(less)| && |text| == |line| + 4 + |m.body|;
    if m.body == "" {
      assert less == "";
    }
  }

  lemma NoKeys(keys: seq<string>)
    requires Enumerates(keys, map[])
    ensures |keys| == 0
  {
    if |keys| > 0 {
      FirstKey(keys, map[]);
    }
  }

  lemma FirstKey(keys: seq<string>, headers: map<string, string>)
    requires Enumerates(keys, headers) && |keys| > 0
    ensures keys[0] in headers
  {
    assert keys[0] in keys;
  }

  lemma {:induction false} VisibleShortens(s: string)
    ensures |Visible(s)| <= |s|
  {
    if |s| > 0 {
      VisibleShortens(s[1..]);
    }
  }

  /**
   Parsing, serializing, parsing and serializing again gives the first serialized text once more if
   and only if the message has a header or has no body, whatever the hash function of the dictionary.
   */
  lemma TextIsFixed(hash: Hash, t: string, withBody: bool, usage: Protocol)
    requires '\0' !in t && Parse(t, withBody).Some? && (usage == Http || usage == Sip)
    ensures var m := Parse(t, withBody).value; var text := Again(hash, t, withBody, usage);
      && text.Some? && Parse(text.value, true).Some?
      && (Again(hash, text.value, true, usage) == text <==> m.headers != map[] || m.body == "")
  {
    hide ParseStart, StartLine, HeaderLines, Parse, WellFormedStart, WellFormedHeaders, OneLine, Visible, Order, Grouped;
    var m, keys := Parse(t, withBody).value, Order(hash, t);
    ParsedIsWellFormed(t, withBody);
    OrderListsHeaders(hash, t, withBody);
    StartRoundTrip(m.start, usage);
    VisibleIsAll(m.body);
    var line := StartLine(m.start, usage).value;
    if |keys| > 0 {
      assert keys[0] in m.headers;
      WithHeadersAgain(hash, m, line, usage, keys);
    } else {
      assert m.headers == map[];
      NoHeaderLines(m.headers, keys);
      WithoutHeadersAgain(hash, m, line, usage);
    }
  }
}
