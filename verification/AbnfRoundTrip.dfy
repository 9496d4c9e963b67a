/** Serializing a message and parsing it again. */
module AbnfRoundTrip {
  import opened CStrings
  import opened Wrappers
  import opened AbnfText

  // ----- well-formed messages -----

  /** No line break and no NUL inside. */
  ghost predicate OneLine(s: string) {
    forall i :: 0 <= i < |s| ==> s[i] != '\0' && !At(s, i, CRLF)
  }

  predicate Trimmed(s: string) {
    |s| == 0 || (!IsCSpace(s[0]) && !IsCSpace(s[|s| - 1]))
  }

  ghost predicate IsToken(s: string) {
    |s| > 0 && OneLine(s) && ' ' !in s
  }

  ghost predicate WellFormedStart(s: Start) {
    if |s.requestMethod| > 0 then
      && IsToken(s.requestMethod) && IsToken(s.uri) && |s.version| > 0 && OneLine(s.version)
      && !IsVersion(s.requestMethod) && s.status == "" && s.reason == ""
    else
      && IsToken(s.version) && IsToken(s.status) && |s.reason| > 0 && OneLine(s.reason)
      && IsVersion(s.version) && s.requestMethod == "" && s.uri == ""
  }

  ghost predicate WellFormedHeader(key: string, value: string) {
    && |key| > 0 && Trimmed(key) && OneLine(key) && ':' !in key
    && Trimmed(value) && OneLine(value)
  }

  ghost predicate WellFormedHeaders(headers: map<string, string>) {
    forall k :: k in headers ==> WellFormedHeader(k, headers[k])
  }

  ghost predicate WellFormed(m: Message) {
    WellFormedStart(m.start) && m.protocol == DetectProtocol(m.start.version) && WellFormedHeaders(m.headers) && '\0' !in m.body
  }

  // ----- lines -----

  lemma OneLineSlice(s: string, a: nat, b: nat)
    requires OneLine(s) && a <= b <= |s|
    ensures OneLine(s[a..b])
  {
    hide At;
    var x := s[a..b];
    AtSlice(s, a, b);
    forall i | 0 <= i < |x| ensures x[i] != '\0' && !At(x, i, CRLF) {
      AtEnds(x, i, CRLF);
      assert s[a + i] != '\0' && !At(s, a + i, CRLF);
      if i + 2 <= |x| {
        AtWithin(s, a, x, i, CRLF);
      }
    }
  }

  lemma PlainIsOneLine(s: string)
    requires '\r' !in s && '\0' !in s
    ensures OneLine(s)
  {
    hide At;
    forall i | 0 <= i < |s| ensures s[i] != '\0' && !At(s, i, CRLF) {
      CrlfAt(s, i);
    }
  }

  /** Lines put together make one line unless a break forms where they meet. */
  lemma OneLineJoin(a: string, b: string)
    requires OneLine(a) && OneLine(b)
    requires |a| == 0 || |b| == 0 || a[|a| - 1] != '\r' || b[0] != '\n'
    ensures OneLine(a + b)
  {
    hide At;
    var s := a + b;
    forall i | 0 <= i < |s| ensures s[i] != '\0' && !At(s, i, CRLF) {
      CrlfAt(s, i);
      if i < |a| {
        CrlfAt(a, i);
        assert a[i] != '\0';
      } else {
        CrlfAt(b, i - |a|);
        assert b[i - |a|] != '\0';
      }
    }
  }

  /** A line and its break: the break is found at the end of the line. */
  lemma LineFound(t: string, p: nat, line: string)
    requires At(t, p, line + CRLF) && OneLine(line)
    ensures Find(t, p, CRLF) == Some(p + |line|)
    ensures p + |line| + 2 <= |t| && t[p..p + |line|] == line
  {
    hide Find, At;
    AtConcat(t, p, line, CRLF);
    CrlfAt(t, p + |line|);
    AtText(t, p, line);
    forall i | p <= i < p + |line| ensures !At(t, i, CRLF) && Peek(t, i) != '\0' {
      CrlfAt(t, i);
      CrlfAt(line, i - p);
      assert line[i - p] == t[i];
      assert i + 1 < p + |line| ==> line[i + 1 - p] == t[i + 1];
    }
    FindIff(t, p, CRLF, p + |line|);
  }

  /** What a search for a break has passed over is one line. */
  lemma FoundIsLine(t: string, p: nat)
    requires p <= |t| && Find(t, p, CRLF).Some?
    ensures OneLine(t[p..Find(t, p, CRLF).value])
  {
    hide Find, At;
    var e := Find(t, p, CRLF).value;
    FindIff(t, p, CRLF, e);
    AtEnds(t, e, CRLF);
    var x := t[p..e];
    forall i | 0 <= i < |x| ensures x[i] != '\0' && !At(x, i, CRLF) {
      CrlfAt(x, i);
      CrlfAt(t, p + i);
      assert Peek(t, p + i) != '\0' && !At(t, p + i, CRLF);
    }
  }

  // ----- trimming -----

  lemma {:induction false} TrimLeftIsSlice(s: string) returns (a: nat)
    ensures a <= |s| && TrimLeft(s) == s[a..] && (a < |s| ==> !IsCSpace(s[a]))
  {
    if |s| > 0 && IsCSpace(s[0]) {
      var b := TrimLeftIsSlice(s[1..]);
      a := b + 1;
    } else {
      a := 0;
    }
  }

  lemma {:induction false} TrimRightIsSlice(s: string) returns (b: nat)
    ensures b <= |s| && TrimRight(s) == s[..b] && (b > 0 ==> !IsCSpace(s[b - 1]))
    ensures |s| > 0 && !IsCSpace(s[0]) ==> b > 0
  {
    if |s| > 0 && IsCSpace(s[|s| - 1]) {
      b := TrimRightIsSlice(s[..|s| - 1]);
      assert s[..|s| - 1][..b] == s[..b];
    } else {
      b := |s|;
    }
  }

  lemma TrimIsSlice(s: string) returns (a: nat, b: nat)
    ensures a <= b <= |s| && Trim(s) == s[a..b] && Trimmed(Trim(s))
  {
    a := TrimLeftIsSlice(s);
    var n := TrimRightIsSlice(s[a..]);
    b := a + n;
    assert s[a..][..n] == s[a..b];
  }

  lemma TrimOfTrimmed(s: string)
    requires Trimmed(s)
    ensures Trim(s) == s && Trim(" " + s) == s
  {
    assert TrimLeft(s) == s;
    assert TrimRight(s) == s;
    assert (" " + s)[1..] == s;
  }

  // ----- start lines -----

  lemma {:induction false} IndexOfIs(s: string, p: nat, c: char, q: nat)
    requires p <= q <= |s| && (q < |s| ==> s[q] == c) && forall i :: p <= i < q ==> s[i] != c
    ensures IndexOf(s, p, c) == q
    decreases q - p
  {
    if p < q {
      IndexOfIs(s, p + 1, c, q);
    }
  }

  lemma TokenOver(s: string, p: nat, x: string)
    requires At(s, p, x + " ") && |x| > 0 && ' ' !in x
    ensures Token(s, p) == Ok(x, p + |x| + 1)
  {
    AtConcat(s, p, x, " ");
    AtChar(s, p + |x|, ' ');
    forall i | p <= i < p + |x| ensures s[i] != ' ' {
      AtIndex(s, p, x, i - p);
    }
    IndexOfIs(s, p, ' ', p + |x|);
  }

  lemma ThreeParts(a: string, b: string, c: string)
    requires IsToken(a) && IsToken(b) && |c| > 0 && OneLine(c)
    ensures var line := a + " " + b + " " + c;
      && OneLine(line) && |line| == |a| + |b| + |c| + 2
      && Token(line, 0) == Ok(a, |a| + 1) && Token(line, |a| + 1) == Ok(b, |a| + |b| + 2)
      && line[|a| + |b| + 2..] == c
  {
    hide OneLine, At, Token;
    var line := a + " " + b + " " + c;
    PlainIsOneLine(" ");
    OneLineJoin(a, " ");
    OneLineJoin(a + " ", b);
    OneLineJoin(a + " " + b, " ");
    OneLineJoin(a + " " + b + " ", c);
    assert line == (a + " ") + (b + " " + c);
    assert line == (a + " ") + ((b + " ") + c);
    AtAll(line);
    AtConcat(line, 0, a + " ", b + " " + c);
    assert b + " " + c == (b + " ") + c;
    AtConcat(line, |a| + 1, b + " ", c);
    TokenOver(line, 0, a);
    TokenOver(line, |a| + 1, b);
  }

  /** A well-formed start line is read back. */
  lemma StartRoundTrip(s: Start, usage: Protocol)
    requires WellFormedStart(s) && (usage == Http || usage == Sip)
    ensures StartLine(s, usage).Some? && OneLine(StartLine(s, usage).value)
    ensures ParseStart(StartLine(s, usage).value) == Some(s)
  {
    hide IsVersion, OneLine, Token, At;
    if |s.requestMethod| > 0 {
      ThreeParts(s.requestMethod, s.uri, s.version);
    } else {
      ThreeParts(s.version, s.status, s.reason);
    }
  }

  lemma TokenIsSlice(line: string, p: nat)
    requires OneLine(line) && p <= |line| && Token(line, p).Ok?
    ensures IsToken(Token(line, p).value)
  {
    hide OneLine;
    var a := SkipSpaces(line, p);
    var b := IndexOf(line, a, ' ');
    OneLineSlice(line, a, b);
    forall i | 0 <= i < |line[a..b]| ensures line[a..b][i] != ' ' {
      assert line[a + i] != ' ';
    }
  }

  lemma ParsedStart(line: string)
    requires OneLine(line) && ParseStart(line).Some?
    ensures WellFormedStart(ParseStart(line).value)
  {
    hide OneLine, Token, IsVersion;
    var first := Token(line, 0);
    var second := Token(line, first.next);
    TokenIsSlice(line, 0);
    TokenIsSlice(line, first.next);
    OneLineSlice(line, second.next, |line|);
    assert line[second.next..|line|] == line[second.next..];
  }

  // ----- header lines -----

  lemma HeaderLineIsOne(key: string, value: string)
    requires WellFormedHeader(key, value)
    ensures var line := HeaderLine(key, value);
      OneLine(line) && |line| > 0 && !IsCSpace(line[0])
  {
    hide OneLine, At;
    PlainIsOneLine(": ");
    OneLineJoin(key, ": ");
    OneLineJoin(key + ": ", value);
  }

  lemma AddWrittenLine(headers: map<string, string>, key: string, value: string)
    requires WellFormedHeader(key, value)
    ensures AddLine(headers, HeaderLine(key, value)) == headers[key := value]
  {
    hide Trim, At, OneLine;
    var line := HeaderLine(key, value);
    IndexOfIs(line, 0, ':', |key|);
    assert line[..|key|] == key && line[|key| + 1..] == " " + value;
    TrimOfTrimmed(key);
    TrimOfTrimmed(value);
  }

  lemma AddedLine(headers: map<string, string>, line: string)
    requires WellFormedHeaders(headers) && OneLine(line)
    ensures WellFormedHeaders(AddLine(headers, line))
  {
    hide Trim, OneLine;
    var colon := IndexOf(line, 0, ':');
    if colon < |line| {
      OneLineSlice(line, 0, colon);
      OneLineSlice(line, colon + 1, |line|);
      assert line[colon + 1..|line|] == line[colon + 1..];
      var a, b := TrimIsSlice(line[..colon]);
      OneLineSlice(line[..colon], a, b);
      var c, d := TrimIsSlice(line[colon + 1..]);
      OneLineSlice(line[colon + 1..], c, d);
    }
  }

  lemma {:induction false} ParsedHeaders(t: string, p: nat, end: nat, headers: map<string, string>)
    requires p <= |t| && WellFormedHeaders(headers)
    ensures WellFormedHeaders(ParseHeaders(t, p, end, headers))
    decreases |t| - p
  {
    hide Find, AddLine, WellFormedHeaders, At;
    if p < end {
      match Find(t, p, CRLF)
      case None =>
      case Some(e) =>
        if !(e > end || e == p) {
          AtEnds(t, e, CRLF);
          FoundIsLine(t, p);
          AddedLine(headers, t[p..e]);
          ParsedHeaders(t, e + 2, end, AddLine(headers, t[p..e]));
        }
    }
  }

  lemma NoHeadersAreWellFormed()
    ensures WellFormedHeaders(map[])
  {
  }

  /** Whatever parses is well-formed. */
  lemma ParsedIsWellFormed(t: string, withBody: bool)
    requires '\0' !in t && Parse(t, withBody).Some?
    ensures WellFormed(Parse(t, withBody).value)
  {
    hide Find, ParseStart, ParseHeaders, WellFormedStart, WellFormedHeaders, At;
    var f := Find(t, 0, CRLF).value;
    AtEnds(t, f, CRLF);
    FoundIsLine(t, 0);
    ParsedStart(t[..f]);
    NoHeadersAreWellFormed();
    match Find(t, f + 2, BLANK_LINE)
    case Some(h) =>
      AtEnds(t, h, BLANK_LINE);
      ParsedHeaders(t, f + 2, h, map[]);
    case None => ParsedHeaders(t, f + 2, |t|, map[]);
  }

  // ----- reading the written headers -----

  /** No blank line starts in a line, nor at its break when another line follows. */
  lemma BlankLineSkips(t: string, p: nat, line: string)
    requires At(t, p, line + CRLF) && OneLine(line)
    ensures p + |line| + 2 <= |t|
    ensures !At(t, p + |line| + 2, CRLF) ==> Find(t, p, BLANK_LINE) == Find(t, p + |line| + 2, BLANK_LINE)
    ensures At(t, p + |line| + 2, CRLF) ==> Find(t, p, BLANK_LINE) == Some(p + |line|)
  {
    hide Find, At;
    var e := p + |line|;
    LineFound(t, p, line);
    FindIff(t, p, CRLF, e);
    CrlfAt(t, e);
    forall i | p <= i < e ensures !At(t, i, BLANK_LINE) && Peek(t, i) != '\0' {
      BlankLineAt(t, i);
    }
    BlankLineAt(t, e);
    BlankLineAt(t, e + 1);
    CrlfAt(t, e + 1);
    if At(t, e + 2, CRLF) {
      FindIff(t, p, BLANK_LINE, e);
    } else {
      FindSkips(t, p, BLANK_LINE, e + 2);
    }
  }

  lemma BlankLineAt(t: string, i: nat)
    ensures At(t, i, BLANK_LINE) <==> At(t, i, CRLF) && At(t, i + 2, CRLF)
  {
    assert BLANK_LINE == CRLF + CRLF;
    AtConcat(t, i, CRLF, CRLF);
  }

  function AddAll(m: map<string, string>, headers: map<string, string>, keys: seq<string>): map<string, string>
    requires forall k :: k in keys ==> k in headers
    decreases |keys|
  {
    if |keys| == 0 then m else AddAll(m[keys[0] := headers[keys[0]]], headers, keys[1..])
  }

  lemma {:induction false} AddAllAt(m: map<string, string>, headers: map<string, string>, keys: seq<string>, k: string)
    requires forall x :: x in keys ==> x in headers
    ensures k in AddAll(m, headers, keys) <==> k in keys || k in m
    ensures k in keys ==> AddAll(m, headers, keys)[k] == headers[k]
    ensures k !in keys && k in m ==> AddAll(m, headers, keys)[k] == m[k]
    decreases |keys|
  {
    if |keys| > 0 {
      AddAllAt(m[keys[0] := headers[keys[0]]], headers, keys[1..], k);
    }
  }

  lemma AddAllIsHeaders(headers: map<string, string>, keys: seq<string>)
    requires Enumerates(keys, headers)
    ensures AddAll(map[], headers, keys) == headers
  {
    hide AddAll;
    forall k ensures k in AddAll(map[], headers, keys) <==> k in headers
      ensures k in headers ==> AddAll(map[], headers, keys)[k] == headers[k]
    {
      AddAllAt(map[], headers, keys, k);
    }
  }

  lemma HeaderLinesStep(headers: map<string, string>, keys: seq<string>, tail: string)
    requires |keys| > 0 && forall k :: k in keys ==> k in headers
    ensures forall k :: k in keys[1..] ==> k in headers
    ensures HeaderLines(headers, keys) + tail ==
      (HeaderLine(keys[0], headers[keys[0]]) + CRLF) + (HeaderLines(headers, keys[1..]) + tail)
  {
  }

  /** The first header line begins with no break; what follows the last one does. */
  lemma HeaderLinesStart(t: string, p: nat, headers: map<string, string>, keys: seq<string>)
    requires (forall k :: k in keys ==> k in headers) && WellFormedHeaders(headers)
    requires At(t, p, HeaderLines(headers, keys) + CRLF)
    ensures At(t, p, CRLF) <==> |keys| == 0
  {
    hide At, WellFormedHeader, HeaderLine;
    if |keys| == 0 {
      assert HeaderLines(headers, keys) + CRLF == CRLF;
    } else {
      var line := HeaderLine(keys[0], headers[keys[0]]);
      assert WellFormedHeader(keys[0], headers[keys[0]]);
      HeaderLineIsOne(keys[0], headers[keys[0]]);
      AtIndex(t, p, HeaderLines(headers, keys) + CRLF, 0);
      assert (HeaderLines(headers, keys) + CRLF)[0] == line[0];
      CrlfAt(t, p);
    }
  }

  lemma {:induction false} BlankLineFound(t: string, p: nat, headers: map<string, string>, keys: seq<string>)
    requires (forall k :: k in keys ==> k in headers) && WellFormedHeaders(headers)
    requires |keys| > 0 && At(t, p, HeaderLines(headers, keys) + CRLF)
    ensures p <= |t| && |HeaderLines(headers, keys)| > 2
    ensures Find(t, p, BLANK_LINE) == Some(p + |HeaderLines(headers, keys)| - 2)
    decreases |keys|
  {
    hide Find, At, WellFormedHeader, HeaderLine, HeaderLines;
    var line := HeaderLine(keys[0], headers[keys[0]]);
    assert WellFormedHeader(keys[0], headers[keys[0]]);
    HeaderLineIsOne(keys[0], headers[keys[0]]);
    HeaderLinesStep(headers, keys, CRLF);
    HeaderLinesLength(headers, keys);
    AtConcat(t, p, line + CRLF, HeaderLines(headers, keys[1..]) + CRLF);
    BlankLineSkips(t, p, line);
    HeaderLinesStart(t, p + |line| + 2, headers, keys[1..]);
    if |keys| > 1 {
      BlankLineFound(t, p + |line| + 2, headers, keys[1..]);
    }
  }

  lemma NoHeaderLines(headers: map<string, string>, keys: seq<string>)
    requires |keys| == 0
    ensures HeaderLines(headers, keys) == ""
  {
  }

  lemma HeaderLinesLength(headers: map<string, string>, keys: seq<string>)
    requires |keys| > 0 && forall k :: k in keys ==> k in headers
    ensures forall k :: k in keys[1..] ==> k in headers
    ensures |HeaderLines(headers, keys)| == |HeaderLine(keys[0], headers[keys[0]])| + 2 + |HeaderLines(headers, keys[1..])|
    ensures |keys| == 1 ==> |HeaderLines(headers, keys[1..])| == 0
  {
  }

  lemma {:induction false} HeadersOver(t: string, p: nat, end: nat, m: map<string, string>,
                                       headers: map<string, string>, keys: seq<string>)
    requires (forall k :: k in keys ==> k in headers) && WellFormedHeaders(headers)
    requires At(t, p, HeaderLines(headers, keys) + CRLF) && p <= |t|
    requires end == p + |HeaderLines(headers, keys)| - 2
    ensures ParseHeaders(t, p, end, m) == AddAll(m, headers, keys)
    decreases |keys|
  {
    hide Find, At, WellFormedHeader, HeaderLine, HeaderLines, AddLine;
    if |keys| > 0 {
      var line := HeaderLine(keys[0], headers[keys[0]]);
      var rest := HeaderLines(headers, keys[1..]);
      assert WellFormedHeader(keys[0], headers[keys[0]]);
      HeaderLineIsOne(keys[0], headers[keys[0]]);
      HeaderLinesStep(headers, keys, CRLF);
      HeaderLinesLength(headers, keys);
      AtConcat(t, p, line + CRLF, rest + CRLF);
      LineFound(t, p, line);
      AddWrittenLine(m, keys[0], headers[keys[0]]);
      HeadersOver(t, p + |line| + 2, end, m[keys[0] := headers[keys[0]]], headers, keys[1..]);
    } else {
      NoHeaderLines(headers, keys);
    }
  }

  // ----- messages -----

  /** The text that is read back: the start line, the header lines, the blank line and the body. */
  function Wire(line: string, lines: string, body: string): string {
    line + CRLF + lines + CRLF + body
  }

  lemma WirePieces(line: string, lines: string, body: string)
    ensures var t := Wire(line, lines, body); var p := |line| + 2;
      && At(t, 0, line + CRLF) && At(t, p, lines + CRLF) && p + |lines| + 2 <= |t|
      && t[p + |lines| + 2..] == body && |t| == p + |lines| + 2 + |body|
      && t[..|line|] == line
  {
    var t := Wire(line, lines, body);
    assert t == (line + CRLF) + ((lines + CRLF) + body);
    hide At;
    AtAll(t);
    AtConcat(t, 0, line + CRLF, (lines + CRLF) + body);
    AtConcat(t, |line| + 2, lines + CRLF, body);
  }

  lemma ParsedParts(t: string, f: nat, start: Start, h: nat)
    requires Find(t, 0, CRLF) == Some(f) && ParseStart(t[..f]) == Some(start)
    requires f + 2 <= |t| && Find(t, f + 2, BLANK_LINE) == Some(h) && h + 4 <= |t|
    ensures Parse(t, true) ==
      Some(Message(start, DetectProtocol(start.version), ParseHeaders(t, f + 2, h, map[]), t[h + 4..]))
  {
    hide Find, At, ParseStart, ParseHeaders, DetectProtocol;
  }

  /** With headers, everything comes back. */
  lemma WithHeaders(m: Message, line: string, keys: seq<string>)
    requires WellFormed(m) && Enumerates(keys, m.headers) && |keys| > 0
    requires OneLine(line) && ParseStart(line) == Some(m.start)
    ensures Parse(Wire(line, HeaderLines(m.headers, keys), m.body), true) == Some(m)
  {
    hide Find, At, Parse, ParseStart, ParseHeaders, WellFormedStart, WellFormedHeaders, HeaderLines, Wire, AddAll, OneLine,
      DetectProtocol;
    var lines := HeaderLines(m.headers, keys);
    var t := Wire(line, lines, m.body);
    var p := |line| + 2;
    WirePieces(line, lines, m.body);
    LineFound(t, 0, line);
    BlankLineFound(t, p, m.headers, keys);
    HeadersOver(t, p, p + |lines| - 2, map[], m.headers, keys);
    AddAllIsHeaders(m.headers, keys);
    ParsedParts(t, |line|, m.start, p + |lines| - 2);
  }

  /** Without headers the line break that ends the start line swallows the blank line, and the body is lost. */
  lemma WithoutHeaders(m: Message, line: string)
    requires WellFormed(m) && m.headers == map[]
    requires OneLine(line) && ParseStart(line) == Some(m.start)
    ensures Parse(Wire(line, "", m.body), true) == Some(m) <==> m.body == ""
    ensures exists less :: Parse(Wire(line, "", m.body), true) == Some(m.(body := less)) && (less == m.body || |less| < |m.body|)
  {
    hide Find, At, ParseStart, WellFormedStart, Wire, OneLine, DetectProtocol;
    var t := Wire(line, "", m.body);
    var p := |line| + 2;
    WirePieces(line, "", m.body);
    LineFound(t, 0, line);
    assert "" + CRLF == CRLF;
    FindIff(t, p, CRLF, p);
    match Find(t, p, BLANK_LINE)
    case Some(h) =>
      AtEnds(t, h, BLANK_LINE);
      assert |t[h + 4..]| < |m.body|;
    case None =>
  }

  /**
   Serializing a well-formed message for HTTP or SIP, with its headers in any order, and parsing
   the result gives the message back if and only if it has a header or has no body.
   */
  lemma SerializeThenParse(m: Message, usage: Protocol, keys: seq<string>)
    requires WellFormed(m) && Enumerates(keys, m.headers) && (usage == Http || usage == Sip)
    ensures Serialize(m, usage, keys).Some?
    ensures Parse(Serialize(m, usage, keys).value, true) == Some(m) <==> m.headers != map[] || m.body == ""
  {
    hide ParseStart, StartLine, HeaderLines, Parse, WellFormedStart, WellFormedHeaders, OneLine, Visible;
    StartRoundTrip(m.start, usage);
    VisibleIsAll(m.body);
    var line := StartLine(m.start, usage).value;
    if |keys| > 0 {
      assert keys[0] in m.headers;
      WithHeaders(m, line, keys);
    } else {
      assert m.headers == map[];
      NoHeaderLines(m.headers, keys);
      WithoutHeaders(m, line);
    }
  }

  /** A request with a body and no header, as the setters can make it, does not come back. */
  lemma BodyWithoutHeadersIsLost(usage: Protocol)
    requires usage == Http || usage == Sip
    ensures var m := Message(Start("A", "B", "C", "", ""), Unknown, map[], "x");
      Serialize(m, usage, []).Some? && Parse(Serialize(m, usage, []).value, true) != Some(m)
  {
    hide ParseStart, StartLine, HeaderLines, Parse, Serialize;
    var m := Message(Start("A", "B", "C", "", ""), Unknown, map[], "x");
    CrlfAt("A", 0);
    CrlfAt("B", 0);
    CrlfAt("C", 0);
    assert !IsVersion("A") && !IsVersion("C");
    SerializeThenParse(m, usage, []);
  }

  /** The serialized text is a normal form of the text that was parsed. */
  lemma NormalForm(t: string, withBody: bool, usage: Protocol, keys: seq<string>)
    requires '\0' !in t && Parse(t, withBody).Some? && (usage == Http || usage == Sip)
    requires Enumerates(keys, Parse(t, withBody).value.headers)
    ensures var m := Parse(t, withBody).value;
      && Serialize(m, usage, keys).Some?
      && (Parse(Serialize(m, usage, keys).value, true) == Some(m) <==> m.headers != map[] || m.body == "")
  {
    hide Parse, Serialize, WellFormed;
    ParsedIsWellFormed(t, withBody);
    SerializeThenParse(Parse(t, withBody).value, usage, keys);
  }
}
