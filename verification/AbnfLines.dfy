/**
 What comm/src/abnf.c makes of start lines and header lines, character by character: status lines
 and requests, protocols, white space around keys and values, and the lines of the other usages.
 */
module AbnfLines {
  import opened CStrings
  import opened Wrappers
  import opened AbnfText
  import opened AbnfRoundTrip

  function Spaces(n: nat): (s: string)
    ensures |s| == n && forall i :: 0 <= i < n ==> s[i] == ' '
  {
    seq(n, _ => ' ')
  }

  // ----- tokens -----

  predicate Word(s: string) {
    |s| > 0 && ' ' !in s
  }

  lemma {:induction false} SkipSpacesOver(s: string, p: nat, q: nat)
    requires p <= q <= |s| && (forall i :: p <= i < q ==> s[i] == ' ') && (q < |s| ==> s[q] != ' ')
    ensures SkipSpaces(s, p) == q
    decreases q - p
  {
    if p < q {
      SkipSpacesOver(s, p + 1, q);
    }
  }

  /** Spaces, a word, and the space that ends it. */
  lemma WordOver(before: string, n: nat, w: string, rest: string)
    requires Word(w)
    ensures Token(before + (Spaces(n) + (w + (" " + rest))), |before|) == Ok(w, |before| + n + |w| + 1)
  {
    var a := |before| + n;
    var s := before + (Spaces(n) + (w + (" " + rest)));
    assert s == before + Spaces(n) + w + " " + rest;
    SkipSpacesOver(s, |before|, a);
    IndexOfIs(s, a, ' ', a + |w|);
    assert s[a..a + |w|] == w;
  }

  /** Spaces, and a word up to the end. */
  lemma LastWordOver(before: string, n: nat, w: string)
    requires Word(w)
    ensures Token(before + (Spaces(n) + w), |before|) == Ok(w, |before| + n + |w|)
  {
    var a := |before| + n;
    var s := before + (Spaces(n) + w);
    assert s == before + Spaces(n) + w;
    SkipSpacesOver(s, |before|, a);
    IndexOfIs(s, a, ' ', a + |w|);
    assert s[a..a + |w|] == w;
  }

  /** Where a token was found there are spaces, a word, and a space or the end. */
  lemma {:induction false} SpacesBefore(s: string, p: nat)
    requires p <= |s|
    ensures s[p..SkipSpaces(s, p)] == Spaces(SkipSpaces(s, p) - p)
    decreases |s| - p
  {
    if p < |s| && s[p] == ' ' {
      SpacesBefore(s, p + 1);
      var q := SkipSpaces(s, p);
      assert s[p..q] == [' '] + s[p + 1..q];
    }
  }

  lemma WordFound(s: string, p: nat) returns (n: nat, w: string)
    requires p <= |s| && Token(s, p).Ok? && Token(s, p).next < |s|
    ensures var next := Token(s, p).next;
      Word(w) && w == Token(s, p).value && s[p..next] == Spaces(n) + (w + " ")
  {
    var a := SkipSpaces(s, p);
    var b := IndexOf(s, a, ' ');
    SpacesBefore(s, p);
    n, w := a - p, s[a..b];
    forall i | 0 <= i < |w| ensures w[i] != ' ' {
      assert s[a + i] != ' ';
    }
    assert s[p..b + 1] == s[p..a] + s[a..b] + s[b..b + 1];
  }

  // ----- start lines -----

  /** A word, spaces, another word, one space, and the rest of the line; spaces may stand in front. */
  function Line(i: nat, a: string, j: nat, b: string, c: string): string {
    Spaces(i) + (a + (" " + (Spaces(j) + (b + (" " + c)))))
  }

  /** The text begins with the name of a protocol and a slash. */
  predicate NamesProtocol(s: string) {
    "HTTP/" <= s || "SIP/" <= s
  }

  lemma IsVersionIff(s: string)
    ensures IsVersion(s) <==> NamesProtocol(s)
  {
    hide At;
    AtStart(s, "HTTP/");
    AtStart(s, "SIP/");
  }

  /** A first word with a protocol's name makes a status line, every other one a request. */
  function Fields(a: string, b: string, c: string): Start {
    if NamesProtocol(a) then Start("", "", a, b, c) else Start(a, b, c, "", "")
  }

  lemma LineIsRead(i: nat, a: string, j: nat, b: string, c: string)
    requires Word(a) && Word(b) && |c| > 0
    ensures ParseStart(Line(i, a, j, b, c)) == Some(Fields(a, b, c))
  {
    hide Token, NamesProtocol, IsVersion;
    var line := Line(i, a, j, b, c);
    var front := Spaces(i) + a + " ";
    WordOver("", i, a, Spaces(j) + (b + (" " + c)));
    assert line == "" + line;
    WordOver(front, j, b, c);
    assert line == front + (Spaces(j) + (b + (" " + c)));
    assert line[|front| + j + |b| + 1..] == c;
    IsVersionIff(a);
  }

  /** And a line of any other form is refused. */
  lemma StartLineIff(line: string, start: Start)
    ensures ParseStart(line) == Some(start) <==>
      exists i, a, j, b, c :: Word(a) && Word(b) && |c| > 0 && line == Line(i, a, j, b, c) && start == Fields(a, b, c)
  {
    hide Token, Fields, Line, Word, IsVersion;
    if ParseStart(line).Some? {
      var i, a, j, b, c := LineParts(line);
      LineIsRead(i, a, j, b, c);
    }
    forall i, a, j, b, c | Word(a) && Word(b) && |c| > 0 && line == Line(i, a, j, b, c)
      ensures ParseStart(line) == Some(Fields(a, b, c))
    {
      LineIsRead(i, a, j, b, c);
    }
  }

  lemma LineParts(line: string) returns (i: nat, a: string, j: nat, b: string, c: string)
    requires ParseStart(line).Some?
    ensures Word(a) && Word(b) && |c| > 0 && line == Line(i, a, j, b, c)
  {
    hide Token, Word, IsVersion;
    var p := Token(line, 0).next;
    var q := Token(line, p).next;
    if p == |line| {
      NoWordAtEnd(line);
    }
    i, a := WordFound(line, 0);
    j, b := WordFound(line, p);
    c := line[q..];
    assert line == line[0..p] + line[p..q] + line[q..];
  }

  lemma NoWordAtEnd(line: string)
    ensures Token(line, |line|).Fail?
  {
  }

  /** HTTP and SIP are told by how the version begins; everything else is unknown. */
  lemma ProtocolIff(version: string)
    ensures DetectProtocol(version) == Http <==> "HTTP/" <= version
    ensures DetectProtocol(version) == Sip <==> "SIP/" <= version
    ensures DetectProtocol(version) == Unknown <==> !NamesProtocol(version)
  {
    hide At;
    AtStart(version, "HTTP/");
    AtStart(version, "SIP/");
    if "HTTP/" <= version {
      assert version[0] == 'H';
    }
  }

  /** What a message with such a start line becomes, whatever follows it. */
  lemma MessageStart(i: nat, a: string, j: nat, b: string, c: string, rest: string, withBody: bool)
    requires Word(a) && Word(b) && |c| > 0 && OneLine(Line(i, a, j, b, c))
    ensures var m := Parse(Line(i, a, j, b, c) + CRLF + rest, withBody);
      && m.Some? && m.value.start == Fields(a, b, c)
      && m.value.protocol == (var v := if NamesProtocol(a) then a else c;
                              if "HTTP/" <= v then Http else if "SIP/" <= v then Sip else Unknown)
  {
    hide ParseStart, ParseRest, Find, Line, OneLine, At, DetectProtocol;
    var line := Line(i, a, j, b, c);
    var t := line + CRLF + rest;
    AtAll(t);
    AtConcat(t, 0, line + CRLF, rest);
    LineFound(t, 0, line);
    LineIsRead(i, a, j, b, c);
    ProtocolIff(if NamesProtocol(a) then a else c);
  }

  /** Responses: "HTTP/" or "SIP/" and the version number, the status code, the reason. */
  lemma StatusLineIsRead(x: string, code: string, reason: string, rest: string, withBody: bool)
    requires ' ' !in x && Word(code) && |reason| > 0
    requires OneLine(x) && OneLine(code) && OneLine(reason)
    ensures var m := Parse("HTTP/" + x + " " + code + " " + reason + CRLF + rest, withBody);
      m.Some? && m.value.start == Start("", "", "HTTP/" + x, code, reason) && m.value.protocol == Http
    ensures var m := Parse("SIP/" + x + " " + code + " " + reason + CRLF + rest, withBody);
      m.Some? && m.value.start == Start("", "", "SIP/" + x, code, reason) && m.value.protocol == Sip
  {
    hide Parse, OneLine;
    VersionedLine("HTTP/", x, code, reason);
    VersionedLine("SIP/", x, code, reason);
    MessageStart(0, "HTTP/" + x, 0, code, reason, rest, withBody);
    MessageStart(0, "SIP/" + x, 0, code, reason, rest, withBody);
    assert ("SIP/" + x)[0] == 'S';
  }

  lemma VersionedLine(name: string, x: string, code: string, reason: string)
    requires name == "HTTP/" || name == "SIP/"
    requires ' ' !in x && Word(code) && |reason| > 0
    requires OneLine(x) && OneLine(code) && OneLine(reason)
    ensures Word(name + x) && name <= name + x
    ensures Line(0, name + x, 0, code, reason) == name + x + " " + code + " " + reason
    ensures OneLine(Line(0, name + x, 0, code, reason))
  {
    hide OneLine;
    PlainIsOneLine(name);
    PlainIsOneLine(" ");
    OneLineJoin(name, x);
    OneLineJoin(name + x, " ");
    OneLineJoin(name + x + " ", code);
    OneLineJoin(name + x + " " + code, " ");
    OneLineJoin(name + x + " " + code + " ", reason);
    assert Spaces(0) == "";
    assert Line(0, name + x, 0, code, reason) == name + x + " " + code + " " + reason;
  }

  // ----- header lines -----

  lemma {:induction false} TrimLeftOver(w: string, s: string)
    requires Blank(w) && (|s| > 0 ==> !Blank(s[..1]))
    ensures TrimLeft(w + s) == s
  {
    if |w| > 0 {
      TrimLeftOver(w[1..], s);
      assert (w + s)[1..] == w[1..] + s;
    } else {
      assert w + s == s;
      if |s| > 0 {
        assert s[..1][0] == s[0];
      }
    }
  }

  lemma {:induction false} TrimRightOver(s: string, w: string)
    requires Blank(w) && (|s| > 0 ==> !Blank(s[|s| - 1..]))
    ensures TrimRight(s + w) == s
  {
    if |w| > 0 {
      var n := |w| - 1;
      TrimRightOver(s, w[..n]);
      assert (s + w)[..|s + w| - 1] == s + w[..n];
    } else {
      assert s + w == s;
      if |s| > 0 {
        assert s[|s| - 1..][0] == s[|s| - 1];
      }
    }
  }

  /** No white space at either end. */
  predicate Bare(s: string) {
    |s| > 0 ==> !Blank(s[..1]) && !Blank(s[|s| - 1..])
  }

  lemma TrimOver(w: string, s: string, v: string)
    requires Blank(w) && Blank(v) && Bare(s)
    ensures Trim(w + s + v) == s
  {
    hide TrimLeft, TrimRight, Blank;
    if |s| > 0 {
      assert w + s + v == w + (s + v);
      assert (s + v)[..1] == s[..1];
      TrimLeftOver(w, s + v);
      TrimRightOver(s, v);
    } else {
      BlankJoin(w, v);
      assert w + s + v == (w + v) + "" && "" + "" == "";
      TrimLeftOver(w + v, "");
      TrimRightOver("", "");
    }
  }

  lemma BlankJoin(w: string, v: string)
    requires Blank(w) && Blank(v)
    ensures Blank(w + v) && Blank("")
  {
  }

  /** Key and value are stored without the white space around them, wherever it stands. */
  lemma HeaderLineIsRead(headers: map<string, string>, w: string, key: string, v: string, x: string, value: string, y: string)
    requires Blank(w) && Blank(v) && Blank(x) && Blank(y)
    requires |key| > 0 && ':' !in key && Bare(key) && Bare(value)
    ensures AddLine(headers, w + key + v + ":" + (x + value + y)) == headers[key := value]
  {
    hide Trim, Bare;
    var k := w + key + v;
    var line := k + ":" + (x + value + y);
    IndexOfIs(line, 0, ':', |k|);
    assert line[..|k|] == k && line[|k| + 1..] == x + value + y;
    TrimOver(w, key, v);
    TrimOver(x, value, y);
  }

  /** A line without a colon, or with nothing but white space in front of it, is passed over. */
  lemma HeaderLineIsPassedOver(headers: map<string, string>, line: string, w: string, rest: string)
    requires ':' !in line && Blank(w)
    ensures AddLine(headers, line) == headers && AddLine(headers, w + ":" + rest) == headers
  {
    hide Trim;
    IndexOfIs(line, 0, ':', |line|);
    IndexOfIs(w + ":" + rest, 0, ':', |w|);
    assert (w + ":" + rest)[..|w|] == w && w + "" + "" == w;
    BlankJoin("", "");
    TrimOver(w, "", "");
  }

  // ----- the usages without versions -----

  /** Commands: a method, or a method and its argument. Such a line has too few words to be read back. */
  lemma CommandLine(command: string, argument: string, version: string, status: string, reason: string, usage: Protocol)
    requires Word(command) && ' ' !in argument && (usage == Smtp || usage == Imap4)
    ensures var line := StartLine(Start(command, argument, version, status, reason), usage);
      && line == Some(if argument == "" then command else command + (" " + argument))
      && Token(line.value, 0) == Ok(command, if argument == "" then |command| else |command| + 1)
      && (argument != "" ==> Token(line.value, |command| + 1) == Ok(argument, |line.value|))
      && ParseStart(line.value) == None
  {
    hide Token;
    assert Spaces(0) == "";
    if argument == "" {
      LastWordOver("", 0, command);
      assert "" + (Spaces(0) + command) == command;
      NoWordAtEnd(command);
    } else {
      var line := command + (" " + argument);
      assert line == command + " " + argument;
      WordOver("", 0, command, argument);
      assert "" + (Spaces(0) + (command + (" " + argument))) == line;
      LastWordOver(command + " ", 0, argument);
      assert command + " " + (Spaces(0) + argument) == line;
    }
  }

  /** Replies: a code and a text. Read back, the text is split once more, and the code passes for a method. */
  lemma ReplyLine(code: string, reason: string, uri: string, version: string, usage: Protocol)
    requires Word(code) && !NamesProtocol(code) && |reason| > 0 && (usage == Smtp || usage == Imap4)
    ensures var line := StartLine(Start("", uri, version, code, reason), usage);
      && line == Some(code + (" " + reason))
      && (forall n: nat, b, c :: Word(b) && |c| > 0 && reason == Spaces(n) + (b + (" " + c)) ==>
            ParseStart(line.value) == Some(Start(code, b, c, "", "")))
      && (ParseStart(line.value).Some? ==>
            exists n: nat, b, c :: Word(b) && |c| > 0 && reason == Spaces(n) + (b + (" " + c)))
  {
    hide Token, IsVersion, ParseStart;
    var line := code + (" " + reason);
    assert line == code + " " + reason;
    assert StartLine(Start("", uri, version, code, reason), usage) == Some(line);
    forall n: nat, b, c | Word(b) && |c| > 0 && reason == Spaces(n) + (b + (" " + c))
      ensures ParseStart(line) == Some(Start(code, b, c, "", ""))
    {
      assert Spaces(0) == "" && Line(0, code, n, b, c) == line;
      LineIsRead(0, code, n, b, c);
    }
    if ParseStart(line).Some? {
      var i, a, n, b, c := LineParts(line);
      SameFirstWord(i, a, Spaces(n) + (b + (" " + c)), code, reason);
    }
  }

  lemma SameFirstWord(i: nat, a: string, x: string, code: string, reason: string)
    requires Word(a) && Word(code) && Spaces(i) + (a + (" " + x)) == code + (" " + reason)
    ensures i == 0 && a == code && x == reason
  {
    var l, r := Spaces(i) + (a + (" " + x)), code + (" " + reason);
    assert l[0] == r[0] == code[0] != ' ';
    assert Spaces(0) == "" && l == a + (" " + x);
    SameWord(a, x, code, reason);
  }

  lemma SameWord(a: string, x: string, code: string, reason: string)
    requires Word(a) && Word(code) && a + (" " + x) == code + (" " + reason)
    ensures a == code && x == reason
  {
    var l, r := a + (" " + x), code + (" " + reason);
    IndexOfIs(l, 0, ' ', |a|);
    IndexOfIs(r, 0, ' ', |code|);
    assert a == l[..|a|] && code == r[..|code|];
    assert x == l[|a| + 1..] && reason == r[|code| + 1..];
  }
}
