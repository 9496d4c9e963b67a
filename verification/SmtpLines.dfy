/**
 The message body of comm/src/smtp.c line by line, for lines with any of the three line ends, and the
 header as a reader of header lines sees it.
 */
module SmtpLines {
  import opened CStrings
  import opened Wrappers
  import opened Smtp
  import AbnfText
  import AbnfRoundTrip

  /** A line of the text and what ends it. */
  datatype Line = Line(text: string, ending: string)

  predicate Unbroken(s: string) {
    '\r' !in s && '\n' !in s
  }

  /** The text: lines with their ends, and the rest behind the last line end. */
  function Source(lines: seq<Line>, last: string): string {
    if |lines| == 0 then last else lines[0].text + (lines[0].ending + Source(lines[1..], last))
  }

  /** CRLF, LF, or a CR that does not make a CRLF with what follows it. */
  predicate ValidLines(lines: seq<Line>, last: string) {
    if |lines| == 0 then Unbroken(last)
    else
      && Unbroken(lines[0].text)
      && (lines[0].ending == "\r\n" || lines[0].ending == "\n"
          || (lines[0].ending == "\r" && !("\n" <= Source(lines[1..], last))))
      && ValidLines(lines[1..], last)
  }

  /** Every line with CRLF behind it; the rest counts as a line unless it is empty and no line is missing. */
  function Ended(lines: seq<Line>, last: string): seq<string> {
    if |lines| == 0 then [last] else [lines[0].text] + if |lines| == 1 && last == "" then [] else Ended(lines[1..], last)
  }

  function Joined(texts: seq<string>): string {
    if |texts| == 0 then "" else texts[0] + ("\r\n" + Joined(texts[1..]))
  }

  /** One more dot in front of a line that starts with a dot. */
  function Dotted(texts: seq<string>): (r: seq<string>)
    ensures |r| == |texts|
  {
    seq(|texts|, i requires 0 <= i < |texts| => DotBefore(texts[i]))
  }

  function DotBefore(text: string): string {
    if "." <= text then "." + text else text
  }

  // ----- one line -----

  lemma CharStuffed(c: char, rest: string, lineStart: bool)
    requires c != '\r' && c != '\n'
    ensures Stuffed([c] + rest, lineStart) == (if lineStart && c == '.' then ".." else [c]) + Stuffed(rest, false)
    ensures Broken([c] + rest) == [c] + Broken(rest)
  {
    assert ([c] + rest)[1..] == rest;
  }

  lemma FirstChar(text: string, rest: string)
    requires |text| > 0
    ensures text == [text[0]] + text[1..] && text + rest == [text[0]] + (text[1..] + rest)
    ensures Unbroken(text) ==> text[0] != '\r' && text[0] != '\n' && Unbroken(text[1..])
  {
  }

  lemma Grouped(a: string, b: string, c: string)
    ensures (a + b) + c == a + (b + c)
  {
  }

  lemma {:induction false} StuffedOver(text: string, rest: string)
    requires Unbroken(text)
    ensures Stuffed(text + rest, false) == text + Stuffed(rest, false)
    ensures Broken(text + rest) == text + Broken(rest)
  {
    hide Stuffed, Broken, Unbroken;
    if |text| == 0 {
      assert text + rest == rest;
    } else {
      FirstChar(text, rest);
      StuffedOver(text[1..], rest);
      CharStuffed(text[0], text[1..] + rest, false);
      Grouped([text[0]], text[1..], Stuffed(rest, false));
      Grouped([text[0]], text[1..], Broken(rest));
    }
  }

  lemma LineStuffed(text: string, rest: string)
    requires Unbroken(text) && (|text| == 0 ==> Stuffed(rest, true) == Stuffed(rest, false))
    ensures Stuffed(text + rest, true) == DotBefore(text) + Stuffed(rest, false)
  {
    hide Stuffed, Broken, Unbroken;
    if |text| == 0 {
      assert text + rest == rest;
    } else {
      FirstChar(text, rest);
      StuffedOver(text[1..], rest);
      CharStuffed(text[0], text[1..] + rest, true);
      Grouped([text[0]], text[1..], Stuffed(rest, false));
      Grouped("..", text[1..], Stuffed(rest, false));
      assert "." <= text <==> text[0] == '.';
      assert text[0] == '.' ==> "." + text == ".." + text[1..];
    }
  }

  lemma BreakStuffed(ending: string, rest: string, lineStart: bool)
    requires ending == "\r\n" || ending == "\n" || (ending == "\r" && !("\n" <= rest))
    ensures Stuffed(ending + rest, lineStart) == "\r\n" + Stuffed(rest, true)
    ensures Broken(ending + rest) == "\r\n" + Broken(rest)
  {
    var s := ending + rest;
    assert |rest| > 0 ==> ("\n" <= rest <==> rest[0] == '\n');
    assert BreakLength(s) == |ending|;
    assert s[|ending|..] == rest;
  }

  // ----- whole texts -----

  lemma NothingStuffed()
    ensures Stuffed("", true) == "" && Stuffed("", false) == "" && Broken("") == ""
  {
  }

  lemma FirstDotted(texts: seq<string>)
    requires |texts| > 0
    ensures Dotted(texts) == [DotBefore(texts[0])] + Dotted(texts[1..])
  {
  }

  lemma JoinedStep(x: string, texts: seq<string>)
    ensures Joined([x] + texts) == x + ("\r\n" + Joined(texts))
  {
    assert ([x] + texts)[1..] == texts;
  }

  lemma AddsNothing(s: string)
    ensures s + "" == s
  {
  }

  lemma OneLine(line: Line, rest: string)
    requires Unbroken(line.text)
    requires line.ending == "\r\n" || line.ending == "\n" || (line.ending == "\r" && !("\n" <= rest))
    ensures Stuffed(line.text + (line.ending + rest), true) == DotBefore(line.text) + ("\r\n" + Stuffed(rest, true))
    ensures Broken(line.text + (line.ending + rest)) == line.text + ("\r\n" + Broken(rest))
  {
    hide Stuffed, Broken, DotBefore, Unbroken;
    BreakStuffed(line.ending, rest, true);
    BreakStuffed(line.ending, rest, false);
    LineStuffed(line.text, line.ending + rest);
    StuffedOver(line.text, line.ending + rest);
  }

  lemma Behind(x: string, y: string, end: string)
    ensures (x + ("\r\n" + y)) + end == x + ("\r\n" + (y + end))
  {
  }

  /** What is written before the end of the last line is added. */
  lemma {:induction false} StuffedLines(lines: seq<Line>, last: string)
    requires ValidLines(lines, last)
    ensures var open := if |lines| > 0 && last == "" then "" else "\r\n";
      && Stuffed(Source(lines, last), true) + open == Joined(Dotted(Ended(lines, last)))
      && Broken(Source(lines, last)) + open == Joined(Ended(lines, last))
    decreases |lines|
  {
    hide Stuffed, Broken, Dotted, Unbroken, DotBefore, Joined;
    NothingStuffed();
    if |lines| == 0 {
      OnlyLast(last);
    } else {
      var line, rest := lines[0], Source(lines[1..], last);
      OneLine(line, rest);
      if |lines| == 1 && last == "" {
        assert rest == "" && Ended(lines, last) == [line.text];
        LastJoined(line.text);
        AddsNothing(Stuffed(Source(lines, last), true));
        AddsNothing(Broken(Source(lines, last)));
        AddsNothing("\r\n");
      } else {
        StuffedLines(lines[1..], last);
        var more := Ended(lines[1..], last);
        var open := if last == "" then "" else "\r\n";
        Behind(DotBefore(line.text), Stuffed(rest, true), open);
        Behind(line.text, Broken(rest), open);
        FirstDotted([line.text] + more);
        assert ([line.text] + more)[1..] == more;
        JoinedStep(line.text, more);
        JoinedStep(DotBefore(line.text), Dotted(more));
      }
    }
  }

  lemma OnlyLast(last: string)
    requires Unbroken(last)
    ensures Stuffed(last, true) + "\r\n" == Joined(Dotted([last])) && Broken(last) + "\r\n" == Joined([last])
  {
    hide Stuffed, Broken, Dotted, Unbroken, DotBefore, Joined;
    NothingStuffed();
    AddsNothing(last);
    AddsNothing(DotBefore(last));
    LineStuffed(last, "");
    StuffedOver(last, "");
    LastJoined(last);
  }

  lemma LastJoined(s: string)
    ensures Joined([s]) == s + "\r\n"
    ensures Joined(Dotted([s])) == DotBefore(s) + "\r\n"
  {
    assert Joined([]) == "";
    FirstDotted([s]);
    assert Dotted([]) == [];
    JoinedStep(s, []);
    JoinedStep(DotBefore(s), []);
    assert [s] + [] == [s] && [DotBefore(s)] + [] == [DotBefore(s)];
    assert "\r\n" + "" == "\r\n";
  }

  lemma {:induction false} JoinedEnds(texts: seq<string>)
    requires |texts| > 0
    ensures EndsLine(Joined(texts))
  {
    hide EndsLine;
    if |texts| == 1 {
      assert texts == [texts[0]];
      LastJoined(texts[0]);
      EndsBehind(texts[0], "");
      assert texts[0] + CRLF + "" == texts[0] + "\r\n";
    } else {
      JoinedEnds(texts[1..]);
      EndsBehind(texts[0], Joined(texts[1..]));
      assert Joined(texts) == texts[0] + CRLF + Joined(texts[1..]);
    }
  }

  lemma {:induction false} UnbrokenEndsNoLine(s: string, t: string)
    requires Unbroken(t) && |t| > 0
    ensures !EndsLine(s + t)
  {
    var x := s + t;
    if |x| >= 2 {
      assert x[|x| - 2..][1] == t[|t| - 1];
    }
  }

  /** The rest behind the last line end decides whether the text ends a line. */
  lemma {:induction false} OpenEnd(lines: seq<Line>, last: string)
    requires ValidLines(lines, last)
    ensures last != "" ==> exists s :: Broken(Source(lines, last)) == s + last
  {
    hide Stuffed, Broken, Unbroken;
    NothingStuffed();
    if |lines| == 0 {
      StuffedOver(last, "");
      AddsNothing(last);
      assert Broken(Source(lines, last)) == "" + last;
    } else if last != "" {
      var line, rest := lines[0], Source(lines[1..], last);
      OpenEnd(lines[1..], last);
      var s :| Broken(rest) == s + last;
      BreakStuffed(line.ending, rest, false);
      StuffedOver(line.text, line.ending + rest);
      assert Broken(Source(lines, last)) == (line.text + ("\r\n" + s)) + last;
    }
  }

  /**
   The prepared body is the lines of the text, whichever way each was ended, with one more dot in front
   of those that start with one and CRLF behind every one; without the dots it is what the receiver gets.
   */
  lemma PreparedLines(lines: seq<Line>, last: string)
    requires ValidLines(lines, last)
    ensures Prepare(Source(lines, last)) == Joined(Dotted(Ended(lines, last)))
    ensures Normal(Source(lines, last)) == Joined(Ended(lines, last))
  {
    hide Stuffed, Broken, Dotted, Unbroken, OnlyPairs, EndsLine;
    var s := Source(lines, last);
    StuffedLines(lines, last);
    SameEnding(s);
    if |lines| > 0 && last == "" {
      AddsNothing(Stuffed(s, true));
      AddsNothing(Broken(s));
      assert |Ended(lines, last)| > 0;
      JoinedEnds(Ended(lines, last));
      EndLineIff(Broken(s));
      EndLineIff(Stuffed(s, true));
    } else {
      NoLineEnded(lines, last);
      EndLineIff(Broken(s));
      EndLineIff(Stuffed(s, true));
    }
  }

  lemma NoLineEnded(lines: seq<Line>, last: string)
    requires ValidLines(lines, last) && (|lines| == 0 || last != "")
    ensures !EndsLine(Broken(Source(lines, last)))
  {
    hide Broken, EndsLine;
    if last == "" {
      NothingStuffed();
      EmptyEndsNoLine();
    } else {
      OpenEnd(lines, last);
      var s :| Broken(Source(lines, last)) == s + last;
      LastIsUnbroken(lines, last);
      UnbrokenEndsNoLine(s, last);
    }
  }

  lemma EmptyEndsNoLine()
    ensures !EndsLine("")
  {
  }

  lemma {:induction false} LastIsUnbroken(lines: seq<Line>, last: string)
    requires ValidLines(lines, last)
    ensures Unbroken(last)
  {
    if |lines| > 0 {
      LastIsUnbroken(lines[1..], last);
    }
  }

  lemma EndLineIff(s: string)
    ensures EndLine(s) == if EndsLine(s) then s else s + CRLF
  {
  }

  /** Every text is made of such lines. */
  lemma {:induction false} EveryTextHasLines(s: string) returns (lines: seq<Line>, last: string)
    ensures ValidLines(lines, last) && Source(lines, last) == s
    decreases |s|
  {
    hide Unbroken;
    var n := FirstBreak(s);
    if n == |s| {
      lines, last := [], s;
    } else {
      var line, rest := FirstLine(s, n);
      var more, end := EveryTextHasLines(rest);
      lines, last := [line] + more, end;
      assert lines[1..] == more;
    }
  }

  lemma FirstLine(s: string, n: nat) returns (line: Line, rest: string)
    requires n < |s| && (s[n] == '\r' || s[n] == '\n')
    ensures line.text == s[..n] && s == line.text + (line.ending + rest) && |rest| < |s|
    ensures line.ending == "\r\n" || line.ending == "\n" || (line.ending == "\r" && !("\n" <= rest))
  {
    var ending := if s[n] == '\n' then "\n" else if n + 1 < |s| && s[n + 1] == '\n' then "\r\n" else "\r";
    line, rest := Line(s[..n], ending), s[n + |ending|..];
    assert |rest| > 0 ==> rest[0] == s[n + |ending|];
    assert s[n..n + |ending|] == ending;
    assert s == s[..n] + (s[n..n + |ending|] + rest);
  }

  lemma {:induction false} FirstBreak(s: string) returns (n: nat)
    ensures n <= |s| && Unbroken(s[..n]) && (n < |s| ==> s[n] == '\r' || s[n] == '\n') && (n == |s| ==> s[..n] == s)
  {
    if |s| == 0 || s[0] == '\r' || s[0] == '\n' {
      n := 0;
    } else {
      var k := FirstBreak(s[1..]);
      n := k + 1;
      assert s[..n] == [s[0]] + s[1..][..k];
    }
  }

  // ----- the header -----

  const NAMES: seq<string> := ["From", "To", "Subject", "Date", "MIME-Version", "Content-Type"]

  function Fields(sender: string, recipient: string, subject: string, date: string): map<string, string> {
    map["From" := sender, "To" := recipient, "Subject" := subject, "Date" := date,
        "MIME-Version" := "1.0", "Content-Type" := "text/plain; charset=UTF-8"]
  }

  /** Text that a header line carries as it is. */
  predicate Readable(s: string) {
    AbnfRoundTrip.Trimmed(s) && '\r' !in s && '\0' !in s
  }

  lemma ReadableField(name: string, value: string)
    requires |name| > 0 && Readable(name) && ':' !in name && Readable(value)
    ensures AbnfRoundTrip.WellFormedHeader(name, value)
  {
    AbnfRoundTrip.PlainIsOneLine(name);
    AbnfRoundTrip.PlainIsOneLine(value);
  }

  predicate IsName(s: string) {
    |s| > 0 && Readable(s) && ':' !in s
  }

  lemma FirstNames()
    ensures IsName("From") && IsName("To") && IsName("Subject") && IsName("Date")
  {
  }

  lemma MimeName()
    ensures IsName("MIME-Version") && Readable("1.0")
  {
  }

  lemma ContentName()
    ensures IsName("Content-Type")
  {
  }

  lemma ContentValue()
    ensures Readable("text/plain; charset=UTF-8")
  {
  }

  lemma FieldsAreWellFormed(sender: string, recipient: string, subject: string, date: string)
    requires Readable(sender) && Readable(recipient) && Readable(subject) && Readable(date)
    ensures AbnfRoundTrip.WellFormedHeaders(Fields(sender, recipient, subject, date))
  {
    hide Readable, AbnfRoundTrip.WellFormedHeader;
    FirstNames();
    MimeName();
    ContentName();
    ContentValue();
    ReadableField("From", sender);
    ReadableField("To", recipient);
    ReadableField("Subject", subject);
    ReadableField("Date", date);
    ReadableField("MIME-Version", "1.0");
    ReadableField("Content-Type", "text/plain; charset=UTF-8");
  }

  function Texts(headers: map<string, string>, keys: seq<string>): (r: seq<string>)
    requires forall k :: k in keys ==> k in headers
    ensures |r| == |keys|
  {
    seq(|keys|, i requires 0 <= i < |keys| => AbnfText.HeaderLine(keys[i], headers[keys[i]]))
  }

  lemma {:induction false} LinesOfTexts(headers: map<string, string>, keys: seq<string>)
    requires forall k :: k in keys ==> k in headers
    ensures Lines(Texts(headers, keys) + [""]) == AbnfText.HeaderLines(headers, keys) + CRLF
    decreases |keys|
  {
    hide AbnfText.HeaderLine;
    var all := Texts(headers, keys) + [""];
    if |keys| == 0 {
      assert all == [""] && all[1..] == [] && Lines([]) == "";
      assert "" + CRLF + "" == CRLF && AbnfText.HeaderLines(headers, keys) == "";
    } else {
      LinesOfTexts(headers, keys[1..]);
      assert all[1..] == Texts(headers, keys[1..]) + [""];
    }
  }

  lemma NamesOnce()
    ensures |NAMES| == 6 && forall i, j :: 0 <= i < j < 6 ==> NAMES[i] != NAMES[j]
  {
    assert NAMES[0][0] == 'F' && NAMES[1][0] == 'T' && NAMES[2][0] == 'S' && NAMES[3][0] == 'D' && NAMES[4][0] == 'M' && NAMES[5][0] == 'C';
  }

  lemma FieldsOfNames(sender: string, recipient: string, subject: string, date: string)
    ensures var fields := Fields(sender, recipient, subject, date);
      && AbnfText.Enumerates(NAMES, fields)
      && fields["From"] == sender && fields["To"] == recipient && fields["Subject"] == subject && fields["Date"] == date
      && fields["MIME-Version"] == "1.0" && fields["Content-Type"] == "text/plain; charset=UTF-8"
  {
    NamesOnce();
    var fields := Fields(sender, recipient, subject, date);
    forall k | k in fields ensures k in NAMES {
      assert k == NAMES[0] || k == NAMES[1] || k == NAMES[2] || k == NAMES[3] || k == NAMES[4] || k == NAMES[5];
    }
  }

  lemma FixedTexts()
    ensures AbnfText.HeaderLine("MIME-Version", "1.0") == "MIME-Version: " + "1.0"
    ensures AbnfText.HeaderLine("Content-Type", "text/plain; charset=UTF-8") == "Content-Type: " + ("text/plain; " + "charset=UTF-8")
  {
    assert "MIME-Version" + ": " == "MIME-Version: ";
    assert "Content-Type" + ": " == "Content-Type: ";
    assert "text/plain; " + "charset=UTF-8" == "text/plain; charset=UTF-8";
  }

  lemma FieldTexts(sender: string, recipient: string, subject: string, date: string)
    ensures AbnfText.HeaderLine("From", sender) == "From: " + sender
    ensures AbnfText.HeaderLine("To", recipient) == "To: " + recipient
    ensures AbnfText.HeaderLine("Subject", subject) == "Subject: " + subject
    ensures AbnfText.HeaderLine("Date", date) == "Date: " + date
  {
    assert "From" + ": " == "From: " && "To" + ": " == "To: ";
    assert "Subject" + ": " == "Subject: " && "Date" + ": " == "Date: ";
  }

  lemma HeaderIsFields(sender: string, recipient: string, subject: string, date: string)
    ensures AbnfText.Enumerates(NAMES, Fields(sender, recipient, subject, date))
    ensures Header(sender, recipient, subject, date) ==
      AbnfText.HeaderLines(Fields(sender, recipient, subject, date), NAMES) + CRLF
  {
    hide AbnfText.HeaderLine, Lines, Fields;
    var fields := Fields(sender, recipient, subject, date);
    FieldsOfNames(sender, recipient, subject, date);
    FieldTexts(sender, recipient, subject, date);
    FixedTexts();
    NamesOnce();
    var texts, lines := Texts(fields, NAMES) + [""], HeaderLines(sender, recipient, subject, date);
    forall i | 0 <= i < 7 ensures texts[i] == lines[i] {
    }
    assert texts == lines;
    LinesOfTexts(fields, NAMES);
  }

  /**
   A reader of header lines finds in a mail the six fields with their values, and behind them the
   prepared body with the line that ends it.
   */
  lemma MailReadsBack(sender: string, recipient: string, subject: string, date: string, text: string)
    requires Readable(sender) && Readable(recipient) && Readable(subject) && Readable(date)
    ensures AbnfText.ParseRest(Wire(Header(sender, recipient, subject, date), text), 0, true) ==
      (Fields(sender, recipient, subject, date), Prepare(text) + ".\r\n")
  {
    hide AbnfText.HeaderLines, AbnfRoundTrip.WellFormedHeaders, Prepare, Fields, Header, Find, At, AbnfText.ParseHeaders,
      AbnfRoundTrip.AddAll, Readable, AbnfText.Enumerates;
    var fields := Fields(sender, recipient, subject, date);
    var header, body := Header(sender, recipient, subject, date), Prepare(text) + ".\r\n";
    var t := Wire(header, text);
    HeaderIsFields(sender, recipient, subject, date);
    FieldsAreWellFormed(sender, recipient, subject, date);
    assert t == header + body;
    AtAll(t);
    AtConcat(t, 0, header, body);
    NamesKnown(fields);
    AbnfRoundTrip.BlankLineFound(t, 0, fields, NAMES);
    var n := |AbnfText.HeaderLines(fields, NAMES)|;
    AbnfRoundTrip.HeadersOver(t, 0, n - 2, map[], fields, NAMES);
    AbnfRoundTrip.AddAllIsHeaders(fields, NAMES);
    assert t[n - 2 + 4..] == body;
  }

  lemma NamesKnown(fields: map<string, string>)
    requires AbnfText.Enumerates(NAMES, fields)
    ensures |NAMES| > 0 && forall k :: k in NAMES ==> k in fields
  {
  }
}
