/** The message body of comm/src/smtp.c and its end on the wire: section 4.5.2 of RFC 5321. */
module Smtp {
  import opened CStrings
  import opened Wrappers

  // ----- what the body becomes -----

  /** How many characters the line break at the start of s takes. */
  function BreakLength(s: string): (n: nat)
    requires |s| > 0
    ensures n <= 2 && n <= |s|
  {
    if s[0] == '\r' then (if |s| > 1 && s[1] == '\n' then 2 else 1)
    else if s[0] == '\n' then 1
    else 0
  }

  /** Every line break becomes CRLF, and a dot at the start of a line becomes two. */
  function Stuffed(s: string, lineStart: bool): string {
    if |s| == 0 then ""
    else if BreakLength(s) > 0 then CRLF + Stuffed(s[BreakLength(s)..], true)
    else (if lineStart && s[0] == '.' then ".." else [s[0]]) + Stuffed(s[1..], false)
  }

  function EndLine(s: string): string {
    if |s| < 2 || s[|s| - 2..] != CRLF then s + CRLF else s
  }

  function Prepare(s: string): string {
    EndLine(Stuffed(s, true))
  }

  // ----- what the receiver should get -----

  /** The text with CRLF for every line break, the last line ended. */
  function Broken(s: string): string {
    if |s| == 0 then ""
    else if BreakLength(s) > 0 then CRLF + Broken(s[BreakLength(s)..])
    else [s[0]] + Broken(s[1..])
  }

  function Normal(s: string): string {
    EndLine(Broken(s))
  }

  /** What a receiver does: one leading dot of every line is taken away. */
  function Unstuffed(s: string, lineStart: bool): string {
    if |s| == 0 then ""
    else if At(s, 0, CRLF) then CRLF + Unstuffed(s[2..], true)
    else if lineStart && s[0] == '.' then Unstuffed(s[1..], false)
    else [s[0]] + Unstuffed(s[1..], false)
  }

  // ----- line breaks -----

  /** CR and LF only in pairs. */
  predicate OnlyPairs(s: string) {
    |s| == 0 ||
    (if s[0] == '\r' then |s| > 1 && s[1] == '\n' && OnlyPairs(s[2..]) else s[0] != '\n' && OnlyPairs(s[1..]))
  }

  /** The character at i is no CR or LF that stands alone. */
  predicate Paired(s: string, i: nat)
    requires i < |s|
  {
    && (s[i] == '\r' ==> i + 1 < |s| && s[i + 1] == '\n')
    && (s[i] == '\n' ==> i > 0 && s[i - 1] == '\r')
  }

  lemma {:induction false} OnlyPairsIff(s: string)
    ensures OnlyPairs(s) <==> forall i: nat :: i < |s| ==> Paired(s, i)
  {
    if |s| > 0 {
      var n := if BreakLength(s) == 2 then 2 else 1;
      OnlyPairsIff(s[n..]);
      assert s[0] == '\n' ==> !Paired(s, 0);
      assert s[0] == '\r' && n == 1 ==> !Paired(s, 0);
      forall i: nat | n <= i < |s| && (n == 2 || s[0] != '\r') ensures Paired(s, i) <==> Paired(s[n..], i - n) {
      }
      if (forall i: nat :: i < |s| ==> Paired(s, i)) {
        forall i: nat | i < |s[n..]| ensures Paired(s[n..], i) {
          assert Paired(s, 0) && Paired(s, i + n);
        }
      }
    }
  }

  predicate EndsLine(s: string) {
    |s| >= 2 && s[|s| - 2..] == CRLF
  }

  lemma EmptyIsFine(lineStart: bool)
    ensures OnlyPairs("") && DotsDoubled("", lineStart)
  {
  }

  lemma PairsWithBreak(y: string)
    ensures OnlyPairs(CRLF + y) == OnlyPairs(y)
  {
    assert (CRLF + y)[2..] == y;
  }

  lemma PairsWithChar(c: char, y: string)
    requires c != '\r' && c != '\n'
    ensures OnlyPairs([c] + y) == OnlyPairs(y)
  {
    assert ([c] + y)[1..] == y;
  }

  lemma {:induction false} PairsThenBreak(s: string)
    requires OnlyPairs(s)
    ensures OnlyPairs(s + CRLF)
  {
    if |s| == 0 {
      PairsWithBreak("");
      assert s + CRLF == CRLF + "";
    } else if s[0] == '\r' {
      PairsThenBreak(s[2..]);
      PairsWithBreak(s[2..] + CRLF);
      assert s + CRLF == CRLF + (s[2..] + CRLF);
    } else {
      PairsThenBreak(s[1..]);
      PairsWithChar(s[0], s[1..] + CRLF);
      assert s + CRLF == [s[0]] + (s[1..] + CRLF);
    }
  }

  lemma EndLineKeepsPairs(s: string)
    requires OnlyPairs(s)
    ensures OnlyPairs(EndLine(s)) && EndsLine(EndLine(s))
  {
    hide OnlyPairs;
    PairsThenBreak(s);
    assert (s + CRLF)[|s|..] == CRLF;
  }

  lemma {:induction false} EndsWithLf(s: string)
    requires OnlyPairs(s)
    ensures EndsLine(s) <==> |s| > 0 && s[|s| - 1] == '\n'
  {
    hide OnlyPairs;
    OnlyPairsIff(s);
    if |s| >= 2 {
      assert s[|s| - 2..] == [s[|s| - 2], s[|s| - 1]];
      assert Paired(s, |s| - 1);
    } else if |s| == 1 {
      assert Paired(s, 0);
    }
  }

  lemma {:induction false} StuffedHasPairs(s: string, lineStart: bool)
    ensures OnlyPairs(Stuffed(s, lineStart)) && |Stuffed(s, lineStart)| <= 2 * |s|
    decreases |s|
  {
    hide OnlyPairs;
    if |s| == 0 {
      EmptyIsFine(true);
    } else if BreakLength(s) > 0 {
      StuffedHasPairs(s[BreakLength(s)..], true);
      PairsWithBreak(Stuffed(s[BreakLength(s)..], true));
    } else {
      var rest := Stuffed(s[1..], false);
      StuffedHasPairs(s[1..], false);
      PairsWithChar(s[0], rest);
      PairsWithChar('.', ['.'] + rest);
      assert ".." + rest == ['.'] + (['.'] + rest);
    }
  }

  /** The prepared body: CR and LF only as CRLF, the last line ended, at most twice as long and two more. */
  lemma PreparedShape(s: string)
    ensures OnlyPairs(Prepare(s)) && EndsLine(Prepare(s)) && |Prepare(s)| <= 2 * |s| + 2
  {
    hide OnlyPairs, EndsLine, Stuffed;
    StuffedHasPairs(s, true);
    EndLineKeepsPairs(Stuffed(s, true));
  }

  // ----- removing the dots -----

  lemma UnstuffBreak(y: string, lineStart: bool)
    ensures Unstuffed(CRLF + y, lineStart) == CRLF + Unstuffed(y, true)
  {
    assert (CRLF + y)[2..] == y && (CRLF + y)[0..2] == CRLF;
  }

  lemma UnstuffChar(c: char, y: string, lineStart: bool)
    requires c != '\r'
    ensures Unstuffed([c] + y, lineStart) ==
      if lineStart && c == '.' then Unstuffed(y, false) else [c] + Unstuffed(y, false)
  {
    assert ([c] + y)[1..] == y;
    AtIndex([c] + y, 0, CRLF, 0);
  }

  lemma StuffedIs(s: string, lineStart: bool, end: string)
    requires |s| > 0
    ensures BreakLength(s) > 0 ==>
      && Stuffed(s, lineStart) + end == CRLF + (Stuffed(s[BreakLength(s)..], true) + end)
      && Broken(s) + end == CRLF + (Broken(s[BreakLength(s)..]) + end)
    ensures BreakLength(s) == 0 ==>
      && s[0] != '\r' && s[0] != '\n'
      && Stuffed(s, lineStart) + end ==
         (if lineStart && s[0] == '.' then ['.'] + (['.'] + (Stuffed(s[1..], false) + end))
          else [s[0]] + (Stuffed(s[1..], false) + end))
      && Broken(s) + end == [s[0]] + (Broken(s[1..]) + end)
  {
    hide Stuffed, Broken;
    StuffedUnfold(s, lineStart);
    if BreakLength(s) > 0 {
      Reassociate(CRLF, Stuffed(s[BreakLength(s)..], true), end);
      Reassociate(CRLF, Broken(s[BreakLength(s)..]), end);
    } else {
      Reassociate([s[0]], Stuffed(s[1..], false), end);
      Reassociate([s[0]], Broken(s[1..]), end);
      Reassociate(['.'], Stuffed(s[1..], false), end);
      Reassociate(['.'], ['.'] + Stuffed(s[1..], false), end);
    }
  }

  lemma Reassociate(a: string, b: string, c: string)
    ensures (a + b) + c == a + (b + c)
  {
  }

  lemma StuffedUnfold(s: string, lineStart: bool)
    requires |s| > 0
    ensures BreakLength(s) > 0 ==>
      && Stuffed(s, lineStart) == CRLF + Stuffed(s[BreakLength(s)..], true)
      && Broken(s) == CRLF + Broken(s[BreakLength(s)..])
    ensures BreakLength(s) == 0 ==>
      && Broken(s) == [s[0]] + Broken(s[1..])
      && Stuffed(s, lineStart) ==
         if lineStart && s[0] == '.' then ['.'] + (['.'] + Stuffed(s[1..], false)) else [s[0]] + Stuffed(s[1..], false)
  {
    var x := Stuffed(s[1..], false);
    assert ".." + x == ['.'] + (['.'] + x);
  }

  /** One more line break at the end stays where it is. */
  lemma {:induction false} UnstuffInvertsStuff(s: string, lineStart: bool, end: string)
    requires end == "" || end == CRLF
    ensures Unstuffed(Stuffed(s, lineStart) + end, lineStart) == Broken(s) + end
    decreases |s|
  {
    hide Unstuffed, At, Stuffed, Broken;
    if |s| == 0 {
      NothingToStuff(lineStart);
      UnstuffBreak("", lineStart);
    } else {
      StuffedIs(s, lineStart, end);
      if BreakLength(s) > 0 {
        var rest := s[BreakLength(s)..];
        UnstuffInvertsStuff(rest, true, end);
        UnstuffBreak(Stuffed(rest, true) + end, lineStart);
      } else {
        var rest := Stuffed(s[1..], false) + end;
        UnstuffInvertsStuff(s[1..], false, end);
        UnstuffChar(s[0], rest, false);
        UnstuffChar(s[0], rest, lineStart);
        UnstuffChar('.', ['.'] + rest, lineStart);
      }
    }
  }

  lemma NothingToStuff(lineStart: bool)
    ensures Stuffed("", lineStart) == "" && Broken("") == "" && Unstuffed("", lineStart) == "" && Unstuffed("", true) == ""
    ensures "" + CRLF == CRLF && CRLF + "" == CRLF && "" + "" == ""
  {
  }

  lemma {:induction false} SameLast(s: string, lineStart: bool)
    ensures |Stuffed(s, lineStart)| == 0 <==> |Broken(s)| == 0
    ensures |Stuffed(s, lineStart)| > 0 ==>
      Stuffed(s, lineStart)[|Stuffed(s, lineStart)| - 1] == Broken(s)[|Broken(s)| - 1]
    decreases |s|
  {
    if |s| > 0 {
      SameLast(s[if BreakLength(s) > 0 then BreakLength(s) else 1..], BreakLength(s) > 0);
    }
  }

  lemma SameEnding(s: string)
    ensures EndsLine(Stuffed(s, true)) <==> EndsLine(Broken(s))
  {
    hide OnlyPairs, Stuffed, Broken, EndsLine;
    SameLast(s, true);
    StuffedHasPairs(s, true);
    BrokenHasPairs(s);
    EndsWithLf(Stuffed(s, true));
    EndsWithLf(Broken(s));
  }

  lemma {:induction false} BrokenHasPairs(s: string)
    ensures OnlyPairs(Broken(s))
    decreases |s|
  {
    hide OnlyPairs;
    if |s| == 0 {
      EmptyIsFine(true);
    } else if BreakLength(s) > 0 {
      BrokenHasPairs(s[BreakLength(s)..]);
      PairsWithBreak(Broken(s[BreakLength(s)..]));
    } else {
      BrokenHasPairs(s[1..]);
      PairsWithChar(s[0], Broken(s[1..]));
    }
  }

  /** The receiver gets the normalised text. */
  lemma UnstuffInvertsPrepare(s: string)
    ensures Unstuffed(Prepare(s), true) == Normal(s)
  {
    hide Stuffed, Broken, Unstuffed;
    SameEnding(s);
    UnstuffInvertsStuff(s, true, "");
    UnstuffInvertsStuff(s, true, CRLF);
    assert Stuffed(s, true) + "" == Stuffed(s, true) && Broken(s) + "" == Broken(s);
  }

  lemma {:induction false} BrokenOfPairs(s: string)
    requires OnlyPairs(s)
    ensures Broken(s) == s
    decreases |s|
  {
    if |s| > 0 {
      var n := if s[0] == '\r' then 2 else 1;
      BrokenOfPairs(s[n..]);
      assert s[..n] == if n == 2 then CRLF else [s[0]];
      assert Broken(s) == s[..n] + s[n..];
    }
  }

  /** And the text itself exactly when it was normal before. */
  lemma TextComesBackIff(s: string)
    ensures Unstuffed(Prepare(s), true) == s <==> OnlyPairs(s) && EndsLine(s)
  {
    hide Unstuffed, Prepare, Broken, OnlyPairs;
    UnstuffInvertsPrepare(s);
    BrokenHasPairs(s);
    EndLineKeepsPairs(Broken(s));
    if OnlyPairs(s) {
      BrokenOfPairs(s);
    }
  }

  // ----- the end of the data -----

  const END := "\r\n.\r\n"

  /** A line that starts with a dot goes on with a dot. */
  predicate DotsDoubled(s: string, lineStart: bool) {
    |s| == 0 ||
    (if At(s, 0, CRLF) then DotsDoubled(s[2..], true)
     else (lineStart && s[0] == '.' ==> |s| > 1 && s[1] == '.') && DotsDoubled(s[1..], false))
  }

  lemma DoubledBreak(y: string, lineStart: bool)
    ensures DotsDoubled(CRLF + y, lineStart) == DotsDoubled(y, true)
  {
    assert (CRLF + y)[2..] == y && (CRLF + y)[0..2] == CRLF;
  }

  lemma DoubledChar(c: char, y: string, lineStart: bool)
    requires c != '\r'
    ensures DotsDoubled([c] + y, lineStart) ==
      ((lineStart && c == '.' ==> |y| > 0 && y[0] == '.') && DotsDoubled(y, false))
  {
    assert ([c] + y)[1..] == y;
    AtIndex([c] + y, 0, CRLF, 0);
  }

  lemma {:induction false} StuffedDoubles(s: string, lineStart: bool, end: string)
    requires end == "" || end == CRLF
    ensures DotsDoubled(Stuffed(s, lineStart) + end, lineStart)
    decreases |s|
  {
    hide DotsDoubled, At, Stuffed, Broken;
    if |s| == 0 {
      NothingToStuff(lineStart);
      EmptyIsFine(lineStart);
      EmptyIsFine(true);
      DoubledBreak("", lineStart);
    } else {
      StuffedIs(s, lineStart, end);
      if BreakLength(s) > 0 {
        StuffedDoubles(s[BreakLength(s)..], true, end);
        DoubledBreak(Stuffed(s[BreakLength(s)..], true) + end, lineStart);
      } else {
        var rest := Stuffed(s[1..], false) + end;
        StuffedDoubles(s[1..], false, end);
        DoubledChar(s[0], rest, false);
        DoubledChar(s[0], rest, lineStart);
        DoubledChar('.', ['.'] + rest, lineStart);
      }
    }
  }

  /** Position i starts a line. */
  predicate StartsLine(s: string, i: nat, lineStart: bool) {
    if i == 0 then lineStart else i >= 2 && At(s, i - 2, CRLF)
  }

  lemma {:induction false} DoubledAt(s: string, lineStart: bool, i: nat)
    requires DotsDoubled(s, lineStart) && i < |s| && s[i] == '.' && StartsLine(s, i, lineStart)
    ensures i + 1 < |s| && s[i + 1] == '.'
    decreases |s|
  {
    hide At;
    CrlfAt(s, 0);
    if i >= 2 {
      CrlfAt(s, i - 2);
    }
    if i > 0 {
      var n := if At(s, 0, CRLF) then 2 else 1;
      if i > n {
        CrlfAt(s[n..], i - n - 2);
      }
      DoubledAt(s[n..], n == 2, i - n);
    }
  }

  /** Header, body, and the line with the dot. */
  function Wire(header: string, text: string): string {
    header + Prepare(text) + ".\r\n"
  }

  lemma EndAt(s: string, i: nat)
    ensures At(s, i, END) <==> At(s, i, CRLF) && i + 4 < |s| && s[i + 2] == '.' && At(s, i + 3, CRLF)
  {
    AtConcat(s, i, CRLF, ".\r\n");
    AtConcat(s, i + 2, ".", CRLF);
    AtChar(s, i + 2, '.');
    CrlfAt(s, i + 3);
    assert END == CRLF + ".\r\n" && ".\r\n" == "." + CRLF;
  }

  lemma PreparedDoubles(text: string)
    ensures DotsDoubled(Prepare(text), true)
  {
    hide Stuffed, DotsDoubled;
    StuffedDoubles(text, true, "");
    StuffedDoubles(text, true, CRLF);
    assert Stuffed(text, true) + "" == Stuffed(text, true);
  }

  /** A dot that starts a line of the body is followed by another. */
  lemma DotInBody(header: string, text: string, i: nat)
    requires EndsLine(header) && |header| <= i + 2 < |header| + |Prepare(text)|
    requires At(Wire(header, text), i, CRLF) && Wire(header, text)[i + 2] == '.'
    ensures Wire(header, text)[i + 3] == '.'
  {
    hide At, Prepare, DotsDoubled, OnlyPairs, EndsLine;
    var body, w := Prepare(text), Wire(header, text);
    var k := i + 2 - |header|;
    PreparedShape(text);
    PreparedDoubles(text);
    OnlyPairsIff(body);
    CrlfAt(w, i);
    assert body[k] == '.' && Paired(body, 0);
    assert body[0] == w[|header|];
    if k >= 2 {
      CrlfAt(body, k - 2);
    }
    DoubledAt(body, true, k);
  }

  /** Within the header and body, the end mark stands only where the header has it. */
  lemma NoEndBefore(header: string, text: string, i: nat)
    requires EndsLine(header) && i + 2 < |header| + |Prepare(text)| && At(Wire(header, text), i, END)
    ensures At(header, i, END)
  {
    hide At, Prepare;
    var w := Wire(header, text);
    var n := |header|;
    EndAt(w, i);
    CrlfAt(w, i);
    CrlfAt(w, i + 3);
    assert header[n - 2..] == [header[n - 2], header[n - 1]];
    assert w[n - 1] == '\n' && w[n - 2] == '\r';
    if i + 5 <= n {
      EndAt(header, i);
      CrlfAt(header, i);
      CrlfAt(header, i + 3);
    } else {
      DotInBody(header, text, i);
    }
  }

  /** The end mark stands at the end of the body: its last line break, the dot, the last line break. */
  lemma EndIsThere(header: string, text: string)
    ensures |Prepare(text)| >= 2 && At(Wire(header, text), |header| + |Prepare(text)| - 2, END)
  {
    hide At, Prepare, OnlyPairs;
    PreparedShape(text);
    var body, w := Prepare(text), Wire(header, text);
    var p := |header| + |body| - 2;
    assert body[|body| - 2..] == [body[|body| - 2], body[|body| - 1]];
    EndAt(w, p);
    CrlfAt(w, p);
    CrlfAt(w, p + 3);
  }

  /** The first end mark that a receiver sees is the one that was appended, exactly when the header has none. */
  lemma FirstEndIsAppended(header: string, text: string)
    requires EndsLine(header) && '\0' !in header && '\0' !in text
    ensures Find(Wire(header, text), 0, END) == Some(|header| + |Prepare(text)| - 2) <==>
      forall i: nat :: !At(header, i, END)
  {
    hide Find, Prepare, At, EndsLine;
    var w := Wire(header, text);
    EndIsThere(header, text);
    var q := |header| + |Prepare(text)| - 2;
    FindIff(w, 0, END, q);
    if forall i: nat :: !At(header, i, END) {
      forall i | 0 <= i < q ensures !At(w, i, END) && Peek(w, i) != '\0' {
        if At(w, i, END) {
          NoEndBefore(header, text, i);
        }
        PreparedHasNoNul(text);
      }
    } else {
      var i: nat :| At(header, i, END);
      EndAt(header, i);
      EndAt(w, i);
      CrlfAt(header, i);
      CrlfAt(header, i + 3);
      CrlfAt(w, i);
      CrlfAt(w, i + 3);
    }
  }

  lemma PreparedHasNoNul(text: string)
    requires '\0' !in text
    ensures '\0' !in Prepare(text)
  {
    hide Stuffed;
    StuffedHasNoNul(text, true);
  }

  lemma {:induction false} StuffedHasNoNul(s: string, lineStart: bool)
    requires '\0' !in s
    ensures '\0' !in Stuffed(s, lineStart)
    decreases |s|
  {
    if |s| > 0 {
      StuffedHasNoNul(s[if BreakLength(s) > 0 then BreakLength(s) else 1..], BreakLength(s) > 0);
    }
  }

  function Lines(lines: seq<string>): string {
    if |lines| == 0 then "" else lines[0] + CRLF + Lines(lines[1..])
  }

  function HeaderLines(sender: string, recipient: string, subject: string, date: string): seq<string> {
    ["From: " + sender, "To: " + recipient, "Subject: " + subject, "Date: " + date,
     "MIME-Version: " + "1.0", "Content-Type: " + ("text/plain; " + "charset=UTF-8"), ""]
  }

  /** The header lines of a message and the empty line behind them. */
  function Header(sender: string, recipient: string, subject: string, date: string): string {
    Lines(HeaderLines(sender, recipient, subject, date))
  }

  // ----- where a header can hold the end mark -----

  ghost predicate HasEnd(s: string) {
    exists i: nat :: At(s, i, END)
  }

  lemma EndChars(s: string, i: nat)
    ensures At(s, i, END) <==>
      i + 4 < |s| && s[i] == '\r' && s[i + 1] == '\n' && s[i + 2] == '.' && s[i + 3] == '\r' && s[i + 4] == '\n'
  {
    hide At;
    EndAt(s, i);
    CrlfAt(s, i);
    CrlfAt(s, i + 3);
  }

  /** Behind a line break, and in front of text that starts with no dot, no end mark lies across the border. */
  lemma EndInEither(a: string, b: string)
    requires EndsLine(a) && (|b| > 0 ==> b[0] != '.')
    ensures HasEnd(a + b) <==> HasEnd(a) || HasEnd(b)
  {
    hide At;
    var s := a + b;
    assert a[|a| - 2..] == [a[|a| - 2], a[|a| - 1]];
    if i: nat :| At(s, i, END) {
      EndChars(s, i);
      if i + 5 <= |a| {
        EndChars(a, i);
      } else {
        assert s[|a| - 1] == '\n';
        EndChars(b, i - |a|);
      }
    }
    if i: nat :| At(a, i, END) {
      EndChars(a, i);
      EndChars(s, i);
    }
    if i: nat :| At(b, i, END) {
      EndChars(b, i);
      EndChars(s, |a| + i);
    }
  }

  /** A text without carriage returns in front neither holds nor completes an end mark. */
  lemma EndBehindPlain(name: string, value: string)
    requires '\r' !in name
    ensures HasEnd(name + value) <==> HasEnd(value)
  {
    hide At;
    var s := name + value;
    if i: nat :| At(s, i, END) {
      EndChars(s, i);
      assert i >= |name|;
      EndChars(value, i - |name|);
    }
    if i: nat :| At(value, i, END) {
      EndChars(value, i);
      EndChars(s, |name| + i);
    }
  }

  /** A field without carriage returns cannot end the message. */
  lemma PlainFieldHasNoEnd(field: string)
    requires '\r' !in field
    ensures !HasEnd(field + CRLF)
  {
    hide At;
    EndBehindPlain(field, CRLF);
    forall i: nat ensures !At(CRLF, i, END) {
      EndChars(CRLF, i);
    }
  }

  /** A line of a header: it holds no NUL and does not start with a dot. */
  predicate HeaderLine(line: string) {
    '\0' !in line && (|line| > 0 ==> line[0] != '.')
  }

  lemma {:induction false} EndInLines(lines: seq<string>)
    requires forall k :: 0 <= k < |lines| ==> HeaderLine(lines[k])
    ensures HeaderLine(Lines(lines))
    ensures HasEnd(Lines(lines)) <==> exists k :: 0 <= k < |lines| && HasEnd(lines[k] + CRLF)
    ensures if |lines| == 0 then Lines(lines) == "" else EndsLine(Lines(lines))
  {
    hide HasEnd, EndsLine;
    if |lines| == 0 {
      NoEndInNothing();
    } else {
      var first, rest := lines[0] + CRLF, Lines(lines[1..]);
      EndInLines(lines[1..]);
      EndsBehind(lines[0], "");
      EndsBehind(lines[0], rest);
      assert first + "" == first;
      EndInEither(first, rest);
      assert forall k :: 0 < k < |lines| ==> lines[k] == lines[1..][k - 1];
    }
  }

  lemma NoEndInNothing()
    ensures !HasEnd("")
  {
  }

  /** Text that the program puts into the header. */
  predicate Fixed(s: string) {
    |s| > 0 && s[0] != '.' && '\r' !in s && '\0' !in s
  }

  lemma FieldNamesAreFixed()
    ensures Fixed("From: ") && Fixed("To: ") && Fixed("Subject: ") && Fixed("Date: ")
  {
  }

  lemma MimeIsFixed()
    ensures Fixed("MIME-Version: ") && Fixed("1.0")
  {
  }

  lemma ContentTypeIsFixed()
    ensures Fixed("Content-Type: ")
  {
  }

  lemma PlainTextIsFixed()
    ensures Fixed("text/plain; ")
  {
  }

  lemma CharsetIsFixed()
    ensures Fixed("charset=UTF-8")
  {
  }

  lemma FixedConcat(a: string, b: string)
    requires Fixed(a) && Fixed(b)
    ensures Fixed(a + b)
  {
  }

  lemma FixedLine(line: string)
    requires Fixed(line)
    ensures HeaderLine(line) && !HasEnd(line + CRLF)
  {
    PlainFieldHasNoEnd(line);
  }

  lemma FieldLine(name: string, field: string)
    requires Fixed(name) && '\0' !in field
    ensures HeaderLine(name + field) && (HasEnd(name + field + CRLF) <==> HasEnd(field + CRLF))
  {
    assert name + field + CRLF == name + (field + CRLF);
    EndBehindPlain(name, field + CRLF);
  }

  /** The lines that come after the fields. */
  lemma FixedLines()
    ensures var lines := ["MIME-Version: " + "1.0", "Content-Type: " + ("text/plain; " + "charset=UTF-8"), ""];
      forall k :: 0 <= k < 3 ==> HeaderLine(lines[k]) && !HasEnd(lines[k] + CRLF)
  {
    hide Fixed, HasEnd;
    MimeIsFixed();
    ContentTypeIsFixed();
    PlainTextIsFixed();
    CharsetIsFixed();
    FixedConcat("MIME-Version: ", "1.0");
    FixedConcat("text/plain; ", "charset=UTF-8");
    FixedConcat("Content-Type: ", "text/plain; " + "charset=UTF-8");
    FixedLine("MIME-Version: " + "1.0");
    FixedLine("Content-Type: " + ("text/plain; " + "charset=UTF-8"));
    PlainFieldHasNoEnd("");
  }

  lemma EndInHeader(sender: string, recipient: string, subject: string, date: string)
    requires '\0' !in sender && '\0' !in recipient && '\0' !in subject && '\0' !in date
    ensures var header := Header(sender, recipient, subject, date);
      && EndsLine(header) && '\0' !in header
      && (HasEnd(header) <==>
          HasEnd(sender + CRLF) || HasEnd(recipient + CRLF) || HasEnd(subject + CRLF) || HasEnd(date + CRLF))
  {
    hide Fixed, HasEnd, EndsLine, Lines;
    FieldNamesAreFixed();
    FieldLine("From: ", sender);
    FieldLine("To: ", recipient);
    FieldLine("Subject: ", subject);
    FieldLine("Date: ", date);
    FixedLines();
    var fields := ["From: " + sender, "To: " + recipient, "Subject: " + subject, "Date: " + date];
    var fixed := ["MIME-Version: " + "1.0", "Content-Type: " + ("text/plain; " + "charset=UTF-8"), ""];
    var lines := HeaderLines(sender, recipient, subject, date);
    assert lines == fields + fixed;
    assert forall k :: 4 <= k < |lines| ==> lines[k] == fixed[k - 4];
    EndInLines(lines);
    assert lines[0] == fields[0] && lines[1] == fields[1] && lines[2] == fields[2] && lines[3] == fields[3];
  }

  /**
   The first end mark on the wire is the appended one if and only if no field of the header brings one:
   a line break and a dot that another line break follows, be it that of the header line.
   */
  lemma MessageEndsAtItsEnd(sender: string, recipient: string, subject: string, date: string, text: string)
    requires '\0' !in sender && '\0' !in recipient && '\0' !in subject && '\0' !in date && '\0' !in text
    ensures var header := Header(sender, recipient, subject, date);
      Find(Wire(header, text), 0, END) == Some(|header| + |Prepare(text)| - 2) <==>
        !HasEnd(sender + CRLF) && !HasEnd(recipient + CRLF) && !HasEnd(subject + CRLF) && !HasEnd(date + CRLF)
  {
    hide Find, Prepare, At, Wire, Header, EndsLine;
    EndInHeader(sender, recipient, subject, date);
    FirstEndIsAppended(Header(sender, recipient, subject, date), text);
  }

  /** A subject with a line break and a line of one dot: the receiver takes the message to end in the header. */
  lemma SubjectCanEndTheMessage(sender: string, recipient: string, date: string, text: string)
    requires '\0' !in sender && '\0' !in recipient && '\0' !in date && '\0' !in text
    ensures var header := Header(sender, recipient, "x\r\n.\r\n", date);
      Find(Wire(header, text), 0, END) != Some(|header| + |Prepare(text)| - 2)
  {
    hide Find, Prepare, Wire, Header;
    var subject := "x\r\n.\r\n";
    EndChars(subject + CRLF, 1);
    MessageEndsAtItsEnd(sender, recipient, subject, date, text);
  }

  lemma EndsBehind(line: string, rest: string)
    requires rest == "" || EndsLine(rest)
    ensures EndsLine(line + CRLF + rest)
  {
    var s := line + CRLF + rest;
    if rest != "" {
      assert s[|s| - 2..] == rest[|rest| - 2..];
    } else {
      assert s[|s| - 2..] == CRLF;
    }
  }

  // ----- the loop -----

  lemma StuffedStep(s: string, i: nat, lineStart: bool, written: string)
    requires i < |s|
    ensures var n := BreakLength(s[i..]);
      if n > 0 then
        i + n <= |s| && written + Stuffed(s[i..], lineStart) == (written + CRLF) + Stuffed(s[i + n..], true)
      else
        written + Stuffed(s[i..], lineStart) ==
          (written + if lineStart && s[i] == '.' then ".." else [s[i]]) + Stuffed(s[i + 1..], false)
  {
    var n := BreakLength(s[i..]);
    if n > 0 {
      assert s[i..][n..] == s[i + n..];
    } else {
      assert s[i..][1..] == s[i + 1..];
    }
  }

  /** One turn of the loop: what is read at i and written at o. */
  method PrepareOne(text: string, i: nat, out: array<char>, o: nat, lineStart: bool)
    returns (i': nat, o': nat, lineStart': bool)
    requires i < |text| && o + 2 <= out.Length
    modifies out
    ensures i < i' <= |text| && o < o' <= o + 2
    ensures out[..o'] + Stuffed(text[i'..], lineStart') == old(out[..o]) + Stuffed(text[i..], lineStart)
  {
    hide Stuffed;
    i', o' := i, o;
    var ch := text[i];
    StuffedStep(text, i, lineStart, out[..o]);
    if lineStart && ch == '.' {
      out[o'] := '.';
      o' := o' + 1;
    }
    if ch == '\r' {
      out[o'] := '\r';
      out[o' + 1] := '\n';
      o' := o' + 2;
      if i + 1 < |text| && text[i + 1] == '\n' {
        i' := i' + 1;
      }
      lineStart' := true;
    } else if ch == '\n' {
      out[o'] := '\r';
      out[o' + 1] := '\n';
      o' := o' + 2;
      lineStart' := true;
    } else {
      out[o'] := ch;
      o' := o' + 1;
      lineStart' := false;
    }
    i' := i' + 1;
    assert out[..o] == old(out[..o]);
    assert out[..o'] == out[..o] + out[o..o'];
    assert lineStart' ==> out[o..o'] == CRLF;
    assert !lineStart' ==> out[o..o'] == if lineStart && ch == '.' then ".." else [ch];
  }

  /** The body in a buffer of three times its length and eight, ended with a NUL. */
  method PrepareMessageBody(text: string) returns (out: array<char>, length: nat)
    ensures fresh(out) && length < out.Length
    ensures out[..length] == Prepare(text) && out[length] == '\0'
  {
    hide Stuffed;
    out := new char[3 * |text| + 8](_ => '\0');
    var i, o, lineStart := 0, 0, true;
    assert text[0..] == text;
    while i < |text|
      invariant i <= |text| && o <= 2 * i
      invariant out[..o] + Stuffed(text[i..], lineStart) == Stuffed(text, true)
    {
      i, o, lineStart := PrepareOne(text, i, out, o, lineStart);
    }
    NothingToStuff(lineStart);
    assert text[i..] == "" && out[..o] + "" == out[..o];
    length := FinishLine(out, o);
    out[length] := '\0';
  }

  method FinishLine(out: array<char>, o: nat) returns (length: nat)
    requires o + 2 <= out.Length
    modifies out
    ensures length <= o + 2 && out[..length] == EndLine(old(out[..o]))
  {
    length := o;
    assert o >= 2 ==> out[..o][o - 2..] == [out[o - 2], out[o - 1]];
    if o < 2 || out[o - 2] != '\r' || out[o - 1] != '\n' {
      out[o] := '\r';
      out[o + 1] := '\n';
      length := o + 2;
      assert out[..length] == old(out[..o]) + CRLF;
    }
  }
}
