/** What comm/src/abnf.c reads and writes, as functions. */
module AbnfText {
  import opened CStrings
  import opened KeyOrder
  import opened Wrappers

  const BLANK_LINE := "\r\n\r\n"

  datatype Protocol = Http | Sip | Smtp | Imap4 | Unknown

  /** The fields of a message; a field that was not set is empty. */
  datatype Start = Start(requestMethod: string, uri: string, version: string, status: string, reason: string)
  datatype Message = Message(start: Start, protocol: Protocol, headers: map<string, string>, body: string)

  // ----- tokens -----

  function TrimLeft(s: string): string {
    if |s| > 0 && IsCSpace(s[0]) then TrimLeft(s[1..]) else s
  }

  function TrimRight(s: string): string {
    if |s| > 0 && IsCSpace(s[|s| - 1]) then TrimRight(s[..|s| - 1]) else s
  }

  function Trim(s: string): string {
    TrimRight(TrimLeft(s))
  }

  /** The first place of c at or behind p, or the end. */
  function IndexOf(s: string, p: nat, c: char): (q: nat)
    requires p <= |s|
    ensures p <= q <= |s| && (q < |s| ==> s[q] == c)
    ensures forall i :: p <= i < q ==> s[i] != c
    decreases |s| - p
  {
    if p == |s| || s[p] == c then p else IndexOf(s, p + 1, c)
  }

  function SkipSpaces(s: string, p: nat): (q: nat)
    requires p <= |s|
    ensures p <= q <= |s| && (q < |s| ==> s[q] != ' ')
    decreases |s| - p
  {
    if p < |s| && s[p] == ' ' then SkipSpaces(s, p + 1) else p
  }

  /** One token of strtok with a space as delimiter; the delimiter behind it is consumed. */
  function Token(s: string, p: nat): (r: Parsed<string>)
    requires p <= |s|
    ensures r.Ok? ==> p < r.next <= |s| && |r.value| > 0
  {
    var a := SkipSpaces(s, p);
    if a == |s| then Fail
    else
      var b := IndexOf(s, a, ' ');
      Ok(s[a..b], if b < |s| then b + 1 else b)
  }

  // ----- the start line -----

  predicate IsVersion(s: string) {
    At(s, 0, "HTTP/") || At(s, 0, "SIP/")
  }

  function DetectProtocol(version: string): Protocol {
    if At(version, 0, "HTTP/") then Http else if At(version, 0, "SIP/") then Sip else Unknown
  }

  /** Two tokens and the rest of the line, spaces and all; a status line begins with the version. */
  function ParseStart(line: string): Option<Start> {
    var first := Token(line, 0);
    if first.Fail? then None
    else
      var second := Token(line, first.next);
      if second.Fail? || second.next == |line| then None
      else
        var third := line[second.next..];
        if IsVersion(first.value) then Some(Start("", "", first.value, second.value, third))
        else Some(Start(first.value, second.value, third, "", ""))
  }

  // ----- headers -----

  /** A line without a colon, or with nothing in front of it, is passed over; a later line replaces an earlier one. */
  function AddLine(headers: map<string, string>, line: string): map<string, string> {
    var colon := IndexOf(line, 0, ':');
    if colon == |line| then headers
    else
      var key := Trim(line[..colon]);
      if |key| == 0 then headers else headers[key := Trim(line[colon + 1..])]
  }

  /** The lines from p on, up to an empty line or the place where the headers end. */
  function ParseHeaders(t: string, p: nat, end: nat, headers: map<string, string>): map<string, string>
    requires p <= |t|
    decreases |t| - p
  {
    if p >= end then headers
    else
      match Find(t, p, CRLF)
      case None => headers
      case Some(e) =>
        if e > end || e == p then headers
        else ParseHeaders(t, e + 2, end, AddLine(headers, t[p..e]))
  }

  /** The headers and the body behind the start line; without a blank line everything is headers. */
  function ParseRest(t: string, p: nat, withBody: bool): (map<string, string>, string)
    requires p <= |t|
  {
    match Find(t, p, BLANK_LINE)
    case Some(h) => (ParseHeaders(t, p, h, map[]), if withBody then t[h + 4..] else "")
    case None => (ParseHeaders(t, p, |t|, map[]), "")
  }

  function Parse(t: string, withBody: bool): Option<Message> {
    match Find(t, 0, CRLF)
    case None => None
    case Some(f) =>
      match ParseStart(t[..f])
      case None => None
      case Some(start) =>
        var rest := ParseRest(t, f + 2, withBody);
        Some(Message(start, DetectProtocol(start.version), rest.0, rest.1))
  }

  // ----- the order in which the keys are listed, for the dictionary's hash function -----

  function OrderAfterLine(hash: Hash, ks: seq<string>, line: string): seq<string> {
    var colon := IndexOf(line, 0, ':');
    if colon == |line| then ks
    else
      var key := Trim(line[..colon]);
      if |key| == 0 then ks else KeyAdded(hash, ks, key)
  }

  function HeaderOrder(hash: Hash, t: string, p: nat, end: nat, ks: seq<string>): seq<string>
    requires p <= |t|
    decreases |t| - p
  {
    if p >= end then ks
    else
      match Find(t, p, CRLF)
      case None => ks
      case Some(e) =>
        if e > end || e == p then ks
        else HeaderOrder(hash, t, e + 2, end, OrderAfterLine(hash, ks, t[p..e]))
  }

  function RestOrder(hash: Hash, t: string, p: nat): seq<string>
    requires p <= |t|
  {
    match Find(t, p, BLANK_LINE)
    case Some(h) => HeaderOrder(hash, t, p, h, [])
    case None => HeaderOrder(hash, t, p, |t|, [])
  }

  /** The header keys of a message text as a message parsed from it lists them. */
  function Order(hash: Hash, t: string): seq<string> {
    match Find(t, 0, CRLF)
    case None => []
    case Some(f) => RestOrder(hash, t, f + 2)
  }

  // ----- serializing -----

  /** The start line for a usage, or None when the fields that it needs are missing. */
  function StartLine(s: Start, usage: Protocol): Option<string> {
    match usage
    case Http | Sip =>
      if |s.requestMethod| > 0 && |s.uri| > 0 && |s.version| > 0 then Some(s.requestMethod + " " + s.uri + " " + s.version)
      else if |s.version| > 0 && |s.status| > 0 && |s.reason| > 0 then Some(s.version + " " + s.status + " " + s.reason)
      else None
    case Smtp | Imap4 =>
      if |s.requestMethod| > 0 then Some(if |s.uri| > 0 then s.requestMethod + " " + s.uri else s.requestMethod)
      else if |s.status| > 0 && |s.reason| > 0 then Some(s.status + " " + s.reason)
      else None
    case Unknown => None
  }

  function HeaderLine(key: string, value: string): string {
    key + ": " + value
  }

  function HeaderLines(headers: map<string, string>, keys: seq<string>): string
    requires forall k :: k in keys ==> k in headers
  {
    if |keys| == 0 then "" else HeaderLine(keys[0], headers[keys[0]]) + CRLF + HeaderLines(headers, keys[1..])
  }

  /** The keys of a map, each once, in some order. */
  ghost predicate Enumerates(keys: seq<string>, headers: map<string, string>) {
    && (forall k :: k in keys <==> k in headers)
    && (forall i, j :: 0 <= i < j < |keys| ==> keys[i] != keys[j])
  }

  /** The headers in the order of keys; the body as a C string. */
  function Serialize(m: Message, usage: Protocol, keys: seq<string>): Option<string>
    requires forall k :: k in keys ==> k in m.headers
  {
    match StartLine(m.start, usage)
    case None => None
    case Some(line) => Some(line + CRLF + HeaderLines(m.headers, keys) + CRLF + Visible(m.body))
  }
}
