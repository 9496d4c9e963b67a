/** The tokens of core/src/json.c: white space, string and number literals. */
module JsonTokens {
  import opened CStrings
  import opened Wrappers

  // ----- characters -----

  predicate IsSpace(c: char) {
    c != '\0' && c <= ' '
  }

  predicate IsDigit(c: char) {
    '0' <= c <= '9'
  }

  predicate IsHex(c: char) {
    '0' <= c <= '9' || 'a' <= c <= 'f' || 'A' <= c <= 'F'
  }

  function HexValue(c: char): (v: nat)
    requires IsHex(c)
    ensures v < 16
  {
    if '0' <= c <= '9' then c as int - '0' as int
    else if 'a' <= c <= 'f' then 10 + (c as int - 'a' as int)
    else 10 + (c as int - 'A' as int)
  }

  function SkipWs(t: string, p: nat): (q: nat)
    requires p <= |t|
    ensures p <= q <= |t|
    ensures !IsSpace(Peek(t, q))
    decreases |t| - p
  {
    if IsSpace(Peek(t, p)) then SkipWs(t, p + 1) else p
  }

  lemma {:induction false} SkippedWs(t: string, p: nat)
    requires p <= |t|
    ensures forall i :: p <= i < SkipWs(t, p) ==> IsSpace(t[i])
    decreases |t| - p
  {
    if IsSpace(Peek(t, p)) {
      SkippedWs(t, p + 1);
    }
  }

  // ----- strings -----

  /** The bytes that the code emits for \uXXXX. */
  function Utf8(code: nat): string
    requires code < 0x1_0000
  {
    if code <= 0x7F then [code as char]
    else if code <= 0x7FF then [(0xC0 + code / 0x40) as char, (0x80 + code % 0x40) as char]
    else [(0xE0 + code / 0x1000) as char, (0x80 + code / 0x40 % 0x40) as char, (0x80 + code % 0x40) as char]
  }

  predicate IsHexFour(s: string) {
    |s| == 4 && IsHex(s[0]) && IsHex(s[1]) && IsHex(s[2]) && IsHex(s[3])
  }

  function HexFour(s: string): (code: nat)
    requires IsHexFour(s)
    ensures code < 0x1_0000
  {
    0x1000 * HexValue(s[0]) + 0x100 * HexValue(s[1]) + 0x10 * HexValue(s[2]) + HexValue(s[3])
  }

  function SimpleEscape(e: char): char {
    match e
    case 'b' => 8 as char
    case 'f' => 12 as char
    case 'n' => '\n'
    case 'r' => '\r'
    case 't' => '\t'
    case _ => e
  }

  /** How many characters the next step of the loop consumes. */
  function UnitLength(s: string): (n: nat)
    requires |s| > 0
    ensures 0 < n <= |s|
  {
    if s[0] != '\\' || |s| == 1 then 1
    else if s[1] != 'u' then 2
    else if |s| > 5 && IsHexFour(s[2..6]) then 6
    else 1
  }

  /** What that step writes; a backslash before a `u` without four hex digits is dropped, and the `u` stays. */
  function UnitMeaning(s: string): (r: string)
    requires |s| > 0
    ensures |r| <= UnitLength(s)
  {
    if s[0] != '\\' || |s| == 1 then [s[0]]
    else if s[1] != 'u' then [SimpleEscape(s[1])]
    else if |s| > 5 && IsHexFour(s[2..6]) then Utf8(HexFour(s[2..6]))
    else ""
  }

  function Unescape(s: string): (r: string)
    ensures |r| <= |s|
  {
    if |s| == 0 then "" else UnitMeaning(s) + Unescape(s[UnitLength(s)..])
  }

  /** The position where the scan for the closing quote stops. */
  function ScanString(t: string, p: nat): (q: nat)
    requires p <= |t|
    ensures p <= q <= |t|
    decreases |t| - p
  {
    if Peek(t, p) == '\0' || Peek(t, p) == '"' then p
    else if Peek(t, p) == '\\' && Peek(t, p + 1) != '\0' then ScanString(t, p + 2)
    else ScanString(t, p + 1)
  }

  function ParseString(t: string, p: nat): (r: Parsed<string>)
    requires p <= |t|
    ensures r.Ok? ==> p < r.next <= |t|
  {
    if Peek(t, p) != '"' then Fail
    else
      var q := ScanString(t, p + 1);
      if Peek(t, q) != '"' then Fail else Ok(Visible(Unescape(t[p + 1..q])), q + 1)
  }

  lemma ParseStringAt(t: string, p: nat, lit: string)
    requires p + |lit| + 2 <= |t| && t[p] == '"' && t[p + 1 + |lit|] == '"' && t[p + 1..p + 1 + |lit|] == lit
    requires ScanString(t, p + 1) == p + 1 + |lit|
    ensures ParseString(t, p) == Ok(Visible(Unescape(lit)), p + |lit| + 2)
  {
    hide Unescape, Visible, ScanString;
  }

  // ----- numbers -----

  function SkipDigits(t: string, p: nat): (q: nat)
    requires p <= |t|
    ensures p <= q <= |t|
    ensures !IsDigit(Peek(t, q))
    decreases |t| - p
  {
    if IsDigit(Peek(t, p)) then SkipDigits(t, p + 1) else p
  }

  lemma {:induction false} SkippedDigits(t: string, p: nat)
    requires p <= |t|
    ensures forall i :: p <= i < SkipDigits(t, p) ==> IsDigit(t[i])
    decreases |t| - p
  {
    if IsDigit(Peek(t, p)) {
      SkippedDigits(t, p + 1);
    }
  }

  /** One or more digits, or nothing. */
  function Digits(t: string, p: nat): (r: Option<nat>)
    requires p <= |t|
    ensures r.Some? ==> p < r.value <= |t|
  {
    if IsDigit(Peek(t, p)) then Some(SkipDigits(t, p)) else None
  }

  function IntegerPart(t: string, p: nat): (r: Option<nat>)
    requires p <= |t|
    ensures r.Some? ==> p < r.value <= |t|
  {
    var s := if Peek(t, p) == '-' then p + 1 else p;
    if Peek(t, s) == '0' then Some(s + 1) else Digits(t, s)
  }

  function FractionPart(t: string, p: nat): (r: Option<nat>)
    requires p <= |t|
    ensures r.Some? ==> p <= r.value <= |t|
  {
    if Peek(t, p) == '.' then Digits(t, p + 1) else Some(p)
  }

  function ExponentPart(t: string, p: nat): (r: Option<nat>)
    requires p <= |t|
    ensures r.Some? ==> p <= r.value <= |t|
  {
    if Peek(t, p) == 'e' || Peek(t, p) == 'E' then
      Digits(t, if Peek(t, p + 1) == '+' || Peek(t, p + 1) == '-' then p + 2 else p + 1)
    else Some(p)
  }

  function ParseNumber(t: string, p: nat): (r: Parsed<string>)
    requires p <= |t|
    ensures r.Ok? ==> p < r.next <= |t| && r.value == t[p..r.next]
  {
    match IntegerPart(t, p)
    case None => Fail
    case Some(a) =>
      match FractionPart(t, a)
      case None => Fail
      case Some(b) =>
        match ExponentPart(t, b)
        case None => Fail
        case Some(c) => Ok(t[p..c], c)
  }
}
